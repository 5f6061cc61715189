/**
 * The scan-frame assembler of openqr/core/listener.py (`QRListener`).
 *
 * A keystroke stream arrives in chunks; `feed_data` appends each chunk to a
 * buffer, re-synchronises the buffer on the configured prefix and cuts
 * complete raw frames at each occurrence of the suffix. Each raw frame is
 * then stripped by `process_scanned_data`, and the payloads it accepts are
 * what the listener emits. Every call is modelled as one atomic step (the
 * source holds a mutex for the buffer work and emits after releasing it);
 * the emitted payloads are returned in order instead of being signalled.
 */
module ScanFrame {
  import opened Strings
  import opened Newlines
  import opened Wrappers

  /** The listener's state. `timerArmed` records whether the single-shot inactivity timer is pending. */
  datatype Listener = Listener(
    buffer: string,
    listening: bool,
    prefix: string,
    suffix: string,
    timeout: real,
    timerArmed: bool)

  /** The result of one `feed_data` call: the new state and the payloads emitted, in order. */
  datatype Step = Step(listener: Listener, emitted: seq<string>)

  function Max(a: int, b: int): int {
    if a < b then b else a
  }

  function Min(a: int, b: int): int {
    if a < b then a else b
  }

  /** The framing is stored in canonical form: no "\n" anywhere. */
  predicate CanonicalFraming(l: Listener) {
    '\n' !in l.prefix && '\n' !in l.suffix
  }

  /** The inactivity timer is only ever started for a positive timeout. */
  predicate TimerEnabled(l: Listener) {
    l.timeout > 0.0
  }

  /**
   * `QRListener.__init__`: an idle listener with an empty buffer; the
   * timeout is kept unless it is absent or zero; prefix and suffix are stored
   * newline-normalised.
   */
  function NewListener(timeout: Option<real>, prefix: string, suffix: string): (l: Listener)
    ensures l.buffer == [] && !l.listening && !l.timerArmed
    ensures CanonicalFraming(l)
    ensures '\n' !in prefix ==> l.prefix == prefix
    ensures '\n' !in suffix ==> l.suffix == suffix
    ensures |l.prefix| == |prefix| - Count(prefix, "\r\n")
    ensures |l.suffix| == |suffix| - Count(suffix, "\r\n")
    ensures TimerEnabled(l) <==> timeout.Some? && timeout.value > 0.0
    ensures l.prefix == Canon(prefix) && l.suffix == Canon(suffix)
  {
    NormalizeAgreesWithCanon(prefix);
    NormalizeAgreesWithCanon(suffix);
    var t := if timeout.None? || timeout.value == 0.0 then 0.0 else timeout.value;
    Listener([], false, NormalizeNewlines(prefix), NormalizeNewlines(suffix), t, false)
  }

  /** The constructor's defaults: timeout 1 second, no prefix, suffix "\r". */
  function DefaultListener(): (l: Listener)
    ensures l.prefix == [] && l.suffix == "\r"
    ensures TimerEnabled(l) && !l.listening && l.buffer == []
  {
    NewListener(Some(1.0), "", "\r")
  }

  /**
   * `start_listening`: without a running application instance nothing
   * happens; otherwise the flag is set. The buffer is never touched.
   */
  function StartListening(l: Listener, appRunning: bool): (r: Listener)
    ensures !appRunning ==> r == l
    ensures appRunning ==> r.listening
    ensures r.(listening := l.listening) == l
  {
    if !appRunning then l else l.(listening := true)
  }

  /** `stop_listening`: clears the flag, stops the timer and empties the buffer. */
  function StopListening(l: Listener): (r: Listener)
    ensures !r.listening && r.buffer == [] && !r.timerArmed
    ensures r.prefix == l.prefix && r.suffix == l.suffix && r.timeout == l.timeout
  {
    l.(listening := false, buffer := [], timerArmed := false)
  }

  /** `set_prefix_suffix`: replaces the framing, normalised; the buffer and flag are kept. */
  function SetPrefixSuffix(l: Listener, prefix: string, suffix: string): (r: Listener)
    ensures CanonicalFraming(r)
    ensures '\n' !in prefix ==> r.prefix == prefix
    ensures '\n' !in suffix ==> r.suffix == suffix
    ensures r.prefix == Canon(prefix) && r.suffix == Canon(suffix)
    ensures r.(prefix := l.prefix, suffix := l.suffix) == l
  {
    NormalizeAgreesWithCanon(prefix);
    NormalizeAgreesWithCanon(suffix);
    l.(prefix := NormalizeNewlines(prefix), suffix := NormalizeNewlines(suffix))
  }

  /** The single-shot timer fires: `_clear_buffer_on_timeout` empties the buffer. */
  function TimerFires(l: Listener): (r: Listener)
    ensures r.buffer == [] && !r.timerArmed
    ensures r.(buffer := l.buffer, timerArmed := l.timerArmed) == l
  {
    l.(buffer := [], timerArmed := false)
  }

  /** Only a chunk that is exactly "\n" or "\r\n" is rewritten to "\r". */
  function MapChunk(chunk: string): (r: string)
    ensures chunk == "\n" || chunk == "\r\n" ==> r == "\r"
    ensures '\n' !in chunk ==> r == chunk
    ensures |chunk| > 2 ==> r == chunk
    ensures chunk != "\n" && chunk != "\r\n" ==> r == chunk
  {
    if chunk == "\r\n" || chunk == "\n" then "\r" else chunk
  }

  /** Python's `s[-k:]` for `k >= 0`; note that `s[-0:]` is all of `s`. */
  function PySliceTail(s: string, k: nat): (r: string)
    ensures EndsWith(s, r)
    ensures k == 0 || k >= |s| ==> r == s
    ensures 0 < k < |s| ==> |r| == k
  {
    if k == 0 || k >= |s| then s else s[|s| - k..]
  }

  /** Python's `s[:-k]` for `k > 0`: all but the last `k` characters, or nothing. */
  function PyDropLast(s: string, k: nat): (r: string)
    requires k > 0
    ensures StartsWith(s, r)
    ensures |r| == Max(0, |s| - k)
  {
    s[..Max(0, |s| - k)]
  }

  /**
   * Prefix resynchronisation as written. With the prefix absent the buffer is
   * cut to `buf[-(len(prefix) - 1):]`, which for a one-character prefix is
   * `buf[-0:]` and keeps the whole buffer.
   */
  function Resync(buf: string, prefix: string): (r: string)
    ensures EndsWith(buf, r)
    ensures |prefix| == 0 ==> r == buf
    ensures Contains(buf, prefix) ==>
      StartsWith(r, prefix) && forall j :: 0 <= j < |buf| - |r| ==> !OccursAt(buf, prefix, j)
    ensures |prefix| >= 2 && !Contains(buf, prefix) ==> |r| == Min(|buf|, |prefix| - 1)
    ensures |prefix| == 1 && !Contains(buf, prefix) ==> r == buf
  {
    if |prefix| == 0 then buf
    else
      var idx := Find(buf, prefix);
      if idx == -1 then
        var maxKeep := Max(0, |prefix| - 1);
        if |buf| > maxKeep then PySliceTail(buf, maxKeep) else buf
      else if idx > 0 then
        assert buf[idx..][..|prefix|] == buf[idx..idx + |prefix|];
        buf[idx..]
      else buf
  }

  /** Resynchronisation as intended: with the prefix absent, keep only the last `len(prefix) - 1` characters. */
  function ResyncBounded(buf: string, prefix: string): (r: string)
    ensures EndsWith(buf, r)
    ensures |prefix| == 0 ==> r == buf
    ensures Contains(buf, prefix) ==>
      StartsWith(r, prefix) && forall j :: 0 <= j < |buf| - |r| ==> !OccursAt(buf, prefix, j)
    ensures |prefix| >= 1 && !Contains(buf, prefix) ==> |r| == Min(|buf|, |prefix| - 1)
  {
    if |prefix| == 0 then buf
    else
      var idx := Find(buf, prefix);
      if idx == -1 then buf[|buf| - Min(|buf|, |prefix| - 1)..]
      else
        assert buf[idx..][..|prefix|] == buf[idx..idx + |prefix|];
        buf[idx..]
  }

  /** The two resynchronisations differ only for a one-character prefix. */
  lemma ResyncAgreesUnlessSingleChar(buf: string, prefix: string)
    requires |prefix| != 1
    ensures Resync(buf, prefix) == ResyncBounded(buf, prefix)
  {
  }

  /** The frame cut at the first occurrence of `pat` ends with `pat` and holds no earlier one. */
  lemma FirstOccurrenceFrame(buf: string, pat: string, pos: int)
    requires pos == Find(buf, pat) && pos >= 0
    ensures EndsWith(buf[..pos + |pat|], pat)
    ensures Find(buf[..pos + |pat|], pat) == pos
  {
    var frame := buf[..pos + |pat|];
    assert frame[pos..pos + |pat|] == buf[pos..pos + |pat|];
    assert OccursAt(frame, pat, pos);
    var f := Find(frame, pat);
    if f < pos {
      OccursInPrefix(buf, pos + |pat|, pat, f);
    }
  }

  /** Every frame ends with the suffix, at its first occurrence. */
  predicate FramesCutAtSuffix(frames: seq<string>, suffix: string) {
    forall i :: 0 <= i < |frames| ==>
      EndsWith(frames[i], suffix) && Find(frames[i], suffix) == |frames[i]| - |suffix|
  }

  /**
   * The suffix extraction loop: each raw frame runs from the start of the
   * buffer through the first occurrence of the suffix; what follows the last
   * suffix stays buffered. `ExtractFramesSpec` states what it computes.
   */
  function ExtractFrames(buf: string, suffix: string): (seq<string>, string)
    requires |suffix| > 0
    decreases |buf|
  {
    var pos := Find(buf, suffix);
    if pos == -1 then ([], buf)
    else
      var cut := pos + |suffix|;
      WithFrame(buf[..cut], ExtractFrames(buf[cut..], suffix))
  }

  /** One more frame in front of an extraction's frames; the remainder is kept. */
  function WithFrame(frame: string, more: (seq<string>, string)): (r: (seq<string>, string))
    ensures r.0 == [frame] + more.0 && r.1 == more.1
  {
    ([frame] + more.0, more.1)
  }

  /**
   * The frames, concatenated with the remainder, give back the buffer; the
   * remainder holds no suffix; every frame ends at its first suffix.
   */
  lemma {:induction false} ExtractFramesSpec(buf: string, suffix: string)
    requires |suffix| > 0
    ensures Concat(ExtractFrames(buf, suffix).0) + ExtractFrames(buf, suffix).1 == buf
    ensures !Contains(ExtractFrames(buf, suffix).1, suffix)
    ensures FramesCutAtSuffix(ExtractFrames(buf, suffix).0, suffix)
    decreases |buf|
  {
    var pos := Find(buf, suffix);
    if pos != -1 {
      var cut := pos + |suffix|;
      var frame := buf[..cut];
      var more := ExtractFrames(buf[cut..], suffix);
      ExtractFramesSpec(buf[cut..], suffix);
      FirstOccurrenceFrame(buf, suffix, pos);
      PrependFrame(frame, more.0, more.1, buf);
      PrependCutFrame(frame, more.0, suffix);
    }
  }

  lemma PrependFrame(frame: string, frames: seq<string>, rest: string, buf: string)
    requires |frame| <= |buf| && frame == buf[..|frame|]
    requires Concat(frames) + rest == buf[|frame|..]
    ensures Concat([frame] + frames) + rest == buf
  {
    var all := [frame] + frames;
    assert all[0] == frame && all[1..] == frames;
    assert Concat(all) == frame + Concat(frames);
    assert buf == frame + buf[|frame|..];
  }

  lemma PrependCutFrame(frame: string, frames: seq<string>, suffix: string)
    requires EndsWith(frame, suffix) && Find(frame, suffix) == |frame| - |suffix|
    requires FramesCutAtSuffix(frames, suffix)
    ensures FramesCutAtSuffix([frame] + frames, suffix)
  {
    var all := [frame] + frames;
    forall i | 0 <= i < |all|
      ensures EndsWith(all[i], suffix) && Find(all[i], suffix) == |all[i]| - |suffix|
    {
      if i > 0 {
        assert all[i] == frames[i - 1];
      }
    }
  }

  /**
   * `process_scanned_data`: rejects data lacking a configured prefix or
   * suffix, otherwise strips both with Python slicing.
   */
  function ProcessScannedData(prefix: string, suffix: string, data: string): (r: Option<string>)
    ensures r.Some? <==> StartsWith(data, prefix) && EndsWith(data, suffix)
    ensures r.Some? && |prefix| + |suffix| <= |data| ==> r.value == data[|prefix|..|data| - |suffix|]
    ensures r.Some? && |data| < |prefix| + |suffix| ==> r.value == []
  {
    if (|prefix| > 0 && !StartsWith(data, prefix)) || (|suffix| > 0 && !EndsWith(data, suffix)) then None
    else
      var url := if |prefix| > 0 then data[|prefix|..] else data;
      Some(if |suffix| > 0 then PyDropLast(url, |suffix|) else url)
  }

  /** Framing then processing gives the payload back. */
  lemma ProcessFramed(prefix: string, suffix: string, payload: string)
    ensures ProcessScannedData(prefix, suffix, prefix + payload + suffix) == Some(payload)
  {
    var data := prefix + payload + suffix;
    assert data[..|prefix|] == prefix;
    assert data[|data| - |suffix|..] == suffix;
    assert data[|prefix|..|data| - |suffix|] == payload;
  }

  /** Every frame passes `process_scanned_data`. */
  predicate AllAccepted(prefix: string, suffix: string, frames: seq<string>) {
    forall i :: 0 <= i < |frames| ==> ProcessScannedData(prefix, suffix, frames[i]).Some?
  }

  /**
   * The payloads `process_scanned_data` accepts from the frames, in order:
   * when every frame is accepted, the i-th payload is the i-th frame's; every
   * payload comes from some frame; rejected frames contribute nothing.
   */
  function Emissions(prefix: string, suffix: string, frames: seq<string>): (r: seq<string>)
    ensures |r| <= |frames|
    ensures AllAccepted(prefix, suffix, frames) ==>
      |r| == |frames| && forall i :: 0 <= i < |frames| ==> Some(r[i]) == ProcessScannedData(prefix, suffix, frames[i])
    ensures (forall i :: 0 <= i < |frames| ==> ProcessScannedData(prefix, suffix, frames[i]).None?) ==> r == []
    ensures forall u :: u in r ==> exists i :: 0 <= i < |frames| && ProcessScannedData(prefix, suffix, frames[i]) == Some(u)
    decreases |frames|
  {
    if |frames| == 0 then []
    else
      var rest := Emissions(prefix, suffix, frames[1..]);
      assert forall i :: 1 <= i < |frames| ==> frames[1..][i - 1] == frames[i];
      match ProcessScannedData(prefix, suffix, frames[0])
      case Some(u) => [u] + rest
      case None => rest
  }

  /** Emitting from two lists of frames is emitting from each, in order. */
  lemma {:induction false} EmissionsAppend(prefix: string, suffix: string, a: seq<string>, b: seq<string>)
    ensures Emissions(prefix, suffix, a + b) == Emissions(prefix, suffix, a) + Emissions(prefix, suffix, b)
    decreases |a|
  {
    if |a| > 0 {
      assert (a + b)[0] == a[0] && (a + b)[1..] == a[1..] + b;
      EmissionsAppend(prefix, suffix, a[1..], b);
    } else {
      assert a + b == b;
    }
  }

  /** The buffer after appending the mapped chunk and resynchronising on the prefix. */
  function Synced(l: Listener, chunk: string, corrected: bool): (r: string)
    ensures EndsWith(l.buffer + MapChunk(chunk), r)
  {
    var appended := l.buffer + MapChunk(chunk);
    if corrected then ResyncBounded(appended, l.prefix) else Resync(appended, l.prefix)
  }

  /**
   * `feed_data`, with the resynchronisation as written (`corrected` false) or
   * as intended (`corrected` true).
   */
  function FeedWith(l: Listener, chunk: string, corrected: bool): (r: Step)
    ensures !l.listening ==> r == Step(l, [])
    ensures r.listener.(buffer := l.buffer, timerArmed := l.timerArmed) == l
    ensures l.listening && TimerEnabled(l) ==> r.listener.timerArmed
    ensures !TimerEnabled(l) ==> r.listener.timerArmed == l.timerArmed
    ensures |l.suffix| == 0 ==> r.emitted == []
    ensures l.listening && |l.suffix| == 0 ==> r.listener.buffer == Synced(l, chunk, corrected)
  {
    if !l.listening then Step(l, [])
    else
      var armed := if TimerEnabled(l) then true else l.timerArmed;
      var synced := Synced(l, chunk, corrected);
      if |l.suffix| > 0 then
        var (frames, rest) := ExtractFrames(synced, l.suffix);
        Step(l.(buffer := rest, timerArmed := armed), Emissions(l.prefix, l.suffix, frames))
      else
        Step(l.(buffer := synced, timerArmed := armed), [])
  }

  /**
   * With a suffix configured, what stays buffered is a tail of the
   * resynchronised buffer in which the suffix no longer occurs.
   */
  lemma FeedLeavesNoSuffix(l: Listener, chunk: string, corrected: bool)
    requires l.listening && |l.suffix| > 0
    ensures EndsWith(Synced(l, chunk, corrected), FeedWith(l, chunk, corrected).listener.buffer)
    ensures !Contains(FeedWith(l, chunk, corrected).listener.buffer, l.suffix)
  {
    var synced := Synced(l, chunk, corrected);
    ExtractFramesSpec(synced, l.suffix);
    var (frames, rest) := ExtractFrames(synced, l.suffix);
    assert synced == Concat(frames) + rest;
  }

  /** Without prefix or suffix, a listening `feed_data` only appends the mapped chunk. */
  lemma FeedUnframedAppends(l: Listener, chunk: string, corrected: bool)
    requires l.listening && |l.prefix| == 0 && |l.suffix| == 0
    ensures FeedWith(l, chunk, corrected).listener.buffer == l.buffer + MapChunk(chunk)
    ensures FeedWith(l, chunk, corrected).emitted == []
  {
  }

  /** `feed_data` exactly as the source writes it. */
  function Feed(l: Listener, chunk: string): (r: Step)
    ensures !l.listening ==> r == Step(l, [])
  {
    FeedWith(l, chunk, false)
  }

  /** `feed_data` with the intended noise bound. */
  function FeedCorrected(l: Listener, chunk: string): (r: Step)
    ensures !l.listening ==> r == Step(l, [])
  {
    FeedWith(l, chunk, true)
  }

  /** What stays buffered is never longer than the resynchronised buffer. */
  lemma FeedBufferWithinSynced(l: Listener, chunk: string, corrected: bool)
    requires l.listening
    ensures |FeedWith(l, chunk, corrected).listener.buffer| <= |Synced(l, chunk, corrected)|
  {
    if |l.suffix| > 0 {
      FeedLeavesNoSuffix(l, chunk, corrected);
    }
  }

  /** As written, the noise bound holds only for prefixes of two or more characters. */
  lemma FeedNoiseBound(l: Listener, chunk: string)
    requires l.listening && |l.prefix| >= 2
    requires !Contains(l.buffer + MapChunk(chunk), l.prefix)
    ensures |Feed(l, chunk).listener.buffer| <= |l.prefix| - 1
  {
    FeedBufferWithinSynced(l, chunk, false);
  }

  /** As intended, the noise bound holds for every non-empty prefix. */
  lemma FeedCorrectedNoiseBound(l: Listener, chunk: string)
    requires l.listening && |l.prefix| >= 1
    requires !Contains(l.buffer + MapChunk(chunk), l.prefix)
    ensures |FeedCorrected(l, chunk).listener.buffer| <= |l.prefix| - 1
  {
    FeedBufferWithinSynced(l, chunk, true);
  }

  /** Feeds the chunks one after another, collecting every emission. */
  function FeedAll(l: Listener, chunks: seq<string>, corrected: bool): Step
    decreases |chunks|
  {
    if |chunks| == 0 then Step(l, [])
    else
      var first := FeedWith(l, chunks[0], corrected);
      var others := FeedAll(first.listener, chunks[1..], corrected);
      Step(others.listener, first.emitted + others.emitted)
  }

  /** Where the two resynchronisations differ, `Feed` and `FeedCorrected` differ; elsewhere they agree. */
  lemma FeedAgreesUnlessSingleCharPrefix(l: Listener, chunk: string)
    requires |l.prefix| != 1
    ensures Feed(l, chunk) == FeedCorrected(l, chunk)
  {
    ResyncAgreesUnlessSingleChar(l.buffer + MapChunk(chunk), l.prefix);
  }

  /**
   * As written, a one-character prefix never bounds the noise: while neither
   * the prefix nor the suffix has arrived, every chunk is kept in full.
   */
  lemma SingleCharPrefixKeepsNoise(l: Listener, chunk: string)
    requires l.listening && |l.prefix| == 1
    requires !Contains(l.buffer + MapChunk(chunk), l.prefix)
    requires !Contains(l.buffer + MapChunk(chunk), l.suffix)
    ensures Feed(l, chunk).listener.buffer == l.buffer + MapChunk(chunk)
    ensures Feed(l, chunk).emitted == []
  {
    var appended := l.buffer + MapChunk(chunk);
    assert Resync(appended, l.prefix) == appended;
    if |l.suffix| > 0 {
      assert ExtractFrames(appended, l.suffix) == ([], appended);
    }
  }

  /** A concrete instance: prefix "#", three characters of noise, and all three stay buffered. */
  lemma SingleCharPrefixExample()
    ensures Feed(Listener([], true, "#", "\r", 1.0, false), "abc").listener.buffer == "abc"
    ensures FeedCorrected(Listener([], true, "#", "\r", 1.0, false), "abc").listener.buffer == []
  {
    var l := Listener([], true, "#", "\r", 1.0, false);
    assert l.buffer + MapChunk("abc") == "abc";
    ContainsChar("abc", '#');
    ContainsChar("abc", '\r');
    SingleCharPrefixKeepsNoise(l, "abc");
    assert !Contains([], "\r");
    assert ExtractFrames([], "\r") == ([], []);
  }

  // ---------------------------------------------------------------------
  // The round trip: a framed payload fed in any split comes out exactly once.
  // ---------------------------------------------------------------------

  /** The framed input `prefix + payload + suffix`. */
  function Framed(l: Listener, payload: string): string {
    l.prefix + payload + l.suffix
  }

  /**
   * The suffix is non-empty, first occurs at the very end of the framed
   * input, and no chunk of it can be a bare newline.
   */
  predicate WellFramed(l: Listener, payload: string) {
    var input := Framed(l, payload);
    |l.suffix| > 0 && '\n' !in input && Find(input, l.suffix) == |input| - |l.suffix|
  }

  /** A buffer that is a prefix of the framed input survives resynchronisation. */
  lemma ResyncKeepsFramePrefix(input: string, prefix: string, n: nat)
    requires StartsWith(input, prefix) && n <= |input|
    ensures Resync(input[..n], prefix) == input[..n]
    ensures ResyncBounded(input[..n], prefix) == input[..n]
  {
    var p := input[..n];
    if |prefix| > 0 {
      if n >= |prefix| {
        assert p[0..|prefix|] == prefix;
        assert OccursAt(p, prefix, 0);
        assert Find(p, prefix) == 0;
      } else {
        assert Find(p, prefix) == -1;
      }
    }
  }

  /** No proper prefix of the framed input holds the suffix. */
  lemma NoSuffixBeforeEnd(input: string, suffix: string, n: nat)
    requires Find(input, suffix) == |input| - |suffix| && n < |input|
    ensures !Contains(input[..n], suffix)
  {
    forall j | 0 <= j <= n && OccursAt(input[..n], suffix, j)
      ensures false
    {
      OccursInPrefix(input, n, suffix, j);
    }
  }

  /** A buffer holding the suffix yields the frame up to its first occurrence, then the rest's frames. */
  lemma ExtractFramesCut(buf: string, suffix: string)
    requires |suffix| > 0
    ensures var pos := Find(buf, suffix);
      pos >= 0 ==>
        ExtractFrames(buf, suffix) == WithFrame(buf[..pos + |suffix|], ExtractFrames(buf[pos + |suffix|..], suffix))
  {
  }

  /** An empty buffer yields no frames. */
  lemma ExtractEmpty(suffix: string)
    requires |suffix| > 0
    ensures ExtractFrames([], suffix) == ([], [])
  {
    assert !Contains([], suffix);
  }

  /** The framed input is cut into exactly one frame, itself. */
  lemma ExtractWhole(input: string, suffix: string)
    requires 0 < |suffix| <= |input| && Find(input, suffix) == |input| - |suffix|
    ensures ExtractFrames(input, suffix) == ([input], [])
  {
    var cut := Find(input, suffix) + |suffix|;
    assert cut == |input|;
    assert input[..cut] == input;
    assert input[cut..] == [];
    ExtractEmpty(suffix);
    ExtractFramesCut(input, suffix);
    assert [input] + [] == [input];
  }

  /** A chunk taken from a newline-free string is fed unchanged. */
  lemma ChunkOfNewlineFree(input: string, buf: string, chunk: string)
    requires StartsWith(input, buf + chunk) && '\n' !in input
    ensures MapChunk(chunk) == chunk
  {
    forall i | 0 <= i < |chunk|
      ensures chunk[i] != '\n'
    {
      assert chunk[i] == (buf + chunk)[|buf| + i] == input[|buf| + i];
    }
  }

  /** A chunk that does not yet complete the frame is buffered and emits nothing. */
  lemma FeedFramePart(l: Listener, chunk: string, payload: string, corrected: bool)
    requires l.listening && WellFramed(l, payload)
    requires StartsWith(Framed(l, payload), l.buffer + chunk)
    requires |l.buffer + chunk| < |Framed(l, payload)|
    ensures FeedWith(l, chunk, corrected).listener.buffer == l.buffer + chunk
    ensures FeedWith(l, chunk, corrected).emitted == []
  {
    var input := Framed(l, payload);
    var n := |l.buffer + chunk|;
    ChunkOfNewlineFree(input, l.buffer, chunk);
    assert input[..n] == l.buffer + chunk;
    assert StartsWith(input, l.prefix) by {
      assert input[..|l.prefix|] == l.prefix;
    }
    ResyncKeepsFramePrefix(input, l.prefix, n);
    NoSuffixBeforeEnd(input, l.suffix, n);
    assert ExtractFrames(input[..n], l.suffix) == ([], input[..n]);
  }

  /** The chunk that completes the frame emits the payload and empties the buffer. */
  lemma FeedFrameEnd(l: Listener, chunk: string, payload: string, corrected: bool)
    requires l.listening && WellFramed(l, payload)
    requires l.buffer + chunk == Framed(l, payload)
    ensures FeedWith(l, chunk, corrected).listener.buffer == []
    ensures FeedWith(l, chunk, corrected).emitted == [payload]
  {
    var input := Framed(l, payload);
    ChunkOfNewlineFree(input, l.buffer, chunk);
    assert input[..|input|] == input;
    assert StartsWith(input, l.prefix) by {
      assert input[..|l.prefix|] == l.prefix;
    }
    ResyncKeepsFramePrefix(input, l.prefix, |input|);
    assert Synced(l, chunk, corrected) == input;
    ExtractWhole(input, l.suffix);
    ProcessFramed(l.prefix, l.suffix, payload);
    EmissionsSingle(l.prefix, l.suffix, input, payload);
  }

  lemma EmissionsSingle(prefix: string, suffix: string, frame: string, payload: string)
    requires ProcessScannedData(prefix, suffix, frame) == Some(payload)
    ensures Emissions(prefix, suffix, [frame]) == [payload]
  {
    assert [frame][1..] == [];
    assert Emissions(prefix, suffix, []) == [];
  }

  /** One empty chunk on an empty buffer keeps it empty and emits nothing. */
  lemma FeedEmptyChunk(l: Listener, corrected: bool)
    requires l.listening && l.buffer == [] && |l.suffix| > 0
    ensures FeedWith(l, [], corrected).listener.buffer == []
    ensures FeedWith(l, [], corrected).emitted == []
  {
    assert MapChunk([]) == [];
    assert Resync([], l.prefix) == [] && ResyncBounded([], l.prefix) == [];
    assert Synced(l, [], corrected) == [];
    assert ExtractFrames([], l.suffix) == ([], []);
  }

  /** Empty chunks on an empty buffer change nothing and emit nothing. */
  lemma {:induction false} FeedEmptyChunks(l: Listener, chunks: seq<string>, corrected: bool)
    requires l.listening && l.buffer == [] && |l.suffix| > 0
    requires forall i :: 0 <= i < |chunks| ==> chunks[i] == []
    ensures FeedAll(l, chunks, corrected).listener.buffer == []
    ensures FeedAll(l, chunks, corrected).emitted == []
    decreases |chunks|
  {
    if |chunks| > 0 {
      var first := FeedWith(l, chunks[0], corrected);
      assert chunks[0] == [];
      FeedEmptyChunk(l, corrected);
      assert first.listener.listening && first.listener.suffix == l.suffix;
      FeedEmptyChunks(first.listener, chunks[1..], corrected);
      var others := FeedAll(first.listener, chunks[1..], corrected);
      assert FeedAll(l, chunks, corrected) == Step(others.listener, first.emitted + others.emitted);
    }
  }

  lemma {:induction false} ConcatEmpty(ss: seq<string>)
    requires Concat(ss) == []
    ensures forall i :: 0 <= i < |ss| ==> ss[i] == []
    decreases |ss|
  {
    if |ss| > 0 {
      ConcatEmpty(ss[1..]);
      forall i | 0 <= i < |ss|
        ensures ss[i] == []
      {
        if i > 0 { assert ss[i] == ss[1..][i - 1]; }
      }
    }
  }

  /**
   * Feeding the rest of a framed payload, split into any chunks, emits the
   * payload exactly once and leaves the buffer empty.
   */
  lemma {:induction false} RoundTripFrom(l: Listener, chunks: seq<string>, payload: string, corrected: bool)
    requires l.listening && WellFramed(l, payload)
    requires l.buffer + Concat(chunks) == Framed(l, payload)
    requires |l.buffer| < |Framed(l, payload)|
    ensures FeedAll(l, chunks, corrected).emitted == [payload]
    ensures FeedAll(l, chunks, corrected).listener.buffer == []
    decreases |chunks|
  {
    var input := Framed(l, payload);
    var first := FeedWith(l, chunks[0], corrected);
    var head := l.buffer + chunks[0];
    SplitFirstChunk(l.buffer, chunks, input);
    assert first.listener.listening && first.listener.prefix == l.prefix && first.listener.suffix == l.suffix;
    assert Framed(first.listener, payload) == input;
    if |head| < |input| {
      FeedFramePart(l, chunks[0], payload, corrected);
      RoundTripFrom(first.listener, chunks[1..], payload, corrected);
      FeedAllCons(l, chunks, corrected, [], [payload]);
    } else {
      FeedFrameEnd(l, chunks[0], payload, corrected);
      ConcatEmpty(chunks[1..]);
      FeedEmptyChunks(first.listener, chunks[1..], corrected);
      FeedAllCons(l, chunks, corrected, [payload], []);
    }
  }

  /** The first chunk extends the buffer to a prefix of the target. */
  lemma SplitFirstChunk(buf: string, chunks: seq<string>, input: string)
    requires buf + Concat(chunks) == input && |buf| < |input|
    ensures |chunks| > 0
    ensures input == (buf + chunks[0]) + Concat(chunks[1..])
    ensures StartsWith(input, buf + chunks[0])
    ensures |buf + chunks[0]| == |input| ==> buf + chunks[0] == input && Concat(chunks[1..]) == []
  {
    var head := buf + chunks[0];
    assert input == head + Concat(chunks[1..]);
    assert input[..|head|] == head;
  }

  /** `FeedAll` on a non-empty list: the first step's emissions, then the rest's. */
  lemma FeedAllCons(l: Listener, chunks: seq<string>, corrected: bool, e1: seq<string>, e2: seq<string>)
    requires |chunks| > 0
    requires FeedWith(l, chunks[0], corrected).emitted == e1
    requires FeedAll(FeedWith(l, chunks[0], corrected).listener, chunks[1..], corrected).emitted == e2
    ensures FeedAll(l, chunks, corrected).emitted == e1 + e2
    ensures FeedAll(l, chunks, corrected).listener
      == FeedAll(FeedWith(l, chunks[0], corrected).listener, chunks[1..], corrected).listener
  {
  }

  /** One chunk per character, as a keyboard wedge delivers them. */
  function CharChunks(s: string): (r: seq<string>)
    ensures |r| == |s|
    ensures Concat(r) == s
    decreases |s|
  {
    if |s| == 0 then []
    else
      var rest := CharChunks(s[1..]);
      assert ([[s[0]]] + rest)[1..] == rest;
      assert s == [s[0]] + s[1..];
      [[s[0]]] + rest
  }

  /** The round trip: `prefix + payload + suffix` typed character by character yields exactly `[payload]`. */
  lemma RoundTrip(l: Listener, payload: string, corrected: bool)
    requires l.listening && l.buffer == [] && WellFramed(l, payload)
    ensures FeedAll(l, CharChunks(Framed(l, payload)), corrected).emitted == [payload]
    ensures FeedAll(l, CharChunks(Framed(l, payload)), corrected).listener.buffer == []
  {
    RoundTripFrom(l, CharChunks(Framed(l, payload)), payload, corrected);
  }

  /** The same payload delivered as one chunk. */
  lemma RoundTripWholeChunk(l: Listener, payload: string, corrected: bool)
    requires l.listening && l.buffer == [] && WellFramed(l, payload)
    ensures FeedWith(l, Framed(l, payload), corrected).emitted == [payload]
    ensures FeedWith(l, Framed(l, payload), corrected).listener.buffer == []
  {
    FeedFrameEnd(l, Framed(l, payload), payload, corrected);
  }

  // ---------------------------------------------------------------------
  // Several complete messages in one chunk.
  // ---------------------------------------------------------------------

  /** The framed inputs of several payloads, in order. */
  function FramedEach(l: Listener, payloads: seq<string>): (r: seq<string>)
    ensures |r| == |payloads|
    ensures forall i :: 0 <= i < |payloads| ==> r[i] == Framed(l, payloads[i])
    decreases |payloads|
  {
    if |payloads| == 0 then []
    else
      var rest := FramedEach(l, payloads[1..]);
      assert forall i :: 1 <= i < |payloads| ==> payloads[1..][i - 1] == payloads[i];
      [Framed(l, payloads[0])] + rest
  }

  /** Text appended after a first occurrence does not move it. */
  lemma FindInExtension(x: string, y: string, pat: string)
    requires Find(x, pat) >= 0
    ensures Find(x + y, pat) == Find(x, pat)
  {
    var k := Find(x, pat);
    var xy := x + y;
    assert xy[k..k + |pat|] == x[k..k + |pat|];
    assert OccursAt(xy, pat, k);
    var r := Find(xy, pat);
    if r < k {
      assert r >= 0;
      assert xy[r..r + |pat|] == x[r..r + |pat|];
      assert OccursAt(x, pat, r);
    }
  }

  /** A character absent from every string is absent from their concatenation. */
  lemma {:induction false} ConcatAvoids(ss: seq<string>, c: char)
    requires forall i :: 0 <= i < |ss| ==> c !in ss[i]
    ensures c !in Concat(ss)
    decreases |ss|
  {
    if |ss| > 0 {
      assert forall i :: 0 <= i < |ss| - 1 ==> ss[1..][i] == ss[i + 1];
      ConcatAvoids(ss[1..], c);
    }
  }

  /** Well-framed messages back to back are cut exactly at their boundaries. */
  lemma {:induction false} ExtractFramedEach(l: Listener, payloads: seq<string>)
    requires |l.suffix| > 0
    requires forall i :: 0 <= i < |payloads| ==> WellFramed(l, payloads[i])
    ensures ExtractFrames(Concat(FramedEach(l, payloads)), l.suffix) == (FramedEach(l, payloads), [])
    decreases |payloads|
  {
    var frames := FramedEach(l, payloads);
    if |payloads| == 0 {
      ExtractEmpty(l.suffix);
    } else {
      var x := Framed(l, payloads[0]);
      var rest := FramedEach(l, payloads[1..]);
      var y := Concat(rest);
      assert frames == [x] + rest;
      assert frames[1..] == rest;
      assert Concat(frames) == x + y;
      assert WellFramed(l, payloads[0]);
      FindInExtension(x, y, l.suffix);
      ExtractFramesCut(x + y, l.suffix);
      assert (x + y)[..|x|] == x && (x + y)[|x|..] == y;
      assert forall i :: 0 <= i < |payloads| - 1 ==> payloads[1..][i] == payloads[i + 1];
      ExtractFramedEach(l, payloads[1..]);
    }
  }

  /** Back-to-back well-framed messages pass the newline mapping and resynchronisation untouched. */
  lemma SyncedFramedEach(l: Listener, payloads: seq<string>, corrected: bool)
    requires l.buffer == [] && |payloads| > 0
    requires forall i :: 0 <= i < |payloads| ==> WellFramed(l, payloads[i])
    ensures Synced(l, Concat(FramedEach(l, payloads)), corrected) == Concat(FramedEach(l, payloads))
  {
    var frames := FramedEach(l, payloads);
    var input := Concat(frames);
    forall i | 0 <= i < |frames| ensures '\n' !in frames[i] {
      assert WellFramed(l, payloads[i]);
    }
    ConcatAvoids(frames, '\n');
    assert MapChunk(input) == input;
    assert l.buffer + MapChunk(input) == input;
    assert input == frames[0] + Concat(frames[1..]);
    assert StartsWith(input, l.prefix) by {
      assert input[..|l.prefix|] == frames[0][..|l.prefix|] == l.prefix;
    }
    assert input[..|input|] == input;
    ResyncKeepsFramePrefix(input, l.prefix, |input|);
  }

  /** Each well-framed message is accepted and yields its own payload. */
  lemma EmissionsFramedEach(l: Listener, payloads: seq<string>)
    requires forall i :: 0 <= i < |payloads| ==> WellFramed(l, payloads[i])
    ensures Emissions(l.prefix, l.suffix, FramedEach(l, payloads)) == payloads
  {
    var frames := FramedEach(l, payloads);
    forall i | 0 <= i < |frames|
      ensures ProcessScannedData(l.prefix, l.suffix, frames[i]) == Some(payloads[i])
    {
      ProcessFramed(l.prefix, l.suffix, payloads[i]);
    }
    var r := Emissions(l.prefix, l.suffix, frames);
    assert |r| == |payloads|;
    assert forall i :: 0 <= i < |r| ==> r[i] == payloads[i];
  }

  /**
   * Several well-framed payloads delivered in one chunk to an empty buffer
   * are all emitted, in order, and nothing stays buffered.
   */
  lemma FeedManyFrames(l: Listener, payloads: seq<string>, corrected: bool)
    requires l.listening && l.buffer == []
    requires forall i :: 0 <= i < |payloads| ==> WellFramed(l, payloads[i])
    ensures FeedWith(l, Concat(FramedEach(l, payloads)), corrected).emitted == payloads
    ensures FeedWith(l, Concat(FramedEach(l, payloads)), corrected).listener.buffer == []
  {
    var input := Concat(FramedEach(l, payloads));
    if |payloads| == 0 {
      assert input == [];
      assert MapChunk([]) == [];
      assert Resync([], l.prefix) == [] && ResyncBounded([], l.prefix) == [];
      assert Synced(l, input, corrected) == [];
      if |l.suffix| > 0 {
        ExtractEmpty(l.suffix);
      }
    } else {
      assert WellFramed(l, payloads[0]);
      SyncedFramedEach(l, payloads, corrected);
      ExtractFramedEach(l, payloads);
      EmissionsFramedEach(l, payloads);
    }
  }

  /** The two frames `"qr_A\r"` and `"qr_B\r"`, back to back. */
  lemma TwoFramesConcat(l: Listener)
    requires l.prefix == "qr_" && l.suffix == "\r"
    ensures Concat(FramedEach(l, ["A", "B"])) == "qr_A\rqr_B\r"
  {
    var frames := FramedEach(l, ["A", "B"]);
    assert frames[0] == Framed(l, "A") == "qr_A\r";
    assert frames[1] == Framed(l, "B") == "qr_B\r";
    assert frames[1..][1..] == [];
    assert Concat(frames[1..]) == "qr_B\r";
  }

  /** Two messages in one chunk: `"qr_A\rqr_B\r"` with prefix `"qr_"` emits `"A"`, then `"B"`. */
  lemma TwoMessagesInOneChunk(l: Listener)
    requires l.listening && l.buffer == [] && l.prefix == "qr_" && l.suffix == "\r"
    ensures Feed(l, "qr_A\rqr_B\r").emitted == ["A", "B"]
    ensures Feed(l, "qr_A\rqr_B\r").listener.buffer == []
  {
    var ps := ["A", "B"];
    assert Framed(l, "A") == "qr_A\r" && Framed(l, "B") == "qr_B\r";
    SingleCharSuffixFrames(l, "A");
    SingleCharSuffixFrames(l, "B");
    assert WellFramed(l, ps[0]) && WellFramed(l, ps[1]);
    TwoFramesConcat(l);
    FeedManyFrames(l, ps, false);
  }

  /**
   * With a one-character suffix (the default "\r"), the frame is well
   * formed exactly when that character occurs in neither prefix nor payload.
   */
  lemma SingleCharSuffixFrames(l: Listener, payload: string)
    requires |l.suffix| == 1 && '\n' !in Framed(l, payload)
    ensures WellFramed(l, payload) <==> l.suffix[0] !in l.prefix + payload
  {
    var input := Framed(l, payload);
    var body := l.prefix + payload;
    assert input == body + l.suffix;
    assert OccursAt(input, l.suffix, |input| - 1);
    if l.suffix[0] !in body {
      forall j | 0 <= j < |input| - 1
        ensures !OccursAt(input, l.suffix, j)
      {
        assert input[j] == body[j];
      }
    } else {
      var j :| 0 <= j < |body| && body[j] == l.suffix[0];
      assert input[j] == body[j];
      assert input[j..j + 1] == l.suffix;
      assert OccursAt(input, l.suffix, j);
    }
  }

  /**
   * A payload free of the suffix is not enough when the suffix can straddle
   * the prefix: with prefix "xa" and suffix "ab", the payload "b" is cut
   * early and an empty payload is emitted instead.
   */
  lemma StraddlingSuffixExample()
    ensures FeedWith(Listener([], true, "xa", "ab", 1.0, false), "xabab", false).emitted == [[]]
  {
    var input := "xabab";
    assert input[..2] == "xa";
    assert Find(input, "xa") == 0;
    assert Synced(Listener([], true, "xa", "ab", 1.0, false), input, false) == input;
    StraddlingExtract();
    StraddlingEmissions();
  }

  lemma StraddlingExtract()
    ensures ExtractFrames("xabab", "ab") == (["xab", "ab"], [])
  {
    var input := "xabab";
    assert input[..2] == "xa" && input[..2][0] != "ab"[0];
    assert input[1..][..2] == "ab";
    assert Find(input[1..], "ab") == 0;
    assert Find(input, "ab") == 1;
    assert input[..3] == "xab" && input[3..] == "ab";
    assert "ab"[..2] == "ab" && "ab"[2..] == [];
    assert Find("ab", "ab") == 0;
    assert ExtractFrames([], "ab") == ([], []);
    assert ["ab"] + [] == ["ab"];
    assert ExtractFrames("ab", "ab") == (["ab"], []);
    assert ["xab"] + ["ab"] == ["xab", "ab"];
  }

  lemma StraddlingEmissions()
    ensures Emissions("xa", "ab", ["xab", "ab"]) == [[]]
  {
    assert "xab"[..2] == "xa" && "xab"[1..] == "ab";
    assert ProcessScannedData("xa", "ab", "xab") == Some([]);
    assert "ab"[..2][0] != "xa"[0];
    assert ProcessScannedData("xa", "ab", "ab") == None;
    assert ["xab", "ab"][1..] == ["ab"];
    var none: string := [];
    assert [none] + [] == [none];
  }
}
