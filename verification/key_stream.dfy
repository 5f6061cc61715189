/**
 * The desktop app's keystroke state machine (src-tauri/src/commands/scan.rs):
 * `keycode_to_message` classifies a macOS key event, and `process_key_buffer`
 * folds the resulting messages into scans, emitting the accumulated
 * characters on the trigger key chosen by the suffix mode.
 */
module KeyStream {
  import opened Wrappers
  import opened Strings

  /** The messages the keyboard callback sends to the processing thread. */
  datatype KeyMessage = Char(c: char) | Enter | Tab

  /** macOS virtual key codes for Return, keypad Enter and Tab. */
  const VkReturn: int := 0x24
  const VkKpEnter: int := 0x4C
  const VkTab: int := 0x30

  /** Rust's `char::is_control`: the general category Cc. */
  predicate IsControl(c: char) {
    c <= '\U{1F}' || ('\U{7F}' <= c <= '\U{9F}')
  }

  /** `keycode_to_message`: the two Enter keys and Tab win over any character; otherwise a printable character. */
  function KeycodeToMessage(keycode: int, unicode: Option<char>): (r: Option<KeyMessage>)
    ensures keycode == VkReturn || keycode == VkKpEnter ==> r == Some(Enter)
    ensures keycode == VkTab ==> r == Some(Tab)
    ensures r == Some(Enter) ==> keycode == VkReturn || keycode == VkKpEnter
    ensures r == Some(Tab) ==> keycode == VkTab
    ensures keycode != VkReturn && keycode != VkKpEnter && keycode != VkTab ==>
      (r.Some? <==> unicode.Some? && !IsControl(unicode.value))
    ensures r.Some? && r.value.Char? ==> unicode == Some(r.value.c) && !IsControl(r.value.c)
  {
    if keycode == VkReturn || keycode == VkKpEnter then Some(Enter)
    else if keycode == VkTab then Some(Tab)
    else
      match unicode
      case Some(c) => if !IsControl(c) then Some(Char(c)) else None
      case None => None
  }

  /** The processing thread's state: the pending characters and the scans emitted so far. */
  datatype KeyState = KeyState(buffer: string, emitted: seq<string>)

  /** The key that completes a scan: Tab in mode "tab", Enter in every other mode. */
  function TriggerKey(useTab: bool): KeyMessage {
    if useTab then Tab else Enter
  }

  /** One message: characters accumulate; the trigger emits a non-empty buffer; the other key does nothing. */
  function StepKey(s: KeyState, msg: KeyMessage, useTab: bool): (r: KeyState)
    ensures msg.Char? ==> r == KeyState(s.buffer + [msg.c], s.emitted)
    ensures msg != TriggerKey(useTab) && !msg.Char? ==> r == s
    ensures msg == TriggerKey(useTab) && |s.buffer| > 0 ==> r == KeyState([], s.emitted + [s.buffer])
    ensures msg == TriggerKey(useTab) && |s.buffer| == 0 ==> r == s
  {
    match msg
    case Char(c) => s.(buffer := s.buffer + [c])
    case Enter => if !useTab && |s.buffer| > 0 then KeyState([], s.emitted + [s.buffer]) else s
    case Tab => if useTab && |s.buffer| > 0 then KeyState([], s.emitted + [s.buffer]) else s
  }

  /** The state after processing `msgs` from `s`, one message at a time. */
  function Run(s: KeyState, msgs: seq<KeyMessage>, useTab: bool): KeyState
    decreases |msgs|
  {
    if |msgs| == 0 then s else StepKey(Run(s, msgs[..|msgs| - 1], useTab), msgs[|msgs| - 1], useTab)
  }

  /** The initial state: nothing pending, nothing emitted. */
  const Initial: KeyState := KeyState([], [])

  /**
   * `process_key_buffer` over the messages received before the channel
   * closes: returns the scans passed to `on_scan`, in order, and the
   * characters still pending (which the source drops).
   */
  method ProcessKeyBuffer(rx: seq<KeyMessage>, suffixMode: string) returns (scans: seq<string>, pending: string)
    ensures KeyState(pending, scans) == Run(Initial, rx, suffixMode == "tab")
  {
    var buffer: string := [];
    scans := [];
    var useTabTrigger := suffixMode == "tab";
    var i := 0;
    while i < |rx|
      invariant 0 <= i <= |rx|
      invariant KeyState(buffer, scans) == Run(Initial, rx[..i], useTabTrigger)
    {
      assert rx[..i + 1][..i] == rx[..i];
      match rx[i] {
        case Char(c) =>
          buffer := buffer + [c];
        case Enter =>
          if !useTabTrigger && |buffer| > 0 {
            scans := scans + [buffer];
            buffer := [];
          }
        case Tab =>
          if useTabTrigger && |buffer| > 0 {
            scans := scans + [buffer];
            buffer := [];
          }
      }
      i := i + 1;
    }
    assert rx[..i] == rx;
    pending := buffer;
  }

  /** Running two message lists one after the other is running their concatenation. */
  lemma {:induction false} RunAppend(s: KeyState, a: seq<KeyMessage>, b: seq<KeyMessage>, useTab: bool)
    ensures Run(s, a + b, useTab) == Run(Run(s, a, useTab), b, useTab)
    decreases |b|
  {
    if |b| == 0 {
      assert a + b == a;
    } else {
      assert (a + b)[..|a + b| - 1] == a + b[..|b| - 1];
      assert (a + b)[|a + b| - 1] == b[|b| - 1];
      RunAppend(s, a, b[..|b| - 1], useTab);
    }
  }

  /** The `Char` payloads of a message list, in order. */
  function CharsOf(msgs: seq<KeyMessage>): string
    decreases |msgs|
  {
    if |msgs| == 0 then []
    else CharsOf(msgs[..|msgs| - 1]) + (if msgs[|msgs| - 1].Char? then [msgs[|msgs| - 1].c] else [])
  }

  /** Every emitted scan is non-empty. */
  predicate NoEmptyScan(s: KeyState) {
    forall i :: 0 <= i < |s.emitted| ==> |s.emitted[i]| > 0
  }

  /** A trigger on an empty buffer emits nothing, so no emitted scan is ever empty. */
  lemma {:induction false} RunEmitsNoEmptyScan(s: KeyState, msgs: seq<KeyMessage>, useTab: bool)
    requires NoEmptyScan(s)
    ensures NoEmptyScan(Run(s, msgs, useTab))
    decreases |msgs|
  {
    if |msgs| > 0 {
      RunEmitsNoEmptyScan(s, msgs[..|msgs| - 1], useTab);
    }
  }

  /** Nothing is lost or reordered: the emitted scans, then the pending buffer, spell out every character typed. */
  lemma {:induction false} RunConservesChars(msgs: seq<KeyMessage>, useTab: bool)
    ensures Concat(Run(Initial, msgs, useTab).emitted) + Run(Initial, msgs, useTab).buffer == CharsOf(msgs)
    decreases |msgs|
  {
    if |msgs| > 0 {
      var init := msgs[..|msgs| - 1];
      var last := msgs[|msgs| - 1];
      var before := Run(Initial, init, useTab);
      RunConservesChars(init, useTab);
      var after := StepKey(before, last, useTab);
      if last.Char? {
        assert Concat(after.emitted) + after.buffer == (Concat(before.emitted) + before.buffer) + [last.c];
      } else if last == TriggerKey(useTab) && |before.buffer| > 0 {
        ConcatAppend(before.emitted, [before.buffer]);
        assert Concat([before.buffer]) == before.buffer;
        assert Concat(after.emitted) + after.buffer == Concat(before.emitted) + before.buffer;
      }
    }
  }

  /** The messages with every `k` removed. */
  function Without(msgs: seq<KeyMessage>, k: KeyMessage): (r: seq<KeyMessage>)
    ensures k !in r
    decreases |msgs|
  {
    if |msgs| == 0 then []
    else Without(msgs[..|msgs| - 1], k) + (if msgs[|msgs| - 1] == k then [] else [msgs[|msgs| - 1]])
  }

  /** The non-trigger special key is ignored: in "tab" mode Enter, in every other mode Tab. */
  lemma {:induction false} OtherKeyIgnored(s: KeyState, msgs: seq<KeyMessage>, useTab: bool)
    ensures Run(s, Without(msgs, TriggerKey(!useTab)), useTab) == Run(s, msgs, useTab)
    decreases |msgs|
  {
    if |msgs| > 0 {
      var init := msgs[..|msgs| - 1];
      var last := msgs[|msgs| - 1];
      OtherKeyIgnored(s, init, useTab);
      if last != TriggerKey(!useTab) {
        var w := Without(init, TriggerKey(!useTab));
        assert (w + [last])[..|w + [last]| - 1] == w;
      } else {
        var w := Without(init, TriggerKey(!useTab));
        assert Without(msgs, TriggerKey(!useTab)) == w + [] == w;
      }
    }
  }

  /** `Char` messages spelling out `p`, with no trigger. */
  function Typed(p: string): (r: seq<KeyMessage>)
    ensures |r| == |p|
    ensures forall i :: 0 <= i < |p| ==> r[i] == Char(p[i])
  {
    seq(|p|, i requires 0 <= i < |p| => Char(p[i]))
  }

  /** Characters without a trigger are only buffered: nothing is emitted for them. */
  lemma {:induction false} TypedOnlyBuffers(s: KeyState, p: string, useTab: bool)
    ensures Run(s, Typed(p), useTab) == KeyState(s.buffer + p, s.emitted)
    decreases |p|
  {
    if |p| == 0 {
      assert s.buffer + p == s.buffer;
    } else {
      var q := p[..|p| - 1];
      assert Typed(p)[..|p| - 1] == Typed(q);
      TypedOnlyBuffers(s, q, useTab);
      assert s.buffer + q + [p[|p| - 1]] == s.buffer + p;
    }
  }

  /** Pending characters at the end of the stream are never emitted. */
  lemma TrailingCharsNotEmitted(msgs: seq<KeyMessage>, p: string, useTab: bool)
    ensures Run(Initial, msgs + Typed(p), useTab).emitted == Run(Initial, msgs, useTab).emitted
  {
    RunAppend(Initial, msgs, Typed(p), useTab);
    TypedOnlyBuffers(Run(Initial, msgs, useTab), p, useTab);
  }

  /** The key stream a scanner produces for the given scans: each one's characters, then the trigger. */
  function Encode(scans: seq<string>, useTab: bool): seq<KeyMessage>
    decreases |scans|
  {
    if |scans| == 0 then []
    else Encode(scans[..|scans| - 1], useTab) + Typed(scans[|scans| - 1]) + [TriggerKey(useTab)]
  }

  /** Typing one non-empty scan on an empty buffer and pressing the trigger emits it. */
  lemma TypedThenTrigger(s: KeyState, p: string, useTab: bool)
    requires s.buffer == [] && |p| > 0
    ensures Run(s, Typed(p) + [TriggerKey(useTab)], useTab) == KeyState([], s.emitted + [p])
  {
    var t := TriggerKey(useTab);
    RunAppend(s, Typed(p), [t], useTab);
    TypedOnlyBuffers(s, p, useTab);
    assert [] + p == p;
    var mid := KeyState(p, s.emitted);
    assert Run(s, Typed(p), useTab) == mid;
    assert [t][..0] == [];
    assert Run(mid, [t], useTab) == StepKey(mid, t, useTab);
  }

  lemma InitLast<T>(s: seq<T>)
    requires |s| > 0
    ensures s[..|s| - 1] + [s[|s| - 1]] == s
  {
  }

  /** Round trip: typing non-empty scans, each ended by the trigger, emits exactly those scans. */
  lemma {:induction false} EncodeRoundTrip(scans: seq<string>, useTab: bool)
    requires forall i :: 0 <= i < |scans| ==> |scans[i]| > 0
    ensures Run(Initial, Encode(scans, useTab), useTab) == KeyState([], scans)
    decreases |scans|
  {
    if |scans| > 0 {
      var init := scans[..|scans| - 1];
      var last := scans[|scans| - 1];
      assert forall i :: 0 <= i < |init| ==> init[i] == scans[i];
      EncodeRoundTrip(init, useTab);
      var e := Encode(init, useTab);
      var tail := Typed(last) + [TriggerKey(useTab)];
      assert Encode(scans, useTab) == (e + Typed(last)) + [TriggerKey(useTab)];
      assert (e + Typed(last)) + [TriggerKey(useTab)] == e + tail;
      RunAppend(Initial, e, tail, useTab);
      TypedThenTrigger(KeyState([], init), last, useTab);
      InitLast(scans);
    }
  }

  /** The number of trigger keys in a message list. */
  function Triggers(msgs: seq<KeyMessage>, useTab: bool): nat
    decreases |msgs|
  {
    if |msgs| == 0 then 0
    else Triggers(msgs[..|msgs| - 1], useTab) + (if msgs[|msgs| - 1] == TriggerKey(useTab) then 1 else 0)
  }

  /** At most one scan per trigger key. */
  lemma {:induction false} EmissionsBoundedByTriggers(msgs: seq<KeyMessage>, useTab: bool)
    ensures |Run(Initial, msgs, useTab).emitted| <= Triggers(msgs, useTab)
    decreases |msgs|
  {
    if |msgs| > 0 {
      EmissionsBoundedByTriggers(msgs[..|msgs| - 1], useTab);
    }
  }
}
