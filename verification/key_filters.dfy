/**
 * The two Qt keyboard event filters that feed a scan buffer directly,
 * bypassing `feed_data`: `KeyboardScannerEventFilter`
 * (openqr/core/keyboard_scanner_event_filter.py), which also owns a global
 * keyboard hook, and `ScannerEventFilter` (openqr/scanner/scanner_event_filter.py).
 * Both append the key text to the buffer and, once the buffer ends with the
 * suffix, hand the WHOLE buffer on and empty it.
 */
module KeyFilters {
  import opened Strings
  import opened Wrappers
  import opened ScanFrame

  /** A Qt event: a key press carrying `QKeyEvent.text()`, or any other event. */
  datatype QtEvent = KeyPress(text: string) | OtherEvent

  /** An event delivered by the `keyboard` library's global hook. */
  datatype HookEvent = HookEvent(eventType: string, name: string)

  /** The outcome of appending text to a buffer and checking for the suffix. */
  datatype Flush = Flush(buffer: string, data: Option<string>)

  /**
   * The shared append-and-flush step: append `text`; if the suffix is
   * non-empty and now ends the buffer, the whole buffer is handed on and the
   * buffer is emptied.
   */
  function AppendAndFlush(buffer: string, suffix: string, text: string): (r: Flush)
    ensures r.data.Some? <==> |suffix| > 0 && EndsWith(buffer + text, suffix)
    ensures r.data.Some? ==> r.data.value == buffer + text && r.buffer == []
    ensures r.data.None? ==> r.buffer == buffer + text
  {
    var buf := buffer + text;
    if |suffix| > 0 && EndsWith(buf, suffix) then Flush([], Some(buf)) else Flush(buf, None)
  }

  /** Nothing flushed is lost: the handed-on data and the new buffer together are the old buffer plus the text. */
  lemma AppendAndFlushConserves(buffer: string, suffix: string, text: string)
    ensures var r := AppendAndFlush(buffer, suffix, text);
      (match r.data case Some(d) => d case None => []) + r.buffer == buffer + text
  {
    var r := AppendAndFlush(buffer, suffix, text);
    if r.data.Some? {
      assert r.data.value + [] == buffer + text;
    } else {
      assert [] + r.buffer == buffer + text;
    }
  }

  /** After an append-and-flush the buffer never ends with a non-empty suffix. */
  lemma AppendAndFlushLeavesNoSuffix(buffer: string, suffix: string, text: string)
    requires |suffix| > 0
    ensures !EndsWith(AppendAndFlush(buffer, suffix, text).buffer, suffix)
  {
  }

  // ---------------------------------------------------------------------
  // KeyboardScannerEventFilter
  // ---------------------------------------------------------------------

  /**
   * The filter: the listener it writes into, its `_listening` flag, and how
   * many global hooks it has registered (`keyboard.unhook_all` removes all).
   */
  datatype KeyboardFilter = KeyboardFilter(outer: Listener, hooked: bool, hooks: nat)

  /** One filter call: the new filter, the value returned to Qt, and the payloads emitted. */
  datatype FilterStep = FilterStep(filter: KeyboardFilter, consumed: bool, emitted: seq<string>)

  /** A filter that has registered a hook exactly when its flag is set. */
  predicate HookConsistent(f: KeyboardFilter) {
    f.hooks == (if f.hooked then 1 else 0)
  }

  /** A new filter: not listening, no hook. */
  function NewKeyboardFilter(outer: Listener): (f: KeyboardFilter)
    ensures !f.hooked && f.hooks == 0 && f.outer == outer
  {
    KeyboardFilter(outer, false, 0)
  }

  /** `start_global_keyboard_hook`: registers the hook once. */
  function StartHook(f: KeyboardFilter): (r: KeyboardFilter)
    ensures r.hooked && r.outer == f.outer
    ensures f.hooked ==> r == f
    ensures HookConsistent(f) ==> HookConsistent(r)
  {
    if !f.hooked then f.(hooks := f.hooks + 1, hooked := true) else f
  }

  /** `stop_global_keyboard_hook`: removes every hook, once. */
  function StopHook(f: KeyboardFilter): (r: KeyboardFilter)
    ensures !r.hooked && r.outer == f.outer
    ensures !f.hooked ==> r == f
    ensures HookConsistent(f) ==> HookConsistent(r)
  {
    if f.hooked then f.(hooks := 0, hooked := false) else f
  }

  /** Starting or stopping twice is the same as doing it once. */
  lemma HookIdempotent(f: KeyboardFilter)
    ensures StartHook(StartHook(f)) == StartHook(f)
    ensures StopHook(StopHook(f)) == StopHook(f)
  {
  }

  /** The payload `process_scanned_data` emits for flushed data, if any. */
  function ProcessFlushed(l: Listener, data: Option<string>): (r: seq<string>)
    ensures |r| <= 1
    ensures data.None? ==> r == []
    ensures data.Some? ==> (|r| == 1 <==> StartsWith(data.value, l.prefix) && EndsWith(data.value, l.suffix))
    ensures data.Some? && |r| == 1 ==> Some(r[0]) == ProcessScannedData(l.prefix, l.suffix, data.value)
  {
    match data
    case None => []
    case Some(d) =>
      match ProcessScannedData(l.prefix, l.suffix, d)
      case Some(u) => [u]
      case None => []
  }

  /** Appends to the listener's buffer directly and flushes on its suffix. */
  function WriteKey(f: KeyboardFilter, text: string): (r: FilterStep)
    ensures r.filter.(outer := r.filter.outer.(buffer := f.outer.buffer)) == f
    ensures !r.consumed
    ensures var b := f.outer.buffer + text;
      |f.outer.suffix| > 0 && EndsWith(b, f.outer.suffix) ==>
        r.filter.outer.buffer == [] && r.emitted == ProcessFlushed(f.outer, Some(b))
    ensures var b := f.outer.buffer + text;
      !(|f.outer.suffix| > 0 && EndsWith(b, f.outer.suffix)) ==>
        r.filter.outer.buffer == b && r.emitted == []
  {
    var fl := AppendAndFlush(f.outer.buffer, f.outer.suffix, text);
    FilterStep(f.(outer := f.outer.(buffer := fl.buffer)), false, ProcessFlushed(f.outer, fl.data))
  }

  /**
   * `eventFilter`: ignored unless both the listener and the filter are
   * listening; a key press with non-empty text is written; the event is
   * never consumed.
   */
  function EventFilter(f: KeyboardFilter, event: Option<QtEvent>): (r: FilterStep)
    ensures !r.consumed
    ensures r.filter.(outer := r.filter.outer.(buffer := f.outer.buffer)) == f
    ensures !f.outer.listening || !f.hooked ==> r == FilterStep(f, false, [])
    ensures event.None? || event == Some(OtherEvent) || event == Some(KeyPress([])) ==> r == FilterStep(f, false, [])
    ensures f.outer.listening && f.hooked && event.Some? && event.value.KeyPress? && |event.value.text| > 0 ==>
      r == WriteKey(f, event.value.text)
  {
    if !f.outer.listening || !f.hooked then FilterStep(f, false, [])
    else
      match event
      case Some(KeyPress(text)) =>
        if |text| > 0 then WriteKey(f, text) else FilterStep(f, false, [])
      case _ => FilterStep(f, false, [])
  }

  /** The text the hook appends for a key name, as written: Enter becomes "\n". */
  function HookKeyText(name: string): (r: Option<string>)
    ensures |name| == 1 ==> r == Some(name)
    ensures |name| != 1 && name !in {"enter", "tab", "space"} ==> r == None
    ensures r.Some? ==> |r.value| == 1
    ensures name == "enter" ==> r == Some("\n")
    ensures name == "tab" ==> r == Some("\t")
    ensures name == "space" ==> r == Some(" ")
  {
    if |name| == 1 then Some(name)
    else if name == "enter" then Some("\n")
    else if name == "tab" then Some("\t")
    else if name == "space" then Some(" ")
    else None
  }

  /** The intended mapping: Enter becomes the canonical "\r" the stored suffix uses. */
  function HookKeyTextCanonical(name: string): (r: Option<string>)
    ensures name != "enter" ==> r == HookKeyText(name)
    ensures name == "enter" ==> r == Some("\r")
  {
    if name == "enter" then Some("\r") else HookKeyText(name)
  }

  /** `_on_key_event`, with the key mapping as written (`canonical` false) or as intended. */
  function OnKeyEventWith(f: KeyboardFilter, event: HookEvent, canonical: bool): (r: FilterStep)
    ensures !r.consumed
    ensures r.filter.(outer := r.filter.outer.(buffer := f.outer.buffer)) == f
    ensures !f.outer.listening || !f.hooked || event.eventType != "down" ==> r == FilterStep(f, false, [])
  {
    if !f.outer.listening || !f.hooked || event.eventType != "down" then FilterStep(f, false, [])
    else
      var text := if canonical then HookKeyTextCanonical(event.name) else HookKeyText(event.name);
      match text
      case None => FilterStep(f, false, [])
      case Some(t) => WriteKey(f, t)
  }

  /** `_on_key_event` exactly as written. */
  function OnKeyEvent(f: KeyboardFilter, event: HookEvent): (r: FilterStep)
    ensures !f.outer.listening || !f.hooked ==> r == FilterStep(f, false, [])
  {
    OnKeyEventWith(f, event, false)
  }

  /** `_on_key_event` with Enter mapped to "\r". */
  function OnKeyEventCanonical(f: KeyboardFilter, event: HookEvent): (r: FilterStep)
    ensures !f.outer.listening || !f.hooked ==> r == FilterStep(f, false, [])
  {
    OnKeyEventWith(f, event, true)
  }

  /** A hook key press appends the mapped text, and an unmapped name changes nothing. */
  lemma OnKeyEventAppends(f: KeyboardFilter, name: string)
    requires f.outer.listening && f.hooked && |f.outer.suffix| > 0
    ensures HookKeyText(name).None? ==> OnKeyEvent(f, HookEvent("down", name)) == FilterStep(f, false, [])
    ensures HookKeyText(name).Some? && !EndsWith(f.outer.buffer + HookKeyText(name).value, f.outer.suffix) ==>
      OnKeyEvent(f, HookEvent("down", name)).filter.outer.buffer == f.outer.buffer + HookKeyText(name).value
  {
  }

  /**
   * As written, an Enter from the hook can never complete a canonical
   * suffix: the stored suffix has no "\n", so a buffer ending in "\n" never
   * ends with it, and the key is only buffered.
   */
  lemma EnterNeverFlushes(f: KeyboardFilter)
    requires f.outer.listening && f.hooked && CanonicalFraming(f.outer) && |f.outer.suffix| > 0
    ensures OnKeyEvent(f, HookEvent("down", "enter")).filter.outer.buffer == f.outer.buffer + "\n"
    ensures OnKeyEvent(f, HookEvent("down", "enter")).emitted == []
  {
    var buf := f.outer.buffer + "\n";
    var s := f.outer.suffix;
    assert buf[|buf| - 1] == '\n' && s[|s| - 1] != '\n';
    assert !EndsWith(buf, s);
  }

  /** With Enter mapped to "\r", typing the payload and pressing Enter emits it under the default suffix. */
  lemma CanonicalEnterCompletesFrame(f: KeyboardFilter, payload: string)
    requires f.outer.listening && f.hooked && f.outer.suffix == "\r"
    requires f.outer.buffer == f.outer.prefix + payload
    ensures OnKeyEventCanonical(f, HookEvent("down", "enter")).emitted == [payload]
    ensures OnKeyEventCanonical(f, HookEvent("down", "enter")).filter.outer.buffer == []
  {
    var buf := f.outer.prefix + payload + "\r";
    assert f.outer.buffer + "\r" == buf;
    assert buf[|buf| - 1..] == "\r";
    ProcessFramed(f.outer.prefix, "\r", payload);
  }

  /**
   * The whole buffer is flushed, garbage included: if anything precedes the
   * prefix, the flush empties the buffer and emits nothing.
   */
  lemma GarbageIsFlushedAway(f: KeyboardFilter, text: string)
    requires f.outer.listening && f.hooked && |f.outer.suffix| > 0 && |text| > 0
    requires EndsWith(f.outer.buffer + text, f.outer.suffix)
    requires !StartsWith(f.outer.buffer + text, f.outer.prefix)
    ensures EventFilter(f, Some(KeyPress(text))).filter.outer.buffer == []
    ensures EventFilter(f, Some(KeyPress(text))).emitted == []
  {
  }

  // ---------------------------------------------------------------------
  // ScannerEventFilter
  // ---------------------------------------------------------------------

  /** The object the scanner filter writes into: its buffer and `scanner_suffix`. */
  datatype ScannerHost = ScannerHost(buffer: string, scannerSuffix: string)

  /** One scanner-filter call: the new host, the value returned to Qt, and the data handed on. */
  datatype ScannerStep = ScannerStep(host: ScannerHost, consumed: bool, flushed: Option<string>)

  /** `ScannerEventFilter.eventFilter`: no listening gate; key text is appended and flushed on the suffix. */
  function ScannerEventFilter(h: ScannerHost, event: QtEvent): (r: ScannerStep)
    ensures !r.consumed
    ensures r.host.scannerSuffix == h.scannerSuffix
    ensures !event.KeyPress? || event.text == [] ==> r == ScannerStep(h, false, None)
    ensures |h.scannerSuffix| == 0 ==> r.flushed == None
    ensures r.flushed.Some? ==> EndsWith(r.flushed.value, h.scannerSuffix) && r.host.buffer == []
    ensures event.KeyPress? && |event.text| > 0 ==>
      var b := h.buffer + event.text;
      if |h.scannerSuffix| > 0 && EndsWith(b, h.scannerSuffix)
      then r.host.buffer == [] && r.flushed == Some(b)
      else r.host.buffer == b && r.flushed == None
  {
    match event
    case KeyPress(text) =>
      if |text| > 0 then
        var fl := AppendAndFlush(h.buffer, h.scannerSuffix, text);
        ScannerStep(h.(buffer := fl.buffer), false, fl.data)
      else ScannerStep(h, false, None)
    case OtherEvent => ScannerStep(h, false, None)
  }

  /** The text one event types: a key press's text, or nothing. */
  function EventText(event: QtEvent): string {
    if event.KeyPress? then event.text else []
  }

  /** The text a sequence of events types, in order. */
  function TypedText(events: seq<QtEvent>): string {
    if |events| == 0 then [] else EventText(events[0]) + TypedText(events[1..])
  }

  /** Handed-on data as a list of zero or one strings. */
  function FlushedList(data: Option<string>): (r: seq<string>)
    ensures |r| <= 1
    ensures data.Some? <==> |r| == 1
    ensures data.Some? ==> r[0] == data.value
  {
    match data
    case Some(d) => [d]
    case None => []
  }

  /** One scanner-filter call loses nothing: handed-on data then the buffer is the old buffer then the typed text. */
  lemma ScannerStepConserves(h: ScannerHost, event: QtEvent)
    ensures var r := ScannerEventFilter(h, event);
      Concat(FlushedList(r.flushed)) + r.host.buffer == h.buffer + EventText(event)
  {
    var r := ScannerEventFilter(h, event);
    if event.KeyPress? && |event.text| > 0 {
      AppendAndFlushConserves(h.buffer, h.scannerSuffix, event.text);
      if r.flushed.Some? {
        assert Concat(FlushedList(r.flushed)) == r.flushed.value + [];
      }
    } else {
      assert h.buffer + EventText(event) == h.buffer;
    }
  }

  /** Runs the scanner filter over a sequence of events, collecting the data handed on. */
  function ScannerRun(h: ScannerHost, events: seq<QtEvent>): (r: (ScannerHost, seq<string>))
    ensures r.0.scannerSuffix == h.scannerSuffix
    decreases |events|
  {
    if |events| == 0 then (h, [])
    else
      var step := ScannerEventFilter(h, events[0]);
      var rest := ScannerRun(step.host, events[1..]);
      (rest.0, FlushedList(step.flushed) + rest.1)
  }

  /**
   * Over any sequence of events, the data handed on followed by what is
   * still buffered is exactly the starting buffer followed by all typed text.
   */
  lemma {:induction false} ScannerRunConserves(h: ScannerHost, events: seq<QtEvent>)
    ensures Concat(ScannerRun(h, events).1) + ScannerRun(h, events).0.buffer == h.buffer + TypedText(events)
    decreases |events|
  {
    if |events| == 0 {
      assert Concat([]) + h.buffer == h.buffer + [];
    } else {
      var step := ScannerEventFilter(h, events[0]);
      var rest := ScannerRun(step.host, events[1..]);
      var first := FlushedList(step.flushed);
      ScannerRunConserves(step.host, events[1..]);
      ScannerStepConserves(h, events[0]);
      ConcatAppend(first, rest.1);
      assert ScannerRun(h, events) == (rest.0, first + rest.1);
      assert TypedText(events) == EventText(events[0]) + TypedText(events[1..]);
      ChainAppend(Concat(first), Concat(rest.1), rest.0.buffer, step.host.buffer,
        TypedText(events[1..]), h.buffer, EventText(events[0]));
    }
  }

  /** Regrouping for the conservation proofs: `(a + b) + c == x + (y + e)` from `b + c == d + e` and `a + d == x + y`. */
  lemma ChainAppend(a: string, b: string, c: string, d: string, e: string, x: string, y: string)
    requires b + c == d + e && a + d == x + y
    ensures (a + b) + c == x + (y + e)
  {
    calc {
      (a + b) + c;
      a + (b + c);
      a + (d + e);
      (a + d) + e;
      (x + y) + e;
    }
  }

  /** Every string in `ds` ends with `suffix`, which is non-empty. */
  predicate AllEndWith(ds: seq<string>, suffix: string) {
    forall d :: d in ds ==> |suffix| > 0 && EndsWith(d, suffix)
  }

  lemma AllEndWithAppend(a: seq<string>, b: seq<string>, suffix: string)
    requires AllEndWith(a, suffix) && AllEndWith(b, suffix)
    ensures AllEndWith(a + b, suffix)
  {
  }

  /** Every piece of data the scanner filter hands on ends with the (non-empty) suffix. */
  lemma {:induction false} ScannerRunFlushesEndWithSuffix(h: ScannerHost, events: seq<QtEvent>)
    ensures AllEndWith(ScannerRun(h, events).1, h.scannerSuffix)
    decreases |events|
  {
    if |events| > 0 {
      var step := ScannerEventFilter(h, events[0]);
      var rest := ScannerRun(step.host, events[1..]);
      var first := FlushedList(step.flushed);
      ScannerRunFlushesEndWithSuffix(step.host, events[1..]);
      assert step.host.scannerSuffix == h.scannerSuffix;
      if step.flushed.Some? {
        assert first == [step.flushed.value];
      } else {
        assert first == [];
      }
      AllEndWithAppend(first, rest.1, h.scannerSuffix);
      assert ScannerRun(h, events).1 == first + rest.1;
    } else {
      assert ScannerRun(h, events).1 == [];
    }
  }
}
