/**
 * The non-widget policies of the Qt main window (openqr/qt/app.py): config
 * defaults on load, the scan history (append, trim, clear, the display line
 * and its copy-back), the decision taken for a scanned URL, and the guards
 * around starting and stopping the listener.
 */
module QtApp {
  import opened Wrappers
  import opened Strings
  import ScanFrame

  // ---------------------------------------------------------------- config

  /** One history record: `{"url": ..., "timestamp": ...}`. */
  datatype HistoryEntry = HistoryEntry(url: string, timestamp: string)

  /** The keys of `config.json` this window reads; a missing key is None. */
  datatype StoredConfig = StoredConfig(
    prefix: Option<string>,
    suffix: Option<string>,
    allow: Option<seq<string>>,
    deny: Option<seq<string>>,
    logoImagePath: Option<string>,
    stopAfterFirstScan: Option<bool>,
    scanHistory: Option<seq<HistoryEntry>>)

  /** The window's fields after `load_config`. */
  datatype Settings = Settings(
    scannerPrefix: string,
    scannerSuffix: string,
    allowDomains: seq<string>,
    denyDomains: seq<string>,
    logoImagePath: Option<string>,
    stopAfterFirstScan: bool)

  datatype Loaded = Loaded(settings: Settings, config: StoredConfig)

  /**
   * `load_config`: each missing key takes its default, and the defaults for
   * `stop_after_first_scan` and `scan_history` are written back into the
   * config.
   */
  function LoadConfig(stored: StoredConfig): (r: Loaded)
    ensures r.settings.scannerPrefix == stored.prefix.GetOr("")
    ensures r.settings.scannerSuffix == stored.suffix.GetOr("\r")
    ensures r.settings.allowDomains == stored.allow.GetOr([])
    ensures r.settings.denyDomains == stored.deny.GetOr([])
    ensures r.settings.logoImagePath == stored.logoImagePath
    ensures r.settings.stopAfterFirstScan == stored.stopAfterFirstScan.GetOr(true)
    ensures r.config.stopAfterFirstScan.Some? && r.config.scanHistory.Some?
    ensures stored.stopAfterFirstScan.Some? ==> r.config.stopAfterFirstScan == stored.stopAfterFirstScan
    ensures stored.scanHistory.Some? ==> r.config.scanHistory == stored.scanHistory
    ensures r.config.(stopAfterFirstScan := stored.stopAfterFirstScan, scanHistory := stored.scanHistory) == stored
  {
    var stopAfter := stored.stopAfterFirstScan.GetOr(true);
    var settings := Settings(
      stored.prefix.GetOr(""),
      stored.suffix.GetOr("\r"),
      stored.allow.GetOr([]),
      stored.deny.GetOr([]),
      stored.logoImagePath,
      stopAfter);
    Loaded(settings, stored.(
      stopAfterFirstScan := Some(stopAfter),
      scanHistory := Some(stored.scanHistory.GetOr([]))))
  }

  /** Loading the written-back config again changes nothing. */
  lemma LoadConfigStable(stored: StoredConfig)
    ensures LoadConfig(LoadConfig(stored).config) == LoadConfig(stored)
  {
  }

  /** An empty config file gives the documented defaults. */
  lemma EmptyConfigDefaults()
    ensures var r := LoadConfig(StoredConfig(None, None, None, None, None, None, None));
      r.settings == Settings("", "\r", [], [], None, true)
      && r.config.stopAfterFirstScan == Some(true) && r.config.scanHistory == Some([])
  {
  }

  // ---------------------------------------------------------------- history

  /** `add_to_history`: one entry appended; the clock reading is a parameter. */
  function AddToHistory(history: seq<HistoryEntry>, url: string, timestamp: string): (r: seq<HistoryEntry>)
    ensures |r| == |history| + 1
    ensures r[..|history|] == history
    ensures r[|history|] == HistoryEntry(url, timestamp)
  {
    history + [HistoryEntry(url, timestamp)]
  }

  /** `clear_history`. */
  function ClearHistory(history: seq<HistoryEntry>): (r: seq<HistoryEntry>)
    ensures |r| == 0
  {
    []
  }

  /** `trim_history`: drops from the front while the list is longer than `max`. */
  method TrimHistory(history: seq<HistoryEntry>, max: nat) returns (r: seq<HistoryEntry>)
    ensures |history| <= max ==> r == history
    ensures |history| > max ==> |r| == max
    ensures r == history[|history| - |r|..]
  {
    r := history;
    while |r| > max
      invariant r == history[|history| - |r|..]
      invariant |history| <= max ==> r == history
      invariant |history| > max ==> |r| >= max
      decreases |r|
    {
      r := r[1..];
    }
  }

  /** The most recent scan survives a trim to any positive size. */
  lemma NewestSurvivesTrim(history: seq<HistoryEntry>, url: string, timestamp: string, max: nat, trimmed: seq<HistoryEntry>)
    requires max >= 1
    requires |trimmed| == if |history| + 1 <= max then |history| + 1 else max
    requires trimmed == AddToHistory(history, url, timestamp)[|history| + 1 - |trimmed|..]
    ensures |trimmed| > 0 && trimmed[|trimmed| - 1] == HistoryEntry(url, timestamp)
  {
  }

  const Separator: string := " - "

  /** `refresh_history_list`: one line `"{ts} - {url}"` per entry. */
  function HistoryLine(e: HistoryEntry): (r: string)
    ensures |r| == |e.timestamp| + |Separator| + |e.url|
    ensures StartsWith(r, e.timestamp) && EndsWith(r, e.url)
    ensures r[|e.timestamp|..|e.timestamp| + |Separator|] == Separator
  {
    e.timestamp + Separator + e.url
  }

  /** `copy_selected_url`: `text.split(" - ", 1)[-1]`, the text after the first separator, or all of it. */
  function CopiedUrl(text: string): (r: string)
    ensures !Contains(text, Separator) ==> r == text
    ensures Contains(text, Separator) ==> EndsWith(text, r) && |r| <= |text| - |Separator|
    ensures Contains(text, Separator) ==> r == text[Find(text, Separator) + |Separator|..]
  {
    var i := Find(text, Separator);
    if i == -1 then text else text[i + |Separator|..]
  }

  /** A timestamp the line splits back correctly: no separator inside, and no " -" at its end. */
  predicate SplitsCleanly(ts: string) {
    !Contains(ts, Separator) && !EndsWith(ts, " -")
  }

  /** No separator starts inside a cleanly splitting timestamp. */
  lemma NoSeparatorBefore(ts: string, url: string, j: int)
    requires SplitsCleanly(ts) && 0 <= j < |ts|
    ensures !OccursAt(ts + Separator + url, Separator, j)
  {
    var line := ts + Separator + url;
    var n := |ts|;
    if j + 3 <= n {
      assert line[j..j + 3] == ts[j..j + 3];
      assert !OccursAt(ts, Separator, j);
    } else if j == n - 1 {
      assert line[j..j + 3][1] == line[j + 1] == ' ';
      assert Separator[1] == '-';
    } else {
      assert j == n - 2;
      assert line[j..j + 3][0] == line[j] == ts[n - 2];
      assert line[j..j + 3][1] == line[j + 1] == ts[n - 1];
      assert ts[n - 2..] == [ts[n - 2], ts[n - 1]];
      assert Separator[0] == ' ' && Separator[1] == '-';
    }
  }

  /** The first separator in a history line is the one after the timestamp. */
  lemma SeparatorAfterTimestamp(e: HistoryEntry)
    requires SplitsCleanly(e.timestamp)
    ensures Find(HistoryLine(e), Separator) == |e.timestamp|
  {
    var line := HistoryLine(e);
    var n := |e.timestamp|;
    assert line[n..n + 3] == Separator;
    assert OccursAt(line, Separator, n);
    forall j | 0 <= j < n ensures !OccursAt(line, Separator, j) {
      NoSeparatorBefore(e.timestamp, e.url, j);
    }
  }

  /** Copying from a history line gives back the recorded URL, whatever the URL contains. */
  lemma HistoryLineRoundTrip(e: HistoryEntry)
    requires SplitsCleanly(e.timestamp)
    ensures CopiedUrl(HistoryLine(e)) == e.url
  {
    SeparatorAfterTimestamp(e);
  }

  /** A string shaped like `strftime("%Y-%m-%d %H:%M:%S")`: "dddd-dd-dd dd:dd:dd". */
  predicate IsTimestampShape(ts: string) {
    && |ts| == 19
    && (forall i :: 0 <= i < 19 && i !in {4, 7, 10, 13, 16} ==> '0' <= ts[i] <= '9')
    && ts[4] == '-' && ts[7] == '-' && ts[10] == ' ' && ts[13] == ':' && ts[16] == ':'
  }

  /** Every timestamp `add_to_history` writes splits cleanly. */
  lemma TimestampSplitsCleanly(ts: string)
    requires IsTimestampShape(ts)
    ensures SplitsCleanly(ts)
  {
    forall i | 0 <= i <= |ts| ensures !OccursAt(ts, Separator, i) {
      if i + 3 <= |ts| {
        if i == 10 {
          assert '0' <= ts[11] <= '9';
          assert ts[i..i + 3][1] != Separator[1];
        } else {
          assert ts[i] != ' ';
          assert ts[i..i + 3][0] != Separator[0];
        }
      }
    }
    assert ts[18] != '-';
  }

  // ---------------------------------------------------------------- scanned URLs

  /** What the window holds that `_on_url_scanned` reads or changes. */
  datatype Window = Window(
    history: seq<HistoryEntry>,
    allowDomains: seq<string>,
    denyDomains: seq<string>,
    autoOpen: bool,
    stopAfterScan: bool)

  /** The user's answer to the "Open URL?" dialog, used only when it is shown. */
  datatype DialogAnswer = DialogAnswer(yes: bool, dontAskAgain: bool)

  datatype Verdict = InvalidUrl | BlockedDomain | Accepted

  datatype ScanResponse = ScanResponse(window: Window, verdict: Verdict, opensUrl: bool, stopListening: bool)

  /**
   * `_on_url_scanned`. URL validation and `urlparse(url).netloc` are
   * parameters, as is the clock and the dialog's answer. A valid URL whose
   * lower-cased netloc is not on the deny list is recorded once and opened
   * when the netloc is on the allow list, auto-open is on, or the user says
   * yes; "don't ask again" with yes adds the netloc to the allow list if
   * absent.
   */
  function OnUrlScanned(w: Window, url: string, valid: bool, netloc: string, timestamp: string, answer: DialogAnswer): (r: ScanResponse)
    ensures !valid ==> r == ScanResponse(w, InvalidUrl, false, w.stopAfterScan)
    ensures valid && Lower(netloc) in w.denyDomains ==> r == ScanResponse(w, BlockedDomain, false, w.stopAfterScan)
    ensures r.verdict == Accepted <==> valid && Lower(netloc) !in w.denyDomains
    ensures r.verdict == Accepted ==> r.window.history == AddToHistory(w.history, url, timestamp) && !r.stopListening
    ensures r.verdict == Accepted ==>
      (r.opensUrl <==> Lower(netloc) in w.allowDomains || w.autoOpen || answer.yes)
    ensures r.window.(allowDomains := w.allowDomains, history := w.history) == w
    ensures r.window.allowDomains == w.allowDomains
         || (r.window.allowDomains == w.allowDomains + [Lower(netloc)] && Lower(netloc) !in w.allowDomains
             && r.verdict == Accepted && answer.yes && answer.dontAskAgain && !w.autoOpen)
    ensures valid && Lower(netloc) !in w.denyDomains && Lower(netloc) !in w.allowDomains && !w.autoOpen
            && answer.yes && answer.dontAskAgain ==>
      r.window.allowDomains == w.allowDomains + [Lower(netloc)]
    ensures !(valid && Lower(netloc) !in w.denyDomains && Lower(netloc) !in w.allowDomains && !w.autoOpen
              && answer.yes && answer.dontAskAgain) ==>
      r.window.allowDomains == w.allowDomains
  {
    if !valid then ScanResponse(w, InvalidUrl, false, w.stopAfterScan)
    else
      var domain := Lower(netloc);
      if domain in w.denyDomains then ScanResponse(w, BlockedDomain, false, w.stopAfterScan)
      else
        var recorded := w.(history := AddToHistory(w.history, url, timestamp));
        if domain in w.allowDomains || w.autoOpen then ScanResponse(recorded, Accepted, true, false)
        else if answer.yes then
          var allow := if answer.dontAskAgain && domain !in w.allowDomains then w.allowDomains + [domain] else w.allowDomains;
          ScanResponse(recorded.(allowDomains := allow), Accepted, true, false)
        else ScanResponse(recorded, Accepted, false, false)
  }

  /** "Don't ask again" never puts a domain on the allow list twice. */
  lemma ScannedKeepsAllowListDistinct(w: Window, url: string, valid: bool, netloc: string, timestamp: string, answer: DialogAnswer)
    requires Distinct(w.allowDomains)
    ensures Distinct(OnUrlScanned(w, url, valid, netloc, timestamp, answer).window.allowDomains)
  {
    var r := OnUrlScanned(w, url, valid, netloc, timestamp, answer);
    if r.window.allowDomains != w.allowDomains {
      var a := r.window.allowDomains;
      forall i, j | 0 <= i < j < |a| ensures a[i] != a[j] {
        if j == |a| - 1 {
          assert a[j] == Lower(netloc);
          assert a[i] == w.allowDomains[i];
        }
      }
    }
  }

  /** A scanned URL is recorded exactly once or not at all, and only a recorded URL is opened. */
  lemma ScannedRecordedAtMostOnce(w: Window, url: string, valid: bool, netloc: string, timestamp: string, answer: DialogAnswer)
    ensures var r := OnUrlScanned(w, url, valid, netloc, timestamp, answer);
      && (r.verdict == Accepted ==> |r.window.history| == |w.history| + 1)
      && (r.verdict != Accepted ==> r.window.history == w.history && !r.opensUrl)
  {
  }

  // ---------------------------------------------------------------- listener guards

  /** The window's `start_listening`: starts the listener only when it is not already listening. */
  function AppStartListening(l: ScanFrame.Listener): (r: ScanFrame.Listener)
    ensures r.listening
    ensures l.listening ==> r == l
    ensures r.(listening := l.listening) == l
  {
    if !l.listening then ScanFrame.StartListening(l, true) else l
  }

  /** The window's `stop_listening`: stops (and so clears) the listener only when it is listening. */
  function AppStopListening(l: ScanFrame.Listener): (r: ScanFrame.Listener)
    ensures !r.listening
    ensures !l.listening ==> r == l
    ensures l.listening ==> r == ScanFrame.StopListening(l) && r.buffer == []
  {
    if l.listening then ScanFrame.StopListening(l) else l
  }

  /** Pressing either button twice acts once. */
  lemma ListenGuardsIdempotent(l: ScanFrame.Listener)
    ensures AppStartListening(AppStartListening(l)) == AppStartListening(l)
    ensures AppStopListening(AppStopListening(l)) == AppStopListening(l)
  {
  }
}
