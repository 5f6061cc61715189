/**
 * The two minimal listeners: the command-line `QRCliListener`
 * (openqr/cli/listener.py) and the scanner package's `QRCodeListener`
 * (openqr/scanner/listener.py). Each is a flag and a buffer; neither
 * touches its buffer after construction.
 */
module SimpleListeners {
  import ScanFrame

  datatype CliListener = CliListener(buffer: string, listening: bool, prefix: string, suffix: string)

  /** `QRCliListener(prefix, suffix)`: empty buffer, not listening, framing kept as given. */
  function NewCliListener(prefix: string, suffix: string): (l: CliListener)
    ensures l.buffer == [] && !l.listening
    ensures l.prefix == prefix && l.suffix == suffix
  {
    CliListener([], false, prefix, suffix)
  }

  /** `QRCliListener()`: both framing strings default to "". */
  function DefaultCliListener(): (l: CliListener)
    ensures l == NewCliListener("", "")
  {
    CliListener([], false, "", "")
  }

  function CliStart(l: CliListener): (r: CliListener)
    ensures r.listening && r.(listening := l.listening) == l
  {
    l.(listening := true)
  }

  function CliStop(l: CliListener): (r: CliListener)
    ensures !r.listening && r.(listening := l.listening) == l
  {
    l.(listening := false)
  }

  /** `listen`: returns None and changes nothing, listening or not. */
  function CliListen(l: CliListener): (r: CliListener)
    ensures r.buffer == l.buffer && r.listening == l.listening
    ensures r.prefix == l.prefix && r.suffix == l.suffix
  {
    l
  }

  /** `set_prefix_suffix`: both values stored as given. */
  function CliSetPrefixSuffix(l: CliListener, prefix: string, suffix: string): (r: CliListener)
    ensures r.prefix == prefix && r.suffix == suffix
    ensures r.buffer == l.buffer && r.listening == l.listening
  {
    l.(prefix := prefix, suffix := suffix)
  }

  /** Starting and stopping are idempotent, and stopping keeps the buffer. */
  lemma CliStartStopIdempotent(l: CliListener)
    ensures CliStart(CliStart(l)) == CliStart(l)
    ensures CliStop(CliStop(l)) == CliStop(l)
    ensures CliStop(CliStart(l)).buffer == l.buffer
  {
  }

  /** Unlike the Qt listener, the command-line listener keeps a "\r\n" suffix verbatim. */
  lemma CliKeepsNewlinesVerbatim(l: CliListener, q: ScanFrame.Listener)
    ensures CliSetPrefixSuffix(l, "", "\r\n").suffix == "\r\n"
    ensures ScanFrame.SetPrefixSuffix(q, "", "\r\n").suffix == "\r"
  {
    assert "\r\n"[1] == '\n';
  }

  /** The scanner package's listener: a buffer and a flag. */
  datatype ScannerListener = ScannerListener(buffer: string, listening: bool)

  /** `QRCodeListener(timeout, allowed_domains)`: both arguments are ignored. */
  function NewScannerListener(timeout: real, allowedDomains: seq<string>): (l: ScannerListener)
    ensures l.buffer == [] && !l.listening
  {
    ScannerListener([], false)
  }

  datatype ListenCall = Start | Stop

  function ScannerApply(l: ScannerListener, call: ListenCall): (r: ScannerListener)
    ensures r.buffer == l.buffer
    ensures r.listening <==> call == Start
  {
    match call
    case Start => l.(listening := true)
    case Stop => l.(listening := false)
  }

  /** A sequence of start and stop calls, applied left to right. */
  function ScannerRun(l: ScannerListener, calls: seq<ListenCall>): ScannerListener
    decreases |calls|
  {
    if |calls| == 0 then l else ScannerApply(ScannerRun(l, calls[..|calls| - 1]), calls[|calls| - 1])
  }

  /** After any non-empty run the flag is the last call's, and the buffer is untouched. */
  lemma {:induction false} ScannerFlagIsLastCall(l: ScannerListener, calls: seq<ListenCall>)
    ensures ScannerRun(l, calls).buffer == l.buffer
    ensures |calls| > 0 ==> (ScannerRun(l, calls).listening <==> calls[|calls| - 1] == Start)
    ensures |calls| == 0 ==> ScannerRun(l, calls) == l
    decreases |calls|
  {
    if |calls| > 0 {
      ScannerFlagIsLastCall(l, calls[..|calls| - 1]);
    }
  }
}
