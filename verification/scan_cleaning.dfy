/**
 * Cleaning of a captured keystroke buffer before the URL check
 * (src-tauri/src/commands/scan.rs `strip_prefix`, `strip_suffix` and the
 * first half of `process_scan`): the configured prefix and suffix are
 * removed by mode, the rest is trimmed, and the URL policy decides.
 */
module ScanCleaning {
  import opened Wrappers
  import opened Strings
  import opened ScanConfig
  import opened UrlPolicy

  /** `s` is `pat` repeated some number of times (zero included). */
  predicate Repeats(s: string, pat: string)
    requires |pat| > 0
    decreases |s|
  {
    |s| == 0 || (StartsWith(s, pat) && Repeats(s[|pat|..], pat))
  }

  /** Rust's `trim_start_matches(pat)`: removes every leading repetition of `pat`. */
  function TrimStartMatches(s: string, pat: string): (r: string)
    ensures |r| <= |s| && r == s[|s| - |r|..]
    ensures |pat| > 0 ==> !StartsWith(r, pat) && Repeats(s[..|s| - |r|], pat)
    ensures |pat| == 0 ==> r == s
    decreases |s|
  {
    if |pat| > 0 && StartsWith(s, pat) then
      var r := TrimStartMatches(s[|pat|..], pat);
      assert s[..|s| - |r|][|pat|..] == s[|pat|..][..|s| - |pat| - |r|];
      r
    else
      s
  }

  /** Trimming the repetitions a second time removes nothing more. */
  lemma TrimStartMatchesIdempotent(s: string, pat: string)
    ensures TrimStartMatches(TrimStartMatches(s, pat), pat) == TrimStartMatches(s, pat)
  {
  }

  /** Rust's `strip_prefix(v).unwrap_or(input)`: at most one leading `v` removed. */
  function StripOnePrefix(input: string, v: string): (r: string)
    ensures StartsWith(input, v) ==> v + r == input
    ensures !StartsWith(input, v) ==> r == input
  {
    if StartsWith(input, v) then
      assert input == v + input[|v|..];
      input[|v|..]
    else input
  }

  /** Rust's `strip_suffix(v).unwrap_or(input)`: at most one trailing `v` removed. */
  function StripOneSuffix(input: string, v: string): (r: string)
    ensures EndsWith(input, v) ==> r + v == input
    ensures !EndsWith(input, v) ==> r == input
  {
    if EndsWith(input, v) then
      assert input == input[..|input| - |v|] + v;
      input[..|input| - |v|]
    else input
  }

  const DefaultPrefix: string := "QR:"

  /** `strip_prefix`, by prefix mode. */
  function StripPrefix(input: string, prefix: PrefixConfig): (r: string)
    ensures |r| <= |input|
    ensures prefix.mode == "default" ==> r == TrimStartMatches(input, DefaultPrefix)
    ensures prefix.mode == "custom" && prefix.value.Some? ==> r == StripOnePrefix(input, prefix.value.value)
    ensures prefix.mode != "default" && (prefix.mode != "custom" || prefix.value.None?) ==> r == input
  {
    match prefix.mode
    case "none" => input
    case "default" => TrimStartMatches(input, DefaultPrefix)
    case "custom" =>
      (match prefix.value
       case Some(v) => StripOnePrefix(input, v)
       case None => input)
    case _ => input
  }

  predicate IsLineFeed(c: char) { c == '\n' }

  predicate IsCarriageReturn(c: char) { c == '\r' }

  predicate IsTab(c: char) { c == '\t' }

  /** `strip_suffix`, by suffix mode. */
  function StripSuffix(input: string, suffix: SuffixConfig): (r: string)
    ensures |r| <= |input|
    ensures (suffix.mode == "enter" || suffix.mode == "newline") ==>
      r == TrimEndWhere(TrimEndWhere(input, IsLineFeed), IsCarriageReturn)
    ensures suffix.mode == "tab" ==> r == TrimEndWhere(input, IsTab)
    ensures suffix.mode == "custom" && suffix.value.Some? ==> r == StripOneSuffix(input, suffix.value.value)
    ensures suffix.mode !in {"enter", "newline", "tab"} && (suffix.mode != "custom" || suffix.value.None?) ==> r == input
  {
    match suffix.mode
    case "none" => input
    case "newline" => TrimEndWhere(TrimEndWhere(input, IsLineFeed), IsCarriageReturn)
    case "enter" => TrimEndWhere(TrimEndWhere(input, IsLineFeed), IsCarriageReturn)
    case "tab" => TrimEndWhere(input, IsTab)
    case "custom" =>
      (match suffix.value
       case Some(v) => StripOneSuffix(input, v)
       case None => input)
    case _ => input
  }

  /** The cleaning step of `process_scan`: prefix, then suffix, then `trim`. */
  function CleanScan(raw: string, config: Config): (r: string)
    ensures exists i :: TrimmedAt(StripSuffix(StripPrefix(raw, config.prefix), config.suffix), r, i, IsRustWhitespace)
    ensures |r| > 0 ==> !IsRustWhitespace(r[0]) && !IsRustWhitespace(r[|r| - 1])
    ensures |r| <= |raw|
  {
    var afterPrefix := StripPrefix(raw, config.prefix);
    var afterSuffix := StripSuffix(afterPrefix, config.suffix);
    RustTrim(afterSuffix)
  }

  /** What `process_scan` returns and what it records in history. */
  datatype ScanRecord = ScanRecord(hostname: string, url: string)

  /**
   * `process_scan` up to the history write: the cleaned text goes to the URL
   * policy; on success the host is returned and the cleaned text is the URL
   * recorded.
   */
  function ProcessScan(raw: string, config: Config, parse: string -> ParsedUrl): (r: Result<ScanRecord, string>)
    ensures r.Ok? <==> CheckUrl(CleanScan(raw, config), config.allowlist, config.blocklist, parse).Ok?
    ensures r.Err? ==> r == Err(CheckUrl(CleanScan(raw, config), config.allowlist, config.blocklist, parse).error)
    ensures r.Ok? ==> r.value.url == CleanScan(raw, config)
    ensures r.Ok? ==> r.value.hostname == Lower(parse(NormalizeUrl(r.value.url).value).host.value)
  {
    var cleaned := CleanScan(raw, config);
    match CheckUrl(cleaned, config.allowlist, config.blocklist, parse)
    case Ok(host) => Ok(ScanRecord(host, cleaned))
    case Err(e) => Err(e)
  }

  /** `"default"` removes every leading "QR:", `"custom"` with "QR:" only the first. */
  lemma DefaultVersusCustomPrefix()
    ensures StripPrefix("QR:QR:x", PrefixConfig("default", None)) == "x"
    ensures StripPrefix("QR:QR:x", PrefixConfig("custom", Some("QR:"))) == "QR:x"
  {
    var s := "QR:QR:x";
    assert StartsWith(s, DefaultPrefix) by { assert s[..3] == DefaultPrefix; }
    assert s[3..] == "QR:x";
    assert StartsWith("QR:x", DefaultPrefix) by { assert "QR:x"[..3] == DefaultPrefix; }
    assert "QR:x"[3..] == "x";
    assert !StartsWith("x", DefaultPrefix);
  }

  /** Line feeds are trimmed before carriage returns, so a "\n" before a final "\r" survives. */
  lemma EnterSuffixOrder()
    ensures StripSuffix("x\n\r", SuffixConfig("enter", None)) == "x\n"
    ensures StripSuffix("x\r\n", SuffixConfig("enter", None)) == "x"
  {
    var a := "x\n\r";
    assert !IsLineFeed(a[2]);
    assert TrimEndWhere(a, IsLineFeed) == a;
    assert a[..2] == "x\n";
    assert TrimEndWhere(a, IsCarriageReturn) == TrimEndWhere("x\n", IsCarriageReturn);
    var b := "x\r\n";
    assert b[..2] == "x\r";
    assert TrimEndWhere(b, IsLineFeed) == TrimEndWhere("x\r", IsLineFeed);
    assert "x\r"[..1] == "x";
  }

  /** Trimming a subset of the characters first changes nothing for a later trim of the whole set. */
  lemma {:induction false} TrimEndSubsumed(s: string, inner: char -> bool, outer: char -> bool)
    requires forall c :: inner(c) ==> outer(c)
    ensures TrimEndWhere(TrimEndWhere(s, inner), outer) == TrimEndWhere(s, outer)
    decreases |s|
  {
    if |s| > 0 && inner(s[|s| - 1]) {
      TrimEndSubsumed(s[..|s| - 1], inner, outer);
    }
  }

  /**
   * For the `"enter"`, `"newline"` and `"tab"` modes the suffix step is
   * subsumed by the final trim: only the prefix step and `trim` matter.
   */
  lemma WhitespaceSuffixModesAreTrim(raw: string, config: Config)
    requires config.suffix.mode in {"enter", "newline", "tab"}
    ensures CleanScan(raw, config) == RustTrim(StripPrefix(raw, config.prefix))
  {
    var p := StripPrefix(raw, config.prefix);
    if config.suffix.mode == "tab" {
      TrimEndSubsumed(p, IsTab, IsRustWhitespace);
    } else {
      var lf := TrimEndWhere(p, IsLineFeed);
      TrimEndSubsumed(lf, IsCarriageReturn, IsRustWhitespace);
      TrimEndSubsumed(p, IsLineFeed, IsRustWhitespace);
    }
  }

  /** With custom affixes, a scan framed by exactly those affixes cleans to the trimmed payload. */
  lemma CustomAffixesStripped(v: string, payload: string, w: string, config: Config)
    requires config.prefix == PrefixConfig("custom", Some(v))
    requires config.suffix == SuffixConfig("custom", Some(w))
    ensures CleanScan(v + payload + w, config) == RustTrim(payload)
  {
    var raw := v + payload + w;
    var p := payload + w;
    assert StartsWith(raw, v) by { assert raw[..|v|] == v; }
    assert StripOnePrefix(raw, v) == p by { assert raw[|v|..] == p; }
    assert EndsWith(p, w) by { assert p[|p| - |w|..] == w; }
    assert StripOneSuffix(p, w) == payload by { assert p[..|p| - |w|] == payload; }
    assert StripSuffix(StripPrefix(raw, config.prefix), config.suffix) == payload;
  }

  /** With both affix modes `"none"`, cleaning is `trim` of the raw text. */
  lemma NoAffixesIsTrim(raw: string, config: Config)
    requires config.prefix.mode == "none" && config.suffix.mode == "none"
    ensures CleanScan(raw, config) == RustTrim(raw)
  {
  }

  /** With the default configuration cleaning is `trim` alone. */
  lemma DefaultCleaningIsTrim(raw: string)
    ensures CleanScan(raw, DefaultConfig()) == RustTrim(raw)
  {
    WhitespaceSuffixModesAreTrim(raw, DefaultConfig());
  }
}
