/**
 * The URL safety policy of the desktop app: `check_url` with its helpers
 * (src-tauri/src/commands/url.rs) and the older `check_domain`
 * (src-tauri/src/lib.rs). URL parsing belongs to the `url` crate and is a
 * parameter here: `parse` maps the full URL to what `Url::parse`,
 * `domain()` and `host_str()` give back.
 */
module UrlPolicy {
  import opened Wrappers
  import opened Strings

  /** The outcome of `Url::parse`: a failure, or the optional domain and host. */
  datatype ParsedUrl = Unparseable | Parsed(domain: Option<string>, host: Option<string>)

  const Scheme: string := "https://"
  const SchemeMark: string := "://"

  /** `normalize_url`: a URL without "://" gets "https://" in front; it never fails. */
  function NormalizeUrl(url: string): (r: Result<string, string>)
    ensures r.Ok?
    ensures Contains(url, SchemeMark) ==> r.value == url
    ensures !Contains(url, SchemeMark) ==> r.value == Scheme + url
    ensures Contains(r.value, SchemeMark)
  {
    if Contains(url, SchemeMark) then Ok(url)
    else
      assert OccursAt(Scheme + url, SchemeMark, 5);
      Ok(Scheme + url)
  }

  /** Normalising twice adds nothing. */
  lemma NormalizeUrlIdempotent(url: string)
    ensures NormalizeUrl(NormalizeUrl(url).value) == NormalizeUrl(url)
  {
  }

  /** `normalize_list`: every entry lower-cased, in order. */
  function NormalizeList(list: seq<string>): (r: seq<string>)
    ensures |r| == |list|
    ensures forall i :: 0 <= i < |list| ==> r[i] == Lower(list[i])
  {
    seq(|list|, i requires 0 <= i < |list| => Lower(list[i]))
  }

  lemma NormalizeListIdempotent(list: seq<string>)
    ensures NormalizeList(NormalizeList(list)) == NormalizeList(list)
  {
    forall i | 0 <= i < |list| ensures NormalizeList(NormalizeList(list))[i] == NormalizeList(list)[i] {
      LowerIdempotent(list[i]);
    }
  }

  /** `entry` occurs in the domain or in the host. */
  predicate EntryMatches(domain: string, host: string, entry: string) {
    Contains(domain, entry) || Contains(host, entry)
  }

  /** `matches_list`: some entry is a substring of the domain or of the host. */
  function MatchesList(domain: string, host: string, list: seq<string>): (r: bool)
    ensures r <==> exists i :: 0 <= i < |list| && EntryMatches(domain, host, list[i])
    decreases |list|
  {
    if |list| == 0 then false
    else if EntryMatches(domain, host, list[0]) then true
    else
      var rest := MatchesList(domain, host, list[1..]);
      assert forall i :: 1 <= i < |list| ==> list[i] == list[1..][i - 1];
      rest
  }

  function BlockedMessage(domain: string): string {
    "Domain '" + domain + "' is blocked."
  }

  function NotAllowedMessage(domain: string): string {
    "Domain '" + domain + "' is not in your allowlist."
  }

  /**
   * `check_url`: the lower-cased host when the URL parses with a domain and a
   * host, no block-list entry matches, and the allow list is empty or has a
   * matching entry; otherwise the first failing check's message.
   */
  function CheckUrl(url: string, allowList: seq<string>, blockList: seq<string>, parse: string -> ParsedUrl): (r: Result<string, string>)
    ensures parse(NormalizeUrl(url).value).Unparseable? ==> r == Err("Invalid URL format")
    ensures parse(NormalizeUrl(url).value).Parsed? && parse(NormalizeUrl(url).value).domain.None? ==>
      r == Err("URL has no valid domain")
    ensures (parse(NormalizeUrl(url).value).Parsed? && parse(NormalizeUrl(url).value).domain.Some?
      && parse(NormalizeUrl(url).value).host.None?) ==> r == Err("URL has no valid hostname")
    ensures r.Ok? <==>
      var p := parse(NormalizeUrl(url).value);
      && p.Parsed? && p.domain.Some? && p.host.Some?
      && var d := Lower(p.domain.value); var h := Lower(p.host.value);
      && (forall i :: 0 <= i < |blockList| ==> !EntryMatches(d, h, Lower(blockList[i])))
      && (|allowList| == 0 || exists i :: 0 <= i < |allowList| && EntryMatches(d, h, Lower(allowList[i])))
    ensures r.Ok? ==> r.value == Lower(parse(NormalizeUrl(url).value).host.value)
    ensures var p := parse(NormalizeUrl(url).value);
      p.Parsed? && p.domain.Some? && p.host.Some? && r.Err? ==>
        var d := Lower(p.domain.value); var h := Lower(p.host.value);
        r.error == (if exists i :: 0 <= i < |blockList| && EntryMatches(d, h, Lower(blockList[i]))
                    then BlockedMessage(d) else NotAllowedMessage(d))
  {
    var full := NormalizeUrl(url).value;
    match parse(full)
    case Unparseable => Err("Invalid URL format")
    case Parsed(domain, host) =>
      if domain.None? then Err("URL has no valid domain")
      else if host.None? then Err("URL has no valid hostname")
      else
        var d := Lower(domain.value);
        var h := Lower(host.value);
        var allow := NormalizeList(allowList);
        var block := NormalizeList(blockList);
        if MatchesList(d, h, block) then Err(BlockedMessage(d))
        else if |allow| > 0 && !MatchesList(d, h, allow) then Err(NotAllowedMessage(d))
        else Ok(h)
  }

  /** A matching block-list entry rejects the URL whatever the allow list says. */
  lemma BlockTakesPriority(url: string, allowList: seq<string>, blockList: seq<string>, parse: string -> ParsedUrl, i: nat)
    requires parse(NormalizeUrl(url).value).Parsed?
    requires parse(NormalizeUrl(url).value).domain.Some? && parse(NormalizeUrl(url).value).host.Some?
    requires i < |blockList|
    requires EntryMatches(Lower(parse(NormalizeUrl(url).value).domain.value), Lower(parse(NormalizeUrl(url).value).host.value), Lower(blockList[i]))
    ensures CheckUrl(url, allowList, blockList, parse) == Err(BlockedMessage(Lower(parse(NormalizeUrl(url).value).domain.value)))
  {
  }

  /** With both lists empty every URL that parses with a domain and a host is allowed. */
  lemma EmptyListsAllowAll(url: string, parse: string -> ParsedUrl)
    requires parse(NormalizeUrl(url).value).Parsed?
    requires parse(NormalizeUrl(url).value).domain.Some? && parse(NormalizeUrl(url).value).host.Some?
    ensures CheckUrl(url, [], [], parse) == Ok(Lower(parse(NormalizeUrl(url).value).host.value))
  {
  }

  /** The empty string is a substring of everything, so an empty block-list entry blocks every URL. */
  lemma EmptyBlockEntryBlocksAll(url: string, allowList: seq<string>, blockList: seq<string>, parse: string -> ParsedUrl)
    requires "" in blockList
    ensures CheckUrl(url, allowList, blockList, parse).Err?
  {
    var p := parse(NormalizeUrl(url).value);
    if p.Parsed? && p.domain.Some? && p.host.Some? {
      var i :| 0 <= i < |blockList| && blockList[i] == "";
      assert OccursAt(Lower(p.domain.value), Lower(blockList[i]), 0);
    }
  }

  /** Letter case in the list entries does not matter: lists already lower-cased give the same verdict. */
  lemma ListCaseIrrelevant(url: string, allowList: seq<string>, blockList: seq<string>, parse: string -> ParsedUrl)
    ensures CheckUrl(url, NormalizeList(allowList), NormalizeList(blockList), parse) == CheckUrl(url, allowList, blockList, parse)
  {
    NormalizeListIdempotent(allowList);
    NormalizeListIdempotent(blockList);
  }

  /** Letter case in the parsed domain and host does not matter either. */
  lemma HostCaseIrrelevant(url: string, allowList: seq<string>, blockList: seq<string>, parse1: string -> ParsedUrl, parse2: string -> ParsedUrl)
    requires var p1 := parse1(NormalizeUrl(url).value); var p2 := parse2(NormalizeUrl(url).value);
      && p1.Parsed? && p2.Parsed?
      && p1.domain.Some? && p2.domain.Some? && Lower(p1.domain.value) == Lower(p2.domain.value)
      && p1.host.Some? && p2.host.Some? && Lower(p1.host.value) == Lower(p2.host.value)
    ensures CheckUrl(url, allowList, blockList, parse1) == CheckUrl(url, allowList, blockList, parse2)
  {
  }

  /** Some entry of `list`, lower-cased, is a substring of `domain`. */
  function AnyContained(domain: string, list: seq<string>): (r: bool)
    ensures r <==> exists i :: 0 <= i < |list| && Contains(domain, Lower(list[i]))
    decreases |list|
  {
    if |list| == 0 then false
    else if Contains(domain, Lower(list[0])) then true
    else
      var rest := AnyContained(domain, list[1..]);
      assert forall i :: 1 <= i < |list| ==> list[i] == list[1..][i - 1];
      rest
  }

  function BlocklistedMessage(domain: string): string {
    "Domain '" + domain + "' is explicitly blocklisted."
  }

  function NotOnAllowlistMessage(domain: string): string {
    "Domain '" + domain + "' is not on your allowlist."
  }

  /**
   * `check_domain`: "Safe" when the URL parses with a domain, no block-list
   * entry occurs in the domain, and the allow list is empty or has an entry
   * that does. The host is never consulted.
   */
  function CheckDomain(url: string, allowList: seq<string>, blockList: seq<string>, parse: string -> ParsedUrl): (r: Result<string, string>)
    ensures var p := parse(NormalizeUrl(url).value);
      && (p.Unparseable? ==> r == Err("Invalid URL format"))
      && (p.Parsed? && p.domain.None? ==> r == Err("Could not find domain"))
      && (r.Ok? <==>
            (p.Parsed? && p.domain.Some?
             && (forall i :: 0 <= i < |blockList| ==> !Contains(Lower(p.domain.value), Lower(blockList[i])))
             && (|allowList| == 0 || exists i :: 0 <= i < |allowList| && Contains(Lower(p.domain.value), Lower(allowList[i])))))
      && (r.Ok? ==> r.value == "Safe")
    ensures var p := parse(NormalizeUrl(url).value);
      p.Parsed? && p.domain.Some? && r.Err? ==>
        var d := Lower(p.domain.value);
        r.error == (if exists i :: 0 <= i < |blockList| && Contains(d, Lower(blockList[i]))
                    then BlocklistedMessage(d) else NotOnAllowlistMessage(d))
  {
    // The scheme is added inline in the source, exactly as `normalize_url` does.
    var full := NormalizeUrl(url).value;
    match parse(full)
    case Unparseable => Err("Invalid URL format")
    case Parsed(domain, _) =>
      if domain.None? then Err("Could not find domain")
      else
        var d := Lower(domain.value);
        if AnyContained(d, blockList) then Err(BlocklistedMessage(d))
        else if |allowList| == 0 || AnyContained(d, allowList) then Ok("Safe")
        else Err(NotOnAllowlistMessage(d))
  }

  /** `check_domain` ignores the host and does not require one. */
  lemma CheckDomainIgnoresHost(url: string, allowList: seq<string>, blockList: seq<string>, parse: string -> ParsedUrl, other: Option<string>)
    requires parse(NormalizeUrl(url).value).Parsed?
    ensures CheckDomain(url, allowList, blockList, parse)
         == CheckDomain(url, allowList, blockList, (s: string) => if s == NormalizeUrl(url).value then parse(s).(host := other) else parse(s))
  {
  }

  /** Where the host is the domain, the two checks accept exactly the same URLs. */
  lemma CheckDomainAgreesWithCheckUrl(url: string, allowList: seq<string>, blockList: seq<string>, parse: string -> ParsedUrl)
    requires var p := parse(NormalizeUrl(url).value); p.Parsed? ==> p.host == p.domain
    ensures CheckDomain(url, allowList, blockList, parse).Ok? <==> CheckUrl(url, allowList, blockList, parse).Ok?
  {
  }
}
