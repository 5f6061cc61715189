/**
 * The settings dialog of the desktop app (src/components/Settings.tsx and
 * src/components/ListSection.tsx): the draft state the dialog edits, adding
 * a domain to the allow or block list, deleting a list entry by position,
 * the max-history clamp, and the configuration handed back on save.
 */
module SettingsForm {
  import opened Wrappers
  import opened Strings
  import opened ScanConfig

  /** The dialog's local state. */
  datatype Form = Form(
    allowlist: seq<string>,
    blocklist: seq<string>,
    scanMode: string,
    notificationType: string,
    maxHistory: int,
    prefixMode: string,
    prefixValue: string,
    suffixMode: string,
    suffixValue: string,
    closeToTray: bool,
    newItem: string)

  /** The dialog's initial state for a configuration: absent affix values show as "". */
  function OpenForm(c: Config): (f: Form)
    ensures f.allowlist == c.allowlist && f.blocklist == c.blocklist
    ensures f.maxHistory == c.maxHistoryItems as int && f.newItem == ""
    ensures f.scanMode == c.scanMode && f.notificationType == c.notificationType
    ensures f.prefixMode == c.prefix.mode && f.suffixMode == c.suffix.mode
    ensures f.prefixValue == c.prefix.value.GetOr("") && f.suffixValue == c.suffix.value.GetOr("")
    ensures f.closeToTray == c.closeToTray
  {
    Form(c.allowlist, c.blocklist, c.scanMode, c.notificationType, c.maxHistoryItems as int,
      c.prefix.mode, c.prefix.value.GetOr(""), c.suffix.mode, c.suffix.value.GetOr(""), c.closeToTray, "")
  }

  datatype ListKind = Allow | Block

  /** The candidate `addItem` would add: the input trimmed and lower-cased. */
  function Candidate(input: string): string {
    Lower(JsTrim(input))
  }

  /**
   * `addItem`: an empty candidate, or one already on either list, changes
   * nothing; otherwise it goes to the end of the chosen list and the input is
   * cleared.
   */
  function AddItem(f: Form, kind: ListKind): (r: Form)
    ensures var d := Candidate(f.newItem);
      (|d| == 0 || d in f.allowlist || d in f.blocklist) ==> r == f
    ensures var d := Candidate(f.newItem);
      !(|d| == 0 || d in f.allowlist || d in f.blocklist) ==>
        && r.newItem == ""
        && (kind == Allow ==> r.allowlist == f.allowlist + [d] && r.blocklist == f.blocklist)
        && (kind == Block ==> r.blocklist == f.blocklist + [d] && r.allowlist == f.allowlist)
    ensures r.(allowlist := f.allowlist, blocklist := f.blocklist, newItem := f.newItem) == f
  {
    var d := Candidate(f.newItem);
    if |d| == 0 then f
    else if d in f.allowlist || d in f.blocklist then f
    else if kind == Allow then f.(allowlist := f.allowlist + [d], newItem := "")
    else f.(blocklist := f.blocklist + [d], newItem := "")
  }

  /** No entry of `a` is in `b`. */
  predicate Disjoint(a: seq<string>, b: seq<string>) {
    forall i :: 0 <= i < |a| ==> a[i] !in b
  }

  /** Both lists free of repeats and with no entry in common. */
  predicate ListsWellFormed(f: Form) {
    Distinct(f.allowlist) && Distinct(f.blocklist) && Disjoint(f.allowlist, f.blocklist)
  }

  /** Appending an entry on neither list to either list keeps both duplicate-free and disjoint. */
  lemma AppendFreshKeepsDisjoint(a: seq<string>, b: seq<string>, d: string)
    requires Distinct(a) && Distinct(b) && Disjoint(a, b) && d !in a && d !in b
    ensures Distinct(a + [d]) && Disjoint(a + [d], b)
    ensures Distinct(b + [d]) && Disjoint(a, b + [d])
  {
    AppendFreshKeepsDistinct(a, d);
    AppendFreshKeepsDistinct(b, d);
    forall i | 0 <= i < |a + [d]| ensures (a + [d])[i] !in b {
      if i < |a| {
        assert (a + [d])[i] == a[i];
      }
    }
    forall i | 0 <= i < |a| ensures a[i] !in b + [d] {
      assert a[i] != d;
    }
  }

  lemma AppendFreshKeepsDistinct(s: seq<string>, d: string)
    requires Distinct(s) && d !in s
    ensures Distinct(s + [d])
  {
    var t := s + [d];
    forall i, j | 0 <= i < j < |t| ensures t[i] != t[j] {
      if j == |s| {
        assert t[i] == s[i];
      }
    }
  }

  /** `addItem` keeps the lists duplicate-free and disjoint. */
  lemma AddItemKeepsListsWellFormed(f: Form, kind: ListKind)
    requires ListsWellFormed(f)
    ensures ListsWellFormed(AddItem(f, kind))
  {
    var d := Candidate(f.newItem);
    var r := AddItem(f, kind);
    if r != f {
      assert d !in f.allowlist && d !in f.blocklist;
      AppendFreshKeepsDisjoint(f.allowlist, f.blocklist, d);
      if kind == Allow {
        assert r.allowlist == f.allowlist + [d] && r.blocklist == f.blocklist;
      } else {
        assert r.blocklist == f.blocklist + [d] && r.allowlist == f.allowlist;
      }
    }
  }

  lemma LowerKeepsNonWhitespace(c: char)
    requires !IsJsWhitespace(c)
    ensures !IsJsWhitespace(LowerChar(c))
  {
    if 'A' <= c <= 'Z' {
      assert 'a' <= LowerChar(c) <= 'z';
    }
  }

  lemma LowerKeepsEnds(t: string)
    requires |t| > 0 && !IsJsWhitespace(t[0]) && !IsJsWhitespace(t[|t| - 1])
    ensures var d := Lower(t); |d| > 0 && !IsJsWhitespace(d[0]) && !IsJsWhitespace(d[|d| - 1])
  {
    LowerKeepsNonWhitespace(t[0]);
    LowerKeepsNonWhitespace(t[|t| - 1]);
  }

  /** Every entry `addItem` adds is trimmed, lower-case and non-empty. */
  lemma AddedEntryIsNormal(f: Form, kind: ListKind)
    requires AddItem(f, kind) != f
    ensures var d := Candidate(f.newItem);
      |d| > 0 && Lower(d) == d && !IsJsWhitespace(d[0]) && !IsJsWhitespace(d[|d| - 1])
  {
    var t := JsTrim(f.newItem);
    assert Candidate(f.newItem) == Lower(t);
    assert |Lower(t)| > 0;
    assert |t| > 0 && !IsJsWhitespace(t[0]) && !IsJsWhitespace(t[|t| - 1]);
    LowerIdempotent(t);
    LowerKeepsEnds(t);
  }

  /** ListSection's delete: `items.filter((_, idx) => idx !== i)`. */
  method RemoveAt(items: seq<string>, i: int) returns (r: seq<string>)
    ensures 0 <= i < |items| ==> r == items[..i] + items[i + 1..]
    ensures !(0 <= i < |items|) ==> r == items
  {
    r := [];
    var k := 0;
    while k < |items|
      invariant 0 <= k <= |items|
      invariant 0 <= i < k ==> r == items[..i] + items[i + 1..k]
      invariant !(0 <= i < k) ==> r == items[..k]
    {
      if k != i {
        r := r + [items[k]];
      }
      k := k + 1;
    }
    if !(0 <= i < |items|) {
      assert items[..|items|] == items;
    }
  }

  /** Removal is by position: one entry fewer, and an equal string elsewhere survives. */
  lemma RemoveAtByPosition(items: seq<string>, i: int, r: seq<string>)
    requires 0 <= i < |items|
    requires r == items[..i] + items[i + 1..]
    ensures |r| == |items| - 1
    ensures multiset(r) + multiset{items[i]} == multiset(items)
  {
    assert items == items[..i] + [items[i]] + items[i + 1..];
  }

  /** Deleting one position keeps a list duplicate-free and adds no entry. */
  lemma RemoveKeepsDistinct(s: seq<string>, i: int)
    requires Distinct(s) && 0 <= i < |s|
    ensures Distinct(s[..i] + s[i + 1..])
    ensures forall x :: x in s[..i] + s[i + 1..] ==> x in s
  {
    var r := s[..i] + s[i + 1..];
    assert forall k :: 0 <= k < |r| ==> r[k] == s[if k < i then k else k + 1];
  }

  /** Deleting an entry keeps the lists duplicate-free and disjoint. */
  lemma RemoveKeepsListsWellFormed(f: Form, i: int, kind: ListKind)
    requires ListsWellFormed(f)
    requires 0 <= i < (if kind == Allow then |f.allowlist| else |f.blocklist|)
    ensures var s := if kind == Allow then f.allowlist else f.blocklist;
      var r := s[..i] + s[i + 1..];
      ListsWellFormed(if kind == Allow then f.(allowlist := r) else f.(blocklist := r))
  {
    if kind == Allow {
      RemoveKeepsDistinct(f.allowlist, i);
      var r := f.allowlist[..i] + f.allowlist[i + 1..];
      forall k | 0 <= k < |r| ensures r[k] !in f.blocklist {
        assert r[k] in f.allowlist;
      }
    } else {
      RemoveKeepsDistinct(f.blocklist, i);
    }
  }

  /** The max-history field's `onChange`: `Math.max(1, parseInt(text) || 1)`; NaN is None. */
  function ClampMaxHistory(parsed: Option<int>): (r: int)
    ensures r >= 1
    ensures parsed.Some? && parsed.value >= 1 ==> r == parsed.value
    ensures parsed.None? || parsed.value < 1 ==> r == 1
  {
    // `|| 1` replaces NaN and 0, then `Math.max` lifts negatives.
    var v := match parsed case Some(n) => if n == 0 then 1 else n case None => 1;
    if v < 1 then 1 else v
  }

  /** The clamp never changes a value it already produced. */
  lemma ClampStable(parsed: Option<int>)
    ensures ClampMaxHistory(Some(ClampMaxHistory(parsed))) == ClampMaxHistory(parsed)
  {
  }

  /** An affix value as saved: only the `"custom"` mode keeps one. */
  function SavedValue(mode: string, value: string): (r: Option<string>)
    ensures r.Some? <==> mode == "custom"
    ensures r.Some? ==> r.value == value
  {
    if mode == "custom" then Some(value) else None
  }

  /**
   * `handleSave`: the edited fields replace the configuration's, the others
   * are carried over. The Rust command receiving the configuration takes
   * `max_history_items` as a `u32`, so a value outside that range is an
   * error there.
   */
  function HandleSave(f: Form, c: Config): (r: Result<Config, string>)
    ensures r.Ok? <==> 0 <= f.maxHistory < 0x1_0000_0000
    ensures r.Ok? ==>
      && r.value.allowlist == f.allowlist && r.value.blocklist == f.blocklist
      && r.value.maxHistoryItems as int == f.maxHistory
      && r.value.prefix == PrefixConfig(f.prefixMode, SavedValue(f.prefixMode, f.prefixValue))
      && r.value.suffix == SuffixConfig(f.suffixMode, SavedValue(f.suffixMode, f.suffixValue))
      && r.value.scanMode == f.scanMode && r.value.notificationType == f.notificationType
      && r.value.closeToTray == f.closeToTray
      && r.value.historyStorageMethod == c.historyStorageMethod
  {
    if 0 <= f.maxHistory < 0x1_0000_0000 then
      Ok(c.(
        allowlist := f.allowlist,
        blocklist := f.blocklist,
        scanMode := f.scanMode,
        notificationType := f.notificationType,
        maxHistoryItems := f.maxHistory as U32,
        prefix := PrefixConfig(f.prefixMode, SavedValue(f.prefixMode, f.prefixValue)),
        suffix := SuffixConfig(f.suffixMode, SavedValue(f.suffixMode, f.suffixValue)),
        closeToTray := f.closeToTray))
    else Err("max_history_items out of range")
  }

  /** Opening the dialog and saving at once gives the configuration back, up to unused affix values. */
  lemma OpenThenSave(c: Config)
    requires c.prefix.mode == "custom" || c.prefix.value.None?
    requires c.suffix.mode == "custom" || c.suffix.value.None?
    requires c.prefix.mode == "custom" ==> c.prefix.value.Some?
    requires c.suffix.mode == "custom" ==> c.suffix.value.Some?
    ensures HandleSave(OpenForm(c), c) == Ok(c)
  {
  }
}
