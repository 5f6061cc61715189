/**
 * The desktop app's persisted configuration (src-tauri/src/models/config.rs):
 * the prefix and suffix settings the scan cleaner consumes, the defaults, and
 * the JSON (de)serialisation serde derives for them, including the two
 * `#[serde(default)]` fields.
 */
module ScanConfig {
  import opened Wrappers

  /** Rust's `u32`. */
  newtype U32 = x: int | 0 <= x < 0x1_0000_0000

  datatype PrefixConfig = PrefixConfig(mode: string, value: Option<string>)

  datatype SuffixConfig = SuffixConfig(mode: string, value: Option<string>)

  datatype Config = Config(
    allowlist: seq<string>,
    blocklist: seq<string>,
    historyStorageMethod: string,
    scanMode: string,
    notificationType: string,
    maxHistoryItems: U32,
    prefix: PrefixConfig,
    suffix: SuffixConfig,
    closeToTray: bool)

  /** `Config::default`. */
  function DefaultConfig(): (c: Config)
    ensures c.allowlist == [] && c.blocklist == []
    ensures c.historyStorageMethod == "json" && c.scanMode == "single" && c.notificationType == "toast"
    ensures c.maxHistoryItems == 100 && !c.closeToTray
    ensures c.prefix == PrefixConfig("none", None) && c.suffix == SuffixConfig("enter", None)
  {
    Config([], [], "json", "single", "toast", 100,
      PrefixConfig("none", None), SuffixConfig("enter", None), false)
  }

  /** A JSON value, as far as these records use it. */
  datatype Json = JNull | JBool(b: bool) | JNum(n: int) | JStr(s: string) | JArr(items: seq<Json>) | JObj(fields: map<string, Json>)

  /** A required string field. */
  function GetString(fields: map<string, Json>, key: string): (r: Result<string, string>)
    ensures r.Ok? <==> key in fields && fields[key].JStr?
    ensures r.Ok? ==> fields[key] == JStr(r.value)
  {
    if key in fields && fields[key].JStr? then Ok(fields[key].s) else Err("missing or invalid field `" + key + "`")
  }

  /** An `Option<String>` field with `#[serde(default)]`: absent or null is None. */
  function GetOptString(fields: map<string, Json>, key: string): (r: Result<Option<string>, string>)
    ensures key !in fields || fields[key] == JNull ==> r == Ok(None)
    ensures key in fields && fields[key].JStr? ==> r == Ok(Some(fields[key].s))
  {
    if key !in fields then Ok(None)
    else match fields[key]
      case JNull => Ok(None)
      case JStr(s) => Ok(Some(s))
      case _ => Err("invalid type for `" + key + "`")
  }

  /** A list of strings. */
  function GetStrings(items: seq<Json>): (r: Result<seq<string>, string>)
    ensures r.Ok? ==> |r.value| == |items| && forall i :: 0 <= i < |items| ==> items[i] == JStr(r.value[i])
    ensures (forall i :: 0 <= i < |items| ==> items[i].JStr?) ==> r.Ok?
  {
    if |items| == 0 then Ok([])
    else if !items[0].JStr? then Err("expected a string")
    else
      match GetStrings(items[1..])
      case Ok(rest) => Ok([items[0].s] + rest)
      case Err(e) => Err(e)
  }

  function GetStringList(fields: map<string, Json>, key: string): (r: Result<seq<string>, string>)
    ensures r.Ok? ==> key in fields && fields[key].JArr?
  {
    if key in fields && fields[key].JArr? then GetStrings(fields[key].items) else Err("missing or invalid field `" + key + "`")
  }

  /** A required `u32` field: a number in range. */
  function GetU32(fields: map<string, Json>, key: string): (r: Result<U32, string>)
    ensures r.Ok? <==> key in fields && fields[key].JNum? && 0 <= fields[key].n < 0x1_0000_0000
    ensures r.Ok? ==> fields[key] == JNum(r.value as int)
  {
    if key in fields && fields[key].JNum? && 0 <= fields[key].n < 0x1_0000_0000 then Ok(fields[key].n as U32)
    else Err("missing or invalid field `" + key + "`")
  }

  /** A `bool` field with `#[serde(default)]`: absent is false. */
  function GetBoolOrFalse(fields: map<string, Json>, key: string): (r: Result<bool, string>)
    ensures key !in fields ==> r == Ok(false)
    ensures key in fields && fields[key].JBool? ==> r == Ok(fields[key].b)
    ensures key in fields && !fields[key].JBool? ==> r.Err?
  {
    if key !in fields then Ok(false)
    else if fields[key].JBool? then Ok(fields[key].b)
    else Err("invalid type for `" + key + "`")
  }

  /** Deserialises `{"mode": ..., "value": ...}`; the value may be absent. */
  function DecodeAffix(j: Json): (r: Result<(string, Option<string>), string>)
    ensures j.JObj? && "mode" in j.fields && j.fields["mode"].JStr? && "value" !in j.fields ==>
      r == Ok((j.fields["mode"].s, None))
  {
    if !j.JObj? then Err("expected an object")
    else
      match GetString(j.fields, "mode")
      case Err(e) => Err(e)
      case Ok(mode) =>
        match GetOptString(j.fields, "value")
        case Err(e) => Err(e)
        case Ok(value) => Ok((mode, value))
  }

  function EncodeOpt(v: Option<string>): Json {
    match v
    case Some(s) => JStr(s)
    case None => JNull
  }

  function EncodeAffix(mode: string, value: Option<string>): Json {
    JObj(map["mode" := JStr(mode), "value" := EncodeOpt(value)])
  }

  function EncodeStrings(ss: seq<string>): (r: seq<Json>)
    ensures |r| == |ss| && forall i :: 0 <= i < |ss| ==> r[i] == JStr(ss[i])
  {
    seq(|ss|, i requires 0 <= i < |ss| => JStr(ss[i]))
  }

  /** serde's `to_string` for `Config`: every field, a None value as null. */
  function EncodeConfig(c: Config): Json {
    JObj(map[
      "allowlist" := JArr(EncodeStrings(c.allowlist)),
      "blocklist" := JArr(EncodeStrings(c.blocklist)),
      "history_storage_method" := JStr(c.historyStorageMethod),
      "scan_mode" := JStr(c.scanMode),
      "notification_type" := JStr(c.notificationType),
      "max_history_items" := JNum(c.maxHistoryItems as int),
      "prefix" := EncodeAffix(c.prefix.mode, c.prefix.value),
      "suffix" := EncodeAffix(c.suffix.mode, c.suffix.value),
      "close_to_tray" := JBool(c.closeToTray)])
  }

  /** The keys serde requires: every field of `Config` except `close_to_tray`. */
  const RequiredKeys: set<string> := {"allowlist", "blocklist", "history_storage_method", "scan_mode",
    "notification_type", "max_history_items", "prefix", "suffix"}

  /** serde's `from_str` for `Config`: every field required except `close_to_tray`. */
  function DecodeConfig(j: Json): (r: Result<Config, string>)
    ensures r.Ok? ==> j.JObj? && ("close_to_tray" !in j.fields ==> !r.value.closeToTray)
    ensures r.Ok? ==> j.JObj? && FieldsDescribe(j.fields, r.value)
  {
    if !j.JObj? then Err("expected an object")
    else
      var f := j.fields;
      match (GetStringList(f, "allowlist"), GetStringList(f, "blocklist"))
      case (Ok(allow), Ok(block)) =>
        (match (GetString(f, "history_storage_method"), GetString(f, "scan_mode"), GetString(f, "notification_type"))
         case (Ok(h), Ok(s), Ok(n)) =>
           (match (GetU32(f, "max_history_items"), GetBoolOrFalse(f, "close_to_tray"))
            case (Ok(m), Ok(t)) =>
              (if "prefix" !in f || "suffix" !in f then Err("missing field `prefix` or `suffix`")
               else
                 match (DecodeAffix(f["prefix"]), DecodeAffix(f["suffix"]))
                 case (Ok(p), Ok(x)) =>
                   Ok(Config(allow, block, h, s, n, m, PrefixConfig(p.0, p.1), SuffixConfig(x.0, x.1), t))
                 case _ => Err("invalid prefix or suffix"))
            case _ => Err("invalid max_history_items or close_to_tray"))
         case _ => Err("invalid string field"))
      case _ => Err("invalid list field")
  }

  lemma GetStringsOfEncoded(ss: seq<string>)
    ensures GetStrings(EncodeStrings(ss)) == Ok(ss)
  {
    var r := GetStrings(EncodeStrings(ss));
    assert r.Ok?;
    assert r.value == ss;
  }

  lemma DecodeAffixOfEncoded(mode: string, value: Option<string>)
    ensures DecodeAffix(EncodeAffix(mode, value)) == Ok((mode, value))
  {
  }

  /** Every field of `c` reads back from `f`. */
  predicate FieldsDescribe(f: map<string, Json>, c: Config) {
    && GetStringList(f, "allowlist") == Ok(c.allowlist)
    && GetStringList(f, "blocklist") == Ok(c.blocklist)
    && GetString(f, "history_storage_method") == Ok(c.historyStorageMethod)
    && GetString(f, "scan_mode") == Ok(c.scanMode)
    && GetString(f, "notification_type") == Ok(c.notificationType)
    && GetU32(f, "max_history_items") == Ok(c.maxHistoryItems)
    && GetBoolOrFalse(f, "close_to_tray") == Ok(c.closeToTray)
    && "prefix" in f && "suffix" in f
    && DecodeAffix(f["prefix"]) == Ok((c.prefix.mode, c.prefix.value))
    && DecodeAffix(f["suffix"]) == Ok((c.suffix.mode, c.suffix.value))
  }

  /** An object whose fields all read back decodes to that configuration. */
  lemma DecodeFromFields(f: map<string, Json>, c: Config)
    requires FieldsDescribe(f, c)
    ensures DecodeConfig(JObj(f)) == Ok(c)
  {
  }

  /** An object lacking any field other than `close_to_tray` does not decode. */
  lemma MissingRequiredFieldFails(j: Json, key: string)
    requires j.JObj? && key !in j.fields
    requires key in RequiredKeys
    ensures DecodeConfig(j).Err?
  {
  }

  /** The field names of equal length differ. */
  lemma FieldNamesDistinct()
    ensures "allowlist" != "blocklist" && "allowlist" != "scan_mode" && "blocklist" != "scan_mode"
    ensures "notification_type" != "max_history_items" && "prefix" != "suffix"
  {
    assert "allowlist"[0] != "blocklist"[0] && "allowlist"[0] != "scan_mode"[0] && "blocklist"[0] != "scan_mode"[0];
    assert "notification_type"[0] != "max_history_items"[0] && "prefix"[0] != "suffix"[0];
  }

  /** The readers recover `c` from fields holding its encoded parts. */
  lemma ReadBack(f: map<string, Json>, c: Config)
    requires "allowlist" in f && f["allowlist"] == JArr(EncodeStrings(c.allowlist))
    requires "blocklist" in f && f["blocklist"] == JArr(EncodeStrings(c.blocklist))
    requires "history_storage_method" in f && f["history_storage_method"] == JStr(c.historyStorageMethod)
    requires "scan_mode" in f && f["scan_mode"] == JStr(c.scanMode)
    requires "notification_type" in f && f["notification_type"] == JStr(c.notificationType)
    requires "max_history_items" in f && f["max_history_items"] == JNum(c.maxHistoryItems as int)
    requires GetBoolOrFalse(f, "close_to_tray") == Ok(c.closeToTray)
    requires "prefix" in f && DecodeAffix(f["prefix"]) == Ok((c.prefix.mode, c.prefix.value))
    requires "suffix" in f && DecodeAffix(f["suffix"]) == Ok((c.suffix.mode, c.suffix.value))
    ensures FieldsDescribe(f, c)
  {
    GetStringsOfEncoded(c.allowlist);
    GetStringsOfEncoded(c.blocklist);
  }

  lemma EncodedFields(c: Config)
    ensures FieldsDescribe(EncodeConfig(c).fields, c)
  {
    FieldNamesDistinct();
    var f := EncodeConfig(c).fields;
    assert f["allowlist"] == JArr(EncodeStrings(c.allowlist));
    assert f["blocklist"] == JArr(EncodeStrings(c.blocklist));
    assert f["history_storage_method"] == JStr(c.historyStorageMethod);
    assert f["scan_mode"] == JStr(c.scanMode);
    assert f["notification_type"] == JStr(c.notificationType);
    assert f["max_history_items"] == JNum(c.maxHistoryItems as int);
    assert f["close_to_tray"] == JBool(c.closeToTray);
    assert f["prefix"] == EncodeAffix(c.prefix.mode, c.prefix.value);
    assert f["suffix"] == EncodeAffix(c.suffix.mode, c.suffix.value);
    DecodeAffixOfEncoded(c.prefix.mode, c.prefix.value);
    DecodeAffixOfEncoded(c.suffix.mode, c.suffix.value);
    ReadBack(f, c);
  }

  /** Serialising then deserialising gives the same configuration back. */
  lemma ConfigRoundTrip(c: Config)
    ensures DecodeConfig(EncodeConfig(c)) == Ok(c)
  {
    EncodedFields(c);
    DecodeFromFields(EncodeConfig(c).fields, c);
  }

  /** A document without the `close_to_tray` field and without the affix `value`s, as an older version wrote it. */
  function LegacyDocument(c: Config): Json {
    JObj(map[
      "allowlist" := JArr(EncodeStrings(c.allowlist)),
      "blocklist" := JArr(EncodeStrings(c.blocklist)),
      "history_storage_method" := JStr(c.historyStorageMethod),
      "scan_mode" := JStr(c.scanMode),
      "notification_type" := JStr(c.notificationType),
      "max_history_items" := JNum(c.maxHistoryItems as int),
      "prefix" := JObj(map["mode" := JStr(c.prefix.mode)]),
      "suffix" := JObj(map["mode" := JStr(c.suffix.mode)])])
  }

  /** The configuration such a document describes: `close_to_tray` false, no affix values. */
  function LegacyLoaded(c: Config): Config {
    c.(closeToTray := false, prefix := c.prefix.(value := None), suffix := c.suffix.(value := None))
  }

  lemma LegacyFields(c: Config)
    ensures FieldsDescribe(LegacyDocument(c).fields, LegacyLoaded(c))
  {
    FieldNamesDistinct();
    var f := LegacyDocument(c).fields;
    assert f["allowlist"] == JArr(EncodeStrings(c.allowlist));
    assert f["blocklist"] == JArr(EncodeStrings(c.blocklist));
    assert f["history_storage_method"] == JStr(c.historyStorageMethod);
    assert f["scan_mode"] == JStr(c.scanMode);
    assert f["notification_type"] == JStr(c.notificationType);
    assert f["max_history_items"] == JNum(c.maxHistoryItems as int);
    assert "close_to_tray" !in f;
    assert f["prefix"] == JObj(map["mode" := JStr(c.prefix.mode)]);
    assert f["suffix"] == JObj(map["mode" := JStr(c.suffix.mode)]);
    ReadBack(f, LegacyLoaded(c));
  }

  /** Such a document loads with `close_to_tray` false and both affix values None. */
  lemma MissingOptionalFieldsDefault(c: Config)
    ensures DecodeConfig(LegacyDocument(c)) ==
      Ok(c.(closeToTray := false, prefix := c.prefix.(value := None), suffix := c.suffix.(value := None)))
  {
    LegacyFields(c);
    DecodeFromFields(LegacyDocument(c).fields, LegacyLoaded(c));
  }
}
