/**
 The canonical build JSON.  Parsing the persisted form gives back the typed spec, authored empty texts and
 authored false included, and canonicalizing twice changes nothing, over the whole field tables.
 */
module BuildSpecJson {
  import opened Text
  import opened Wrappers

  // ---------------------------------------------------------------- the field tables

  datatype StringField =
    ServerIP | Key | APIServer | RelayServer | Direction | PermanentPassword | PassApproveMode | Theme |
    PermissionsType | CompanyName | DownloadURL | WebsiteURL | PrivacyPolicyURL | AndroidAppID | AppIconURL |
    AppLogoURL | PrivacyScreenURL

  const STRING_FIELDS: seq<StringField> := [
    ServerIP, Key, APIServer, RelayServer, Direction, PermanentPassword, PassApproveMode, Theme,
    PermissionsType, CompanyName, DownloadURL, WebsiteURL, PrivacyPolicyURL, AndroidAppID, AppIconURL,
    AppLogoURL, PrivacyScreenURL]

  datatype BoolField =
    DenyLAN | EnableDirectIP | AutoClose | HideCM | RemoveWallpaper | RemoveNewVersionNotif | CycleMonitor |
    XOffline | EnableRemoteModi | EnableKeyboard | EnableClipboard | EnableFileTransfer | EnableAudio |
    EnableTCP | EnableRemoteRestart | EnableRecording | EnableBlockingInput | EnablePrinter | EnableCamera |
    EnableTerminal

  const BOOL_FIELDS: seq<BoolField> := [
    DenyLAN, EnableDirectIP, AutoClose, HideCM, RemoveWallpaper, RemoveNewVersionNotif, CycleMonitor, XOffline,
    EnableRemoteModi, EnableKeyboard, EnableClipboard, EnableFileTransfer, EnableAudio, EnableTCP,
    EnableRemoteRestart, EnableRecording, EnableBlockingInput, EnablePrinter, EnableCamera, EnableTerminal]

  /** The JSON name of a text. */
  function StringName(f: StringField): string {
    match f
    case ServerIP => "server_ip"
    case Key => "key"
    case APIServer => "api_server"
    case RelayServer => "relay_server"
    case Direction => "direction"
    case PermanentPassword => "permanent_password"
    case PassApproveMode => "pass_approve_mode"
    case Theme => "theme"
    case PermissionsType => "permissions_type"
    case CompanyName => "company_name"
    case DownloadURL => "download_url"
    case WebsiteURL => "website_url"
    case PrivacyPolicyURL => "privacy_policy_url"
    case AndroidAppID => "android_app_id"
    case AppIconURL => "app_icon_url"
    case AppLogoURL => "app_logo_url"
    case PrivacyScreenURL => "privacy_screen_url"
  }

  /** The JSON name of a flag. */
  function BoolName(f: BoolField): string {
    match f
    case DenyLAN => "deny_lan"
    case EnableDirectIP => "enable_direct_ip"
    case AutoClose => "auto_close"
    case HideCM => "hide_cm"
    case RemoveWallpaper => "remove_wallpaper"
    case RemoveNewVersionNotif => "remove_new_version_notif"
    case CycleMonitor => "cycle_monitor"
    case XOffline => "x_offline"
    case EnableRemoteModi => "enable_remote_modi"
    case EnableKeyboard => "enable_keyboard"
    case EnableClipboard => "enable_clipboard"
    case EnableFileTransfer => "enable_file_transfer"
    case EnableAudio => "enable_audio"
    case EnableTCP => "enable_tcp"
    case EnableRemoteRestart => "enable_remote_restart"
    case EnableRecording => "enable_recording"
    case EnableBlockingInput => "enable_blocking_input"
    case EnablePrinter => "enable_printer"
    case EnableCamera => "enable_camera"
    case EnableTerminal => "enable_terminal"
  }

  /** Length, first character and fifth character from the end tell all names apart. */
  function Mark(name: string): int {
    if |name| < 3 then 0
    else |name| * 1_000_000 + name[0] as int * 1000 + if |name| >= 5 then name[|name| - 5] as int else 0
  }

  function StringMark(f: StringField): int {
    match f
    case ServerIP => 9_115_101
    case Key => 3_107_000
    case APIServer => 10_097_101
    case RelayServer => 12_114_101
    case Direction => 9_100_099
    case PermanentPassword => 18_112_115
    case PassApproveMode => 17_112_095
    case Theme => 5_116_116
    case PermissionsType => 16_112_095
    case CompanyName => 12_099_095
    case DownloadURL => 12_100_100
    case WebsiteURL => 11_119_101
    case PrivacyPolicyURL => 18_112_121
    case AndroidAppID => 14_097_112
    case AppIconURL => 12_097_110
    case AppLogoURL => 12_097_111
    case PrivacyScreenURL => 18_112_110
  }

  function BoolMark(f: BoolField): int {
    match f
    case DenyLAN => 8_100_121
    case EnableDirectIP => 16_101_099
    case AutoClose => 10_097_099
    case HideCM => 7_104_100
    case RemoveWallpaper => 16_114_112
    case RemoveNewVersionNotif => 24_114_110
    case CycleMonitor => 13_099_110
    case XOffline => 9_120_102
    case EnableRemoteModi => 18_101_095
    case EnableKeyboard => 15_101_098
    case EnableClipboard => 16_101_098
    case EnableFileTransfer => 20_101_110
    case EnableAudio => 12_101_097
    case EnableTCP => 10_101_101
    case EnableRemoteRestart => 21_101_115
    case EnableRecording => 16_101_114
    case EnableBlockingInput => 21_101_105
    case EnablePrinter => 14_101_105
    case EnableCamera => 13_101_097
    case EnableTerminal => 15_101_109
  }

  /** The field's position in its table. */
  function StringPosition(f: StringField): nat {
    match f
    case ServerIP => 0
    case Key => 1
    case APIServer => 2
    case RelayServer => 3
    case Direction => 4
    case PermanentPassword => 5
    case PassApproveMode => 6
    case Theme => 7
    case PermissionsType => 8
    case CompanyName => 9
    case DownloadURL => 10
    case WebsiteURL => 11
    case PrivacyPolicyURL => 12
    case AndroidAppID => 13
    case AppIconURL => 14
    case AppLogoURL => 15
    case PrivacyScreenURL => 16
  }

  /** The field's position in its table. */
  function BoolPosition(f: BoolField): nat {
    match f
    case DenyLAN => 0
    case EnableDirectIP => 1
    case AutoClose => 2
    case HideCM => 3
    case RemoveWallpaper => 4
    case RemoveNewVersionNotif => 5
    case CycleMonitor => 6
    case XOffline => 7
    case EnableRemoteModi => 8
    case EnableKeyboard => 9
    case EnableClipboard => 10
    case EnableFileTransfer => 11
    case EnableAudio => 12
    case EnableTCP => 13
    case EnableRemoteRestart => 14
    case EnableRecording => 15
    case EnableBlockingInput => 16
    case EnablePrinter => 17
    case EnableCamera => 18
    case EnableTerminal => 19
  }

  lemma StringNameMark(f: StringField)
    ensures Mark(StringName(f)) == StringMark(f)
  {
  }

  lemma BoolNameMark(f: BoolField)
    ensures Mark(BoolName(f)) == BoolMark(f)
  {
  }

  lemma StringNamesDiffer(f: StringField, g: StringField)
    ensures StringName(f) == StringName(g) ==> f == g
  {
    hide StringName, Mark;
    StringNameMark(f);
    StringNameMark(g);
  }

  lemma BoolNamesDiffer(f: BoolField, g: BoolField)
    ensures BoolName(f) == BoolName(g) ==> f == g
  {
    hide BoolName, Mark;
    BoolNameMark(f);
    BoolNameMark(g);
  }

  lemma TablesDiffer(f: StringField, g: BoolField)
    ensures StringName(f) != BoolName(g)
  {
    hide StringName, BoolName, Mark;
    StringNameMark(f);
    BoolNameMark(g);
  }

  lemma StringListed(f: StringField)
    ensures f in STRING_FIELDS
  {
    assert STRING_FIELDS[StringPosition(f)] == f;
  }

  lemma BoolListed(f: BoolField)
    ensures f in BOOL_FIELDS
  {
    assert BOOL_FIELDS[BoolPosition(f)] == f;
  }

  // ---------------------------------------------------------------- values

  /** A JSON value; `Other` is anything that is neither a string nor a boolean. */
  datatype Json = Str(s: string) | Bool(b: bool) | Other(text: string)

  type Object = map<string, Json>

  /** Values owned by the build record. */
  datatype Context = Context(buildId: nat, platform: string, appName: string, version: string, scope: string,
                             allowMissingAndroidAppId: bool)

  const NO_CONTEXT := Context(0, "", "", "", "", false)
  const DEFAULT_SCOPE := "default"
  const OVERRIDE_SCOPE := "override"

  /** The typed spec: all texts, which of them were authored, the flags given a value, and the record's values. */
  datatype Spec = Spec(text: map<StringField, string>, authored: set<StringField>, flags: map<BoolField, bool>, context: Context)

  predicate WellFormed(s: Spec) { forall f: StringField :: f in s.text }

  /** Checks on single values, which depend on nothing else: URL, host and key syntax, and the record's own rules. */
  datatype Checks = Checks(workflowValue: string -> bool, keyMaterial: string -> bool, endpoint: string -> bool,
                           apiUrl: string -> bool, brandingUrl: string -> bool, companyName: string -> bool,
                           imageUrl: string -> bool, androidAppId: string -> bool, recordContext: Context -> bool)

  predicate Enum(value: string, allowed: set<string>) { value == "" || value in allowed }

  /** hide_cm needs a password and the password approve mode. */
  predicate HideCMFits(s: Spec)
    requires WellFormed(s)
  {
    HideCM in s.flags && s.flags[HideCM] ==> Trim(s.text[PermanentPassword]) != "" && s.text[PassApproveMode] == "password"
  }

  /** The checks made both when parsing and before writing. */
  predicate FieldsValid(s: Spec, v: Checks)
    requires WellFormed(s)
  {
    && v.workflowValue(s.text[ServerIP])
    && v.workflowValue(s.text[Key])
    && (s.text[Key] != "" ==> v.keyMaterial(s.text[Key]))
    && Enum(s.text[Direction], {"both", "incoming", "outgoing"})
    && Enum(s.text[PermissionsType], {"custom", "full", "view"})
    && Enum(s.text[Theme], {"light", "dark", "system"})
    && Enum(s.text[PassApproveMode], {"password", "click", "password-click", "both"})
    && v.endpoint(s.text[ServerIP])
    && v.endpoint(s.text[RelayServer])
    && v.apiUrl(s.text[APIServer])
    && v.brandingUrl(s.text[WebsiteURL])
    && v.brandingUrl(s.text[PrivacyPolicyURL])
    && v.brandingUrl(s.text[DownloadURL])
    && v.companyName(s.text[CompanyName])
    && v.imageUrl(s.text[AppIconURL])
    && v.imageUrl(s.text[AppLogoURL])
    && v.imageUrl(s.text[PrivacyScreenURL])
    && HideCMFits(s)
  }

  predicate AndroidIdValid(s: Spec, v: Checks)
    requires WellFormed(s)
  {
    s.text[AndroidAppID] != "" ==> v.androidAppId(s.text[AndroidAppID])
  }

  predicate ScopeValid(scope: string) { scope == "" || scope == DEFAULT_SCOPE || scope == OVERRIDE_SCOPE }

  /** The checks before anything is written. */
  predicate SpecValid(s: Spec, v: Checks)
    requires WellFormed(s)
  {
    && Enum(s.context.platform, {"windows", "linux", "android"})
    && (s.context.platform == "android" && !s.context.allowMissingAndroidAppId ==>
          s.text[AndroidAppID] != "" && AndroidIdValid(s, v))
    && ScopeValid(s.context.scope)
    && FieldsValid(s, v)
  }

  /** validateEnum: no value, or one of the allowed. */
  method ValidateEnum(value: string, allowed: seq<string>) returns (ok: bool)
    ensures ok <==> value == "" || value in allowed
  {
    if value == "" { return true; }
    for i := 0 to |allowed|
      invariant value !in allowed[..i]
    {
      if value == allowed[i] { return true; }
    }
    ok := false;
  }

  method ValidateEnums(s: Spec) returns (ok: bool)
    requires WellFormed(s)
    ensures ok <==>
      && Enum(s.text[Direction], {"both", "incoming", "outgoing"})
      && Enum(s.text[PermissionsType], {"custom", "full", "view"})
      && Enum(s.text[Theme], {"light", "dark", "system"})
      && Enum(s.text[PassApproveMode], {"password", "click", "password-click", "both"})
  {
    ok := ValidateEnum(s.text[Direction], ["both", "incoming", "outgoing"]);
    if !ok { return; }
    ok := ValidateEnum(s.text[PermissionsType], ["custom", "full", "view"]);
    if !ok { return; }
    ok := ValidateEnum(s.text[Theme], ["light", "dark", "system"]);
    if !ok { return; }
    ok := ValidateEnum(s.text[PassApproveMode], ["password", "click", "password-click", "both"]);
  }

  method ValidateHideCMCombination(s: Spec) returns (ok: bool)
    requires WellFormed(s)
    ensures ok <==> HideCMFits(s)
  {
    if HideCM !in s.flags || !s.flags[HideCM] { return true; }
    if Trim(s.text[PermanentPassword]) == "" { return false; }
    if s.text[PassApproveMode] == "" { return false; }
    if s.text[PassApproveMode] != "password" { return false; }
    ok := true;
  }

  method ValidateBranding(s: Spec, v: Checks) returns (ok: bool)
    requires WellFormed(s)
    ensures ok <==>
      && v.brandingUrl(s.text[WebsiteURL])
      && v.brandingUrl(s.text[PrivacyPolicyURL])
      && v.brandingUrl(s.text[DownloadURL])
      && v.companyName(s.text[CompanyName])
      && v.imageUrl(s.text[AppIconURL])
      && v.imageUrl(s.text[AppLogoURL])
      && v.imageUrl(s.text[PrivacyScreenURL])
  {
    if !v.brandingUrl(s.text[WebsiteURL]) { return false; }
    if !v.brandingUrl(s.text[PrivacyPolicyURL]) { return false; }
    if !v.brandingUrl(s.text[DownloadURL]) { return false; }
    if !v.companyName(s.text[CompanyName]) { return false; }
    if !v.imageUrl(s.text[AppIconURL]) { return false; }
    if !v.imageUrl(s.text[AppLogoURL]) { return false; }
    ok := v.imageUrl(s.text[PrivacyScreenURL]);
  }

  method ValidateTransportFields(s: Spec, v: Checks) returns (ok: bool)
    requires WellFormed(s)
    ensures ok <==>
      && v.workflowValue(s.text[ServerIP])
      && v.workflowValue(s.text[Key])
      && (s.text[Key] != "" ==> v.keyMaterial(s.text[Key]))
  {
    if !v.workflowValue(s.text[ServerIP]) { return false; }
    if !v.workflowValue(s.text[Key]) { return false; }
    if s.text[Key] != "" && !v.keyMaterial(s.text[Key]) { return false; }
    ok := true;
  }

  /** The checks that parseBuildSpec makes once every field is read. */
  method ValidateFields(s: Spec, v: Checks) returns (ok: bool)
    requires WellFormed(s)
    ensures ok <==> AndroidIdValid(s, v) && FieldsValid(s, v)
  {
    hide Enum, HideCMFits;
    if s.text[AndroidAppID] != "" && !v.androidAppId(s.text[AndroidAppID]) { return false; }
    ok := ValidateTransportFields(s, v);
    if !ok { return; }
    ok := ValidateEnums(s);
    if !ok { return; }
    if !v.endpoint(s.text[ServerIP]) { return false; }
    if !v.endpoint(s.text[RelayServer]) { return false; }
    if !v.apiUrl(s.text[APIServer]) { return false; }
    ok := ValidateBranding(s, v);
    if !ok { return; }
    ok := ValidateHideCMCombination(s);
  }

  /** ParsePlatform. */
  method ParsePlatform(value: string) returns (ok: bool)
    ensures ok <==> value in {"windows", "linux", "android"}
  {
    ok := value == "windows" || value == "linux" || value == "android";
  }

  /** ParseSettingsScope: no scope is the default one. */
  method ParseSettingsScope(value: string) returns (scope: Option<string>)
    ensures scope.Some? <==> ScopeValid(value)
    ensures scope.Some? ==> scope.value == if value == "" then "default" else value
  {
    if value == "" { return Some(DEFAULT_SCOPE); }
    if value == DEFAULT_SCOPE || value == OVERRIDE_SCOPE { return Some(value); }
    scope := None;
  }

  /** validateBuildSpec. */
  method ValidateBuildSpec(s: Spec, v: Checks) returns (ok: bool)
    requires WellFormed(s)
    ensures ok <==> SpecValid(s, v)
  {
    hide HideCMFits, ScopeValid;
    if s.context.platform != "" {
      ok := ParsePlatform(s.context.platform);
      if !ok { return; }
      if s.context.platform == "android" && !s.context.allowMissingAndroidAppId {
        if s.text[AndroidAppID] == "" { return false; }
        if !v.androidAppId(s.text[AndroidAppID]) { return false; }
      }
    }
    var scope := ParseSettingsScope(s.context.scope);
    if scope.None? { return false; }
    ok := ValidateEnums(s);
    if !ok { return; }
    ok := ValidateHideCMCombination(s);
    if !ok { return; }
    ok := ValidateBranding(s, v);
    if !ok { return; }
    ok := ValidateTransportFields(s, v);
    if !ok { return; }
    ok := v.endpoint(s.text[ServerIP]) && v.endpoint(s.text[RelayServer]) && v.apiUrl(s.text[APIServer]);
  }

  // ---------------------------------------------------------------- parsing

  const RECORD_FIELDS := {"app_name", "build_id", "platform", "version"}

  ghost predicate KnownName(name: string) {
    || name in RECORD_FIELDS
    || (exists f :: StringName(f) == name)
    || (exists f :: BoolName(f) == name)
  }

  ghost predicate Known(raw: Object) { forall name :: name in raw ==> KnownName(name) && name != "custom_txt" }

  predicate TextsTyped(raw: Object) { forall f: StringField :: StringName(f) in raw ==> raw[StringName(f)].Str? }

  predicate FlagsTyped(raw: Object) { forall f: BoolField :: BoolName(f) in raw ==> raw[BoolName(f)].Bool? }

  predicate LineBreak(c: char) { c == '\r' || c == '\n' }

  function NormalizePublicKey(value: string): string { TrimRight(value, LineBreak) }

  lemma {:induction false} TrimmedTwice(s: string, space: char -> bool)
    ensures TrimRight(TrimRight(s, space), space) == TrimRight(s, space)
    decreases |s|
  {
    if s != "" && space(s[|s| - 1]) { TrimmedTwice(s[..|s| - 1], space); }
  }

  function TextOf(raw: Object, f: StringField): string {
    if StringName(f) in raw && raw[StringName(f)].Str? then
      var s := raw[StringName(f)].s;
      if f.Key? then NormalizePublicKey(s) else s
    else ""
  }

  /** A key loses the line breaks at its end and nothing else. */
  lemma KeyExactly(raw: Object)
    requires StringName(Key) in raw && raw[StringName(Key)].Str?
    ensures
      exists j :: 0 <= j <= |raw[StringName(Key)].s| &&
        var s := raw[StringName(Key)].s;
        && Parsed(raw).text[Key] == s[..j]
        && (forall k :: j <= k < |s| ==> s[k] == '\r' || s[k] == '\n')
        && (j > 0 ==> s[j - 1] != '\r' && s[j - 1] != '\n')
  {
    hide StringName;
    var j := TrimRightExactly(raw[StringName(Key)].s, LineBreak);
    assert Parsed(raw).text[Key] == raw[StringName(Key)].s[..j];
  }

  /** What the form says, field by field. */
  ghost function Parsed(raw: Object): (s: Spec)
    ensures WellFormed(s)
  {
    Spec(map f: StringField | true :: TextOf(raw, f),
         set f: StringField | StringName(f) in raw,
         map f: BoolField | BoolName(f) in raw && raw[BoolName(f)].Bool? :: raw[BoolName(f)].b,
         NO_CONTEXT)
  }

  ghost predicate Accepts(raw: Object, v: Checks) {
    Known(raw) && TextsTyped(raw) && FlagsTyped(raw) && FieldsValid(Parsed(raw), v) && AndroidIdValid(Parsed(raw), v)
  }

  method ValidateKnownBuildFields(raw: Object) returns (ok: bool)
    ensures ok <==> Known(raw)
  {
    hide StringName, BoolName;
    var names := raw.Keys;
    while names != {}
      invariant names <= raw.Keys
      invariant forall name :: name in raw && name !in names ==> KnownName(name) && name != "custom_txt"
      decreases |names|
    {
      var name :| name in names;
      names := names - {name};
      if name == "custom_txt" { return false; }
      if name in RECORD_FIELDS { continue; }
      var known := false;
      for i := 0 to |STRING_FIELDS|
        invariant !known
        invariant forall j :: 0 <= j < i ==> StringName(STRING_FIELDS[j]) != name
      {
        if StringName(STRING_FIELDS[i]) == name {
          known := true;
          break;
        }
      }
      if !known {
        for i := 0 to |BOOL_FIELDS|
          invariant !known
          invariant forall j :: 0 <= j < i ==> BoolName(BOOL_FIELDS[j]) != name
        {
          if BoolName(BOOL_FIELDS[i]) == name {
            known := true;
            break;
          }
        }
      }
      if !known {
        Unknown(name);
        return false;
      }
    }
    ok := true;
  }

  lemma Unknown(name: string)
    requires name !in RECORD_FIELDS
    requires forall j :: 0 <= j < |STRING_FIELDS| ==> StringName(STRING_FIELDS[j]) != name
    requires forall j :: 0 <= j < |BOOL_FIELDS| ==> BoolName(BOOL_FIELDS[j]) != name
    ensures !KnownName(name)
  {
    hide StringName, BoolName;
    forall f: StringField
      ensures StringName(f) != name
    {
      StringListed(f);
      var j :| 0 <= j < |STRING_FIELDS| && STRING_FIELDS[j] == f;
    }
    forall f: BoolField
      ensures BoolName(f) != name
    {
      BoolListed(f);
      var j :| 0 <= j < |BOOL_FIELDS| && BOOL_FIELDS[j] == f;
    }
  }

  method ReadTexts(raw: Object) returns (r: Option<(map<StringField, string>, set<StringField>)>)
    ensures r.Some? <==> TextsTyped(raw)
    ensures r.Some? ==> r.value.0 == Parsed(raw).text && r.value.1 == Parsed(raw).authored
  {
    hide StringName, NormalizePublicKey;
    var text: map<StringField, string> := map[];
    var authored: set<StringField> := {};
    for i := 0 to |STRING_FIELDS|
      invariant forall f :: f in text <==> f in STRING_FIELDS[..i]
      invariant forall f :: f in text ==> text[f] == TextOf(raw, f)
      invariant forall f :: f in authored <==> f in STRING_FIELDS[..i] && StringName(f) in raw
      invariant forall f :: f in authored ==> raw[StringName(f)].Str?
    {
      var f := STRING_FIELDS[i];
      var value := "";
      if StringName(f) in raw {
        if !raw[StringName(f)].Str? { return None; }
        value := raw[StringName(f)].s;
      }
      EmptyKey();
      if f == Key { value := NormalizePublicKey(value); }
      text := text[f := value];
      if StringName(f) in raw { authored := authored + {f}; }
      assert STRING_FIELDS[..i + 1] == STRING_FIELDS[..i] + [f];
    }
    assert STRING_FIELDS[..|STRING_FIELDS|] == STRING_FIELDS;
    forall f: StringField
      ensures f in text
    {
      StringListed(f);
    }
    r := Some((text, authored));
  }

  method ReadFlags(raw: Object) returns (r: Option<map<BoolField, bool>>)
    ensures r.Some? <==> FlagsTyped(raw)
    ensures r.Some? ==> r.value == Parsed(raw).flags
  {
    hide BoolName;
    var flags: map<BoolField, bool> := map[];
    for i := 0 to |BOOL_FIELDS|
      invariant forall f :: f in flags <==> f in BOOL_FIELDS[..i] && BoolName(f) in raw
      invariant forall f :: f in flags ==> raw[BoolName(f)] == Bool(flags[f])
    {
      var f := BOOL_FIELDS[i];
      if BoolName(f) in raw {
        if !raw[BoolName(f)].Bool? { return None; }
        flags := flags[f := raw[BoolName(f)].b];
      }
      assert BOOL_FIELDS[..i + 1] == BOOL_FIELDS[..i] + [f];
    }
    assert BOOL_FIELDS[..|BOOL_FIELDS|] == BOOL_FIELDS;
    forall f: BoolField | BoolName(f) in raw
      ensures f in flags
    {
      BoolListed(f);
    }
    r := Some(flags);
  }

  /** Accepts exactly the known, well-typed and valid forms, and reads every field. */
  method ParseBuildSpec(raw: Object, v: Checks) returns (r: Option<Spec>)
    ensures r.Some? <==> Accepts(raw, v)
    ensures r.Some? ==> r.value == Parsed(raw)
  {
    hide StringName, BoolName, FieldsValid, NormalizePublicKey, Known;
    var known := ValidateKnownBuildFields(raw);
    if !known { return None; }
    var texts := ReadTexts(raw);
    if texts.None? { return None; }
    var flags := ReadFlags(raw);
    if flags.None? { return None; }
    var spec := Spec(texts.value.0, texts.value.1, flags.value, NO_CONTEXT);
    var ok := ValidateFields(spec, v);
    if !ok { return None; }
    r := Some(spec);
  }

  lemma EmptyKey()
    ensures NormalizePublicKey("") == ""
  {
  }

  // ---------------------------------------------------------------- writing

  /** A text is written when it is non-empty or was authored. */
  predicate Kept(s: Spec, f: StringField)
    requires WellFormed(s)
  {
    s.text[f] != "" || f in s.authored
  }

  ghost predicate HoldsTexts(s: Spec, fs: seq<StringField>, m: Object)
    requires WellFormed(s)
  {
    forall f :: f in fs && Kept(s, f) ==> StringName(f) in m && m[StringName(f)] == Str(s.text[f])
  }

  ghost predicate HoldsFlags(s: Spec, gs: seq<BoolField>, m: Object) {
    forall g :: g in gs && g in s.flags ==> BoolName(g) in m && m[BoolName(g)] == Bool(s.flags[g])
  }

  ghost predicate HoldsOnly(s: Spec, fs: seq<StringField>, gs: seq<BoolField>, m: Object)
    requires WellFormed(s)
  {
    forall name :: name in m ==>
      || (exists f :: f in fs && Kept(s, f) && StringName(f) == name)
      || (exists g :: g in gs && g in s.flags && BoolName(g) == name)
  }

  /** The object holds the kept texts among `fs`, the given flags among `gs`, and nothing else. */
  ghost predicate Holds(s: Spec, fs: seq<StringField>, gs: seq<BoolField>, m: Object)
    requires WellFormed(s)
  {
    HoldsTexts(s, fs, m) && HoldsFlags(s, gs, m) && HoldsOnly(s, fs, gs, m)
  }

  /** The persisted form of a spec. */
  ghost predicate Persists(s: Spec, m: Object)
    requires WellFormed(s)
  {
    Holds(s, STRING_FIELDS, BOOL_FIELDS, m)
  }

  lemma AddText(s: Spec, fs: seq<StringField>, f: StringField, m: Object)
    requires WellFormed(s) && Holds(s, fs, [], m)
    ensures Holds(s, fs + [f], [], if Kept(s, f) then m[StringName(f) := Str(s.text[f])] else m)
  {
    hide STRING_FIELDS, BOOL_FIELDS, StringName, Kept;
    forall g | g in fs
      ensures StringName(g) == StringName(f) ==> g == f
    {
      StringNamesDiffer(g, f);
    }
    assert forall g :: g in fs + [f] <==> g in fs || g == f;
  }

  lemma FlagKeepsTexts(s: Spec, fs: seq<StringField>, g: BoolField, m: Object, value: Json)
    requires WellFormed(s) && HoldsTexts(s, fs, m)
    ensures HoldsTexts(s, fs, m[BoolName(g) := value])
  {
    hide StringName, BoolName, Kept;
    forall f: StringField
      ensures StringName(f) != BoolName(g)
    {
      TablesDiffer(f, g);
    }
  }

  lemma FlagAdded(s: Spec, gs: seq<BoolField>, g: BoolField, m: Object)
    requires HoldsFlags(s, gs, m)
    ensures HoldsFlags(s, gs + [g], if g in s.flags then m[BoolName(g) := Bool(s.flags[g])] else m)
  {
    hide BoolName;
    forall h | h in gs
      ensures BoolName(h) == BoolName(g) ==> h == g
    {
      BoolNamesDiffer(h, g);
    }
    assert forall h :: h in gs + [g] <==> h in gs || h == g;
  }

  lemma FlagOnly(s: Spec, fs: seq<StringField>, gs: seq<BoolField>, g: BoolField, m: Object)
    requires WellFormed(s) && HoldsOnly(s, fs, gs, m)
    ensures HoldsOnly(s, fs, gs + [g], if g in s.flags then m[BoolName(g) := Bool(s.flags[g])] else m)
  {
    hide StringName, BoolName, Kept;
    assert g in gs + [g];
    assert forall h :: h in gs ==> h in gs + [g];
  }

  lemma AddFlag(s: Spec, gs: seq<BoolField>, g: BoolField, m: Object)
    requires WellFormed(s) && Holds(s, STRING_FIELDS, gs, m)
    ensures Holds(s, STRING_FIELDS, gs + [g], if g in s.flags then m[BoolName(g) := Bool(s.flags[g])] else m)
  {
    hide STRING_FIELDS, BOOL_FIELDS, BoolName, HoldsTexts, HoldsFlags, HoldsOnly;
    if g in s.flags { FlagKeepsTexts(s, STRING_FIELDS, g, m, Bool(s.flags[g])); }
    FlagAdded(s, gs, g, m);
    FlagOnly(s, STRING_FIELDS, gs, g, m);
  }

  /** Writes exactly the valid specs. */
  method PersistedJSON(s: Spec, v: Checks) returns (r: Option<Object>)
    requires WellFormed(s)
    ensures r.Some? <==> SpecValid(s, v)
    ensures r.Some? ==> Persists(s, r.value)
  {
    hide StringName, BoolName, Holds, SpecValid, Kept;
    var ok := ValidateBuildSpec(s, v);
    if !ok { return None; }
    var m: Object := map[];
    NothingHeld(s);
    assert STRING_FIELDS[..0] == [];
    for i := 0 to |STRING_FIELDS|
      invariant Holds(s, STRING_FIELDS[..i], [], m)
    {
      var f := STRING_FIELDS[i];
      AddText(s, STRING_FIELDS[..i], f, m);
      assert STRING_FIELDS[..i + 1] == STRING_FIELDS[..i] + [f];
      if Kept(s, f) { m := m[StringName(f) := Str(s.text[f])]; }
    }
    assert STRING_FIELDS[..|STRING_FIELDS|] == STRING_FIELDS && BOOL_FIELDS[..0] == [];
    for i := 0 to |BOOL_FIELDS|
      invariant Holds(s, STRING_FIELDS, BOOL_FIELDS[..i], m)
    {
      var g := BOOL_FIELDS[i];
      AddFlag(s, BOOL_FIELDS[..i], g, m);
      assert BOOL_FIELDS[..i + 1] == BOOL_FIELDS[..i] + [g];
      if g in s.flags { m := m[BoolName(g) := Bool(s.flags[g])]; }
    }
    assert BOOL_FIELDS[..|BOOL_FIELDS|] == BOOL_FIELDS;
    r := Some(m);
  }

  lemma NothingHeld(s: Spec)
    requires WellFormed(s)
    ensures Holds(s, [], [], map[])
  {
  }

  // ---------------------------------------------------------------- the round trip

  /** What the persisted object says about each name. */
  lemma PersistedText(s: Spec, m: Object, f: StringField)
    requires WellFormed(s) && Persists(s, m)
    ensures StringName(f) in m <==> Kept(s, f)
    ensures Kept(s, f) ==> m[StringName(f)] == Str(s.text[f])
  {
    hide STRING_FIELDS, BOOL_FIELDS, StringName, BoolName, Kept;
    StringListed(f);
    if StringName(f) in m {
      if g :| g in BOOL_FIELDS && g in s.flags && BoolName(g) == StringName(f) {
        TablesDiffer(f, g);
      } else {
        var h :| h in STRING_FIELDS && Kept(s, h) && StringName(h) == StringName(f);
        StringNamesDiffer(h, f);
      }
    }
  }

  lemma PersistedFlag(s: Spec, m: Object, g: BoolField)
    requires WellFormed(s) && Persists(s, m)
    ensures BoolName(g) in m <==> g in s.flags
    ensures g in s.flags ==> m[BoolName(g)] == Bool(s.flags[g])
  {
    hide STRING_FIELDS, BOOL_FIELDS, StringName, BoolName, Kept;
    BoolListed(g);
    if BoolName(g) in m {
      if f :| f in STRING_FIELDS && Kept(s, f) && StringName(f) == BoolName(g) {
        TablesDiffer(f, g);
      } else {
        var h :| h in BOOL_FIELDS && h in s.flags && BoolName(h) == BoolName(g);
        BoolNamesDiffer(h, g);
      }
    }
  }

  /** There is one persisted form. */
  lemma PersistsOne(s: Spec, m: Object, n: Object)
    requires WellFormed(s) && Persists(s, m) && Persists(s, n)
    ensures m == n
  {
    hide StringName, BoolName, Kept;
    PersistsInto(s, m, n);
    PersistsInto(s, n, m);
  }

  lemma PersistsInto(s: Spec, m: Object, n: Object)
    requires WellFormed(s) && Persists(s, m) && Persists(s, n)
    ensures forall name :: name in m ==> name in n && m[name] == n[name]
  {
    hide STRING_FIELDS, BOOL_FIELDS, StringName, BoolName, Kept;
  }

  /** A spec that can have come from a form: texts are authored, the key is normalized, the app id valid. */
  predicate Canonical(s: Spec, v: Checks)
    requires WellFormed(s)
  {
    && (forall f: StringField :: s.text[f] != "" ==> f in s.authored)
    && NormalizePublicKey(s.text[Key]) == s.text[Key]
    && AndroidIdValid(s, v)
  }

  /** Parsing yields canonical specs. */
  lemma ParsedIsCanonical(raw: Object, v: Checks)
    requires Accepts(raw, v)
    ensures Canonical(Parsed(raw), v)
  {
    hide StringName, BoolName, FieldsValid, TrimRight;
    EmptyKey();
    if StringName(Key) in raw { TrimmedTwice(raw[StringName(Key)].s, LineBreak); }
  }

  /** The texts, authorship and flags read back from the persisted form. */
  lemma ReadBack(s: Spec, m: Object)
    requires WellFormed(s) && Persists(s, m)
    ensures TextsTyped(m) && FlagsTyped(m) && Known(m)
    ensures Parsed(m).flags == s.flags
    ensures Parsed(m).authored == set f: StringField | Kept(s, f)
    ensures forall f: StringField :: Parsed(m).text[f] == if f == Key then NormalizePublicKey(s.text[f]) else s.text[f]
  {
    hide StringName, BoolName, Kept, Persists, NormalizePublicKey;
    forall f: StringField
      ensures StringName(f) in m <==> Kept(s, f)
      ensures Kept(s, f) ==> m[StringName(f)] == Str(s.text[f])
      ensures !Kept(s, f) ==> s.text[f] == ""
    {
      PersistedText(s, m, f);
      KeptUnlessEmpty(s, f);
    }
    forall g: BoolField
      ensures BoolName(g) in m <==> g in s.flags
      ensures g in s.flags ==> m[BoolName(g)] == Bool(s.flags[g])
    {
      PersistedFlag(s, m, g);
    }
    EmptyKey();
    PersistedKnown(s, m);
  }

  lemma KeptUnlessEmpty(s: Spec, f: StringField)
    requires WellFormed(s)
    ensures !Kept(s, f) ==> s.text[f] == ""
  {
  }

  lemma PersistedKnown(s: Spec, m: Object)
    requires WellFormed(s) && Persists(s, m)
    ensures Known(m)
  {
    hide STRING_FIELDS, BOOL_FIELDS, StringName, BoolName, Kept;
    forall name | name in m
      ensures KnownName(name) && name != "custom_txt"
    {
      if f :| f in STRING_FIELDS && Kept(s, f) && StringName(f) == name {
        NotCustomTxt(f, DenyLAN);
      } else {
        var g :| g in BOOL_FIELDS && g in s.flags && BoolName(g) == name;
        NotCustomTxt(Key, g);
      }
    }
  }

  lemma NotCustomTxt(f: StringField, g: BoolField)
    ensures StringName(f) != "custom_txt" && BoolName(g) != "custom_txt"
  {
    hide StringName, BoolName;
    StringNameMark(f);
    BoolNameMark(g);
    assert Mark("custom_txt") == 10_099_109;
  }

  /** Form checks do not look at the record's values. */
  lemma ContextFree(s: Spec, c: Context, v: Checks)
    requires WellFormed(s)
    ensures FieldsValid(s.(context := c), v) == FieldsValid(s, v)
    ensures AndroidIdValid(s.(context := c), v) == AndroidIdValid(s, v)
    ensures Canonical(s.(context := c), v) == Canonical(s, v)
  {
    hide NormalizePublicKey, Enum, Trim;
  }

  lemma CanonicalReadsBack(s: Spec, m: Object, v: Checks)
    requires WellFormed(s) && Persists(s, m) && Canonical(s, v)
    ensures Parsed(m) == s.(context := NO_CONTEXT)
  {
    hide StringName, BoolName, NormalizePublicKey, Persists, Known, TextsTyped, FlagsTyped, Parsed, AndroidIdValid;
    ReadBack(s, m);
    var p := Parsed(m);
    assert p.text == s.text;
    assert p.authored == s.authored;
    NoContext(m);
  }

  lemma NoContext(raw: Object)
    ensures Parsed(raw).context == NO_CONTEXT
  {
  }

  /** Parsing the persisted form of a valid spec gives the spec back exactly when it is canonical. */
  lemma PersistParse(s: Spec, m: Object, v: Checks)
    requires WellFormed(s) && SpecValid(s, v) && Persists(s, m)
    ensures Accepts(m, v) && Parsed(m) == s.(context := NO_CONTEXT) <==> Canonical(s, v)
  {
    hide StringName, BoolName, NormalizePublicKey, Persists, Known, TextsTyped, FlagsTyped, Parsed, FieldsValid, AndroidIdValid;
    ReadBack(s, m);
    ContextFree(s, NO_CONTEXT, v);
    if Canonical(s, v) {
      CanonicalReadsBack(s, m, v);
    } else if Accepts(m, v) {
      ParsedIsCanonical(m, v);
    }
  }

  // ---------------------------------------------------------------- normalization

  /** The build that normalization produces from a form. */
  ghost predicate Normalizes(raw: Object, c: Context, v: Checks, s: Spec, m: Object) {
    && RecordValid(c, v)
    && Accepts(raw, v)
    && s == Parsed(raw).(context := Resolved(c))
    && SpecValid(s, v)
    && Persists(s, m)
  }

  predicate RecordValid(c: Context, v: Checks) {
    c.platform in {"windows", "linux", "android"} && v.recordContext(c) && ScopeValid(c.scope)
  }

  function Resolved(c: Context): Context { if c.scope == "" then c.(scope := DEFAULT_SCOPE) else c }

  method NormalizeCustomBuild(raw: Object, c: Context, v: Checks) returns (r: Option<(Spec, Object)>)
    ensures r.Some? ==> Normalizes(raw, c, v, r.value.0, r.value.1)
    ensures r.None? ==> forall s, m :: !Normalizes(raw, c, v, s, m)
  {
    hide StringName, BoolName, FieldsValid, Persists, Known, TextsTyped, FlagsTyped, Parsed;
    var ok := ParsePlatform(c.platform);
    if !ok || !v.recordContext(c) { return None; }
    var scope := ParseSettingsScope(c.scope);
    if scope.None? { return None; }
    var parsed := ParseBuildSpec(raw, v);
    if parsed.None? { return None; }
    var spec := parsed.value.(context := c.(scope := scope.value));
    assert spec.context == Resolved(c);
    var m := PersistedJSON(spec, v);
    if m.None? { return None; }
    r := Some((spec, m.value));
  }

  /** Normalizing the persisted form yields the same spec and the same persisted form, and nothing else. */
  lemma NormalizeTwice(raw: Object, c: Context, v: Checks, s: Spec, m: Object, s': Spec, m': Object)
    requires Normalizes(raw, c, v, s, m)
    ensures Normalizes(m, c, v, s, m)
    ensures Normalizes(m, c, v, s', m') ==> s' == s && m' == m
  {
    hide StringName, BoolName, NormalizePublicKey, Persists, Known, TextsTyped, FlagsTyped, Parsed, FieldsValid, AndroidIdValid, Canonical;
    ParsedIsCanonical(raw, v);
    ContextFree(Parsed(raw), Resolved(c), v);
    PersistParse(s, m, v);
    NoContext(raw);
    assert s.(context := NO_CONTEXT) == Parsed(raw);
    if Normalizes(m, c, v, s', m') { PersistsOne(s, m, m'); }
  }

  /** JSON text: what decoding an object yields, if anything, and how an object is written. */
  datatype Codec = Codec(decode: string -> Option<Object>, encode: Object -> string)

  predicate Flat(m: Object) { forall name :: name in m ==> !m[name].Other? }

  /** Objects of strings and booleans are read back as they were written, and never written as nothing. */
  ghost predicate Lawful(codec: Codec) {
    forall m :: Flat(m) ==> codec.encode(m) != "" && codec.decode(codec.encode(m)) == Some(m)
  }

  /** Canonicalization of the stored text; no text stays no text. */
  ghost predicate Canonicalizes(text: string, c: Context, v: Checks, codec: Codec, s: Spec, json: string) {
    if text == "" then json == "" && exists m :: Normalizes(map[], c, v, s, m)
    else
      && codec.decode(text).Some?
      && exists m :: Normalizes(codec.decode(text).value, c, v, s, m) && json == codec.encode(m)
  }

  method NormalizeCustomBuildJSON(text: string, c: Context, v: Checks, codec: Codec) returns (r: Option<(Spec, string)>)
    ensures r.Some? ==> Canonicalizes(text, c, v, codec, r.value.0, r.value.1)
    ensures r.None? ==> forall s, json :: !Canonicalizes(text, c, v, codec, s, json)
  {
    hide Normalizes;
    if text == "" {
      var build := NormalizeCustomBuild(map[], c, v);
      return if build.Some? then Some((build.value.0, "")) else None;
    }
    var raw := codec.decode(text);
    if raw.None? { return None; }
    var build := NormalizeCustomBuild(raw.value, c, v);
    r := if build.Some? then Some((build.value.0, codec.encode(build.value.1))) else None;
  }

  lemma PersistedFlat(s: Spec, m: Object)
    requires WellFormed(s) && Persists(s, m)
    ensures Flat(m)
  {
    hide StringName, BoolName, Kept;
  }

  /** Canonical text is a fixed point: canonicalizing it again yields the same spec and the same text. */
  lemma CanonicalizeTwice(text: string, c: Context, v: Checks, codec: Codec, s: Spec, json: string, s': Spec, json': string)
    requires Lawful(codec) && Canonicalizes(text, c, v, codec, s, json)
    ensures Canonicalizes(json, c, v, codec, s, json)
    ensures Canonicalizes(json, c, v, codec, s', json') ==> s' == s && json' == json
  {
    hide Parsed, SpecValid, Persists, Accepts, RecordValid;
    if text == "" {
      assert s == Parsed(map[]).(context := Resolved(c));
    } else {
      var raw := codec.decode(text).value;
      var m :| Normalizes(raw, c, v, s, m) && json == codec.encode(m);
      PersistedFlat(s, m);
      NormalizeTwice(raw, c, v, s, m, s, m);
      if m' :| Normalizes(m, c, v, s', m') && json' == codec.encode(m') {
        NormalizeTwice(raw, c, v, s, m, s', m');
      }
    }
  }
}
