/** The capture command and its JSON form: written as a tree, read back field by field. */
module CaptureCommand {
  import opened Bytes
  import opened Buffers

  type int32 = x: int | -0x8000_0000 <= x < 0x8000_0000

  /** The item names of the command, its captures and their settings. */
  datatype Key =
    | Type | DhId | Command | Value | Mode | UserId | TokenId | AccountId
    | Width | Height | Format | DataSpace | IsCapture | EncodeType | StreamType | CaptureSettings
    | SettingType | SettingValue
    | Other(name: string)

  /** A JSON value; an object is what a lookup sees of it, the first item of each name. */
  datatype Json =
    | Null
    | Boolean(b: bool)
    | Number(n: int)
    | Text(s: string)
    | Array(items: seq<Json>)
    | Object(fields: map<Key, Json>)

  datatype Setting = Setting(kind: int32, value: string)

  datatype CaptureInfo = CaptureInfo(
    width: int32, height: int32, format: int32, dataspace: int32, isCapture: bool,
    encodeType: int32, streamType: int32, settings: seq<Setting>)

  datatype Fields = Fields(
    kind: string, dhId: string, command: string, value: seq<Option<CaptureInfo>>,
    sceneMode: int32, userId: int32, tokenId: u64, accountId: string)

  /** What c_str() passes on: everything before the first NUL. */
  function CStr(s: string): (r: string)
    ensures r == s <==> '\0' !in s
  {
    if s == [] || s[0] == '\0' then [] else [s[0]] + CStr(s[1..])
  }

  /** valueint: a number is read as an int, cut off at the ends of its range. */
  function ValueInt(n: int): int32 {
    if n > 0x7fff_ffff then 0x7fff_ffff else if n < -0x8000_0000 then -0x8000_0000 else n
  }

  // ---- Writing ----

  function SettingTree(s: Setting): Json {
    Object(map[SettingType := Number(s.kind), SettingValue := Text(CStr(s.value))])
  }

  function SettingTrees(ss: seq<Setting>): seq<Json> {
    seq(|ss|, i requires 0 <= i < |ss| => SettingTree(ss[i]))
  }

  function InfoTree(c: CaptureInfo): Json {
    Object(map[
      Width := Number(c.width), Height := Number(c.height), Format := Number(c.format),
      DataSpace := Number(c.dataspace), IsCapture := Boolean(c.isCapture), EncodeType := Number(c.encodeType),
      StreamType := Number(c.streamType),
      CaptureSettings := Array(SettingTrees(c.settings))])
  }

  predicate AllPresent(vs: seq<Option<CaptureInfo>>) { forall i :: 0 <= i < |vs| ==> vs[i].Some? }

  function InfoTrees(vs: seq<Option<CaptureInfo>>): seq<Json>
    requires AllPresent(vs)
  {
    seq(|vs|, i requires 0 <= i < |vs| => InfoTree(vs[i].value))
  }

  /** Marshal: nothing is written when a capture is missing. */
  function Tree(f: Fields): Option<Json> {
    if !AllPresent(f.value) then None else
    Some(Object(map[
      Type := Text(CStr(f.kind)), DhId := Text(CStr(f.dhId)), Command := Text(CStr(f.command)),
      Value := Array(InfoTrees(f.value)), Mode := Number(f.sceneMode), UserId := Number(f.userId),
      TokenId := Number(f.tokenId), AccountId := Text(CStr(f.accountId))]))
  }

  // ---- Reading ----

  function Item(j: Json, k: Key): Json {
    if j.Object? && k in j.fields then j.fields[k] else Null
  }

  function ReadSetting(j: Json): Option<Setting> {
    if !Item(j, SettingType).Number? || !Item(j, SettingValue).Text? then None
    else Some(Setting(ValueInt(Item(j, SettingType).n), Item(j, SettingValue).s))
  }

  function ReadSettings(js: seq<Json>): Option<seq<Setting>> {
    if js == [] then Some([]) else
    var before, last := ReadSettings(js[..|js| - 1]), ReadSetting(js[|js| - 1]);
    if before == None || last == None then None else Some(before.value + [last.value])
  }

  function Int(j: Json, k: Key): int32
    requires Item(j, k).Number?
  {
    ValueInt(Item(j, k).n)
  }

  predicate InfoComplete(j: Json) {
    && (forall k | k in {Width, Height, Format, DataSpace, EncodeType, StreamType} :: Item(j, k).Number?)
    && Item(j, IsCapture).Boolean? && Item(j, CaptureSettings).Array?
    && ReadSettings(Item(j, CaptureSettings).items).Some?
  }

  function ReadInfo(j: Json): Option<CaptureInfo> {
    if !InfoComplete(j) then None else
    Some(CaptureInfo(
      Int(j, Width), Int(j, Height), Int(j, Format), Int(j, DataSpace), Item(j, IsCapture).b,
      Int(j, EncodeType), Int(j, StreamType), ReadSettings(Item(j, CaptureSettings).items).value))
  }

  /** The captures up to the first that does not read, and whether all did. */
  datatype Infos = Infos(read: seq<Option<CaptureInfo>>, all: bool)

  function ReadInfos(js: seq<Json>): Infos {
    if js == [] then Infos([], true) else
    var before := ReadInfos(js[..|js| - 1]);
    if !before.all then before else
    match ReadInfo(js[|js| - 1])
    case None => Infos(before.read, false)
    case Some(c) => Infos(before.read + [Some(c)], true)
  }

  function ReadValue(f: Fields, root: Json): (Fields, int) {
    if !Item(root, Value).Array? then (f, DCAMERA_BAD_VALUE) else
    var r := ReadInfos(Item(root, Value).items);
    (f.(value := f.value + r.read), if r.all then DCAMERA_OK else DCAMERA_BAD_VALUE)
  }

  function IntOr(j: Json, k: Key, default: int32): int32 {
    if Item(j, k).Number? then ValueInt(Item(j, k).n) else default
  }

  /** Unmarshal into an object that already has fields: the first three are required in this order, the
      captures are appended, and the rest is read with defaults even when a capture did not read. */
  function Read(f: Fields, root: Option<Json>): (Fields, int) {
    if root == None then (f, DCAMERA_BAD_VALUE) else
    var j := root.value;
    if !Item(j, Type).Text? then (f, DCAMERA_BAD_VALUE) else
    var f1 := f.(kind := Item(j, Type).s);
    if !Item(j, DhId).Text? then (f1, DCAMERA_BAD_VALUE) else
    var f2 := f1.(dhId := Item(j, DhId).s);
    if !Item(j, Command).Text? then (f2, DCAMERA_BAD_VALUE) else
    var (f3, ret) := ReadValue(f2.(command := Item(j, Command).s), j);
    (f3.(sceneMode := IntOr(j, Mode, 0), userId := IntOr(j, UserId, -1),
         tokenId := IntOr(j, TokenId, 0) % TWO64,
         accountId := if Item(j, AccountId).Text? then Item(j, AccountId).s else ""),
     ret)
  }

  // ---- Round trip ----

  function CleanSetting(s: Setting): Setting { s.(value := CStr(s.value)) }

  function CleanInfo(c: CaptureInfo): CaptureInfo {
    c.(settings := seq(|c.settings|, i requires 0 <= i < |c.settings| => CleanSetting(c.settings[i])))
  }

  /** What survives: strings up to a NUL, and a token id no larger than an int. */
  function Clean(f: Fields): Fields
    requires AllPresent(f.value)
  {
    f.(kind := CStr(f.kind), dhId := CStr(f.dhId), command := CStr(f.command), accountId := CStr(f.accountId),
       tokenId := Min(f.tokenId, 0x7fff_ffff),
       value := seq(|f.value|, i requires 0 <= i < |f.value| => Some(CleanInfo(f.value[i].value))))
  }

  lemma SettingReads(s: Setting)
    ensures ReadSetting(SettingTree(s)) == Some(CleanSetting(s))
  {}

  lemma {:induction false} SettingsRead(ss: seq<Setting>, js: seq<Json>)
    requires |js| == |ss| && forall i :: 0 <= i < |ss| ==> js[i] == SettingTree(ss[i])
    ensures var r := ReadSettings(js);
            r.Some? && |r.value| == |ss| && forall i :: 0 <= i < |ss| ==> r.value[i] == CleanSetting(ss[i])
  {
    hide SettingTree, ReadSetting, CleanSetting;
    if js != [] {
      SettingReads(ss[|ss| - 1]);
      SettingsRead(ss[..|ss| - 1], js[..|js| - 1]);
    }
  }

  lemma SettingTreesRead(c: CaptureInfo)
    ensures ReadSettings(SettingTrees(c.settings)) == Some(CleanInfo(c).settings)
  {
    hide ReadSettings, SettingTree, CleanSetting;
    SettingsRead(c.settings, SettingTrees(c.settings));
    assert ReadSettings(SettingTrees(c.settings)).value == CleanInfo(c).settings;
  }

  lemma InfoReads(c: CaptureInfo)
    ensures ReadInfo(InfoTree(c)) == Some(CleanInfo(c))
  {
    hide ReadSettings, SettingTrees, CleanSetting;
    SettingTreesRead(c);
  }

  lemma {:induction false} InfosRead(vs: seq<Option<CaptureInfo>>, js: seq<Json>)
    requires |js| == |vs| && AllPresent(vs) && forall i :: 0 <= i < |vs| ==> js[i] == InfoTree(vs[i].value)
    ensures var r := ReadInfos(js);
            r.all && |r.read| == |vs| && forall i :: 0 <= i < |vs| ==> r.read[i] == Some(CleanInfo(vs[i].value))
  {
    hide InfoTree, ReadInfo, CleanInfo;
    if js != [] {
      InfoReads(vs[|vs| - 1].value);
      InfosRead(vs[..|vs| - 1], js[..|js| - 1]);
    }
  }

  /** Reading what was written, into any object: its captures stay and the written ones follow, every other
      field is replaced. Without all captures present nothing is written, and nothing read. */
  lemma WrittenIsReadBack(f: Fields, into: Fields)
    ensures AllPresent(f.value) ==>
              Read(into, Tree(f)) == (Clean(f).(value := into.value + Clean(f).value), DCAMERA_OK)
    ensures !AllPresent(f.value) ==> Tree(f) == None && Read(into, Tree(f)) == (into, DCAMERA_BAD_VALUE)
  {
    hide ReadInfos, InfoTree, CStr, CleanInfo;
    if AllPresent(f.value) {
      InfosRead(f.value, InfoTrees(f.value));
      assert ReadInfos(InfoTrees(f.value)).read == Clean(f).value;
    }
  }

  predicate NulFree(f: Fields)
    requires AllPresent(f.value)
  {
    && '\0' !in f.kind && '\0' !in f.dhId && '\0' !in f.command && '\0' !in f.accountId
    && forall i, j :: 0 <= i < |f.value| && 0 <= j < |f.value[i].value.settings| ==>
                        '\0' !in f.value[i].value.settings[j].value
  }

  /** Nothing is lost exactly when no string holds a NUL and the token id fits an int. */
  lemma LosslessIff(f: Fields)
    requires AllPresent(f.value)
    ensures Clean(f) == f <==> NulFree(f) && f.tokenId <= 0x7fff_ffff
  {
    hide CStr;
    if NulFree(f) && f.tokenId <= 0x7fff_ffff {
      forall i | 0 <= i < |f.value|
        ensures Clean(f).value[i] == f.value[i]
      {
        assert CleanInfo(f.value[i].value).settings == f.value[i].value.settings;
      }
      assert Clean(f).value == f.value;
    } else if Clean(f) == f {
      forall i, j | 0 <= i < |f.value| && 0 <= j < |f.value[i].value.settings|
        ensures '\0' !in f.value[i].value.settings[j].value
      {
        assert Clean(f).value[i] == Some(CleanInfo(f.value[i].value));
        assert CleanInfo(f.value[i].value).settings[j] == CleanSetting(f.value[i].value.settings[j]);
      }
    }
  }

  // ---- The format, item by item ----

  lemma {:induction false} CutAtNul(s: string, rest: string)
    requires '\0' !in s
    ensures CStr(s + ['\0'] + rest) == s && CStr(s) == s
  {
    if s == [] {
      assert s + ['\0'] + rest == ['\0'] + rest;
    } else {
      CutAtNul(s[1..], rest);
      assert (s + ['\0'] + rest)[1..] == s[1..] + ['\0'] + rest;
    }
  }

  /** Which item holds which member of a capture, and of the command below; strings go up to their first NUL. */
  lemma WrittenItems(c: CaptureInfo)
    ensures var j := InfoTree(c);
            && Item(j, Width) == Number(c.width) && Item(j, Height) == Number(c.height)
            && Item(j, Format) == Number(c.format) && Item(j, DataSpace) == Number(c.dataspace)
            && Item(j, IsCapture) == Boolean(c.isCapture) && Item(j, EncodeType) == Number(c.encodeType)
            && Item(j, StreamType) == Number(c.streamType)
            && Item(j, CaptureSettings).Array? && |Item(j, CaptureSettings).items| == |c.settings|
            && forall i :: 0 <= i < |c.settings| ==>
                 var x := Item(j, CaptureSettings).items[i];
                 && Item(x, SettingType) == Number(c.settings[i].kind)
                 && Item(x, SettingValue) == Text(CStr(c.settings[i].value))
  {
    hide CStr;
  }

  lemma RootItems(f: Fields)
    requires AllPresent(f.value)
    ensures Tree(f).Some?
    ensures var j := Tree(f).value;
            && Item(j, Type) == Text(CStr(f.kind)) && Item(j, DhId) == Text(CStr(f.dhId))
            && Item(j, Command) == Text(CStr(f.command)) && Item(j, Mode) == Number(f.sceneMode)
            && Item(j, UserId) == Number(f.userId) && Item(j, TokenId) == Number(f.tokenId)
            && Item(j, AccountId) == Text(CStr(f.accountId))
            && Item(j, Value).Array? && |Item(j, Value).items| == |f.value|
            && forall i :: 0 <= i < |f.value| ==> Item(j, Value).items[i] == InfoTree(f.value[i].value)
  {
    hide CStr;
  }

  /** A number as an int: its value, or the end of the range it is beyond. */
  lemma NumberAsInt(n: int)
    ensures ValueInt(n) == if n > 2147483647 then 2147483647 else if n < -2147483648 then -2147483648 else n
  {}

  /** Any tree at all: which members are replaced up to the first required string that is missing, and what the
      optional ones become, also when they are missing and also when a capture does not read. */
  lemma AnyTreeRead(f: Fields, j: Json)
    ensures var (r, ret) := Read(f, Some(j));
            && (!Item(j, Type).Text? ==> r == f && ret == 0x05C20002)
            && (Item(j, Type).Text? && !Item(j, DhId).Text? ==> r == f.(kind := Item(j, Type).s) && ret == 0x05C20002)
            && (Item(j, Type).Text? && Item(j, DhId).Text? && !Item(j, Command).Text? ==>
                  r == f.(kind := Item(j, Type).s, dhId := Item(j, DhId).s) && ret == 0x05C20002)
    ensures Item(j, Type).Text? && Item(j, DhId).Text? && Item(j, Command).Text? ==>
              var (r, ret) := Read(f, Some(j));
              && r.kind == Item(j, Type).s && r.dhId == Item(j, DhId).s && r.command == Item(j, Command).s
              && r.sceneMode == (if Item(j, Mode).Number? then ValueInt(Item(j, Mode).n) else 0)
              && r.userId == (if Item(j, UserId).Number? then ValueInt(Item(j, UserId).n) else -1)
              && r.tokenId == (if !Item(j, TokenId).Number? then 0
                               else if ValueInt(Item(j, TokenId).n) >= 0 then ValueInt(Item(j, TokenId).n)
                               else ValueInt(Item(j, TokenId).n) + 0x1_0000_0000_0000_0000)
              && r.accountId == (if Item(j, AccountId).Text? then Item(j, AccountId).s else "")
    ensures Item(j, Type).Text? && Item(j, DhId).Text? && Item(j, Command).Text? ==>
              var (r, ret) := Read(f, Some(j));
              && (ret == 0 <==> Item(j, Value).Array?
                                && forall i :: 0 <= i < |Item(j, Value).items| ==>
                                                 ReadInfo(Item(j, Value).items[i]).Some?)
              && (ret != 0 ==> ret == 0x05C20002)
              && (!Item(j, Value).Array? ==> r.value == f.value)
  {
    hide ReadInfo, ReadInfos;
    if Item(j, Value).Array? {
      AllReadIff(Item(j, Value).items);
    }
  }

  lemma {:induction false} AllReadIff(js: seq<Json>)
    ensures ReadInfos(js).all <==> forall i :: 0 <= i < |js| ==> ReadInfo(js[i]).Some?
  {
    hide ReadInfo;
    if js != [] {
      AllReadIff(js[..|js| - 1]);
    }
  }

  // ---- The object and its loops ----

  class CaptureInfoCmd {
    var kind: string
    var dhId: string
    var command: string
    var value: seq<Option<CaptureInfo>>
    var sceneMode: int32
    var userId: int32
    var tokenId: u64
    var accountId: string

    function View(): Fields
      reads this
    {
      Fields(kind, dhId, command, value, sceneMode, userId, tokenId, accountId)
    }

    constructor (f: Fields)
      ensures View() == f
    {
      kind, dhId, command, value := f.kind, f.dhId, f.command, f.value;
      sceneMode, userId, tokenId, accountId := f.sceneMode, f.userId, f.tokenId, f.accountId;
    }

    method Marshal() returns (ret: int, tree: Option<Json>)
      ensures tree == Tree(View()) && ret == if tree == None then DCAMERA_BAD_VALUE else DCAMERA_OK
    {
      hide InfoTree, CStr;
      var captureInfos: seq<Json> := [];
      for i := 0 to |value|
        invariant AllPresent(value[..i]) && captureInfos == InfoTrees(value[..i])
      {
        if value[i] == None {
          return DCAMERA_BAD_VALUE, None;
        }
        var captureInfo := MarshalInfo(value[i].value);
        captureInfos := captureInfos + [captureInfo];
      }
      assert value[..|value|] == value;
      ret := DCAMERA_OK;
      tree := Some(Object(map[
        Type := Text(CStr(kind)), DhId := Text(CStr(dhId)), Command := Text(CStr(command)),
        Value := Array(captureInfos), Mode := Number(sceneMode), UserId := Number(userId),
        TokenId := Number(tokenId), AccountId := Text(CStr(accountId))]));
    }

    /** UmarshalValue: captures are pushed one by one until one does not read. */
    method UmarshalValue(root: Json) returns (ret: int)
      modifies this`value
      ensures (View(), ret) == ReadValue(old(View()), root)
    {
      hide ReadInfo;
      if !Item(root, Value).Array? {
        return DCAMERA_BAD_VALUE;
      }
      var items := Item(root, Value).items;
      ghost var read: seq<Option<CaptureInfo>> := [];
      assert items[..0] == [];
      for i := 0 to |items|
        invariant ReadInfos(items[..i]) == Infos(read, true) && value == old(value) + read
      {
        assert items[..i + 1][..i] == items[..i];
        var captureInfo := UmarshalInfo(items[i]);
        if captureInfo == None {
          StopsReading(items, i);
          return DCAMERA_BAD_VALUE;
        }
        value := value + [captureInfo];
        read := read + [captureInfo];
      }
      assert items[..|items|] == items;
      ret := DCAMERA_OK;
    }

    method Unmarshal(root: Option<Json>) returns (ret: int)
      modifies this
      ensures (View(), ret) == Read(old(View()), root)
    {
      hide ReadInfos;
      if root == None {
        return DCAMERA_BAD_VALUE;
      }
      var j := root.value;
      if !Item(j, Type).Text? {
        return DCAMERA_BAD_VALUE;
      }
      kind := Item(j, Type).s;
      if !Item(j, DhId).Text? {
        return DCAMERA_BAD_VALUE;
      }
      dhId := Item(j, DhId).s;
      if !Item(j, Command).Text? {
        return DCAMERA_BAD_VALUE;
      }
      command := Item(j, Command).s;
      ret := UmarshalValue(j);
      sceneMode := IntOr(j, Mode, 0);
      userId := IntOr(j, UserId, -1);
      tokenId := IntOr(j, TokenId, 0) % TWO64;
      accountId := if Item(j, AccountId).Text? then Item(j, AccountId).s else "";
    }
  }

  method MarshalInfo(c: CaptureInfo) returns (j: Json)
    ensures j == InfoTree(c)
  {
    hide SettingTree;
    var captureSettings: seq<Json> := [];
    for i := 0 to |c.settings|
      invariant captureSettings == SettingTrees(c.settings[..i])
    {
      captureSettings := captureSettings + [SettingTree(c.settings[i])];
    }
    assert c.settings[..|c.settings|] == c.settings;
    j := Object(map[
      Width := Number(c.width), Height := Number(c.height), Format := Number(c.format),
      DataSpace := Number(c.dataspace), IsCapture := Boolean(c.isCapture), EncodeType := Number(c.encodeType),
      StreamType := Number(c.streamType), CaptureSettings := Array(captureSettings)]);
  }

  /** One capture: each item checked in turn, the settings last. */
  method UmarshalInfo(j: Json) returns (c: Option<CaptureInfo>)
    ensures c == ReadInfo(j)
  {
    hide ReadSettings;
    c := None;
    if !Item(j, Width).Number? || !Item(j, Height).Number? || !Item(j, Format).Number? || !Item(j, DataSpace).Number? {
      return;
    }
    if !Item(j, IsCapture).Boolean? || !Item(j, EncodeType).Number? || !Item(j, StreamType).Number? {
      return;
    }
    if !Item(j, CaptureSettings).Array? {
      return;
    }
    var settings := UmarshalSettings(Item(j, CaptureSettings).items);
    if settings == None {
      return;
    }
    c := Some(CaptureInfo(
      Int(j, Width), Int(j, Height), Int(j, Format), Int(j, DataSpace), Item(j, IsCapture).b,
      Int(j, EncodeType), Int(j, StreamType), settings.value));
  }

  method UmarshalSettings(js: seq<Json>) returns (r: Option<seq<Setting>>)
    ensures r == ReadSettings(js)
  {
    var settings: seq<Setting> := [];
    assert js[..0] == [];
    for i := 0 to |js|
      invariant ReadSettings(js[..i]) == Some(settings)
    {
      assert js[..i + 1][..i] == js[..i];
      if ReadSetting(js[i]) == None {
        SettingsStop(js, i);
        return None;
      }
      settings := settings + [ReadSetting(js[i]).value];
    }
    assert js[..|js|] == js;
    r := Some(settings);
  }

  lemma {:induction false} SettingsStop(js: seq<Json>, i: nat)
    requires i < |js| && ReadSetting(js[i]) == None
    ensures ReadSettings(js) == None
  {
    if i < |js| - 1 {
      SettingsStop(js[..|js| - 1], i);
    }
  }

  lemma {:induction false} StopsReading(js: seq<Json>, i: nat)
    requires i < |js| && ReadInfos(js[..i]).all && ReadInfo(js[i]) == None
    ensures ReadInfos(js) == Infos(ReadInfos(js[..i]).read, false)
  {
    if i < |js| - 1 {
      assert js[..|js| - 1][..i] == js[..i];
      StopsReading(js[..|js| - 1], i);
    }
  }
}
