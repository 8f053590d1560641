/** The bind table, and its copy in the configuration file. */
module Binds {
  import opened BindFlags
  import opened KeyNames
  import opened Options

  datatype BindType = OnPush | OnPushAndRelease

  datatype Bind = Bind(command0: string, command1: string, kind: BindType, flags: set<Flag>)

  const VK_ESCAPE := 0x1B
  const VK_INSERT := 0x2D
  const VK_OEM_3 := 0xC0

  function TypeName(kind: BindType): string {
    match kind
    case OnPush => "on_push"
    case OnPushAndRelease => "on_push_and_release"
  }

  predicate IsValidKey(vk: int) {
    0 <= vk < KEY_RANGE
  }

  predicate IsKeyBindable(vk: int) {
    vk != VK_ESCAPE && vk != VK_INSERT && vk != VK_OEM_3
  }

  predicate ValidBind(vk: int, b: Bind) {
    IsValidKey(vk) && IsKeyBindable(vk) && (b.kind == OnPush ==> b.command1 == "")
  }

  ghost predicate ValidTable(binds: map<int, Bind>) {
    forall vk :: vk in binds ==> ValidBind(vk, binds[vk])
  }

  // ----- The table in the configuration file

  /** A named object; a field that is not a text counts as missing. */
  datatype Member = Member(name: string, fields: map<string, string>)

  function Put(json: seq<Member>, name: string, field: string, value: string): seq<Member> {
    if json == [] then [Member(name, map[field := value])]
    else if json[0].name == name then [Member(name, json[0].fields[field := value])] + json[1..]
    else [json[0]] + Put(json[1..], name, field, value)
  }

  function PutBind(json: seq<Member>, name: string, b: Bind): seq<Member> {
    var j := Put(Put(json, name, "command", b.command0), name, "type", TypeName(b.kind));
    var k := if b.kind == OnPushAndRelease then Put(j, name, "command1", b.command1) else j;
    Put(k, name, "flags", FlagsText(b.flags))
  }

  predicate IsNamed(keys: KeyTables, binds: map<int, Bind>, vk: int) {
    vk in binds && NameOf(keys, vk) != ""
  }

  /** A key without a name is left out. */
  function ExportKey(keys: KeyTables, binds: map<int, Bind>, json: seq<Member>, vk: int): seq<Member> {
    if IsNamed(keys, binds, vk) then PutBind(json, NameOf(keys, vk), binds[vk]) else json
  }

  /** The binds of the keys below n, in ascending order. */
  function Exported(keys: KeyTables, binds: map<int, Bind>, n: nat): seq<Member> {
    if n == 0 then [] else ExportKey(keys, binds, Exported(keys, binds, n - 1), n - 1)
  }

  function Export(keys: KeyTables, binds: map<int, Bind>): seq<Member> {
    Exported(keys, binds, KEY_RANGE)
  }

  function ReadBind(fields: map<string, string>): Option<Bind> {
    if "command" !in fields || "type" !in fields then None
    else
      var flags := ParseFlags(if "flags" in fields then fields["flags"] else "");
      if fields["type"] == TypeName(OnPush) then Some(Bind(fields["command"], "", OnPush, flags))
      else if fields["type"] == TypeName(OnPushAndRelease) && "command1" in fields then
        Some(Bind(fields["command"], fields["command1"], OnPushAndRelease, flags))
      else None
  }

  function Added(binds: map<int, Bind>, vk: int, b: Bind): map<int, Bind> {
    if IsValidKey(vk) && IsKeyBindable(vk) then binds[vk := b] else binds
  }

  function AddedByName(keys: KeyTables, binds: map<int, Bind>, name: string, b: Bind): map<int, Bind> {
    if VkOf(keys, name) == 0 then binds else Added(binds, VkOf(keys, name), b)
  }

  function ImportMember(keys: KeyTables, binds: map<int, Bind>, m: Member): map<int, Bind> {
    match ReadBind(m.fields)
    case None => binds
    case Some(b) => AddedByName(keys, binds, m.name, b)
  }

  function Import(keys: KeyTables, binds: map<int, Bind>, json: seq<Member>): map<int, Bind> {
    if json == [] then binds
    else ImportMember(keys, Import(keys, binds, json[..|json| - 1]), json[|json| - 1])
  }

  class BindManager {
    const userInput: UserInput
    var registeredBinds: map<int, Bind>

    constructor (input: UserInput)
      ensures userInput == input && registeredBinds == map[]
    {
      userInput, registeredBinds := input, map[];
    }

    ghost predicate Valid()
      reads this
    {
      ValidTable(registeredBinds)
    }

    function Keys(): KeyTables
      reads userInput
    {
      userInput.Tables()
    }

    method AddBind(vk: int, command: string, flags: set<Flag>)
      requires Valid()
      modifies this
      ensures Valid()
      ensures registeredBinds == Added(old(registeredBinds), vk, Bind(command, "", OnPush, flags))
    {
      if !IsValidKey(vk) { return; }
      if !IsKeyBindable(vk) { return; }
      registeredBinds := registeredBinds[vk := Bind(command, "", OnPush, flags)];
    }

    method AddBindOnPushAndRelease(vk: int, command0: string, command1: string, flags: set<Flag>)
      requires Valid()
      modifies this
      ensures Valid()
      ensures registeredBinds
           == Added(old(registeredBinds), vk, Bind(command0, command1, OnPushAndRelease, flags))
    {
      if !IsValidKey(vk) { return; }
      if !IsKeyBindable(vk) { return; }
      registeredBinds := registeredBinds[vk := Bind(command0, command1, OnPushAndRelease, flags)];
    }

    method AddBindByName(name: string, command: string, flags: set<Flag>)
      requires Valid()
      modifies this
      ensures Valid() && Keys() == old(Keys())
      ensures registeredBinds
           == AddedByName(Keys(), old(registeredBinds), name, Bind(command, "", OnPush, flags))
    {
      var vk := userInput.StringToVirtualKey(name);
      if vk == 0 { return; }
      AddBind(vk, command, flags);
    }

    method AddBindOnPushAndReleaseByName(name: string, command0: string, command1: string, flags: set<Flag>)
      requires Valid()
      modifies this
      ensures Valid() && Keys() == old(Keys())
      ensures registeredBinds
           == AddedByName(Keys(), old(registeredBinds), name, Bind(command0, command1, OnPushAndRelease, flags))
    {
      var vk := userInput.StringToVirtualKey(name);
      if vk == 0 { return; }
      AddBindOnPushAndRelease(vk, command0, command1, flags);
    }

    method RemoveBind(vk: int)
      requires Valid()
      modifies this
      ensures Valid() && registeredBinds == old(registeredBinds) - {vk}
    {
      if !IsValidKey(vk) { return; }
      if vk !in registeredBinds { return; }
      registeredBinds := registeredBinds - {vk};
    }

    method RemoveAllBinds()
      requires Valid()
      modifies this
      ensures Valid() && registeredBinds == map[]
    {
      var keysToBeRemoved: seq<int> := [];
      for vk := 0 to KEY_RANGE
        invariant forall k :: k in registeredBinds && k < vk ==> k in keysToBeRemoved
      {
        if vk in registeredBinds {
          keysToBeRemoved := keysToBeRemoved + [vk];
        }
      }
      for i := 0 to |keysToBeRemoved|
        invariant Valid()
        invariant forall k :: k in registeredBinds ==> k in keysToBeRemoved[i..]
      {
        RemoveBind(keysToBeRemoved[i]);
      }
      assert forall k :: k !in registeredBinds;
    }

    method CreateBindsFromJson(json: seq<Member>)
      requires Valid()
      modifies this
      ensures Valid() && Keys() == old(Keys())
      ensures registeredBinds == Import(Keys(), old(registeredBinds), json)
    {
      for i := 0 to |json|
        invariant Valid() && Keys() == old(Keys())
        invariant registeredBinds == Import(Keys(), old(registeredBinds), json[..i])
      {
        assert json[..i + 1][..i] == json[..i];
        var fields := json[i].fields;
        if "command" !in fields { continue; }
        if "type" !in fields { continue; }
        var flagsStr := if "flags" in fields then fields["flags"] else "";
        if fields["type"] == TypeName(OnPush) {
          var flags := ParseFlagsOutOfString(flagsStr);
          AddBindByName(json[i].name, fields["command"], flags);
        } else if fields["type"] == TypeName(OnPushAndRelease) {
          if "command1" !in fields { continue; }
          var flags := ParseFlagsOutOfString(flagsStr);
          AddBindOnPushAndReleaseByName(json[i].name, fields["command"], fields["command1"], flags);
        }
      }
      assert json[..|json|] == json;
    }

    method ExportBindsToJson() returns (json: seq<Member>)
      ensures json == Export(Keys(), registeredBinds)
    {
      json := [];
      for vk := 0 to KEY_RANGE
        invariant json == Exported(Keys(), registeredBinds, vk)
      {
        if vk in registeredBinds {
          var b := registeredBinds[vk];
          var keyName := userInput.VirtualKeyToString(vk);
          if keyName == "" { continue; }
          json := Put(json, keyName, "command", b.command0);
          json := Put(json, keyName, "type", TypeName(b.kind));
          if b.kind == OnPushAndRelease {
            json := Put(json, keyName, "command1", b.command1);
          }
          var flagsStr := CreateStringOutOfFlags(b.flags);
          json := Put(json, keyName, "flags", flagsStr);
        }
      }
    }
  }

  // ----- Saving and reloading

  /** The binds whose keys have a name. */
  function NamedBinds(keys: KeyTables, binds: map<int, Bind>): map<int, Bind> {
    map vk | vk in binds && IsNamed(keys, binds, vk) :: binds[vk]
  }

  /** The binds after saving them and loading them into an empty table. */
  function Reloaded(keys: KeyTables, binds: map<int, Bind>): map<int, Bind> {
    Import(keys, map[], Export(keys, binds))
  }

  predicate MapsBack(keys: KeyTables, vk: int) {
    VkOf(keys, NameOf(keys, vk)) == vk
  }

  // ----- What is written

  /** The first member of a name, or the end of the list. */
  function Find(json: seq<Member>, name: string): (i: nat)
    ensures i <= |json| && (i < |json| ==> json[i].name == name)
    ensures forall j :: 0 <= j < i ==> json[j].name != name
  {
    if json == [] || json[0].name == name then 0 else 1 + Find(json[1..], name)
  }

  /** The list with the fields of a name changed; a new name comes last. */
  function Update(json: seq<Member>, name: string, fields: map<string, string>): seq<Member> {
    var i := Find(json, name);
    if i < |json| then json[i := Member(name, fields)] else json + [Member(name, fields)]
  }

  function FieldsIn(json: seq<Member>, name: string): map<string, string> {
    var i := Find(json, name);
    if i < |json| then json[i].fields else map[]
  }

  lemma UpdateBehind(json: seq<Member>, name: string, fields: map<string, string>)
    requires json != [] && json[0].name != name
    ensures Update(json, name, fields) == [json[0]] + Update(json[1..], name, fields)
    ensures FieldsIn(json, name) == FieldsIn(json[1..], name)
  {}

  lemma {:induction false} PutUpdates(json: seq<Member>, name: string, field: string, value: string)
    ensures Put(json, name, field, value) == Update(json, name, FieldsIn(json, name)[field := value])
  {
    if json != [] && json[0].name != name {
      PutUpdates(json[1..], name, field, value);
      UpdateBehind(json, name, FieldsIn(json, name)[field := value]);
    }
  }

  lemma FindIs(json: seq<Member>, name: string, i: nat)
    requires i <= |json| && (i < |json| ==> json[i].name == name)
    requires forall j :: 0 <= j < i ==> json[j].name != name
    ensures Find(json, name) == i
  {}

  lemma UpdateTwice(json: seq<Member>, name: string, f: map<string, string>, g: map<string, string>)
    ensures FieldsIn(Update(json, name, f), name) == f
    ensures Update(Update(json, name, f), name, g) == Update(json, name, g)
  {
    FindIs(Update(json, name, f), name, Find(json, name));
  }

  /** What writing a bind does to the fields that are there already. */
  function Written(fields: map<string, string>, b: Bind): map<string, string> {
    var f := fields["command" := b.command0]["type" := TypeName(b.kind)];
    var g := if b.kind == OnPushAndRelease then f["command1" := b.command1] else f;
    g["flags" := FlagsText(b.flags)]
  }

  lemma PutBindUpdates(json: seq<Member>, name: string, b: Bind)
    ensures PutBind(json, name, b) == Update(json, name, Written(FieldsIn(json, name), b))
  {
    var f := FieldsIn(json, name)["command" := b.command0];
    PutUpdates(json, name, "command", b.command0);
    PutAgain(json, name, f, "type", TypeName(b.kind));
    var g := f["type" := TypeName(b.kind)];
    if b.kind == OnPushAndRelease {
      PutAgain(json, name, g, "command1", b.command1);
      g := g["command1" := b.command1];
    }
    PutAgain(json, name, g, "flags", FlagsText(b.flags));
  }

  lemma PutAgain(json: seq<Member>, name: string, f: map<string, string>, field: string, value: string)
    ensures Put(Update(json, name, f), name, field, value) == Update(json, name, f[field := value])
  {
    PutUpdates(Update(json, name, f), name, field, value);
    UpdateTwice(json, name, f, f[field := value]);
  }

  /** Reading undoes writing, even over the fields another bind has left. */
  lemma WrittenBindReads(vk: int, fields: map<string, string>, b: Bind)
    requires ValidBind(vk, b)
    ensures ReadBind(Written(fields, b)) == Some(b)
  {
    PrintedFlagsParse(b.flags);
  }

  /** A member reads as this bind: its texts stand in the fields, and flags, like the
      second command of a bind that has but one, may be missing. */
  ghost predicate Describes(fields: map<string, string>, b: Bind) {
    && "command" in fields && fields["command"] == b.command0
    && "type" in fields
    && match b.kind {
         case OnPush => fields["type"] == "on_push" && b.command1 == ""
         case OnPushAndRelease =>
           fields["type"] == "on_push_and_release" && "command1" in fields && fields["command1"] == b.command1
       }
    && b.flags == if "flags" in fields then ParseFlags(fields["flags"]) else {}
  }

  lemma ReadsExactly(fields: map<string, string>, b: Bind)
    ensures ReadBind(fields) == Some(b) <==> Describes(fields, b)
  {
    assert ParseFlags("") == {};
  }

  /** The fields that are written, and the others kept. */
  lemma WrittenFields(fields: map<string, string>, b: Bind)
    ensures Written(fields, b) ==
      match b.kind {
        case OnPush => fields["command" := b.command0]["type" := "on_push"]["flags" := FlagsText(b.flags)]
        case OnPushAndRelease =>
          fields["command" := b.command0]["type" := "on_push_and_release"]["command1" := b.command1]
                ["flags" := FlagsText(b.flags)]
      }
  {}

  // ----- Which keys wrote which member

  /** The keys that wrote a member first and last. */
  datatype Writers = Writers(first: int, last: int)

  ghost predicate Wrote(keys: KeyTables, binds: map<int, Bind>, n: nat, vk: int, name: string) {
    IsNamed(keys, binds, vk) && vk < n && NameOf(keys, vk) == name
  }

  /** A member has the name of its writers, and reads as the bind of the last. */
  ghost predicate WrittenBy(keys: KeyTables, binds: map<int, Bind>, n: nat, m: Member, w: Writers) {
    && Wrote(keys, binds, n, w.first, m.name) && Wrote(keys, binds, n, w.last, m.name)
    && (forall vk :: Wrote(keys, binds, n, vk, m.name) ==> w.first <= vk <= w.last)
    && ReadBind(m.fields) == Some(binds[w.last])
  }

  /** Members stand in the order of their first writers, and every named key has written one. */
  ghost predicate Accounts(
      keys: KeyTables, binds: map<int, Bind>, n: nat, json: seq<Member>, ws: seq<Writers>)
  {
    && |ws| == |json|
    && (forall i :: 0 <= i < |json| ==> WrittenBy(keys, binds, n, json[i], ws[i]))
    && (forall i, j :: 0 <= i < j < |json| ==> ws[i].first < ws[j].first)
    && AllWritten(keys, binds, n, json)
  }

  ghost predicate AllWritten(keys: KeyTables, binds: map<int, Bind>, n: nat, json: seq<Member>) {
    forall vk :: IsNamed(keys, binds, vk) && vk < n ==> Find(json, NameOf(keys, vk)) < |json|
  }

  lemma WroteNext(keys: KeyTables, binds: map<int, Bind>, n: nat, vk: int, name: string)
    ensures Wrote(keys, binds, n + 1, vk, name) <==>
      Wrote(keys, binds, n, vk, name) || (vk == n && IsNamed(keys, binds, n) && NameOf(keys, n) == name)
  {}

  lemma WrittenByOthers(keys: KeyTables, binds: map<int, Bind>, n: nat, m: Member, w: Writers)
    requires WrittenBy(keys, binds, n, m, w)
    requires IsNamed(keys, binds, n) ==> NameOf(keys, n) != m.name
    ensures WrittenBy(keys, binds, n + 1, m, w)
  {
    var next := n + 1;
    forall vk | Wrote(keys, binds, next, vk, m.name)
      ensures w.first <= vk <= w.last
    {
      WroteNext(keys, binds, n, vk, m.name);
    }
  }

  lemma WrittenAgain(
      keys: KeyTables, binds: map<int, Bind>, n: nat, m: Member, w: Writers, fields: map<string, string>)
    requires WrittenBy(keys, binds, n, m, w) && IsNamed(keys, binds, n) && NameOf(keys, n) == m.name
    requires ReadBind(fields) == Some(binds[n])
    ensures WrittenBy(keys, binds, n + 1, Member(m.name, fields), Writers(w.first, n))
  {
    var next := n + 1;
    forall vk | Wrote(keys, binds, next, vk, m.name)
      ensures w.first <= vk <= n
    {
      WroteNext(keys, binds, n, vk, m.name);
    }
  }

  lemma WrittenFirst(keys: KeyTables, binds: map<int, Bind>, n: nat, name: string, fields: map<string, string>)
    requires IsNamed(keys, binds, n) && NameOf(keys, n) == name && ReadBind(fields) == Some(binds[n])
    requires forall vk :: !Wrote(keys, binds, n, vk, name)
    ensures WrittenBy(keys, binds, n + 1, Member(name, fields), Writers(n, n))
  {
    var next := n + 1;
    forall vk | Wrote(keys, binds, next, vk, name)
      ensures vk == n
    {
      WroteNext(keys, binds, n, vk, name);
    }
  }

  lemma OtherNames(json: seq<Member>, name: string, fields: map<string, string>, other: string)
    requires other == name || Find(json, other) < |json|
    ensures Find(Update(json, name, fields), other) < |Update(json, name, fields)|
  {
    var i := Find(json, name);
    var after := Update(json, name, fields);
    if other == name {
      assert after[i].name == name;
    } else {
      assert after[Find(json, other)].name == other;
    }
  }

  lemma WrittenStays(keys: KeyTables, binds: map<int, Bind>, n: nat, json: seq<Member>, fields: map<string, string>)
    requires AllWritten(keys, binds, n, json)
    ensures AllWritten(keys, binds, n + 1, Update(json, NameOf(keys, n), fields))
  {
    var name := NameOf(keys, n);
    forall vk | IsNamed(keys, binds, vk) && vk < n + 1
      ensures Find(Update(json, name, fields), NameOf(keys, vk)) < |Update(json, name, fields)|
    {
      OtherNames(json, name, fields, NameOf(keys, vk));
    }
  }

  lemma NamesAreDistinct(
      keys: KeyTables, binds: map<int, Bind>, n: nat, json: seq<Member>, ws: seq<Writers>, i: nat, j: nat)
    requires Accounts(keys, binds, n, json, ws) && i < j < |json|
    ensures json[i].name != json[j].name
  {
    assert WrittenBy(keys, binds, n, json[i], ws[i]) && WrittenBy(keys, binds, n, json[j], ws[j]);
    assert ws[i].first < ws[j].first;
  }

  lemma AccountAgain(
      keys: KeyTables, binds: map<int, Bind>, n: nat, json: seq<Member>, ws: seq<Writers>, fields: map<string, string>)
    returns (after: seq<Writers>)
    requires Accounts(keys, binds, n, json, ws) && IsNamed(keys, binds, n) && ReadBind(fields) == Some(binds[n])
    requires Find(json, NameOf(keys, n)) < |json|
    ensures Accounts(keys, binds, n + 1, Update(json, NameOf(keys, n), fields), after)
  {
    hide ReadBind, NameOf;
    var i := Find(json, NameOf(keys, n));
    after := ws[i := Writers(ws[i].first, n)];
    WrittenAgain(keys, binds, n, json[i], ws[i], fields);
    forall j | 0 <= j < |json| && j != i
      ensures WrittenBy(keys, binds, n + 1, json[j], ws[j])
    {
      NamesAreDistinct(keys, binds, n, json, ws, if i < j then i else j, if i < j then j else i);
      WrittenByOthers(keys, binds, n, json[j], ws[j]);
    }
    WrittenStays(keys, binds, n, json, fields);
  }

  lemma AccountFirst(
      keys: KeyTables, binds: map<int, Bind>, n: nat, json: seq<Member>, ws: seq<Writers>, fields: map<string, string>)
    returns (after: seq<Writers>)
    requires Accounts(keys, binds, n, json, ws) && IsNamed(keys, binds, n) && ReadBind(fields) == Some(binds[n])
    requires Find(json, NameOf(keys, n)) == |json|
    ensures Accounts(keys, binds, n + 1, Update(json, NameOf(keys, n), fields), after)
  {
    hide ReadBind, NameOf;
    after := ws + [Writers(n, n)];
    WrittenFirst(keys, binds, n, NameOf(keys, n), fields);
    forall j | 0 <= j < |json|
      ensures WrittenBy(keys, binds, n + 1, json[j], ws[j]) && ws[j].first < n
    {
      WrittenByOthers(keys, binds, n, json[j], ws[j]);
    }
    WrittenStays(keys, binds, n, json, fields);
  }

  lemma AccountSame(
      keys: KeyTables, binds: map<int, Bind>, n: nat, json: seq<Member>, ws: seq<Writers>)
    requires Accounts(keys, binds, n, json, ws) && !IsNamed(keys, binds, n)
    ensures Accounts(keys, binds, n + 1, json, ws)
  {
    forall j | 0 <= j < |json|
      ensures WrittenBy(keys, binds, n + 1, json[j], ws[j])
    {
      WrittenByOthers(keys, binds, n, json[j], ws[j]);
    }
  }

  lemma AccountNext(
      keys: KeyTables, binds: map<int, Bind>, n: nat, json: seq<Member>, ws: seq<Writers>)
    returns (after: seq<Writers>)
    requires ValidTable(binds) && Accounts(keys, binds, n, json, ws)
    ensures Accounts(keys, binds, n + 1, ExportKey(keys, binds, json, n), after)
  {
    if IsNamed(keys, binds, n) {
      var name := NameOf(keys, n);
      var fields := Written(FieldsIn(json, name), binds[n]);
      PutBindUpdates(json, name, binds[n]);
      WrittenBindReads(n, FieldsIn(json, name), binds[n]);
      if Find(json, name) < |json| {
        after := AccountAgain(keys, binds, n, json, ws, fields);
      } else {
        after := AccountFirst(keys, binds, n, json, ws, fields);
      }
    } else {
      AccountSame(keys, binds, n, json, ws);
      after := ws;
    }
  }

  lemma {:induction false} ExportAccounts(keys: KeyTables, binds: map<int, Bind>, n: nat) returns (ws: seq<Writers>)
    requires ValidTable(binds)
    ensures Accounts(keys, binds, n, Exported(keys, binds, n), ws)
  {
    hide ExportKey, WrittenBy;
    if n == 0 {
      ws := [];
    } else {
      ws := ExportAccounts(keys, binds, n - 1);
      ws := AccountNext(keys, binds, n - 1, Exported(keys, binds, n - 1), ws);
    }
  }

  // ----- Which bind comes back

  /** Loading a member binds this key. */
  predicate StandsFor(keys: KeyTables, name: string, vk: int) {
    VkOf(keys, name) == vk && vk != 0 && IsValidKey(vk) && IsKeyBindable(vk)
  }

  /** Any member of the file, readable or not, decides the bind of a key exactly if it is
      the last that can be read and stands for the key. */
  ghost predicate DecidesImport(keys: KeyTables, json: seq<Member>, vk: int, i: nat) {
    && i < |json| && StandsFor(keys, json[i].name, vk) && ReadBind(json[i].fields).Some?
    && forall j :: i < j < |json| ==> !(StandsFor(keys, json[j].name, vk) && ReadBind(json[j].fields).Some?)
  }

  lemma {:induction false} LastMemberDecides(
      keys: KeyTables, binds: map<int, Bind>, json: seq<Member>, vk: int, i: nat)
    requires DecidesImport(keys, json, vk, i)
    ensures vk in Import(keys, binds, json)
    ensures Some(Import(keys, binds, json)[vk]) == ReadBind(json[i].fields)
    decreases |json|
  {
    var n := |json| - 1;
    if i < n { LastMemberDecides(keys, binds, json[..n], vk, i); }
  }

  /** A key that no readable member stands for keeps what it had. */
  lemma {:induction false} OtherKeysAreKept(keys: KeyTables, binds: map<int, Bind>, json: seq<Member>, vk: int)
    requires forall j :: 0 <= j < |json| ==> !(StandsFor(keys, json[j].name, vk) && ReadBind(json[j].fields).Some?)
    ensures vk in Import(keys, binds, json) <==> vk in binds
    ensures vk in binds ==> Import(keys, binds, json)[vk] == binds[vk]
  {
    if json != [] { OtherKeysAreKept(keys, binds, json[..|json| - 1], vk); }
  }

  /** No key that opens the menu, and none beyond the table, is ever bound. */
  lemma BindableKeys(keys: KeyTables, name: string, vk: int, binds: map<int, Bind>, b: Bind)
    ensures Added(binds, vk, b) == if 0 <= vk <= 255 && vk != 0x1B && vk != 0x2D && vk != 0xC0 then binds[vk := b] else binds
    ensures StandsFor(keys, name, vk) <==>
      VkOf(keys, name) == vk && 1 <= vk <= 255 && vk != 0x1B && vk != 0x2D && vk != 0xC0
  {}

  lemma {:induction false} ImportedKeyHasMember(keys: KeyTables, json: seq<Member>, vk: int)
    requires vk in Import(keys, map[], json)
    ensures exists i :: 0 <= i < |json| && StandsFor(keys, json[i].name, vk)
  {
    var n := |json| - 1;
    if vk in Import(keys, map[], json[..n]) {
      ImportedKeyHasMember(keys, json[..n], vk);
      var i :| 0 <= i < n && StandsFor(keys, json[..n][i].name, vk);
      assert json[i] == json[..n][i];
    }
  }

  /** A bound key whose name stands for vk. */
  predicate Claims(keys: KeyTables, binds: map<int, Bind>, u: int, vk: int) {
    IsNamed(keys, binds, u) && StandsFor(keys, NameOf(keys, u), vk)
  }

  /** Of the bound keys with its name, u is the first. */
  ghost predicate FirstOfName(keys: KeyTables, binds: map<int, Bind>, u: int) {
    IsNamed(keys, binds, u) && forall v :: IsNamed(keys, binds, v) && NameOf(keys, v) == NameOf(keys, u) ==> u <= v
  }

  /** Of the bound keys with its name, w is the last. */
  ghost predicate LastOfName(keys: KeyTables, binds: map<int, Bind>, w: int) {
    IsNamed(keys, binds, w) && forall v :: IsNamed(keys, binds, v) && NameOf(keys, v) == NameOf(keys, w) ==> v <= w
  }

  /** Of the names that stand for vk, the one whose first key u comes last is loaded last. */
  ghost predicate IsLastClaimer(keys: KeyTables, binds: map<int, Bind>, vk: int, u: int) {
    && FirstOfName(keys, binds, u) && Claims(keys, binds, u, vk)
    && forall v :: FirstOfName(keys, binds, v) && Claims(keys, binds, v, vk) ==> v <= u
  }

  /** The key w whose bind comes back under vk: the last to write the member that is
      loaded last for vk. */
  ghost predicate Decides(keys: KeyTables, binds: map<int, Bind>, vk: int, w: int) {
    LastOfName(keys, binds, w) && exists u :: IsLastClaimer(keys, binds, vk, u) && NameOf(keys, u) == NameOf(keys, w)
  }

  lemma MemberWriters(keys: KeyTables, binds: map<int, Bind>, json: seq<Member>, ws: seq<Writers>, i: nat)
    requires ValidTable(binds) && Accounts(keys, binds, KEY_RANGE, json, ws) && i < |json|
    ensures FirstOfName(keys, binds, ws[i].first) && NameOf(keys, ws[i].first) == json[i].name
    ensures LastOfName(keys, binds, ws[i].last) && NameOf(keys, ws[i].last) == json[i].name
    ensures ReadBind(json[i].fields) == Some(binds[ws[i].last])
  {
    assert WrittenBy(keys, binds, KEY_RANGE, json[i], ws[i]);
    forall v | IsNamed(keys, binds, v) && NameOf(keys, v) == json[i].name
      ensures ws[i].first <= v <= ws[i].last
    {
      assert ValidBind(v, binds[v]);
      assert Wrote(keys, binds, KEY_RANGE, v, json[i].name);
    }
  }

  /** The member of a named key's name has that key among its writers. */
  lemma MemberOf(keys: KeyTables, binds: map<int, Bind>, json: seq<Member>, ws: seq<Writers>, u: int)
    returns (i: nat)
    requires ValidTable(binds) && Accounts(keys, binds, KEY_RANGE, json, ws) && IsNamed(keys, binds, u)
    ensures i < |json| && json[i].name == NameOf(keys, u)
    ensures FirstOfName(keys, binds, u) ==> ws[i].first == u
    ensures LastOfName(keys, binds, u) ==> ws[i].last == u
  {
    assert ValidBind(u, binds[u]);
    i := Find(json, NameOf(keys, u));
    MemberWriters(keys, binds, json, ws, i);
  }

  /** Under vk comes back the bind of the key that decides, whatever becomes of the others. */
  lemma DecidedBindComesBack(keys: KeyTables, binds: map<int, Bind>, vk: int, w: int)
    requires ValidTable(binds) && Decides(keys, binds, vk, w)
    ensures vk in Reloaded(keys, binds) && Reloaded(keys, binds)[vk] == binds[w]
  {
    var json := Export(keys, binds);
    var ws := ExportAccounts(keys, binds, KEY_RANGE);
    var u :| IsLastClaimer(keys, binds, vk, u) && NameOf(keys, u) == NameOf(keys, w);
    var i := MemberOf(keys, binds, json, ws, u);
    MemberWriters(keys, binds, json, ws, i);
    assert ws[i].last == w;
    forall j | i < j < |json|
      ensures !StandsFor(keys, json[j].name, vk)
    {
      MemberWriters(keys, binds, json, ws, j);
      assert ws[i].first < ws[j].first;
    }
    LastMemberDecides(keys, map[], json, vk, i);
  }

  lemma {:induction false} FirstNamesake(keys: KeyTables, binds: map<int, Bind>, c: int) returns (u: int)
    requires ValidTable(binds) && IsNamed(keys, binds, c)
    ensures FirstOfName(keys, binds, u) && NameOf(keys, u) == NameOf(keys, c)
    decreases c
  {
    u := c;
    if !FirstOfName(keys, binds, c) {
      var v :| IsNamed(keys, binds, v) && NameOf(keys, v) == NameOf(keys, c) && v < c;
      assert ValidBind(v, binds[v]);
      u := FirstNamesake(keys, binds, v);
    }
  }

  lemma {:induction false} LastNamesake(keys: KeyTables, binds: map<int, Bind>, c: int) returns (w: int)
    requires ValidTable(binds) && IsNamed(keys, binds, c)
    ensures LastOfName(keys, binds, w) && NameOf(keys, w) == NameOf(keys, c)
    decreases KEY_RANGE - c
  {
    w := c;
    if !LastOfName(keys, binds, c) {
      var v :| IsNamed(keys, binds, v) && NameOf(keys, v) == NameOf(keys, c) && v > c;
      assert ValidBind(v, binds[v]);
      w := LastNamesake(keys, binds, v);
    }
  }

  lemma {:induction false} LastClaimer(keys: KeyTables, binds: map<int, Bind>, vk: int, c: int) returns (u: int)
    requires ValidTable(binds) && FirstOfName(keys, binds, c) && Claims(keys, binds, c, vk)
    ensures IsLastClaimer(keys, binds, vk, u)
    decreases KEY_RANGE - c
  {
    u := c;
    if !IsLastClaimer(keys, binds, vk, c) {
      var v :| FirstOfName(keys, binds, v) && Claims(keys, binds, v, vk) && v > c;
      assert ValidBind(v, binds[v]);
      u := LastClaimer(keys, binds, vk, v);
    }
  }

  /** Some key decides as soon as one claims. */
  lemma SomeKeyDecides(keys: KeyTables, binds: map<int, Bind>, vk: int, claimer: int) returns (w: int)
    requires ValidTable(binds) && Claims(keys, binds, claimer, vk)
    ensures Decides(keys, binds, vk, w)
  {
    var c := FirstNamesake(keys, binds, claimer);
    var u := LastClaimer(keys, binds, vk, c);
    w := LastNamesake(keys, binds, u);
  }

  // ----- Saving and reloading

  /** A key comes back bound exactly if the name of some bound key stands for it. */
  lemma KeysThatComeBack(keys: KeyTables, binds: map<int, Bind>, vk: int)
    requires ValidTable(binds)
    ensures vk in Reloaded(keys, binds) <==> exists u :: Claims(keys, binds, u, vk)
  {
    if vk in Reloaded(keys, binds) {
      var json := Export(keys, binds);
      var ws := ExportAccounts(keys, binds, KEY_RANGE);
      ImportedKeyHasMember(keys, json, vk);
      var i :| 0 <= i < |json| && StandsFor(keys, json[i].name, vk);
      MemberWriters(keys, binds, json, ws, i);
      assert Claims(keys, binds, ws[i].first, vk);
    }
    if u :| Claims(keys, binds, u, vk) {
      var w := SomeKeyDecides(keys, binds, vk, u);
      DecidedBindComesBack(keys, binds, vk, w);
    }
  }

  predicate Survives(keys: KeyTables, binds: map<int, Bind>, vk: int) {
    vk in binds && vk in Reloaded(keys, binds) && Reloaded(keys, binds)[vk] == binds[vk]
  }

  /** A bind survives exactly if the key that decides has the same bind. */
  lemma BindSurvivesExactlyWhen(keys: KeyTables, binds: map<int, Bind>, vk: int)
    requires ValidTable(binds) && vk in binds
    ensures Survives(keys, binds, vk) <==> exists w :: Decides(keys, binds, vk, w) && binds[w] == binds[vk]
  {
    KeysThatComeBack(keys, binds, vk);
    if Survives(keys, binds, vk) {
      var u :| Claims(keys, binds, u, vk);
      var w := SomeKeyDecides(keys, binds, vk, u);
      DecidedBindComesBack(keys, binds, vk, w);
    }
    if w :| Decides(keys, binds, vk, w) && binds[w] == binds[vk] {
      DecidedBindComesBack(keys, binds, vk, w);
    }
  }

  /** Where no other bound key's name stands for a named key, its bind survives exactly if
      its own name maps back to it, whatever becomes of the other keys. */
  lemma UnrivalledBindSurvives(keys: KeyTables, binds: map<int, Bind>, vk: int)
    requires ValidTable(binds) && IsNamed(keys, binds, vk) && vk != 0
    requires forall u :: Claims(keys, binds, u, vk) ==> u == vk
    ensures Survives(keys, binds, vk) <==> MapsBack(keys, vk)
  {
    assert ValidBind(vk, binds[vk]);
    KeysThatComeBack(keys, binds, vk);
    if MapsBack(keys, vk) {
      var w := SomeKeyDecides(keys, binds, vk, vk);
      DecidedBindComesBack(keys, binds, vk, w);
      assert Claims(keys, binds, w, vk);
    }
  }

  /** Where a virtual key was last entered in the translation table. */
  function LastEntry(table: seq<KeyEntry>, vk: int): int {
    if table == [] then -1
    else if Usable(table[|table| - 1]) && table[|table| - 1].vk == vk then |table| - 1
    else LastEntry(table[..|table| - 1], vk)
  }

  /** If the name of a key stands for another key, that key was entered later. */
  lemma {:induction false} NamesakeIsLater(table: seq<KeyEntry>, vk: int)
    requires NameOf(TablesOf(table), vk) != "" && !MapsBack(TablesOf(table), vk)
    ensures -1 <= LastEntry(table, vk) < LastEntry(table, VkOf(TablesOf(table), NameOf(TablesOf(table), vk))) < |table|
    decreases |table|
  {
    var n := |table| - 1;
    var (keys, before) := (TablesOf(table), TablesOf(table[..n]));
    LastEntryBound(table[..n], vk);
    if VkOf(keys, NameOf(keys, vk)) == VkOf(before, NameOf(before, vk)) && NameOf(keys, vk) == NameOf(before, vk) {
      NamesakeIsLater(table[..n], vk);
    }
  }

  lemma {:induction false} LastEntryBound(table: seq<KeyEntry>, vk: int)
    ensures -1 <= LastEntry(table, vk) < |table|
  {
    if table != [] { LastEntryBound(table[..|table| - 1], vk); }
  }

  lemma {:induction false} SurvivorsMapBack(table: seq<KeyEntry>, binds: map<int, Bind>, vk: int)
    requires ValidTable(binds) && Reloaded(TablesOf(table), binds) == NamedBinds(TablesOf(table), binds)
    requires vk in NamedBinds(TablesOf(table), binds)
    ensures MapsBack(TablesOf(table), vk)
    decreases LastEntry(table, vk)
  {
    var keys := TablesOf(table);
    KeysThatComeBack(keys, binds, vk);
    var u :| Claims(keys, binds, u, vk);
    if u != vk {
      NamesakeIsLater(table, u);
      SurvivorsMapBack(table, binds, u);
    }
  }

  lemma NamedKeysAreNonzero(table: seq<KeyEntry>, vk: int)
    requires NameOf(TablesOf(table), vk) != ""
    ensures vk != 0
  {
    NamesComeFromEntries(table, vk);
  }

  ghost predicate AllMapBack(keys: KeyTables, binds: map<int, Bind>) {
    forall vk :: vk in NamedBinds(keys, binds) ==> MapsBack(keys, vk)
  }

  lemma MappingBackRestores(table: seq<KeyEntry>, binds: map<int, Bind>, vk: int)
    requires ValidTable(binds) && AllMapBack(TablesOf(table), binds)
    ensures vk in Reloaded(TablesOf(table), binds) <==> vk in NamedBinds(TablesOf(table), binds)
    ensures vk in NamedBinds(TablesOf(table), binds) ==> Survives(TablesOf(table), binds, vk)
  {
    var keys := TablesOf(table);
    forall u | IsNamed(keys, binds, u)
      ensures VkOf(keys, NameOf(keys, u)) == u
    {
      assert u in NamedBinds(keys, binds) && MapsBack(keys, u);
    }
    KeysThatComeBack(keys, binds, vk);
    if vk in NamedBinds(keys, binds) {
      NamedKeysAreNonzero(table, vk);
      UnrivalledBindSurvives(keys, binds, vk);
    }
  }

  /** Saving the binds and reloading them into an empty table restores every bind of a
      named key, and no other, exactly if the name of each of those keys maps back to it. */
  lemma SaveAndReload(table: seq<KeyEntry>, binds: map<int, Bind>)
    requires ValidTable(binds)
    ensures Reloaded(TablesOf(table), binds) == NamedBinds(TablesOf(table), binds)
       <==> AllMapBack(TablesOf(table), binds)
  {
    var keys := TablesOf(table);
    if AllMapBack(keys, binds) {
      var (reloaded, named) := (Reloaded(keys, binds), NamedBinds(keys, binds));
      forall vk
        ensures vk in reloaded <==> vk in named
        ensures vk in reloaded && vk in named ==> reloaded[vk] == named[vk]
      {
        MappingBackRestores(table, binds, vk);
      }
      assert reloaded == named;
    }
    if Reloaded(keys, binds) == NamedBinds(keys, binds) {
      forall vk | vk in NamedBinds(keys, binds)
        ensures MapsBack(keys, vk)
      {
        SurvivorsMapBack(table, binds, vk);
      }
    }
  }

  /** No bind of a named key is ever lost when no name stands for two keys. */
  lemma ConsistentTableKeepsBinds(table: seq<KeyEntry>, binds: map<int, Bind>)
    requires Consistent(table) && ValidTable(binds)
    ensures Reloaded(TablesOf(table), binds) == NamedBinds(TablesOf(table), binds)
  {
    forall vk | vk in NamedBinds(TablesOf(table), binds)
      ensures MapsBack(TablesOf(table), vk)
    {
      ConsistentTableMapsBack(table, vk);
    }
    SaveAndReload(table, binds);
  }

  // ----- The two keys with one name

  const VK_LWIN := 0x5B
  const VK_RWIN := 0x5C

  /** The entries that share a name, in one order or the other. */
  function WinEntries(first: int, second: int): seq<KeyEntry> {
    [KeyEntry("win", first), KeyEntry("win", second)]
  }

  lemma WinTables(first: int, second: int, vk: int)
    requires first != 0 && second != 0
    ensures var keys := TablesOf(WinEntries(first, second));
      && VkOf(keys, "win") == second
      && NameOf(keys, vk) == if vk == first || vk == second then "win" else ""
  {
    var table := WinEntries(first, second);
    LastEntryWins(table, 1);
    if NameOf(TablesOf(table), vk) != "" {
      NamesComeFromEntries(table, vk);
    }
    if first != second { LastEntryWins(table, 0); }
  }

  /** In the program's order a bind of the left key comes back on the right key. */
  lemma LeftKeyComesBackRight(b: Bind)
    requires ValidBind(0x5B, b)
    ensures Reloaded(TablesOf([KeyEntry("win", 0x5B), KeyEntry("win", 0x5C)]), map[0x5B := b]) == map[0x5C := b]
  {
    var (keys, binds) := (TablesOf(WinEntries(VK_LWIN, VK_RWIN)), map[VK_LWIN := b]);
    forall vk { WinTables(VK_LWIN, VK_RWIN, vk); }
    forall vk { KeysThatComeBack(keys, binds, vk); }
    assert Claims(keys, binds, VK_LWIN, VK_RWIN);
    var w := SomeKeyDecides(keys, binds, VK_RWIN, VK_LWIN);
    DecidedBindComesBack(keys, binds, VK_RWIN, w);
  }

  /** In the other order the left key's name maps back to it, and yet it comes back with
      the right key's bind, which was written later. */
  lemma MappingBackIsNotEnough(left: Bind, right: Bind)
    requires ValidBind(0x5B, left) && ValidBind(0x5C, right) && left != right
    ensures var (keys, binds) := (
        TablesOf([KeyEntry("win", 0x5C), KeyEntry("win", 0x5B)]), map[0x5B := left, 0x5C := right]);
      && MapsBack(keys, 0x5B) && !Survives(keys, binds, 0x5B)
      && Reloaded(keys, binds) == map[0x5B := right]
  {
    var (keys, binds) := (TablesOf(WinEntries(VK_RWIN, VK_LWIN)), map[VK_LWIN := left, VK_RWIN := right]);
    forall vk { WinTables(VK_RWIN, VK_LWIN, vk); }
    forall vk { KeysThatComeBack(keys, binds, vk); }
    assert Claims(keys, binds, VK_LWIN, VK_LWIN);
    var w := SomeKeyDecides(keys, binds, VK_LWIN, VK_LWIN);
    assert IsNamed(keys, binds, VK_RWIN);
    DecidedBindComesBack(keys, binds, VK_LWIN, w);
  }
}
