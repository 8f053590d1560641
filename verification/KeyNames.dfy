/** Key names and virtual keys: the two translation tables, and the case-insensitive
    hash and comparison one of them is keyed with. */
module KeyNames {

  const KEY_RANGE := 0x100

  datatype KeyEntry = KeyEntry(name: string, vk: int)

  function LowerChar(c: char): char {
    if 'A' <= c <= 'Z' then c + 32 as char else c
  }

  function Lower(s: string): (r: string)
    ensures |r| == |s|
  {
    seq(|s|, i requires 0 <= i < |s| => LowerChar(s[i]))
  }

  // ----- The hash table's key functions

  /** The same character, or one letter in both cases. */
  predicate SameLetter(a: char, b: char) {
    || a == b
    || ('A' <= a <= 'Z' && b as int == a as int + 32)
    || ('A' <= b <= 'Z' && a as int == b as int + 32)
  }

  predicate SameName(a: string, b: string) {
    |a| == |b| && forall i :: 0 <= i < |a| ==> SameLetter(a[i], b[i])
  }

  lemma SameLetterIsSameLower(a: char, b: char)
    ensures SameLetter(a, b) <==> LowerChar(a) == LowerChar(b)
  {}

  function HashStep(h: bv32, c: char): bv32 {
    (h ^ (c as int % 0x100) as bv32) * 16777619
  }

  function Hash(s: string): bv32 {
    if s == [] then 2166136261 else HashStep(Hash(s[..|s| - 1]), LowerChar(s[|s| - 1]))
  }

  lemma SameNameIsSameLower(a: string, b: string)
    ensures SameName(a, b) <==> Lower(a) == Lower(b)
  {
    if |a| == |b| {
      forall i | 0 <= i < |a|
        ensures SameLetter(a[i], b[i]) <==> Lower(a)[i] == Lower(b)[i]
      {
        SameLetterIsSameLower(a[i], b[i]);
      }
    }
  }

  /** Names the table compares as equal have equal hashes, so looking a name up finds
      the entry stored under any spelling of it. */
  lemma {:induction false} SameNameSameHash(a: string, b: string)
    requires SameName(a, b)
    ensures Hash(a) == Hash(b)
  {
    if a != [] {
      SameNameSameHash(a[..|a| - 1], b[..|b| - 1]);
      SameLetterIsSameLower(a[|a| - 1], b[|b| - 1]);
    }
  }

  /** The hash is 32-bit FNV-1a: its published values for the empty text and for "a". */
  lemma HashIsFnv()
    ensures Hash("") == 0x811C9DC5 && Hash("a") == 0xE40C292C && Hash("A") == 0xE40C292C
  {
    assert Hash("a") == HashStep(Hash(""), 'a') && Hash("A") == HashStep(Hash(""), 'a');
  }

  // ----- The tables

  /** Names are kept in lower case: the table does not tell spellings apart. */
  datatype KeyTables = KeyTables(vks: map<string, int>, names: map<int, string>)

  predicate Usable(e: KeyEntry) {
    e.name != "" && e.vk != 0
  }

  /** Later entries overwrite earlier ones. */
  function TablesOf(table: seq<KeyEntry>): KeyTables {
    if table == [] then KeyTables(map[], map[])
    else
      var (t, e) := (TablesOf(table[..|table| - 1]), table[|table| - 1]);
      if Usable(e) then KeyTables(t.vks[Lower(e.name) := e.vk], t.names[e.vk := e.name]) else t
  }

  function NameOf(keys: KeyTables, vk: int): string {
    if vk in keys.names then keys.names[vk] else ""
  }

  function VkOf(keys: KeyTables, name: string): int {
    if Lower(name) in keys.vks then keys.vks[Lower(name)] else 0
  }

  class UserInput {
    var stringToVk: map<string, int>
    var vkToString: map<int, string>

    constructor (table: seq<KeyEntry>)
      ensures Tables() == TablesOf(table)
    {
      stringToVk, vkToString := map[], map[];
      new;
      for i := 0 to |table|
        invariant stringToVk == TablesOf(table[..i]).vks && vkToString == map[]
      {
        assert table[..i + 1][..i] == table[..i];
        if table[i].name != "" && table[i].vk != 0 {
          stringToVk := stringToVk[Lower(table[i].name) := table[i].vk];
        }
      }
      for i := 0 to |table|
        invariant stringToVk == TablesOf(table[..|table|]).vks && vkToString == TablesOf(table[..i]).names
      {
        assert table[..i + 1][..i] == table[..i];
        if table[i].name != "" && table[i].vk != 0 {
          vkToString := vkToString[table[i].vk := table[i].name];
        }
      }
      assert table[..|table|] == table;
    }

    function Tables(): KeyTables
      reads this
    {
      KeyTables(stringToVk, vkToString)
    }

    method VirtualKeyToString(vk: int) returns (name: string)
      ensures name == NameOf(Tables(), vk)
    {
      if vk in vkToString { return vkToString[vk]; }
      return "";
    }

    method StringToVirtualKey(name: string) returns (vk: int)
      ensures vk == VkOf(Tables(), name)
    {
      if Lower(name) in stringToVk { return stringToVk[Lower(name)]; }
      return 0;
    }
  }

  // ----- What the tables hold

  /** An entry without a name, or for key zero, is passed over. */
  lemma UnusableEntriesAreIgnored(table: seq<KeyEntry>, name: string, vk: int)
    ensures TablesOf(table + [KeyEntry("", vk)]) == TablesOf(table)
    ensures TablesOf(table + [KeyEntry(name, 0)]) == TablesOf(table)
  {
    assert (table + [KeyEntry("", vk)])[..|table|] == table && (table + [KeyEntry(name, 0)])[..|table|] == table;
  }

  /** Any other entry counts: it is the last for its name and for its key. */
  lemma UsableEntriesCount(table: seq<KeyEntry>, name: string, vk: int, spelling: string)
    requires name != "" && vk != 0 && SameName(spelling, name)
    ensures VkOf(TablesOf(table + [KeyEntry(name, vk)]), spelling) == vk
    ensures NameOf(TablesOf(table + [KeyEntry(name, vk)]), vk) == name
  {
    SameNameIsSameLower(spelling, name);
  }

  /** The last usable entry for a name, or for a virtual key, is the one that counts. */
  lemma {:induction false} LastEntryWins(table: seq<KeyEntry>, i: nat)
    requires i < |table| && Usable(table[i])
    ensures (forall j :: i < j < |table| && Usable(table[j]) ==> !SameName(table[j].name, table[i].name))
        ==> VkOf(TablesOf(table), table[i].name) == table[i].vk
    ensures (forall j :: i < j < |table| && Usable(table[j]) ==> table[j].vk != table[i].vk)
        ==> NameOf(TablesOf(table), table[i].vk) == table[i].name
    decreases |table|
  {
    var n := |table| - 1;
    if i < n {
      LastEntryWins(table[..n], i);
      SameNameIsSameLower(table[n].name, table[i].name);
    }
  }

  lemma {:induction false} NamesComeFromEntries(table: seq<KeyEntry>, vk: int)
    requires NameOf(TablesOf(table), vk) != ""
    ensures exists i :: 0 <= i < |table| && Usable(table[i])
                     && table[i] == KeyEntry(NameOf(TablesOf(table), vk), vk)
  {
    var n := |table| - 1;
    if !(Usable(table[n]) && table[n].vk == vk) {
      NamesComeFromEntries(table[..n], vk);
      var i :| 0 <= i < n && Usable(table[..n][i])
            && table[..n][i] == KeyEntry(NameOf(TablesOf(table[..n]), vk), vk);
      assert table[i] == table[..n][i];
    }
  }

  lemma {:induction false} VksComeFromEntries(table: seq<KeyEntry>, name: string)
    requires exists i :: 0 <= i < |table| && Usable(table[i]) && SameName(table[i].name, name)
    ensures exists i :: 0 <= i < |table| && Usable(table[i]) && SameName(table[i].name, name)
                     && table[i].vk == VkOf(TablesOf(table), name)
  {
    var n := |table| - 1;
    SameNameIsSameLower(table[n].name, name);
    if !(Usable(table[n]) && SameName(table[n].name, name)) {
      var k :| 0 <= k < |table| && Usable(table[k]) && SameName(table[k].name, name);
      assert table[..n][k] == table[k];
      VksComeFromEntries(table[..n], name);
      var i :| 0 <= i < n && Usable(table[..n][i]) && SameName(table[..n][i].name, name)
            && table[..n][i].vk == VkOf(TablesOf(table[..n]), name);
      assert table[i] == table[..n][i];
    }
  }

  /** A name that no usable entry has in any spelling stands for no key. */
  lemma {:induction false} UnknownNamesGiveZero(table: seq<KeyEntry>, name: string)
    requires forall i :: 0 <= i < |table| && Usable(table[i]) ==> !SameName(table[i].name, name)
    ensures VkOf(TablesOf(table), name) == 0
  {
    if table != [] {
      var n := |table| - 1;
      UnknownNamesGiveZero(table[..n], name);
      SameNameIsSameLower(table[n].name, name);
    }
  }

  /** No name stands for two virtual keys, whatever its spelling. */
  predicate Consistent(table: seq<KeyEntry>) {
    forall i, j | 0 <= i < |table| && 0 <= j < |table| && Usable(table[i]) && Usable(table[j]) ::
      SameName(table[i].name, table[j].name) ==> table[i].vk == table[j].vk
  }

  /** Then the name of a virtual key leads back to that key, although a key may have
      several names. */
  lemma ConsistentTableMapsBack(table: seq<KeyEntry>, vk: int)
    requires Consistent(table) && NameOf(TablesOf(table), vk) != ""
    ensures VkOf(TablesOf(table), NameOf(TablesOf(table), vk)) == vk
  {
    var name := NameOf(TablesOf(table), vk);
    NamesComeFromEntries(table, vk);
    var i :| 0 <= i < |table| && Usable(table[i]) && table[i] == KeyEntry(name, vk);
    assert SameName(table[i].name, name);
    VksComeFromEntries(table, name);
    var j :| 0 <= j < |table| && Usable(table[j]) && SameName(table[j].name, name)
          && table[j].vk == VkOf(TablesOf(table), name);
  }
}
