/** Bind flags as text: a list of names, separated by commas. */
module BindFlags {
  import opened Strings

  datatype Flag = ExecuteOverUI | ExecuteOverGameUI | Silent | DisableInGameKey

  function Name(f: Flag): string {
    match f
    case ExecuteOverUI => "execute_over_ui"
    case ExecuteOverGameUI => "execute_over_game_ui"
    case Silent => "silent"
    case DisableInGameKey => "disable_ingame_key"
  }

  // ----- Parsing

  function DropRight(s: string): string {
    if s != "" && s[|s| - 1] == ' ' then DropRight(s[..|s| - 1]) else s
  }

  function DropLeft(s: string): string {
    if s != "" && s[0] == ' ' then DropLeft(s[1..]) else s
  }

  function Trim(s: string): string {
    DropLeft(DropRight(s))
  }

  function Named(token: string): set<Flag> {
    if token == Name(ExecuteOverUI) then {ExecuteOverUI}
    else if token == Name(ExecuteOverGameUI) then {ExecuteOverGameUI}
    else if token == Name(Silent) then {Silent}
    else if token == Name(DisableInGameKey) then {DisableInGameKey}
    else {}
  }

  /** The last character ends the last token and belongs to it, even if it is a comma. */
  function FlagTokens(s: string, current: string): seq<string> {
    if s == "" then []
    else if |s| == 1 then [current + [s[0]]]
    else if s[0] == ',' then [current] + FlagTokens(s[1..], "")
    else FlagTokens(s[1..], current + [s[0]])
  }

  function AllNamed(tokens: seq<string>): set<Flag> {
    if tokens == [] then {} else Named(Trim(tokens[0])) + AllNamed(tokens[1..])
  }

  function ParseFlags(s: string): set<Flag> {
    AllNamed(FlagTokens(s, ""))
  }

  method ParseFlagsOutOfString(flagsStr: string) returns (flags: set<Flag>)
    ensures flags == ParseFlags(flagsStr)
  {
    flags := {};
    var currentToken := "";
    for i := 0 to |flagsStr|
      invariant ParseFlags(flagsStr) == flags + AllNamed(FlagTokens(flagsStr[i..], currentToken))
    {
      var c := flagsStr[i];
      var last := i == |flagsStr| - 1;
      assert flagsStr[i..][1..] == flagsStr[i + 1..];
      ghost var tokens := FlagTokens(flagsStr[i..], currentToken);
      if c == ',' || last {
        if last {
          currentToken := currentToken + [c];
        }
        assert tokens == [currentToken] + FlagTokens(flagsStr[i + 1..], "");
        currentToken := Trim(currentToken);
        if currentToken == Name(ExecuteOverUI) {
          flags := flags + {ExecuteOverUI};
        }
        if currentToken == Name(ExecuteOverGameUI) {
          flags := flags + {ExecuteOverGameUI};
        }
        if currentToken == Name(Silent) {
          flags := flags + {Silent};
        }
        if currentToken == Name(DisableInGameKey) {
          flags := flags + {DisableInGameKey};
        }
        currentToken := "";
      } else {
        currentToken := currentToken + [c];
      }
    }
  }

  // ----- Printing

  function FlagList(flags: set<Flag>): seq<Flag> {
    (if ExecuteOverUI in flags then [ExecuteOverUI] else [])
    + (if ExecuteOverGameUI in flags then [ExecuteOverGameUI] else [])
    + (if Silent in flags then [Silent] else [])
    + (if DisableInGameKey in flags then [DisableInGameKey] else [])
  }

  function Names(list: seq<Flag>): (names: seq<string>)
    ensures |names| == |list|
  {
    seq(|list|, i requires 0 <= i < |list| => Name(list[i]))
  }

  function FlagsText(flags: set<Flag>): string {
    if flags == {} then "none" else Join(Names(FlagList(flags)), ", ")
  }

  method AddName(flagsStr: string, addSeparator: bool, f: Flag, ghost list: seq<Flag>)
    returns (r: string)
    requires flagsStr == Join(Names(list), ", ") && (addSeparator <==> list != [])
    ensures r == Join(Names(list + [f]), ", ")
  {
    JoinSnoc(Names(list), Name(f), ", ");
    assert Names(list + [f]) == Names(list) + [Name(f)];
    r := flagsStr + ((if addSeparator then ", " else "") + Name(f));
  }

  method CreateStringOutOfFlags(flags: set<Flag>) returns (flagsStr: string)
    ensures flagsStr == FlagsText(flags)
  {
    if flags == {} {
      return "none";
    }
    flagsStr := "";
    var addSeparator := false;
    ghost var list: seq<Flag> := [];
    if ExecuteOverUI in flags {
      flagsStr := AddName(flagsStr, addSeparator, ExecuteOverUI, list);
      list := list + [ExecuteOverUI];
      addSeparator := true;
    }
    if ExecuteOverGameUI in flags {
      flagsStr := AddName(flagsStr, addSeparator, ExecuteOverGameUI, list);
      list := list + [ExecuteOverGameUI];
      addSeparator := true;
    }
    if Silent in flags {
      flagsStr := AddName(flagsStr, addSeparator, Silent, list);
      list := list + [Silent];
      addSeparator := true;
    }
    if DisableInGameKey in flags {
      flagsStr := AddName(flagsStr, addSeparator, DisableInGameKey, list);
      list := list + [DisableInGameKey];
      addSeparator := true;
    }
    assert list == FlagList(flags);
  }

  // ----- What parsing means

  ghost predicate CommaFree(s: string) {
    forall i :: 0 <= i < |s| ==> s[i] != ','
  }

  ghost predicate Fields(fields: seq<string>) {
    fields != [] && forall i :: 0 <= i < |fields| ==> CommaFree(fields[i])
  }

  /** The fields that count: after a trailing comma, the field before that comma is lost. */
  function Effective(fields: seq<string>): seq<string>
    requires fields != []
  {
    if fields[|fields| - 1] != "" then fields
    else if |fields| == 1 then []
    else fields[..|fields| - 2]
  }

  lemma {:induction false} ScanField(current: string, p: string, rest: string)
    requires CommaFree(p) && rest != ""
    ensures FlagTokens(p + rest, current) == FlagTokens(rest, current + p)
    decreases |p|
  {
    if p == "" {
      assert current + p == current && p + rest == rest;
    } else {
      assert (p + rest)[1..] == p[1..] + rest && current + p == current + [p[0]] + p[1..];
      ScanField(current + [p[0]], p[1..], rest);
    }
  }

  lemma {:induction false} FieldTokens(fields: seq<string>)
    requires Fields(fields)
    ensures FlagTokens(Join(fields, ","), "")
         == Effective(fields) + if fields[|fields| - 1] == "" && |fields| > 1 then [fields[|fields| - 2] + ","] else []
  {
    var p := fields[0];
    assert "" + p == p;
    if |fields| == 1 {
      if p != "" {
        var n := |p| - 1;
        assert p == p[..n] + [p[n]] && "" + p[..n] == p[..n];
        ScanField("", p[..n], [p[n]]);
      }
    } else {
      var rest := Join(fields[1..], ",");
      ScanField("", p, "," + rest);
      assert p + "," + rest == p + ("," + rest) && ("," + rest)[1..] == rest;
      if |fields| == 2 && fields[1] == "" {
        assert Effective(fields) == [];
      } else {
        FieldTokens(fields[1..]);
        assert Effective(fields) == [p] + Effective(fields[1..]);
      }
    }
  }

  function Spaces(n: nat): (s: string)
    ensures |s| == n && forall i :: 0 <= i < n ==> s[i] == ' '
  {
    seq(n, _ => ' ')
  }

  /** A flag's name, with any spaces around it. */
  ghost predicate Spells(field: string, f: Flag) {
    exists l, r :: field == Spaces(l) + Name(f) + Spaces(r)
  }

  predicate Tight(s: string) {
    s != "" && s[0] != ' ' && s[|s| - 1] != ' '
  }

  lemma {:induction false} DropRightTakesSpaces(s: string) returns (r: nat)
    ensures s == DropRight(s) + Spaces(r)
  {
    if s != "" && s[|s| - 1] == ' ' {
      r := DropRightTakesSpaces(s[..|s| - 1]);
      r := r + 1;
    } else {
      r := 0;
    }
  }

  lemma {:induction false} DropLeftTakesSpaces(s: string) returns (l: nat)
    ensures s == Spaces(l) + DropLeft(s)
  {
    if s != "" && s[0] == ' ' {
      l := DropLeftTakesSpaces(s[1..]);
      l := l + 1;
    } else {
      l := 0;
    }
  }

  lemma {:induction false} DropRightUndoes(s: string, r: nat)
    requires s != "" && s[|s| - 1] != ' '
    ensures DropRight(s + Spaces(r)) == s
  {
    if r > 0 {
      assert (s + Spaces(r))[..|s| + r - 1] == s + Spaces(r - 1);
      DropRightUndoes(s, r - 1);
    } else {
      assert s + Spaces(0) == s;
    }
  }

  lemma {:induction false} DropLeftUndoes(s: string, l: nat)
    requires s != "" && s[0] != ' '
    ensures DropLeft(Spaces(l) + s) == s
  {
    if l > 0 {
      assert (Spaces(l) + s)[1..] == Spaces(l - 1) + s;
      DropLeftUndoes(s, l - 1);
    } else {
      assert Spaces(0) + s == s;
    }
  }

  lemma TrimIs(field: string, w: string)
    requires Tight(w)
    ensures Trim(field) == w <==> exists l, r :: field == Spaces(l) + w + Spaces(r)
  {
    var r := DropRightTakesSpaces(field);
    var l := DropLeftTakesSpaces(DropRight(field));
    assert Trim(field) == w ==> field == Spaces(l) + w + Spaces(r);
    forall l, r | field == Spaces(l) + w + Spaces(r)
      ensures Trim(field) == w
    {
      DropRightUndoes(Spaces(l) + w, r);
      DropLeftUndoes(w, l);
    }
  }

  lemma NamedIs(token: string, f: Flag)
    ensures f in Named(token) <==> token == Name(f)
  {}

  lemma NamesAreWords(f: Flag)
    ensures Tight(Name(f)) && CommaFree(Name(f))
  {}

  lemma FieldNames(field: string, f: Flag)
    ensures f in Named(Trim(field)) <==> Spells(field, f)
  {
    NamedIs(Trim(field), f);
    NamesAreWords(f);
    TrimIs(field, Name(f));
  }

  lemma {:induction false} FieldsName(fields: seq<string>, f: Flag)
    ensures f in AllNamed(fields) <==> exists i :: 0 <= i < |fields| && Spells(fields[i], f)
  {
    if fields != [] {
      FieldNames(fields[0], f);
      FieldsName(fields[1..], f);
      if f in AllNamed(fields[1..]) {
        var i :| 0 <= i < |fields| - 1 && Spells(fields[1..][i], f);
        assert Spells(fields[i + 1], f);
      }
    }
  }

  lemma {:induction false} AllNamedAppend(a: seq<string>, b: seq<string>)
    ensures AllNamed(a + b) == AllNamed(a) + AllNamed(b)
  {
    if a == [] {
      assert a + b == b;
    } else {
      assert (a + b)[1..] == a[1..] + b;
      AllNamedAppend(a[1..], b);
    }
  }

  lemma SpellingsAreCommaFree(field: string, f: Flag)
    requires Spells(field, f)
    ensures CommaFree(field)
  {
    NamesAreWords(f);
  }

  lemma CommaIsNoName(field: string)
    ensures Named(Trim(field + ",")) == {}
  {
    assert (field + ",")[|field|] == ',';
    if f :| f in Named(Trim(field + ",")) {
      FieldNames(field + ",", f);
      SpellingsAreCommaFree(field + ",", f);
    }
  }

  /** Exactly the flags spelt by the fields that count are set, in whatever order, however
      often and with whatever spaces and unknown names between them. */
  lemma ParsedFlags(fields: seq<string>, f: Flag)
    requires Fields(fields)
    ensures f in ParseFlags(Join(fields, ","))
       <==> exists i :: 0 <= i < |Effective(fields)| && Spells(Effective(fields)[i], f)
  {
    var n := |fields|;
    FieldTokens(fields);
    FieldsName(Effective(fields), f);
    if fields[n - 1] == "" && n > 1 {
      var lost := fields[n - 2] + ",";
      AllNamedAppend(Effective(fields), [lost]);
      CommaIsNoName(fields[n - 2]);
      assert AllNamed([lost]) == Named(Trim(lost)) + AllNamed([]);
    } else {
      assert Effective(fields) + [] == Effective(fields);
    }
  }

  function Split(s: string): (fields: seq<string>)
    ensures fields != []
  {
    if s == "" then [""]
    else
      var rest := Split(s[1..]);
      if s[0] == ',' then [""] + rest else [[s[0]] + rest[0]] + rest[1..]
  }

  /** Every text is such a list of fields. */
  lemma {:induction false} EveryTextHasFields(s: string)
    ensures Fields(Split(s)) && Join(Split(s), ",") == s
  {
    if s != "" {
      var (rest, fields) := (Split(s[1..]), Split(s));
      EveryTextHasFields(s[1..]);
      assert s == [s[0]] + s[1..];
      if s[0] == ',' {
        assert fields[1..] == rest;
      } else {
        assert fields[0] == [s[0]] + rest[0] && fields[1..] == rest[1..];
        if |rest| > 1 {
          assert Join(rest, ",") == rest[0] + "," + Join(rest[1..], ",");
          assert Join(fields, ",") == [s[0]] + Join(rest, ",");
        }
      }
    }
  }

  /** The printed names as fields: every name but the first follows a space. */
  function Padded(names: seq<string>): (r: seq<string>)
    ensures |r| == |names|
    ensures forall i :: 0 <= i < |r| ==> r[i] == Spaces(if i == 0 then 0 else 1) + names[i]
  {
    seq(|names|, i requires 0 <= i < |names| => Spaces(if i == 0 then 0 else 1) + names[i])
  }

  lemma {:induction false} JoinPadded(names: seq<string>)
    ensures Join(names, ", ") == Join(Padded(names), ",")
  {
    if names != [] {
      var n := |names| - 1;
      JoinSnoc(names[..n], names[n], ", ");
      JoinSnoc(Padded(names)[..n], Padded(names)[n], ",");
      JoinPadded(names[..n]);
      assert names == names[..n] + [names[n]];
      assert Padded(names) == Padded(names)[..n] + [Padded(names)[n]];
      assert Padded(names)[..n] == Padded(names[..n]);
    }
  }

  lemma PaddedNameSpells(l: nat, f: Flag, g: Flag)
    ensures Spells(Spaces(l) + Name(g), f) <==> f == g
  {
    NamesAreWords(g);
    assert Spaces(l) + Name(g) == Spaces(l) + Name(g) + Spaces(0);
    TrimIs(Spaces(l) + Name(g), Name(g));
    FieldNames(Spaces(l) + Name(g), f);
    NamedIs(Name(g), f);
  }

  lemma PrintedListParses(list: seq<Flag>, f: Flag)
    requires list != []
    ensures f in ParseFlags(Join(Names(list), ", ")) <==> f in list
  {
    var fields := Padded(Names(list));
    JoinPadded(Names(list));
    forall i | 0 <= i < |list|
      ensures CommaFree(fields[i]) && fields[i] != "" && (Spells(fields[i], f) <==> f == list[i])
    {
      NamesAreWords(list[i]);
      PaddedNameSpells(if i == 0 then 0 else 1, f, list[i]);
    }
    ParsedFlags(fields, f);
    assert Effective(fields) == fields;
    if f in list {
      var i :| 0 <= i < |list| && list[i] == f;
      assert Spells(fields[i], f);
    }
  }

  lemma ListHoldsFlags(flags: set<Flag>, f: Flag)
    ensures f in FlagList(flags) <==> f in flags
  {}

  /** Parsing undoes printing. */
  lemma PrintedFlagsParse(flags: set<Flag>)
    ensures ParseFlags(FlagsText(flags)) == flags
  {
    if flags == {} {
      FieldTokens(["none"]);
    } else {
      var some :| some in flags;
      ListHoldsFlags(flags, some);
      forall f: Flag
        ensures f in ParseFlags(FlagsText(flags)) <==> f in flags
      {
        ListHoldsFlags(flags, f);
        PrintedListParses(FlagList(flags), f);
      }
    }
  }

  /** The names as they stand in a configuration, in their order. */
  lemma NamesInOrder()
    ensures FlagsText({}) == "none"
    ensures FlagsText({DisableInGameKey}) == "disable_ingame_key"
    ensures FlagsText({DisableInGameKey, Silent, ExecuteOverGameUI, ExecuteOverUI})
         == "execute_over_ui" + ", " + "execute_over_game_ui" + ", " + "silent" + ", " + "disable_ingame_key"
  {
    var list := [ExecuteOverUI, ExecuteOverGameUI, Silent, DisableInGameKey];
    assert FlagList({DisableInGameKey, Silent, ExecuteOverGameUI, ExecuteOverUI}) == list;
    NextName(list[..3], DisableInGameKey);
    NextName(list[..2], Silent);
    NextName(list[..1], ExecuteOverGameUI);
    assert list == list[..3] + [DisableInGameKey] && list[..3] == list[..2] + [Silent];
    assert list[..2] == list[..1] + [ExecuteOverGameUI] && list[..1] == [ExecuteOverUI];
  }

  lemma NextName(list: seq<Flag>, f: Flag)
    requires list != []
    ensures Join(Names(list + [f]), ", ") == Join(Names(list), ", ") + ", " + Name(f)
  {
    JoinSnoc(Names(list), Name(f), ", ");
    assert Names(list + [f]) == Names(list) + [Name(f)];
  }
}
