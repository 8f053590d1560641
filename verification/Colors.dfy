/** Colours: four channels, nominally from 0 to 1, kept in the configuration file as the
    hexadecimal text of a 32-bit number. */
module Colors {
  import opened Integers
  import opened Options
  import opened Words

  datatype Color = Color(r: real, g: real, b: real, a: real)

  // ----- Channels and the 32-bit number

  function Saturate(f: real): real {
    if f < 0.0 then 0.0 else if f > 1.0 then 1.0 else f
  }

  /** To the nearest 255th. */
  function ToByte(f: real): u8 {
    var scaled := Saturate(f) * 255.0 + 0.5;
    assert 0.0 <= scaled < 256.0;
    scaled.Floor
  }

  function OfByte(n: u8): real {
    n as real / 255.0
  }

  /** The lowest byte is red. */
  function FromU32(hex: u32): Color {
    var b := DwordBytes(hex);
    Color(OfByte(b[0]), OfByte(b[1]), OfByte(b[2]), OfByte(b[3]))
  }

  function Bytes(c: Color): (b: seq<u8>)
    ensures |b| == 4
  {
    [ToByte(c.r), ToByte(c.g), ToByte(c.b), ToByte(c.a)]
  }

  function AsU32(c: Color): u32 {
    Dword(Bytes(c), 0)
  }

  lemma BytesRoundTrip(n: u8)
    ensures ToByte(OfByte(n)) == n
  {
    assert OfByte(n) * 255.0 == n as real;
  }

  lemma ChannelError(f: real)
    ensures -1.0 / 510.0 <= OfByte(ToByte(f)) - Saturate(f) <= 1.0 / 510.0
  {
    var n := ToByte(f);
    assert n as real <= Saturate(f) * 255.0 + 0.5 < n as real + 1.0;
  }

  /** Every number survives being made a colour. */
  lemma NumberSurvives(hex: u32)
    ensures AsU32(FromU32(hex)) == hex
  {
    var b := DwordBytes(hex);
    forall i | 0 <= i < 4
      ensures ToByte(OfByte(b[i])) == b[i]
    {
      BytesRoundTrip(b[i]);
    }
    assert Bytes(FromU32(hex)) == b;
  }

  // ----- Hexadecimal text

  function HexDigit(n: nat): char
    requires n < 16
  {
    if n < 10 then '0' + n as char else 'A' + (n - 10) as char
  }

  function DigitValue(c: char): Option<nat> {
    if '0' <= c <= '9' then Some((c - '0') as nat)
    else if 'A' <= c <= 'F' then Some((c - 'A') as nat + 10)
    else if 'a' <= c <= 'f' then Some((c - 'a') as nat + 10)
    else None
  }

  /** The last n digits. */
  function HexText(v: nat, n: nat): string {
    if n == 0 then "" else HexText(v / 16, n - 1) + [HexDigit(v % 16)]
  }

  /** The value of the digits a text begins with, after a value read already. */
  function HexValue(s: string, read: nat): nat {
    if s == "" || DigitValue(s[0]).None? then read
    else HexValue(s[1..], 16 * read + DigitValue(s[0]).value)
  }

  /** The first character is not looked at; no digits mean zero; too many are an error. */
  function ParseHex(s: string): Option<u32> {
    if s == "" then None
    else
      var v := HexValue(s[1..], 0);
      if v < 0x1_0000_0000 then Some(v) else None
  }

  function Power16(n: nat): nat {
    if n == 0 then 1 else 16 * Power16(n - 1)
  }

  lemma ShiftedIn(read: nat, p: nat, v: nat)
    ensures 16 * (read * p + v / 16) + v % 16 == read * (16 * p) + v
    ensures v < 16 * p ==> v / 16 < p
  {}

  lemma {:induction false} HexTextReads(v: nat, n: nat, read: nat, rest: string)
    requires v < Power16(n)
    ensures HexValue(HexText(v, n) + rest, read) == HexValue(rest, read * Power16(n) + v)
    decreases n
  {
    if n == 0 {
      assert HexText(v, n) + rest == rest;
    } else {
      var (high, low) := (v / 16, v % 16);
      var tail := [HexDigit(low)] + rest;
      assert HexText(v, n) + rest == HexText(high, n - 1) + tail;
      ShiftedIn(read, Power16(n - 1), v);
      HexTextReads(high, n - 1, read, tail);
      assert tail[1..] == rest && DigitValue(HexDigit(low)) == Some(low);
    }
  }

  function Format(v: u32): string {
    "#" + HexText(v, 8)
  }

  /** Parsing undoes printing. */
  lemma FormattedNumberParses(v: u32)
    ensures ParseHex(Format(v)) == Some(v)
  {
    assert Power16(8) == 0x1_0000_0000 by {
      assert Power16(4) == 0x1_0000;
    }
    HexTextReads(v, 8, 0, "");
    assert HexText(v, 8) + "" == HexText(v, 8) == Format(v)[1..];
  }

  // ----- The configuration file

  function ToJson(c: Color): string {
    Format(AsU32(c))
  }

  function FromJson(s: string): Option<Color> {
    match ParseHex(s)
    case None => None
    case Some(v) => Some(FromU32(v))
  }

  ghost predicate Near(f: real, g: real) {
    -1.0 / 510.0 <= f - g <= 1.0 / 510.0
  }

  ghost predicate OnGrid(f: real) {
    exists n: u8 :: f == OfByte(n)
  }

  /** What comes back is within half a 255th of each saturated channel, and saving it
      again writes the same text. */
  lemma SavedColorComesBack(c: Color)
    ensures FromJson(ToJson(c)) == Some(FromU32(AsU32(c)))
    ensures var d := FromU32(AsU32(c));
      && ToJson(d) == ToJson(c)
      && Near(d.r, Saturate(c.r)) && Near(d.g, Saturate(c.g)) && Near(d.b, Saturate(c.b)) && Near(d.a, Saturate(c.a))
  {
    FormattedNumberParses(AsU32(c));
    NumberSurvives(AsU32(c));
    DwordOfBytes(Bytes(c));
    ChannelError(c.r);
    ChannelError(c.g);
    ChannelError(c.b);
    ChannelError(c.a);
  }

  lemma ChannelIsExact(f: real)
    ensures OfByte(ToByte(f)) == f <==> OnGrid(f)
  {
    if n: u8 :| f == OfByte(n) {
      BytesRoundTrip(n);
    }
  }

  /** A colour comes back unchanged exactly if each channel is a whole number of 255ths. */
  lemma ColorIsExact(c: Color)
    ensures FromJson(ToJson(c)) == Some(c) <==> OnGrid(c.r) && OnGrid(c.g) && OnGrid(c.b) && OnGrid(c.a)
  {
    SavedColorComesBack(c);
    DwordOfBytes(Bytes(c));
    ChannelIsExact(c.r);
    ChannelIsExact(c.g);
    ChannelIsExact(c.b);
    ChannelIsExact(c.a);
  }

  /** Red is the lowest byte and alpha the highest. */
  lemma ChannelsInOrder(r: u8, g: u8, b: u8, a: u8)
    ensures FromU32(r as int + 256 * g as int + 65536 * b as int + 16777216 * a as int)
         == Color(r as real / 255.0, g as real / 255.0, b as real / 255.0, a as real / 255.0)
  {
    var bytes := [r, g, b, a];
    LowestFirst(bytes, 0);
    DwordOfBytes(bytes);
  }

  const CAPITALS := "0123456789ABCDEF"
  const SMALL := "0123456789abcdef"

  lemma DigitIsCapital(n: nat)
    requires n < 16
    ensures HexDigit(n) == CAPITALS[n]
  {}

  /** The number that has these digits, the highest first. */
  function OfDigits(digits: seq<nat>): nat {
    if digits == [] then 0 else 16 * OfDigits(digits[..|digits| - 1]) + digits[|digits| - 1]
  }

  /** The text has the highest digit first, in capitals. */
  lemma {:induction false} TextOfDigits(digits: seq<nat>, i: nat)
    requires i < |digits| && forall j :: 0 <= j < |digits| ==> digits[j] < 16
    ensures var text := HexText(OfDigits(digits), |digits|);
      |text| == |digits| && text[i] == CAPITALS[digits[i]]
    decreases |digits|
  {
    hide HexDigit, CAPITALS;
    var n := |digits| - 1;
    DigitIsCapital(digits[n]);
    if n > 0 {
      TextOfDigits(digits[..n], if i < n then i else 0);
    }
    assert OfDigits(digits) % 16 == digits[n] && OfDigits(digits) / 16 == OfDigits(digits[..n]);
  }

  /** Hexadecimal digits with these values, each in capitals or not. */
  ghost predicate Denotes(text: string, digits: seq<nat>) {
    |text| == |digits| && forall i :: 0 <= i < |digits| ==>
      digits[i] < 16 && (text[i] == CAPITALS[digits[i]] || text[i] == SMALL[digits[i]])
  }

  ghost predicate EndsDigits(rest: string) {
    rest == "" || (rest[0] !in CAPITALS && rest[0] !in SMALL)
  }

  lemma DigitsHaveValues(c: char, d: nat)
    requires d < 16
    ensures c == CAPITALS[d] || c == SMALL[d] ==> DigitValue(c) == Some(d)
  {}

  lemma OthersHaveNone(c: char)
    ensures DigitValue(c).Some? ==> c in CAPITALS || c in SMALL
  {
    if DigitValue(c).Some? {
      assert CAPITALS[DigitValue(c).value] == c || SMALL[DigitValue(c).value] == c;
    }
  }

  lemma {:induction false} DigitsRead(text: string, digits: seq<nat>, rest: string, done: seq<nat>)
    requires Denotes(text, digits) && EndsDigits(rest)
    ensures HexValue(text + rest, OfDigits(done)) == OfDigits(done + digits)
    decreases |text|
  {
    hide DigitValue, CAPITALS, SMALL;
    if text == "" {
      assert text + rest == rest && done + digits == done;
      if rest != "" { OthersHaveNone(rest[0]); }
    } else {
      DigitsHaveValues(text[0], digits[0]);
      assert (text + rest)[1..] == text[1..] + rest && done + digits == (done + [digits[0]]) + digits[1..];
      assert (done + [digits[0]])[..|done|] == done;
      DigitsRead(text[1..], digits[1..], rest, done + [digits[0]]);
    }
  }

  /** Every text in its parts: a character that is skipped, digits and what follows them. */
  lemma HexTextReadsAs(hash: char, text: string, digits: seq<nat>, rest: string)
    requires Denotes(text, digits) && EndsDigits(rest)
    ensures ParseHex([hash] + (text + rest)) == if OfDigits(digits) <= 0xFFFF_FFFF then Some(OfDigits(digits)) else None
  {
    DigitsRead(text, digits, rest, []);
    assert [] + digits == digits && ([hash] + (text + rest))[1..] == text + rest;
  }
}
