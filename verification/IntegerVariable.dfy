/** Integer variables: a value, optional bounds, and the value's text. */
module IntegerVariable {
  import opened Integers
  import opened Options
  import opened Strings

  // ----- Texts of integers

  function Magnitude(v: int): nat {
    if v < 0 then -v else v
  }

  function ToString(v: i32): string {
    if v < 0 then "-" + DigitsOf(Magnitude(v)) else DigitsOf(Magnitude(v))
  }

  /** White space, a sign and digits; whatever follows the digits is ignored. */
  function Stoi(s: string): Option<i32> {
    var t := SkipSpace(s);
    var signed := t != "" && (t[0] == '-' || t[0] == '+');
    var digits := if signed then t[1..] else t;
    var n := LeadingDigits(digits);
    if n == 0 then None
    else
      var magnitude: int := ValueOf(digits[..n]);
      var v := if signed && t[0] == '-' then -magnitude else magnitude;
      if -0x8000_0000 <= v < 0x8000_0000 then Some(v) else None
  }

  lemma ParsedDigits(s: string, n: nat)
    requires s == DigitsOf(n)
    ensures LeadingDigits(s) == |s| > 0 && ValueOf(s[..|s|]) == n && IsDigit(s[0])
  {
    ValueOfDigits(n);
    DigitsLead(s, "");
    assert s + "" == s;
    assert s[..|s|] == s;
  }

  /** Parsing undoes printing. */
  lemma PrintedIntegerParses(v: i32)
    ensures Stoi(ToString(v)) == Some(v)
  {
    ParsedDigits(DigitsOf(Magnitude(v)), Magnitude(v));
    if v < 0 {
      assert ToString(v)[1..] == DigitsOf(Magnitude(v));
    }
  }

  /** Decimal digits of n with no zero before them. */
  ghost predicate Canonical(digits: string, n: int) {
    && digits != "" && (forall i :: 0 <= i < |digits| ==> IsDigit(digits[i]))
    && ValueOf(digits) as int == n
    && (digits[0] == '0' ==> |digits| == 1)
  }

  /** A minus before negative numbers alone. */
  lemma TextIsCanonical(v: i32)
    ensures v >= 0 ==> Canonical(ToString(v), v)
    ensures v < 0 ==> ToString(v)[..1] == "-" && Canonical(ToString(v)[1..], 0 - v)
  {
    ValueOfDigits(Magnitude(v));
    assert v < 0 ==> ToString(v)[1..] == DigitsOf(Magnitude(v));
  }

  lemma SignIsNoSpace(c: char)
    requires c == '+' || c == '-' || IsDigit(c)
    ensures c !in WHITE_SPACE
  {}

  lemma NumberReads(s: string, sign: string, digits: string, rest: string)
    requires SkipSpace(s) == sign + (digits + rest) && (sign == "" || sign == "+" || sign == "-")
    requires forall i :: 0 <= i < |digits| ==> '0' <= digits[i] <= '9'
    requires rest == "" || !('0' <= rest[0] <= '9')
    requires sign + digits == "" ==> rest == "" || rest[0] !in "+-"
    ensures var v := if sign == "-" then -(ValueOf(digits) as int) else ValueOf(digits) as int;
      Stoi(s) == if digits != "" && -2147483648 <= v <= 2147483647 then Some(v) else None
  {
    hide SkipSpace, ValueOf, LeadingDigits, WHITE_SPACE;
    var (t, number) := (SkipSpace(s), digits + rest);
    DigitsLead(digits, rest);
    assert number[..|digits|] == digits;
    if sign == "" {
      assert t == number && (t == "" || (t[0] != '-' && t[0] != '+'));
    } else {
      assert t[0] == sign[0] && t[1..] == number && (t[0] == '-' <==> sign == "-");
    }
  }

  /** Every text in its parts: white space, a sign, decimal digits and what follows them. */
  lemma TextReads(space: string, sign: string, digits: string, rest: string)
    requires forall i :: 0 <= i < |space| ==> space[i] in WHITE_SPACE
    requires sign == "" || sign == "+" || sign == "-"
    requires forall i :: 0 <= i < |digits| ==> '0' <= digits[i] <= '9'
    requires rest == "" || !('0' <= rest[0] <= '9')
    requires sign + digits == "" ==> rest == "" || (rest[0] !in WHITE_SPACE && rest[0] !in "+-")
    ensures var v := if sign == "-" then -(ValueOf(digits) as int) else ValueOf(digits) as int;
      Stoi(space + (sign + (digits + rest))) == if digits != "" && -2147483648 <= v <= 2147483647 then Some(v) else None
  {
    hide Stoi, WHITE_SPACE;
    var number := digits + rest;
    if sign != "" {
      assert (sign + number)[0] == sign[0];
      SignIsNoSpace(sign[0]);
    } else if digits != "" {
      assert sign + number == number && number[0] == digits[0];
      SignIsNoSpace(digits[0]);
    } else {
      assert sign + number == rest;
    }
    SpaceIsSkipped(space, sign + number);
    NumberReads(space + (sign + number), sign, digits, rest);
  }

  // ----- Setting a variable

  datatype Bounds = Unbounded | Bounded(min: i32, max: i32)

  datatype Variable = Variable(value: i32, text: string)

  predicate InRange(bounds: Bounds, v: i32) {
    bounds.Bounded? ==> bounds.min <= v <= bounds.max
  }

  predicate Ordered(bounds: Bounds) {
    bounds.Bounded? ==> bounds.min <= bounds.max
  }

  function Clamp(bounds: Bounds, x: Variable): Variable {
    if bounds.Unbounded? then x
    else if x.value < bounds.min then Variable(bounds.min, ToString(bounds.min))
    else if x.value > bounds.max then Variable(bounds.max, ToString(bounds.max))
    else x
  }

  function SetValue(bounds: Bounds, x: Variable, v: i32): Variable {
    if x.value != v then Clamp(bounds, Variable(v, ToString(v))) else x
  }

  /** The text parsed and stored, without comparing it to the present one. */
  function StoreText(bounds: Bounds, x: Variable, s: string): Variable {
    match Stoi(s)
    case None => x
    case Some(v) => Clamp(bounds, Variable(v, s))
  }

  function SetFromString(bounds: Bounds, x: Variable, s: string): Variable {
    if x.text != s then StoreText(bounds, x, s) else x
  }

  class VarInteger {
    var value: i32
    var valueString: string
    const default: i32
    const bounds: Bounds

    /** The value's memory holds something before it is first set. */
    constructor (initial: i32, value: i32, bounds: Bounds)
      ensures this.default == value && this.bounds == bounds
      ensures State() == Created(bounds, initial, value)
    {
      this.default, this.bounds := value, bounds;
      this.value, this.valueString := initial, ToString(value);
      new;
      Set(value);
    }

    function State(): Variable
      reads this
    {
      Variable(value, valueString)
    }

    method Set(v: i32)
      modifies this
      ensures State() == SetValue(bounds, old(State()), v)
    {
      if value != v {
        value := v;
        valueString := ToString(v);
        ClampValueIfNeeded();
      }
    }

    method SetFromText(newValue: string)
      modifies this
      ensures State() == SetFromString(bounds, old(State()), newValue)
    {
      if valueString != newValue {
        var v := Stoi(newValue);
        if v.None? {
          return;
        }
        value := v.value;
        valueString := newValue;
        ClampValueIfNeeded();
      }
    }

    method ClampValueIfNeeded()
      modifies this
      ensures State() == Clamp(bounds, old(State()))
    {
      if bounds.Unbounded? {
        return;
      }
      if value < bounds.min {
        value := bounds.min;
        valueString := ToString(bounds.min);
      } else if value > bounds.max {
        value := bounds.max;
        valueString := ToString(bounds.max);
      }
    }
  }

  // ----- Runs

  datatype Operation = Assign(v: i32) | Load(s: string)

  function Created(bounds: Bounds, initial: i32, default: i32): Variable {
    SetValue(bounds, Variable(initial, ToString(default)), default)
  }

  function Apply(bounds: Bounds, x: Variable, op: Operation): Variable {
    match op
    case Assign(v) => SetValue(bounds, x, v)
    case Load(s) => SetFromString(bounds, x, s)
  }

  function Run(bounds: Bounds, x: Variable, ops: seq<Operation>): Variable {
    if ops == [] then x else Apply(bounds, Run(bounds, x, ops[..|ops| - 1]), ops[|ops| - 1])
  }

  predicate TextAgrees(x: Variable) {
    Stoi(x.text) == Some(x.value)
  }

  lemma ClampAgrees(bounds: Bounds, x: Variable)
    requires TextAgrees(x)
    ensures TextAgrees(Clamp(bounds, x))
    ensures Ordered(bounds) ==> InRange(bounds, Clamp(bounds, x).value)
  {
    if bounds.Bounded? {
      PrintedIntegerParses(bounds.min);
      PrintedIntegerParses(bounds.max);
    }
  }

  lemma StepAgrees(bounds: Bounds, x: Variable, op: Operation)
    requires TextAgrees(x)
    ensures TextAgrees(Apply(bounds, x, op))
    ensures Ordered(bounds) && InRange(bounds, x.value) ==> InRange(bounds, Apply(bounds, x, op).value)
  {
    match op
    case Assign(v) =>
      PrintedIntegerParses(v);
      ClampAgrees(bounds, Variable(v, ToString(v)));
    case Load(s) =>
      if Stoi(s).Some? { ClampAgrees(bounds, Variable(Stoi(s).value, s)); }
  }

  lemma CreatedAgrees(bounds: Bounds, initial: i32, default: i32)
    ensures TextAgrees(Created(bounds, initial, default))
    ensures Ordered(bounds) ==>
      (InRange(bounds, Created(bounds, initial, default).value) <==> InRange(bounds, default) || initial != default)
  {
    PrintedIntegerParses(default);
    ClampAgrees(bounds, Variable(default, ToString(default)));
  }

  lemma {:induction false} RunAgrees(bounds: Bounds, x: Variable, ops: seq<Operation>)
    requires TextAgrees(x)
    ensures TextAgrees(Run(bounds, x, ops))
    ensures Ordered(bounds) && InRange(bounds, x.value) ==> InRange(bounds, Run(bounds, x, ops).value)
  {
    if ops != [] {
      RunAgrees(bounds, x, ops[..|ops| - 1]);
      StepAgrees(bounds, Run(bounds, x, ops[..|ops| - 1]), ops[|ops| - 1]);
    }
  }

  ghost predicate AlwaysInRange(bounds: Bounds, x: Variable) {
    forall ops :: InRange(bounds, Run(bounds, x, ops).value)
  }

  /** In every run the text parses to the value. The value stays within its bounds in
      every run exactly if they are in order and the default lies within them or the
      memory did not happen to hold it. */
  lemma RunsOfAVariable(bounds: Bounds, initial: i32, default: i32)
    ensures forall ops :: TextAgrees(Run(bounds, Created(bounds, initial, default), ops))
    ensures AlwaysInRange(bounds, Created(bounds, initial, default))
       <==> Ordered(bounds) && (InRange(bounds, default) || initial != default)
  {
    var x := Created(bounds, initial, default);
    CreatedAgrees(bounds, initial, default);
    forall ops
      ensures TextAgrees(Run(bounds, x, ops))
      ensures Ordered(bounds) && InRange(bounds, x.value) ==> InRange(bounds, Run(bounds, x, ops).value)
    {
      RunAgrees(bounds, x, ops);
    }
    assert Run(bounds, x, []) == x;
  }

  /** A default that the memory happened to hold escapes the bounds. */
  lemma DefaultEscapesBounds()
    ensures !InRange(Bounded(1, 2), Created(Bounded(1, 2), 0, 0).value)
  {}

  /** A value that is set is the nearest to the given one that the bounds allow. */
  lemma SetIsNearest(bounds: Bounds, x: Variable, v: i32, w: i32)
    requires Ordered(bounds) && InRange(bounds, x.value) && InRange(bounds, w)
    ensures InRange(bounds, SetValue(bounds, x, v).value)
    ensures Distance(SetValue(bounds, x, v).value, v) <= Distance(w, v)
  {}

  /** Not parsing a text that is already stored makes a difference only to a value that
      is out of its bounds. */
  lemma SkippingIsUnobservable(bounds: Bounds, x: Variable, s: string)
    requires TextAgrees(x)
    ensures InRange(bounds, x.value) ==> SetFromString(bounds, x, s) == StoreText(bounds, x, s)
    ensures Ordered(bounds) && !InRange(bounds, x.value) ==>
      SetFromString(bounds, x, x.text) != StoreText(bounds, x, x.text)
  {}

  /** A saved text restores what it was saved for, whatever the variable has become in the
      meantime, exactly if that is in bounds or the text has not changed since. */
  lemma SavedTextRestores(bounds: Bounds, saved: Variable, later: Variable)
    requires TextAgrees(saved) && TextAgrees(later)
    ensures SetFromString(bounds, later, saved.text) == saved <==> InRange(bounds, saved.value) || later.text == saved.text
  {}
}
