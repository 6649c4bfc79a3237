/** The slice of JavaScript semantics the components depend on: JSON-shaped
    values with their truthiness and property access, and the rounding of
    `Math.ceil`, `Math.floor` and the `%` operator on integers. */
module Js {

  import Text

  datatype Option<+T> = None | Some(value: T)

  /** A JSON-shaped JavaScript value. Numbers are integers: no component
      of the model depends on fractions, NaN or infinities. */
  datatype Value =
    | Undefined
    | Null
    | Bool(b: bool)
    | Num(n: int)
    | Str(s: string)
    | Arr(items: seq<Value>)
    | Obj(fields: map<string, Value>)

  /** Not an array or an object: compared by value by `===` and by a
      `Map`; arrays and objects compare by identity. */
  predicate Primitive(v: Value) {
    !v.Arr? && !v.Obj?
  }

  /** `!!v` */
  predicate Truthy(v: Value) {
    match v
    case Undefined => false
    case Null => false
    case Bool(b) => b
    case Num(n) => n != 0
    case Str(s) => s != ""
    case Arr(_) => true
    case Obj(_) => true
  }

  /** `v.key`: `None` when the access throws (on `undefined` or `null`),
      `Some(Undefined)` when the property is absent. */
  function Prop(v: Value, key: string): (r: Option<Value>)
    ensures r.None? <==> v.Undefined? || v.Null?
    ensures v.Obj? && key in v.fields ==> r == Some(v.fields[key])
  {
    match v
    case Undefined => None
    case Null => None
    case Obj(fields) => if key in fields then Some(fields[key]) else Some(Undefined)
    case _ => Some(Undefined)
  }

  /** `String(v)`, as template literals also render a value. An array
      renders its elements joined by commas, `null` and `undefined`
      elements as nothing. */
  function ToText(v: Value): (r: string)
    ensures v.Str? ==> r == v.s
    ensures v.Num? ==> r == Text.IntString(v.n)
    decreases v
  {
    match v
    case Undefined => "undefined"
    case Null => "null"
    case Bool(b) => if b then "true" else "false"
    case Num(n) => Text.IntString(n)
    case Str(s) => s
    case Arr(items) =>
      if items == [] then ""
      else Text.Join(seq(|items|, i requires 0 <= i < |items| =>
                           if items[i].Undefined? || items[i].Null? then "" else ToText(items[i])), ',')
    case Obj(_) => "[object Object]"
  }

  /** A digit in base 10, or in base 16 when `hex`. */
  predicate RadixDigit(c: char, hex: bool) {
    Text.IsDigit(c) || (hex && ('a' <= c <= 'f' || 'A' <= c <= 'F'))
  }

  function RadixDigitValue(c: char, hex: bool): nat
    requires RadixDigit(c, hex)
  {
    if Text.IsDigit(c) then Text.DigitValue(c)
    else if 'a' <= c <= 'f' then c as int - 'a' as int + 10
    else c as int - 'A' as int + 10
  }

  /** The length of the longest run of digits that starts `s`. */
  function DigitRun(s: string, hex: bool): (n: nat)
    ensures n <= |s|
    ensures forall i :: 0 <= i < n ==> RadixDigit(s[i], hex)
    ensures n < |s| ==> !RadixDigit(s[n], hex)
  {
    if s == [] || !RadixDigit(s[0], hex) then 0 else 1 + DigitRun(s[1..], hex)
  }

  /** The number a run of digits denotes in base 10 or 16. */
  function RadixValue(s: string, hex: bool): nat
    requires forall i :: 0 <= i < |s| ==> RadixDigit(s[i], hex)
  {
    if s == [] then 0
    else RadixValue(s[..|s| - 1], hex) * (if hex then 16 else 10) + RadixDigitValue(s[|s| - 1], hex)
  }

  /** The number after the sign: a `0x` or `0X` prefix selects base 16,
      and the longest run of digits after that is the value. */
  function ParseMagnitude(v: string): (r: Option<nat>)
    ensures v != [] && !Text.IsDigit(v[0]) ==> r.None?
  {
    var hex := |v| >= 2 && v[0] == '0' && (v[1] == 'x' || v[1] == 'X');
    var w := if hex then v[2..] else v;
    var n := DigitRun(w, hex);
    if n == 0 then None else Some(RadixValue(w[..n], hex))
  }

  /** `parseInt(s)` without a radix, `None` standing for NaN: leading
      whitespace is skipped and one sign is read before the magnitude.
      Whatever follows the digits is ignored. */
  function ParseInt(s: string): (r: Option<int>)
    ensures s == [] ==> r.None?
    ensures s != [] && Text.IsLetter(s[0]) ==> r.None?
  {
    var u := Text.TrimStart(s);
    assert s != [] && !Text.IsSpace(s[0]) ==> u == s;
    var negative := u != [] && u[0] == '-';
    var v := if u != [] && (u[0] == '-' || u[0] == '+') then u[1..] else u;
    match ParseMagnitude(v)
    case None => None
    case Some(m) => var k: int := m; Some(if negative then -k else k)
  }

  /** In base 10 a run of digits has its decimal value. */
  lemma {:induction false} RadixValueDecimal(s: string)
    requires Text.AllDigits(s)
    ensures forall i :: 0 <= i < |s| ==> RadixDigit(s[i], false)
    ensures RadixValue(s, false) == Text.DigitsValue(s)
    decreases |s|
  {
    if s != [] {
      RadixValueDecimal(s[..|s| - 1]);
    }
  }

  /** Digits followed by a character that cannot continue them are read
      in base 10 and up to that character. */
  lemma MagnitudeOfDecimal(d: string, rest: string)
    requires d != [] && Text.AllDigits(d)
    requires rest == [] || (!Text.IsDigit(rest[0]) && rest[0] != 'x' && rest[0] != 'X')
    ensures ParseMagnitude(d + rest) == Some(Text.DigitsValue(d))
  {
    var s := d + rest;
    assert forall i :: 0 <= i < |d| ==> s[i] == d[i];
    assert |s| >= 2 ==> s[1] == (if |d| >= 2 then d[1] else rest[0]);
    assert forall i :: 0 <= i < |d| ==> RadixDigit(s[i], false);
    assert |d| < |s| ==> s[|d|] == rest[0] && !RadixDigit(s[|d|], false);
    assert DigitRun(s, false) == |d|;
    assert s[..|d|] == d;
    RadixValueDecimal(d);
  }

  /** Text that starts with a digit has no space or sign to skip. */
  lemma ParseIntUnsigned(s: string)
    requires s != [] && Text.IsDigit(s[0])
    ensures ParseInt(s) == ParseMagnitude(s)
  {
    assert !Text.IsSpace(s[0]);
    assert Text.TrimStart(s) == s;
  }

  /** A number's decimal text, followed by anything that cannot continue
      the number, reads back as the number: `parseInt("12abc")` is 12. */
  lemma ParseIntReadsPrefix(n: nat, rest: string)
    requires rest == [] || (!Text.IsDigit(rest[0]) && rest[0] != 'x' && rest[0] != 'X')
    ensures ParseInt(Text.Decimal(n) + rest) == Some(n)
  {
    var d := Text.Decimal(n);
    assert (d + rest)[0] == d[0];
    ParseIntUnsigned(d + rest);
    MagnitudeOfDecimal(d, rest);
    Text.DecimalRoundTrip(n);
  }

  /** A leading minus sign negates the magnitude that follows it. */
  lemma ParseIntNegative(v: string)
    ensures ParseInt("-" + v) == (match ParseMagnitude(v) case None => None case Some(m) => Some(-(m as int)))
  {
    var s := "-" + v;
    assert Text.TrimStart(s) == s;
    assert s[1..] == v;
  }

  /** `parseInt(String(n))` is `n` for every integer. */
  lemma ParseIntOfIntString(n: int)
    ensures ParseInt(Text.IntString(n)) == Some(n)
  {
    if n >= 0 {
      var d := Text.Decimal(n);
      assert Text.IntString(n) == d;
      assert d + "" == d;
      ParseIntUnsigned(d);
      MagnitudeOfDecimal(d, "");
      Text.DecimalRoundTrip(n);
    } else {
      var d := Text.Decimal(-n);
      assert Text.IntString(n) == "-" + d;
      MagnitudeOfDecimal(d, "");
      assert d + "" == d;
      Text.DecimalRoundTrip(-n);
      assert ParseMagnitude(d) == Some(-n);
      ParseIntNegative(d);
    }
  }

  /** What `parseInt` makes of a few kinds of text. */
  lemma ParseIntExamples()
    ensures ParseInt("12abc") == Some(12)
    ensures ParseInt("abc") == None
    ensures ParseInt("0x1A") == Some(26)
  {
    assert Text.Decimal(12) == "12";
    assert "12" + "abc" == "12abc";
    ParseIntReadsPrefix(12, "abc");
    ParseIntHex();
  }

  lemma ParseIntHex()
    ensures ParseInt("0x1A") == Some(26)
  {
    assert Text.TrimStart("0x1A") == "0x1A";
    var w := "0x1A"[2..];
    assert w == "1A";
    assert DigitRun(w, true) == 2 by {
      assert w[1..] == "A" && "A"[1..] == [];
    }
    assert w[..2] == w && w[..1] == "1" && "1"[..0] == [];
    assert RadixDigitValue('A', true) == 10;
    assert RadixValue("1", true) == 1;
    assert RadixValue(w, true) == 26;
    assert ParseMagnitude("0x1A") == Some(26);
  }

  /** `a === b`. Arrays and objects are compared by reference; the ones
      the components compare are built separately, so they never match. */
  function StrictEquals(a: Value, b: Value): (r: bool)
    ensures r ==> a == b
    ensures !a.Arr? && !a.Obj? && a == b ==> r
  {
    match (a, b)
    case (Undefined, Undefined) => true
    case (Null, Null) => true
    case (Bool(x), Bool(y)) => x == y
    case (Num(x), Num(y)) => x == y
    case (Str(x), Str(y)) => x == y
    case _ => false
  }

  /** `Math.ceil(a / b)` for a positive divisor. */
  function CeilDiv(a: int, b: int): (r: int)
    requires b > 0
    ensures (r - 1) * b < a <= r * b
  {
    -((-a) / b)
  }

  /** `Math.floor(a / b)` for a positive divisor. */
  function FloorDiv(a: int, b: int): (r: int)
    requires b > 0
    ensures r * b <= a < (r + 1) * b
  {
    a / b
  }

  /** The quotient of JavaScript's `%`: rounded toward zero. */
  function TruncQuot(a: int, b: int): int
    requires b > 0
  {
    if a >= 0 then a / b else -((-a) / b)
  }

  /** `a % b` for a positive divisor: the sign follows the dividend. */
  function TruncRem(a: int, b: int): (r: int)
    requires b > 0
    ensures a == TruncQuot(a, b) * b + r
    ensures a >= 0 ==> 0 <= r < b
    ensures a < 0 ==> -b < r <= 0
  {
    if a >= 0 then a % b else -((-a) % b)
  }
}
