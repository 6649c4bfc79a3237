/** String helpers shared by every component: the JavaScript notions of
    whitespace, trimming, ASCII case mapping, substring search, splitting
    and decimal rendering of numbers, each with the facts the rest of the
    model relies on. */
module Text {

  /** JavaScript's `\s` class (WhiteSpace plus LineTerminator): what
      `String.prototype.trim` and validator's `trim` strip. */
  predicate IsSpace(c: char) {
    || c == ' ' || c == '\t' || c == '\n' || c == '\r'
    || c == '\U{000B}' || c == '\U{000C}' || c == '\U{00A0}' || c == '\U{1680}'
    || ('\U{2000}' <= c <= '\U{200A}')
    || c == '\U{2028}' || c == '\U{2029}' || c == '\U{202F}' || c == '\U{205F}'
    || c == '\U{3000}' || c == '\U{FEFF}'
  }

  /** The characters a regular expression `.` does not match. */
  predicate IsLineTerminator(c: char) {
    c == '\n' || c == '\r' || c == '\U{2028}' || c == '\U{2029}'
  }

  predicate IsDigit(c: char) { '0' <= c <= '9' }
  predicate IsUpper(c: char) { 'A' <= c <= 'Z' }
  predicate IsLower(c: char) { 'a' <= c <= 'z' }
  predicate IsLetter(c: char) { IsUpper(c) || IsLower(c) }

  predicate AllSpace(s: string) { forall i :: 0 <= i < |s| ==> IsSpace(s[i]) }
  predicate AllDigits(s: string) { forall i :: 0 <= i < |s| ==> IsDigit(s[i]) }

  /** `^[a-zA-Z\s]+$` */
  predicate LettersAndSpaces(s: string) {
    |s| > 0 && forall i :: 0 <= i < |s| ==> IsLetter(s[i]) || IsSpace(s[i])
  }

  /** Whether UTF-16 spends two code units (a surrogate pair) on `c`: the
      code points beyond the Basic Multilingual Plane. A string here is a
      sequence of code points. */
  predicate Astral(c: char) { c as int >= 0x1_0000 }

  /** `s.length`: the UTF-16 code units of `s`. */
  function Utf16Length(s: string): (n: nat)
    ensures |s| <= n <= 2 * |s|
  {
    if s == [] then 0 else (if Astral(s[0]) then 2 else 1) + Utf16Length(s[1..])
  }

  /** A string is as many code units long as it has characters exactly
      when none of them is astral. */
  lemma {:induction false} Utf16LengthOfBmp(s: string)
    ensures Utf16Length(s) == |s| <==> forall i :: 0 <= i < |s| ==> !Astral(s[i])
    decreases |s|
  {
    if s != [] {
      Utf16LengthOfBmp(s[1..]);
      assert forall i :: 1 <= i < |s| ==> s[i] == s[1..][i - 1];
    }
  }

  lemma {:induction false} Utf16LengthAppend(a: string, b: string)
    ensures Utf16Length(a + b) == Utf16Length(a) + Utf16Length(b)
    decreases |a|
  {
    if a == [] {
      assert a + b == b;
    } else {
      assert (a + b)[1..] == a[1..] + b;
      Utf16LengthAppend(a[1..], b);
    }
  }

  /** U+FE0E and U+FE0F, the variation selectors `validator.isLength`
      leaves out of its count. */
  predicate IsVariationSelector(c: char) { c == '\U{FE0E}' || c == '\U{FE0F}' }

  /** The length `validator.isLength` compares: code points (a surrogate
      pair counted once), less the variation selectors. */
  function IsLengthCount(s: string): (n: nat)
    ensures n <= |s|
  {
    if s == [] then 0 else (if IsVariationSelector(s[0]) then 0 else 1) + IsLengthCount(s[1..])
  }

  /** `isLength` counts every character exactly when there is no
      variation selector. */
  lemma {:induction false} IsLengthCountPlain(s: string)
    ensures IsLengthCount(s) == |s| <==> forall i :: 0 <= i < |s| ==> !IsVariationSelector(s[i])
    decreases |s|
  {
    if s != [] {
      IsLengthCountPlain(s[1..]);
      assert forall i :: 1 <= i < |s| ==> s[i] == s[1..][i - 1];
    }
  }

  /** The three ways of measuring agree on text of the Basic Multilingual
      Plane without variation selectors, and part ways on emoji: three
      faces are six UTF-16 units, and a letter with a selector after it is
      one character to `isLength`. */
  lemma LengthsDiffer()
    ensures Utf16Length("\U{1F600}\U{1F600}\U{1F600}") == 6
    ensures IsLengthCount("abc\U{FE0F}") == 3
    ensures Utf16Length("abc\U{FE0F}") == 4
  {
    assert "\U{1F600}\U{1F600}\U{1F600}"[1..] == "\U{1F600}\U{1F600}";
    assert "\U{1F600}\U{1F600}"[1..] == "\U{1F600}";
    assert "abc\U{FE0F}"[1..] == "bc\U{FE0F}";
    assert "bc\U{FE0F}"[1..] == "c\U{FE0F}";
    assert "c\U{FE0F}"[1..] == "\U{FE0F}";
  }

  /** Drops the leading whitespace. */
  function TrimStart(s: string): (r: string)
    ensures |r| <= |s|
    ensures r == [] || !IsSpace(r[0])
    ensures forall i :: 0 <= i < |s| - |r| ==> IsSpace(s[i])
  {
    if |s| > 0 && IsSpace(s[0]) then TrimStart(s[1..]) else s
  }

  /** What `TrimStart` keeps is a suffix of its input. */
  lemma {:induction false} TrimStartSuffix(s: string)
    ensures TrimStart(s) == s[|s| - |TrimStart(s)|..]
    decreases |s|
  {
    if |s| > 0 && IsSpace(s[0]) {
      TrimStartSuffix(s[1..]);
      assert s[1..][|s| - 1 - |TrimStart(s)|..] == s[|s| - |TrimStart(s)|..];
    }
  }

  /** Drops the trailing whitespace. */
  function TrimEnd(s: string): (r: string)
    ensures |r| <= |s|
    ensures r == [] || !IsSpace(r[|r| - 1])
    ensures forall i :: |r| <= i < |s| ==> IsSpace(s[i])
  {
    if |s| > 0 && IsSpace(s[|s| - 1]) then TrimEnd(s[..|s| - 1]) else s
  }

  /** What `TrimEnd` keeps is a prefix of its input. */
  lemma {:induction false} TrimEndPrefix(s: string)
    ensures TrimEnd(s) == s[..|TrimEnd(s)|]
    decreases |s|
  {
    if |s| > 0 && IsSpace(s[|s| - 1]) {
      TrimEndPrefix(s[..|s| - 1]);
      assert s[..|s| - 1][..|TrimEnd(s)|] == s[..|TrimEnd(s)|];
    }
  }

  /** `str.trim()` and `validator.trim(str)`. */
  function Trim(s: string): (r: string)
    ensures |r| <= |s|
    ensures r == [] || (!IsSpace(r[0]) && !IsSpace(r[|r| - 1]))
  {
    TrimEndPrefix(TrimStart(s));
    TrimEnd(TrimStart(s))
  }

  /** The trimmed string is what lies between a whitespace prefix and a
      whitespace suffix, so trimming twice changes nothing. */
  lemma TrimShape(s: string)
    ensures exists a, b :: 0 <= a <= b <= |s| && Trim(s) == s[a..b]
                           && AllSpace(s[..a]) && AllSpace(s[b..])
  {
    var t := TrimStart(s);
    var a := |s| - |t|;
    var b := a + |TrimEnd(t)|;
    TrimStartSuffix(s);
    TrimEndPrefix(t);
    assert Trim(s) == s[a..b];
    assert AllSpace(s[..a]);
    assert forall i :: b <= i < |s| ==> IsSpace(s[i]) by {
      forall i | b <= i < |s| ensures IsSpace(s[i]) {
        assert s[i] == t[i - a];
      }
    }
  }

  lemma TrimIdempotent(s: string)
    ensures Trim(Trim(s)) == Trim(s)
  {
    var t := Trim(s);
    if t != [] {
      assert TrimStart(t) == t;
      assert TrimEnd(t) == t;
    }
  }

  /** A string with no whitespace at either end trims to itself. */
  lemma TrimOfTrimmed(s: string)
    requires s == [] || (!IsSpace(s[0]) && !IsSpace(s[|s| - 1]))
    ensures Trim(s) == s
  {
  }

  /** A leading whitespace character makes no difference to the trim. */
  lemma TrimLeadingSpace(c: char, s: string)
    requires IsSpace(c)
    ensures Trim([c] + s) == Trim(s)
  {
    assert ([c] + s)[1..] == s;
  }

  /** A string trims to "" exactly when it is all whitespace. */
  lemma {:induction false} TrimEmptyIffAllSpace(s: string)
    ensures Trim(s) == [] <==> AllSpace(s)
  {
    var t := TrimStart(s);
    TrimStartSuffix(s);
    if !AllSpace(s) {
      var i :| 0 <= i < |s| && !IsSpace(s[i]);
      assert i >= |s| - |t|;
      assert t != [] && !IsSpace(t[0]);
    }
  }

  /** ASCII case mapping (`toLowerCase` on the ASCII range). */
  function LowerChar(c: char): char {
    if IsUpper(c) then ((c as int) + 32) as char else c
  }

  function Lower(s: string): (r: string)
    ensures |r| == |s|
    ensures forall i :: 0 <= i < |s| ==> r[i] == LowerChar(s[i])
  {
    seq(|s|, i requires 0 <= i < |s| => LowerChar(s[i]))
  }

  lemma LowerIdempotent(s: string)
    ensures Lower(Lower(s)) == Lower(s)
    ensures forall i :: 0 <= i < |s| ==> !IsUpper(Lower(s)[i])
  {
  }

  /** Case mapping works character by character. */
  lemma LowerAppend(a: string, b: string)
    ensures Lower(a + b) == Lower(a) + Lower(b)
  {
    assert forall i :: 0 <= i < |a + b| ==> Lower(a + b)[i] == (Lower(a) + Lower(b))[i];
  }

  /** Characters other than letters are left where they are. */
  lemma LowerKeeps(s: string, c: char)
    requires !IsLetter(c)
    ensures c in Lower(s) <==> c in s
  {
    if c in Lower(s) {
      var i :| 0 <= i < |s| && Lower(s)[i] == c;
      assert s[i] == c;
    }
    if c in s {
      var i :| 0 <= i < |s| && s[i] == c;
      assert Lower(s)[i] == c;
    }
  }

  predicate StartsWith(s: string, prefix: string) {
    |prefix| <= |s| && s[..|prefix|] == prefix
  }

  predicate EndsWith(s: string, suffix: string) {
    |suffix| <= |s| && s[|s| - |suffix|..] == suffix
  }

  /** `s.includes(sub)` */
  predicate Contains(s: string, sub: string) {
    exists i :: 0 <= i <= |s| - |sub| && OccursAt(s, sub, i)
  }

  /** `sub` sits in `s` starting at index `i`. */
  predicate OccursAt(s: string, sub: string, i: int) {
    0 <= i <= |s| - |sub| && s[i..i + |sub|] == sub
  }

  /** A string contains every substring of its prefixes. */
  lemma ContainsPrefixMonotone(s: string, t: string, sub: string)
    requires Contains(s, sub)
    ensures Contains(s + t, sub)
  {
    var i :| 0 <= i <= |s| - |sub| && OccursAt(s, sub, i);
    assert (s + t)[i..i + |sub|] == sub;
    assert OccursAt(s + t, sub, i);
  }

  /** `s.split(sep)` for a one-character separator. */
  function Split(s: string, sep: char): (parts: seq<string>)
    ensures |parts| >= 1
    ensures forall k :: 0 <= k < |parts| ==> sep !in parts[k]
  {
    if |s| == 0 then [""]
    else
      var rest := Split(s[1..], sep);
      if s[0] == sep then [""] + rest
      else [[s[0]] + rest[0]] + rest[1..]
  }

  /** `parts.join(sep)` */
  function Join(parts: seq<string>, sep: char): string
    requires |parts| >= 1
  {
    if |parts| == 1 then parts[0] else parts[0] + [sep] + Join(parts[1..], sep)
  }

  /** Splitting loses nothing: joining the pieces gives the string back. */
  lemma {:induction false} SplitJoin(s: string, sep: char)
    ensures Join(Split(s, sep), sep) == s
    decreases |s|
  {
    if |s| > 0 {
      var rest := Split(s[1..], sep);
      SplitJoin(s[1..], sep);
      if s[0] == sep {
        assert Split(s, sep) == [""] + rest;
        assert (["" ] + rest)[1..] == rest;
      } else {
        var parts := Split(s, sep);
        assert parts == [[s[0]] + rest[0]] + rest[1..];
        if |rest| == 1 {
          assert Join(parts, sep) == [s[0]] + rest[0];
        } else {
          assert parts[1..] == rest[1..];
          assert Join(rest, sep) == rest[0] + [sep] + Join(rest[1..], sep);
        }
      }
    }
  }

  function DigitChar(d: nat): (c: char)
    requires d < 10
    ensures IsDigit(c)
  {
    ((d + 48) as char)
  }

  function DigitValue(c: char): nat
    requires IsDigit(c)
  {
    (c as int) - 48
  }

  /** `String(n)` for a non-negative integer. */
  function Decimal(n: nat): (r: string)
    ensures |r| >= 1 && AllDigits(r)
    ensures n < 10 <==> |r| == 1
    decreases n
  {
    if n < 10 then [DigitChar(n)] else Decimal(n / 10) + [DigitChar(n % 10)]
  }

  /** The number a string of decimal digits denotes (`parseInt` on digits). */
  function DigitsValue(s: string): nat
    requires AllDigits(s)
  {
    if s == [] then 0 else DigitsValue(s[..|s| - 1]) * 10 + DigitValue(s[|s| - 1])
  }

  /** Rendering a number in decimal and reading it back gives the number. */
  lemma {:induction false} DecimalRoundTrip(n: nat)
    ensures DigitsValue(Decimal(n)) == n
    decreases n
  {
    if n >= 10 {
      var r := Decimal(n);
      assert r[..|r| - 1] == Decimal(n / 10);
      DecimalRoundTrip(n / 10);
    }
  }

  lemma DecimalInjective(a: nat, b: nat)
    ensures Decimal(a) == Decimal(b) <==> a == b
  {
    if Decimal(a) == Decimal(b) {
      DecimalRoundTrip(a);
      DecimalRoundTrip(b);
    }
  }

  /** A leading zero does not change the value of a digit string. */
  lemma {:induction false} DigitsValueLeadingZero(s: string)
    requires AllDigits(s)
    ensures AllDigits("0" + s) && DigitsValue("0" + s) == DigitsValue(s)
    decreases |s|
  {
    if s != [] {
      var t := "0" + s;
      assert t[..|t| - 1] == "0" + s[..|s| - 1];
      DigitsValueLeadingZero(s[..|s| - 1]);
    }
  }

  /** `String(n)` for any integer. */
  function IntString(n: int): string {
    if n < 0 then "-" + Decimal(-n) else Decimal(n)
  }

  /** `String(n)` tells integers apart: the sign shows in the first
      character and the digits are those of the magnitude. */
  lemma IntStringInjective(a: int, b: int)
    ensures IntString(a) == IntString(b) <==> a == b
  {
    NegativeSign(a);
    NegativeSign(b);
    if IntString(a) == IntString(b) {
      if a < 0 {
        assert IntString(a)[1..] == Decimal(-a);
        assert IntString(b)[1..] == Decimal(-b);
        DecimalInjective(-a, -b);
      } else {
        DecimalInjective(a, b);
      }
    }
  }

  lemma NegativeSign(n: int)
    ensures |IntString(n)| >= 1 && (IntString(n)[0] == '-' <==> n < 0)
  {
    if n >= 0 {
      assert IsDigit(Decimal(n)[0]);
    }
  }

  /** Splitting a string free of the separator gives the string itself. */
  lemma {:induction false} SplitNoSeparator(s: string, sep: char)
    requires sep !in s
    ensures Split(s, sep) == [s]
    decreases |s|
  {
    if s != [] {
      assert sep !in s[1..] by {
        forall i | 0 <= i < |s[1..]| ensures s[1..][i] != sep { assert s[1..][i] == s[i + 1]; }
      }
      SplitNoSeparator(s[1..], sep);
      assert s[0] in s;
      assert [s[0]] + s[1..] == s;
    }
  }

  /** The first piece of a split is everything before the first separator. */
  lemma {:induction false} SplitAtFirst(a: string, b: string, sep: char)
    requires sep !in a
    ensures Split(a + [sep] + b, sep) == [a] + Split(b, sep)
    decreases |a|
  {
    if a == [] {
      assert (a + [sep] + b)[1..] == b;
    } else {
      assert (a + [sep] + b)[1..] == a[1..] + [sep] + b;
      assert sep !in a[1..] by {
        forall i | 0 <= i < |a[1..]| ensures a[1..][i] != sep { assert a[1..][i] == a[i + 1]; }
      }
      SplitAtFirst(a[1..], b, sep);
      var rest := Split(a[1..] + [sep] + b, sep);
      assert a[0] in a;
      assert rest[0] == a[1..] && rest[1..] == Split(b, sep);
      assert [a[0]] + a[1..] == a;
    }
  }

  /** The index of the last `sep` in `s`, or -1 when it has none. */
  function LastSep(s: string, sep: char): (k: int)
    ensures -1 <= k < |s|
    ensures k >= 0 ==> s[k] == sep
    ensures forall i :: k < i < |s| ==> s[i] != sep
  {
    if s == [] then -1 else if s[|s| - 1] == sep then |s| - 1 else LastSep(s[..|s| - 1], sep)
  }

  /** The text after the last `sep`, or all of `s` when it has none. */
  function AfterLast(s: string, sep: char): (r: string)
    ensures sep !in r
    ensures |r| <= |s| && r == s[|s| - |r|..]
    ensures sep !in s ==> r == s
    ensures sep in s ==> |r| < |s| && s[|s| - |r| - 1] == sep
  {
    var k := LastSep(s, sep);
    assert k == -1 ==> sep !in s;
    s[k + 1..]
  }

  /** Reading from the front: a leading character is dropped exactly when
      a separator is at it or after it. */
  lemma AfterLastStep(s: string, sep: char)
    requires s != []
    ensures s[0] == sep || sep in s[1..] ==> AfterLast(s, sep) == AfterLast(s[1..], sep)
    ensures !(s[0] == sep || sep in s[1..]) ==> AfterLast(s, sep) == s
  {
  }

  /** A string has the separator exactly when splitting gives two or more
      pieces. */
  lemma {:induction false} SplitCount(s: string, sep: char)
    ensures sep in s <==> |Split(s, sep)| >= 2
    decreases |s|
  {
    if s != [] {
      SplitCount(s[1..], sep);
      assert sep in s <==> s[0] == sep || sep in s[1..] by {
        assert s == [s[0]] + s[1..];
      }
    }
  }

  /** `s.split(sep).pop()` is the text after the last separator. */
  lemma {:induction false} LastPieceAfterLast(s: string, sep: char)
    ensures Split(s, sep)[|Split(s, sep)| - 1] == AfterLast(s, sep)
    decreases |s|
  {
    if s == [] {
      assert AfterLast(s, sep) == [];
    } else {
      var rest := Split(s[1..], sep);
      var parts := Split(s, sep);
      AfterLastStep(s, sep);
      if s[0] == sep {
        LastPieceAfterLast(s[1..], sep);
        assert parts == [""] + rest;
        assert parts[|parts| - 1] == rest[|rest| - 1];
        assert AfterLast(s, sep) == AfterLast(s[1..], sep);
      } else if sep in s[1..] {
        LastPieceAfterLast(s[1..], sep);
        SplitCount(s[1..], sep);
        assert parts == [[s[0]] + rest[0]] + rest[1..];
        assert parts[|parts| - 1] == rest[|rest| - 1];
        assert AfterLast(s, sep) == AfterLast(s[1..], sep);
      } else {
        SplitNoSeparator(s[1..], sep);
        assert parts == [[s[0]] + s[1..]];
        assert [s[0]] + s[1..] == s;
        assert AfterLast(s, sep) == s;
      }
    }
  }

  /** What `s.split(sep).pop()` gives: the text after the last separator,
      a suffix of `s` without the separator, and all of `s` when the
      separator does not occur. */
  lemma LastPieceFacts(s: string, sep: char)
    ensures var p := Split(s, sep)[|Split(s, sep)| - 1];
            && p == AfterLast(s, sep)
            && sep !in p && EndsWith(s, p)
            && (sep !in s ==> p == s)
  {
    LastPieceAfterLast(s, sep);
  }

  /** The text after a separator that has no separator after it. */
  lemma AfterLastOf(a: string, b: string, sep: char)
    requires sep !in b
    ensures AfterLast(a + [sep] + b, sep) == b
  {
    var s := a + [sep] + b;
    var r := AfterLast(s, sep);
    assert s[|a|] == sep;
    assert forall i :: 0 <= i < |b| ==> s[|a| + 1 + i] == b[i];
    assert s[|s| - |b|..] == b;
  }

  /** A string contains whatever a longer pattern starting with the same
      text contains. */
  lemma ContainsShorter(s: string, sub: string, more: string)
    requires Contains(s, sub + more)
    ensures Contains(s, sub)
  {
    var i :| 0 <= i <= |s| - |sub + more| && OccursAt(s, sub + more, i);
    assert s[i..i + |sub|] == (sub + more)[..|sub|] == sub;
    assert OccursAt(s, sub, i);
  }

  /** `s.padStart(2, "0")` */
  function Pad2(s: string): (r: string)
    ensures |s| >= 2 ==> r == s
    ensures |s| < 2 ==> |r| == 2 && r[2 - |s|..] == s && forall i :: 0 <= i < 2 - |s| ==> r[i] == '0'
  {
    if |s| >= 2 then s else if |s| == 1 then "0" + s else "00"
  }
}
