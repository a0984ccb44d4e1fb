/** strtol, and what it makes of what the printer printed. */
module Strtol {
  import opened Arithmetic
  import opened Strings

  predicate Space(c: char) { c == ' ' || c == '\t' || c == '\n' || c == '\r' || c == '\U{000c}' || c == '\U{000b}' }

  function Lower(c: char): char { if 'A' <= c <= 'Z' then (c as int + 32) as char else c }

  /** The value of a digit, or 36 for anything else. */
  function DigitOf(c: char): nat {
    if '0' <= c <= '9' then (c - '0') as nat else if 'a' <= c <= 'z' then (c - 'a') as nat + 10 else 36
  }

  function Spaces(s: string, i: nat): (j: nat)
    ensures i <= j && (i <= |s| ==> j <= |s|)
    decreases |s| - i
  {
    if Space(At(s, i)) then Spaces(s, i + 1) else i
  }

  /** Where the digits that start at i end. */
  function Run(s: string, i: nat, base: nat): (j: nat)
    requires base <= 36 && i <= |s|
    ensures i <= j <= |s|
    decreases |s| - i
  {
    if DigitOf(Lower(At(s, i))) < base then Run(s, i + 1, base) else i
  }

  /** The number the characters of t, all digits, write out. */
  function Value(t: string, base: nat): nat
    decreases |t|
  {
    if t == [] then 0 else Value(t[..|t| - 1], base) * base + DigitOf(Lower(t[|t| - 1]))
  }

  datatype Number = Number(val: int, end: nat)

  /** The digits from i on, in a base, after a sign. */
  function Rest(s: string, i: nat, base: nat, neg: bool): Number
    requires base <= 36 && i <= |s|
  {
    var j := Run(s, i, base);
    var v: int := Value(s[i..j], base);
    Number(if neg then -v else v, j)
  }

  /** What strtol returns, and where it stops. The prefix 0x is taken in base 16 alone: base 0 has become 8 by the
      time the x is seen. */
  function ParseLong(s: string, base: nat): Number
    requires base <= 36
  {
    var i := Spaces(s, 0);
    var neg := At(s, i) == '-';
    var k := if At(s, i) == '+' || neg then i + 1 else i;
    if At(s, k) == '0' then
      var b := if base == 0 then 8 else base;
      if Lower(At(s, k + 1)) == 'x' then
        if b != 16 then Number(0, k + 1) else Rest(s, k + 2, 16, neg)
      else Rest(s, k + 1, b, neg)
    else Rest(s, k, if base == 0 then 10 else base, neg)
  }

  // ----- the routine

  method SkipSpaces(s: string) returns (p: nat)
    ensures p == Spaces(s, 0)
  {
    p := 0;
    while Space(At(s, p))
      invariant p <= |s| && Spaces(s, p) == Spaces(s, 0)
      decreases |s| - p
    {
      p := p + 1;
    }
  }

  /** The digit loop. */
  method ReadDigits(s: string, i: nat, base: nat) returns (val: nat, p: nat)
    requires base <= 36 && i <= |s|
    ensures p == Run(s, i, base) && val == Value(s[i..p], base)
  {
    hide DigitOf, Lower;
    val, p := 0, i;
    var c := DigitOf(Lower(At(s, p)));
    OnlyInside(s, p, base);
    while c < base
      invariant i <= p <= |s| && c == DigitOf(Lower(At(s, p))) && (p == |s| ==> c >= base)
      invariant Run(s, p, base) == Run(s, i, base) && val == Value(s[i..p], base)
      decreases |s| - p
    {
      assert s[i..p + 1][..p - i] == s[i..p];
      val := val * base + c;
      p := p + 1;
      c := DigitOf(Lower(At(s, p)));
      OnlyInside(s, p, base);
    }
  }

  lemma OnlyInside(s: string, p: nat, base: nat)
    requires base <= 36
    ensures p >= |s| ==> DigitOf(Lower(At(s, p))) >= base
  {}

  /** strtol, for a string that ends where its terminator is. */
  method StrToL(s: string, base0: nat) returns (val: int, end: nat)
    requires base0 <= 36
    ensures Number(val, end) == ParseLong(s, base0)
  {
    hide DigitOf, Run, Value, Spaces;
    var base: int := base0;
    var p := SkipSpaces(s);
    var c := Lower(At(s, p));
    LowerKeeps(At(s, p));
    var neg := false;
    if c == '+' || c == '-' {
      neg := c == '-';
      p := p + 1;
      c := Lower(At(s, p));
      LowerKeeps(At(s, p));
    }
    if c == '0' {
      if base == 0 { base := 8; }
      p := p + 1;
      c := Lower(At(s, p));
      if c == 'x' {
        if base == 0 { base := 16; }
        if base != 16 { return 0, p; }
        p := p + 1;
      }
    }
    if base == 0 { base := 10; }
    var v: nat;
    v, end := ReadDigits(s, p, base);
    val := if neg then -(v as int) else v;
  }

  lemma LowerKeeps(c: char)
    ensures Lower(c) == '0' <==> c == '0'
    ensures Lower(c) == '+' <==> c == '+'
    ensures Lower(c) == '-' <==> c == '-'
  {}

  // ----- what base 0 makes of a hexadecimal prefix

  /** Where the digits or their prefix start, after spaces and a sign. */
  function SignEnd(s: string): (k: nat)
    ensures k <= |s|
  {
    var i := Spaces(s, 0);
    if At(s, i) == '+' || At(s, i) == '-' then i + 1 else i
  }

  predicate Negative(s: string) { At(s, Spaces(s, 0)) == '-' }

  /** The string goes on with 0x, in either case, after spaces and a sign. */
  predicate HexPrefixed(s: string) { At(s, SignEnd(s)) == '0' && Lower(At(s, SignEnd(s) + 1)) == 'x' }

  /** A hexadecimal prefix is taken for one only in base 16. In base 0, where it is meant to decide, and in every other
      base it is read as a lone zero that ends at the x. */
  lemma HexPrefix(s: string, base: nat)
    requires base <= 36 && HexPrefixed(s)
    ensures SignEnd(s) + 2 <= |s|
    ensures ParseLong(s, base)
         == if base == 16 then Rest(s, SignEnd(s) + 2, 16, Negative(s)) else Number(0, SignEnd(s) + 1)
  {
    hide Rest, Spaces;
  }

  /** The number that the hexadecimal digits after a prefix write. */
  function HexValue(s: string): int
    requires HexPrefixed(s)
  {
    HexPrefix(s, 16);
    var k := SignEnd(s) + 2;
    var v: int := Value(s[k..Run(s, k, 16)], 16);
    if Negative(s) then -v else v
  }

  /** So a number with the prefix is read as what its digits write if and only if the base is 16 or the number is
      zero: base 0 gets every other one wrong. */
  lemma HexReadRight(s: string, base: nat)
    requires base <= 36 && HexPrefixed(s) && Run(s, SignEnd(s) + 2, 16) > SignEnd(s) + 2
    ensures ParseLong(s, base).val == HexValue(s) <==> base == 16 || HexValue(s) == 0
    ensures ParseLong(s, base).end == Run(s, SignEnd(s) + 2, 16) <==> base == 16
  {
    hide Run, Value, HexPrefixed, SignEnd, Negative, ParseLong;
    HexPrefix(s, base);
  }

  // ----- back to the printer

  /** All of t is digits of a base. */
  predicate InBase(t: string, base: nat) { forall i :: 0 <= i < |t| ==> DigitOf(Lower(t[i])) < base }

  lemma {:induction false} WholeRun(s: string, i: nat, base: nat)
    requires base <= 36 && i <= |s| && InBase(s[i..], base)
    ensures Run(s, i, base) == |s|
    decreases |s| - i
  {
    hide DigitOf, Lower;
    OnlyInside(s, i, base);
    if i < |s| {
      assert s[i..][0] == s[i];
      assert s[i + 1..] == s[i..][1..];
      WholeRun(s, i + 1, base);
    }
  }

  /** The digits of a number, in any base they are printed in, are read as that number. */
  lemma {:induction false} DigitsRead(x: nat, base: nat, upper: bool)
    requires 2 <= base <= 16
    ensures InBase(Digits(x, base, upper), base) && Value(Digits(x, base, upper), base) == x
    decreases x
  {
    hide DigitOf, Lower, Digit, Value, InBase;
    Smaller(x, base);
    DigitReads(x % base, upper);
    var c := Digit(x % base, upper);
    if x < base {
      SmallMod(x, base);
      NoValue(base);
      OneInBase([], c, base);
      ValueSnoc([], c, base);
      assert [] + [c] == [c];
    } else {
      var d := Digits(x / base, base, upper);
      DigitsRead(x / base, base, upper);
      OneInBase(d, c, base);
      ValueSnoc(d, c, base);
      Division(x, base);
      Commute(base, x / base);
    }
  }

  lemma OneInBase(t: string, c: char, base: nat)
    requires DigitOf(Lower(c)) < base && (t == [] || InBase(t, base))
    ensures InBase(t + [c], base)
  {
    hide DigitOf, Lower;
  }

  lemma DigitReads(d: nat, upper: bool)
    requires d < 16
    ensures DigitOf(Lower(Digit(d, upper))) == d
  {
    if d < 8 {
      if d == 0 {} else if d == 1 {} else if d == 2 {} else if d == 3 {} else if d == 4 {} else if d == 5 {} else {}
    } else {
      if d == 8 {} else if d == 9 {} else if d == 10 {} else if d == 11 {} else if d == 12 {} else if d == 13 {} else {}
    }
  }

  lemma ValueSnoc(t: string, c: char, base: nat)
    ensures Value(t + [c], base) == Value(t, base) * base + DigitOf(Lower(c))
  {
    hide DigitOf, Lower;
    assert (t + [c])[..|t + [c]| - 1] == t;
  }

  lemma ZeroDigit()
    ensures DigitOf(Lower('0')) == 0
  {}

  lemma {:induction false} OnlyZeros(k: int, base: nat)
    ensures Value(Repeat('0', k), base) == 0
    decreases k
  {
    hide DigitOf, Lower, Value;
    if k > 0 {
      OnlyZeros(k - 1, base);
      ZeroDigit();
      ValueSnoc(Repeat('0', k - 1), '0', base);
    } else {
      NoValue(base);
      assert Repeat('0', k) == [];
    }
  }

  lemma NoValue(base: nat)
    ensures Value([], base) == 0
  {}

  lemma {:induction false} LeadingZeros(k: int, t: string, base: nat)
    ensures Value(Repeat('0', k) + t, base) == Value(t, base)
    decreases |t|
  {
    hide DigitOf, Lower, Value, Repeat;
    if t == [] {
      assert Repeat('0', k) + t == Repeat('0', k);
      OnlyZeros(k, base);
      NoValue(base);
    } else {
      var init, c := t[..|t| - 1], t[|t| - 1];
      assert t == init + [c] && Repeat('0', k) + t == (Repeat('0', k) + init) + [c];
      LeadingZeros(k, init, base);
      ValueSnoc(init, c, base);
      ValueSnoc(Repeat('0', k) + init, c, base);
    }
  }

  lemma RestIs(s: string, k: nat, base: nat, neg: bool)
    requires base <= 36 && k <= |s| && InBase(s[k..], base)
    ensures Rest(s, k, base, neg).val == if neg then -(Value(s[k..], base) as int) else Value(s[k..], base)
  {
    hide Value, Run;
    WholeRun(s, k, base);
    assert s[k..|s|] == s[k..];
  }

  lemma RestEmpty(s: string, k: nat, base: nat, neg: bool)
    requires base <= 36 && k < |s| && DigitOf(Lower(s[k])) >= base
    ensures Rest(s, k, base, neg).val == 0
  {
    assert s[k..k] == [];
  }

  /** With digits, and no prefix, after the spaces and the sign. */
  lemma NoPrefix(s: string, i: nat, k: nat, base: nat, neg: bool)
    requires 0 < base <= 36 && i == Spaces(s, 0) && k < |s| && DigitOf(Lower(s[k])) < base
    requires if neg then At(s, i) == '-' && k == i + 1 else k == i
    requires s[k] == '0' ==> Lower(At(s, k + 1)) != 'x'
    ensures ParseLong(s, base) == Rest(s, if s[k] == '0' then k + 1 else k, base, neg)
  {
    hide Rest, Spaces;
  }

  /** Digits after spaces and a sign are read as the number they write, though a first zero is skipped. */
  lemma ReadsDigits(head: string, body: string, base: nat, neg: bool)
    requires 0 < base <= 33 && InBase(body, base) && body != []
    requires Spaces(head + body, 0) == if neg then |head| - 1 else |head|
    requires neg ==> head != [] && head[|head| - 1] == '-'
    ensures ParseLong(head + body, base).val == if neg then -(Value(body, base) as int) else Value(body, base)
  {
    hide Value, Rest, Spaces, ParseLong, InBase, Lower, DigitOf;
    var s, k := head + body, |head|;
    assert s[k..] == body && s[k] == body[0];
    FirstInBase(body, base);
    if neg { assert s[k - 1] == '-'; }
    NoHex(s, k, base);
    NoPrefix(s, if neg then k - 1 else k, k, base, neg);
    FirstSkipped(s, k, body, base, neg);
  }

  lemma FirstSkipped(s: string, k: nat, body: string, base: nat, neg: bool)
    requires 0 < base <= 36 && k < |s| && s[k..] == body && InBase(body, base)
    ensures Rest(s, if s[k] == '0' then k + 1 else k, base, neg).val
         == if neg then -(Value(body, base) as int) else Value(body, base)
  {
    hide Value, Rest, InBase, Lower, DigitOf;
    assert body[0] == s[k];
    FirstInBase(body, base);
    if body[0] == '0' {
      assert s[k + 1..] == body[1..];
      RestIs(s, k + 1, base, neg);
      FirstZero(body, base);
    } else {
      RestIs(s, k, base, neg);
    }
  }

  lemma FirstInBase(t: string, base: nat)
    requires InBase(t, base) && t != []
    ensures DigitOf(Lower(t[0])) < base && InBase(t[1..], base)
  {}

  /** What follows the zero is a digit or the end. */
  lemma NoHex(s: string, k: nat, base: nat)
    requires base <= 33 && k < |s| && InBase(s[k..], base)
    ensures Lower(At(s, k + 1)) != 'x'
  {
    if k + 1 < |s| { assert s[k..][1] == s[k + 1]; }
  }

  lemma RepeatInBase(k: int, t: string, base: nat)
    requires base > 0 && InBase(t, base) && t != []
    ensures InBase(Repeat('0', k) + t, base) && Repeat('0', k) + t != []
  {
    ZeroDigit();
  }

  lemma ReadsBack(head: string, k: int, x: nat, base: nat, upper: bool, neg: bool)
    requires 2 <= base <= 16
    requires Spaces(head + (Repeat('0', k) + Digits(x, base, upper)), 0) == if neg then |head| - 1 else |head|
    requires neg ==> head != [] && head[|head| - 1] == '-'
    ensures ParseLong(head + (Repeat('0', k) + Digits(x, base, upper)), base).val == if neg then -(x as int) else x
  {
    hide Digits, Value, Run, Spaces, ParseLong, Repeat, InBase;
    DigitsRead(x, base, upper);
    RepeatInBase(k, Digits(x, base, upper), base);
    LeadingZeros(k, Digits(x, base, upper), base);
    ReadsDigits(head, Repeat('0', k) + Digits(x, base, upper), base, neg);
  }

  lemma FirstZero(t: string, base: nat)
    requires t != [] && t[0] == '0'
    ensures Value(t[1..], base) == Value(t, base)
  {
    assert t == Repeat('0', 1) + t[1..] by { assert Repeat('0', 1) == "0"; }
    LeadingZeros(1, t[1..], base);
  }

  lemma {:induction false} SpacesBefore(k: int, t: string)
    requires t == [] || !Space(t[0])
    ensures Spaces(Repeat(' ', k) + t, 0) == |Repeat(' ', k)|
  {
    SpacesFrom(Repeat(' ', k) + t, 0, |Repeat(' ', k)|);
  }

  lemma {:induction false} SpacesFrom(s: string, i: nat, n: nat)
    requires i <= n <= |s| && (forall j :: i <= j < n ==> s[j] == ' ') && !Space(At(s, n))
    ensures Spaces(s, i) == n
    decreases n - i
  {
    if i < n { SpacesFrom(s, i + 1, n); }
  }

  lemma NotSpace(c: char, base: nat)
    requires DigitOf(Lower(c)) < base <= 36
    ensures !Space(c)
  {}

  // ----- other bases

  /** Digits are worth their distance from 0; letters, in either case, ten more than theirs from a. */
  lemma DigitTable(d: nat)
    ensures d < 10 ==> DigitOf(Lower((48 + d) as char)) == d
    ensures 10 <= d < 36 ==> DigitOf(Lower((87 + d) as char)) == d && DigitOf(Lower((55 + d) as char)) == d
  {}

  lemma {:induction false} ShiftSpaces(c: char, s: string, i: nat)
    ensures Spaces([c] + s, i + 1) == Spaces(s, i) + 1
    decreases |s| - i
  {
    hide Space;
    ShiftAt(c, s, i);
    NoSpace();
    if i < |s| && Space(s[i]) { ShiftSpaces(c, s, i + 1); }
  }

  lemma NoSpace()
    ensures !Space('\0')
  {}

  lemma ShiftAt(c: char, s: string, i: nat)
    ensures At([c] + s, i + 1) == At(s, i)
  {}

  lemma {:induction false} ShiftRun(c: char, s: string, i: nat, base: nat)
    requires base <= 36 && i <= |s|
    ensures Run([c] + s, i + 1, base) == Run(s, i, base) + 1
    decreases |s| - i
  {
    hide DigitOf, Lower;
    ShiftAt(c, s, i);
    OnlyInside(s, i, base);
    OnlyInside([c] + s, i + 1, base);
    if i < |s| && DigitOf(Lower(s[i])) < base { ShiftRun(c, s, i + 1, base); }
  }

  lemma ShiftRest(c: char, s: string, i: nat, base: nat, neg: bool)
    requires base <= 36 && i <= |s|
    ensures Rest([c] + s, i + 1, base, neg) == Number(Rest(s, i, base, neg).val, Rest(s, i, base, neg).end + 1)
  {
    hide Value, Run;
    ShiftRun(c, s, i, base);
    assert ([c] + s)[i + 1..Run(s, i, base) + 1] == s[i..Run(s, i, base)];
  }

  /** White space is these six characters, and one of them before a number makes no difference to it. */
  lemma SpaceSkipped(c: char, s: string, base: nat)
    requires base <= 36 && c as int in {9, 10, 11, 12, 13, 32}
    ensures ParseLong([c] + s, base) == Number(ParseLong(s, base).val, ParseLong(s, base).end + 1)
  {
    hide Spaces, Rest, Lower;
    FirstSpace(c, s);
    ShiftSpaces(c, s, 0);
    var i := Spaces(s, 0);
    var neg := At(s, i) == '-';
    var k := if At(s, i) == '+' || neg then i + 1 else i;
    ShiftAt(c, s, i);
    ShiftAt(c, s, k);
    ShiftAt(c, s, k + 1);
    assert i <= |s| && k <= |s|;
    var b := if base == 0 then 8 else base;
    if At(s, k) == '0' {
      if Lower(At(s, k + 1)) == 'x' {
        HexInside(s, k);
        ShiftRest(c, s, k + 2, 16, neg);
      } else {
        ShiftRest(c, s, k + 1, b, neg);
      }
    } else {
      ShiftRest(c, s, k, if base == 0 then 10 else base, neg);
    }
  }

  lemma HexInside(s: string, k: nat)
    requires Lower(At(s, k + 1)) == 'x'
    ensures k + 2 <= |s|
  {}

  lemma FirstSpace(c: char, s: string)
    requires c as int in {9, 10, 11, 12, 13, 32}
    ensures Spaces([c] + s, 0) == Spaces([c] + s, 1)
  {}

  /** A plus sign before a number makes no difference, and a minus sign negates it. */
  lemma SignedParse(s: string, base: nat)
    requires base <= 36 && s != [] && '0' <= s[0] <= '9'
    ensures ParseLong("+" + s, base) == Number(ParseLong(s, base).val, ParseLong(s, base).end + 1)
    ensures ParseLong("-" + s, base) == Number(-ParseLong(s, base).val, ParseLong(s, base).end + 1)
  {
    hide Rest, Lower;
    ShiftAt('+', s, 0);
    ShiftAt('+', s, 1);
    ShiftAt('-', s, 0);
    ShiftAt('-', s, 1);
    var b := if base == 0 then 8 else base;
    assert Spaces(s, 0) == 0 && Spaces("+" + s, 0) == 0 && Spaces("-" + s, 0) == 0;
    if s[0] == '0' {
      if Lower(At(s, 1)) == 'x' {
        HexInside(s, 0);
        SignedRest(s, 2, 16);
      } else {
        SignedRest(s, 1, b);
      }
    } else {
      SignedRest(s, 0, if base == 0 then 10 else base);
    }
  }

  lemma SignedRest(s: string, i: nat, base: nat)
    requires base <= 36 && i <= |s|
    ensures Rest("+" + s, i + 1, base, false) == Number(Rest(s, i, base, false).val, Rest(s, i, base, false).end + 1)
    ensures Rest("-" + s, i + 1, base, true) == Number(-Rest(s, i, base, false).val, Rest(s, i, base, false).end + 1)
  {
    hide Rest;
    ShiftRest('+', s, i, base, false);
    ShiftRest('-', s, i, base, true);
    Negated(s, i, base);
  }

  lemma Negated(s: string, i: nat, base: nat)
    requires base <= 36 && i <= |s|
    ensures Rest(s, i, base, true) == Number(-Rest(s, i, base, false).val, Rest(s, i, base, false).end)
  {}

  /** In base 0 a leading zero means base 8, and any other digit base 10. */
  lemma BaseZero(s: string)
    requires var k := SignEnd(s); k < |s| && '0' <= s[k] <= '9'
    ensures ParseLong(s, 0) == ParseLong(s, if s[SignEnd(s)] == '0' then 8 else 10)
  {
    hide Rest, Spaces, Lower;
  }

  /** A signed decimal number, padded to any width with spaces or with zeros. */
  function Decimals(x: int, zero: bool, width: int): string
    requires -0x8000_0000 < x < 0x8000_0000
  {
    Strings.Number(if x < 0 then x + U32 else x, Spec(false, zero, false, false, width), 10, true, false)
  }

  /** Printing and reading are inverse: every int but the smallest, at any width, with either padding, is read back
      as what was printed. */
  lemma PrintedIsReadBack(x: int, zero: bool, width: int)
    requires -0x8000_0000 < x < 0x8000_0000
    ensures ParseLong(Decimals(x, zero, width), 10).val == x
  {
    hide Digits, Repeat, Spaces, ParseLong, Value, Decimals;
    var m: nat := if x < 0 then -x else x;
    var digits := Digits(m, 10, false);
    var room := width - (if x < 0 then 1 else 0) - |digits|;
    DecimalsIs(x, zero, width);
    DigitsRead(m, 10, false);
    FirstInBase(digits, 10);
    NotSpace(digits[0], 10);
    var sign := if x < 0 then "-" else "";
    if zero {
      ZeroPadded(digits, room, x < 0);
      ReadsBack(sign, room, m, 10, false, x < 0);
    } else {
      SpacesBefore(room, sign + digits);
      RepeatNothing();
      Shift(Repeat(' ', room), sign, digits);
      ReadsBack(Repeat(' ', room) + sign, 0, m, 10, false, x < 0);
    }
  }

  lemma DecimalsIs(x: int, zero: bool, width: int)
    requires -0x8000_0000 < x < 0x8000_0000
    ensures var m: nat := if x < 0 then -x else x;
            var digits := Digits(m, 10, false);
            var room := width - (if x < 0 then 1 else 0) - |digits|;
            var sign := if x < 0 then "-" else "";
            Decimals(x, zero, width)
            == if zero then sign + (Repeat('0', room) + digits) else Repeat(' ', room) + (sign + digits)
  {
    hide Digits, Repeat;
  }

  lemma Shift(a: string, b: string, c: string)
    ensures (a + b) + ("" + c) == a + (b + c)
  {}

  lemma RepeatNothing()
    ensures Repeat('0', 0) == ""
  {}

  lemma ZeroPadded(digits: string, room: int, neg: bool)
    requires digits != [] && InBase(digits, 10)
    ensures Spaces((if neg then "-" else "") + (Repeat('0', room) + digits), 0) == 0
  {
    var body := Repeat('0', room) + digits;
    assert body[0] == '0' || body[0] == digits[0];
    NotSpace(digits[0], 10);
  }

  // ----- the unsigned conversions

  /** Printing in base 8, 10 or 16 and reading in the same base are inverse, at any size, width and padding, unless a
      prefix is asked for and spaces come between it and the digits: such a number is read as zero. */
  lemma UnsignedIsReadBack(y: nat, sp: Spec, base: nat, upper: bool)
    requires y < U32 && (base == 8 || base == 10 || base == 16)
    ensures var x, out := Cut(y, sp, false), Strings.Number(y, sp, base, false, upper);
            ParseLong(out, base).val == x
            <==> x == 0 || base == 10 || !sp.alt || sp.zero || |Prefix(sp, base)| + |Digits(x, base, upper)| >= sp.width
  {
    hide Digits, Repeat, Spaces, ParseLong, Value, Cut, Strings.Number, Prefix;
    var x := Cut(y, sp, false);
    var d, room := Digits(x, base, upper), sp.width - |Prefix(sp, base)| - |Digits(x, base, upper)|;
    UnsignedNumber(y, sp, base, upper);
    DigitsRead(x, base, upper);
    FirstInBase(d, base);
    NotSpace(d[0], base);
    PrefixIs(sp, base);
    if !sp.alt || base == 10 {
      Unprefixed(x, sp.zero, room, base, upper);
      Lead(Repeat(if sp.zero then '0' else ' ', room), d);
    } else if sp.zero || room <= 0 {
      PrefixRead(x, sp.zero, room, base, upper);
    } else {
      PrefixAlone(room, d, base);
    }
  }

  lemma Lead(a: string, b: string)
    ensures "" + a + b == a + b
  {}

  lemma PrefixIs(sp: Spec, base: nat)
    requires base == 8 || base == 10 || base == 16
    ensures Prefix(sp, base) == if !sp.alt || base == 10 then "" else if base == 8 then "0" else "0x"
  {}

  lemma Unprefixed(x: nat, zero: bool, room: int, base: nat, upper: bool)
    requires 2 <= base <= 16
    ensures ParseLong(Repeat(if zero then '0' else ' ', room) + Digits(x, base, upper), base).val == x
  {
    hide Digits, Repeat, ParseLong, Value;
    var d := Digits(x, base, upper);
    DigitsRead(x, base, upper);
    FirstInBase(d, base);
    NotSpace(d[0], base);
    if zero {
      SpacesNone(room, d);
      assert "" + (Repeat('0', room) + d) == Repeat('0', room) + d;
      ReadsBack("", room, x, base, upper, false);
    } else {
      SpacesBefore(room, d);
      RepeatNothing();
      assert Repeat(' ', room) + ("" + d) == Repeat(' ', room) + d;
      ReadsBack(Repeat(' ', room), 0, x, base, upper, false);
    }
  }

  lemma SpacesNone(k: int, t: string)
    requires t != [] && !Space(t[0])
    ensures Spaces(Repeat('0', k) + t, 0) == 0
  {
    var body := Repeat('0', k) + t;
    assert body[0] == '0' || body[0] == t[0];
  }

  lemma PrefixRead(x: nat, zero: bool, room: int, base: nat, upper: bool)
    requires (base == 8 || base == 16) && (zero || room <= 0)
    ensures ParseLong((if base == 8 then "0" else "0x") + Repeat(if zero then '0' else ' ', room) + Digits(x, base, upper),
                      base).val == x
  {
    hide Digits, ParseLong, Value, Rest;
    var d, pad := Digits(x, base, upper), Repeat(if zero then '0' else ' ', room);
    var body := Repeat('0', room) + d;
    assert pad + d == body;
    DigitsRead(x, base, upper);
    RepeatInBase(room, d, base);
    LeadingZeros(room, d, base);
    if base == 8 {
      assert "0" + pad + d == "0" + body;
      ZeroFirst(body);
    } else {
      assert "0x" + pad + d == "0x" + body;
      HexFirst(body);
    }
  }

  lemma ZeroFirst(body: string)
    requires body != [] && InBase(body, 8)
    ensures ParseLong("0" + body, 8).val == Value(body, 8)
  {
    hide ParseLong, Value;
    assert Repeat('0', 1) == "0" && "" + ("0" + body) == "0" + body;
    RepeatInBase(1, body, 8);
    LeadingZeros(1, body, 8);
    ReadsDigits("", "0" + body, 8, false);
  }

  lemma HexFirst(body: string)
    requires InBase(body, 16)
    ensures ParseLong("0x" + body, 16).val == Value(body, 16)
  {
    hide ParseLong, Value, Rest;
    var s := "0x" + body;
    assert s[2..] == body && SignEnd(s) == 0;
    HexPrefix(s, 16);
    RestIs(s, 2, 16, false);
  }

  lemma PrefixAlone(room: int, d: string, base: nat)
    requires (base == 8 || base == 16) && room > 0
    ensures ParseLong((if base == 8 then "0" else "0x") + Repeat(' ', room) + d, base).val == 0
  {
    hide Rest;
    var s := (if base == 8 then "0" else "0x") + Repeat(' ', room) + d;
    var k := if base == 8 then 1 else 2;
    assert s[k] == ' ' && s[0] == '0';
    RestEmpty(s, k, base, false);
  }

  /** An int as the argument it is passed as. */
  function Passed(x: int): (r: nat)
    requires -0x8000_0000 <= x < 0x8000_0000
    ensures r < U32 && ToInt(r) == x
  {
    if x < 0 then x + U32 else x
  }

  lemma StarDirective(zero: bool, args: Args)
    ensures var fmt := if zero then "%0*d" else "%*d";
            var sp := Spec(false, zero, false, false, ToInt(args(0).num));
            Output(fmt, 0, args, 0) == Strings.Number(args(1).num % U32, sp, 10, true, false)
  {
    hide Strings.Number, ToInt;
    var fmt := if zero then "%0*d" else "%*d";
    var sp := Spec(false, zero, false, false, ToInt(args(0).num));
    var k := if zero then 3 else 2;
    assert Parse(fmt, k, sp, args, 1) == Parsed('d', k + 1, sp, 1);
    assert Parse(fmt, k - 1, Plain().(zero := zero), args, 0) == Parse(fmt, k, sp, args, 1);
    assert Parse(fmt, 1, Plain(), args, 0) == Parsed('d', k + 1, sp, 1);
    var p := Parsed('d', k + 1, sp, 1);
    assert Output(fmt, k + 1, args, 2) == [];
    assert Output(fmt, 0, args, 0) == Directive(p, args) + [];
  }

  /** So what the formats %*d and %0*d print for any int but the smallest, at any width, is read back as that int. */
  lemma FormatIsReadBack(x: int, zero: bool, width: int, args: Args)
    requires -0x8000_0000 < x < 0x8000_0000 && -0x8000_0000 <= width < 0x8000_0000
    requires args(0).num == Passed(width) && args(1).num == Passed(x)
    ensures ParseLong(Output(if zero then "%0*d" else "%*d", 0, args, 0), 10).val == x
  {
    hide ParseLong, Strings.Number, Output;
    PrintedIsReadBack(x, zero, width);
    StarDirective(zero, args);
    SmallMod(Passed(x), U32);
  }

}
