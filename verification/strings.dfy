/** Formatted output: what a format and its arguments print, and the routine that prints it into a bounded buffer. */
module Strings {
  import opened Arithmetic

  /** One variable argument, as a 32-bit number or as the string it points to. */
  datatype Arg = Arg(num: nat, str: string)

  /** The arguments from the first on; only those a format asks for are looked at. */
  type Args = nat -> Arg

  /** Character i of a string, the terminator past its end. */
  function At(s: string, i: nat): char { if i < |s| then s[i] else '\0' }

  function Digit(d: nat, upper: bool): char
    requires d < 16
  {
    if upper then "0123456789ABCDEF"[d] else "0123456789abcdef"[d]
  }

  lemma Smaller(x: nat, base: nat)
    requires base >= 2
    ensures 0 <= x % base < base && (x >= base ==> 0 <= x / base < x)
  {
    var q := x / base;
    assert x == q * base + x % base && 0 <= x % base < base;
    if q >= x {
      MulMono(x, q, base);
      MulMono(2, base, x);
    }
    if q < 0 { MulMono(q, -1, base); }
  }

  /** x in a base, most significant digit first. */
  function Digits(x: nat, base: nat, upper: bool): (r: string)
    requires 2 <= base <= 16
    ensures r != []
    decreases x
  {
    Smaller(x, base);
    (if x < base then [] else Digits(x / base, base, upper)) + [Digit(x % base, upper)]
  }

  function Repeat(c: char, k: int): (r: string)
    ensures |r| == if k > 0 then k else 0
    ensures forall i :: 0 <= i < |r| ==> r[i] == c
    decreases k
  {
    if k <= 0 then [] else Repeat(c, k - 1) + [c]
  }

  /** What the modifiers of a directive have set. */
  datatype Spec = Spec(alt: bool, zero: bool, byte: bool, half: bool, width: int)

  function ToInt(x: nat): int { if x % U32 >= 0x8000_0000 then x % U32 - U32 else x % U32 }

  // ----- numbers

  /** An argument cut to the size asked for; plain characters are unsigned here. */
  function Cut(x: nat, sp: Spec, sign: bool): (r: nat)
    requires x < U32
    ensures r < U32
  {
    if sp.byte then x % 0x100
    else if sp.half then
      var h := x % 0x1_0000;
      if sign && h >= 0x8000 then h + 0xffff_0000 else h
    else x
  }

  function Prefix(sp: Spec, base: nat): string {
    if sp.alt && base == 8 then "0" else if sp.alt && base == 16 then "0x" else ""
  }

  function Magnitude(x: nat, sign: bool): (r: nat)
    requires x < U32
    ensures r < U32
  {
    if sign && x >= 0x8000_0000 then U32 - x else x
  }

  /** A number as it is printed: with zero padding the sign goes first, with spaces it goes before the digits. */
  function Number(y: nat, sp: Spec, base: nat, sign: bool, upper: bool): string
    requires 2 <= base <= 16 && y < U32
  {
    var x := Cut(y, sp, sign);
    var minus := sign && x >= 0x8000_0000;
    var digits := Digits(Magnitude(x, sign), base, upper);
    var room := sp.width - (if minus then 1 else 0) - |Prefix(sp, base)| - |digits|;
    (if minus && sp.zero then "-" else "") + Prefix(sp, base) + Repeat(if sp.zero then '0' else ' ', room)
    + (if minus && !sp.zero then "-" else "") + digits
  }

  // ----- directives

  /** The conversion character of a directive, where the format goes on, and what was set on the way. */
  datatype Parsed = Parsed(c: char, i: nat, sp: Spec, n: nat)

  function DigitsEnd(s: string, i: nat): (j: nat)
    ensures i <= j && (i <= |s| ==> j <= |s|)
    decreases |s| - i
  {
    if '0' <= At(s, i) <= '9' then DigitsEnd(s, i + 1) else i
  }

  /** The width written from i to j, on top of what has been read. */
  function Width(s: string, i: nat, j: nat, w: int): int
    requires j <= |s|
    decreases j - i
  {
    if i >= j then w else Width(s, i + 1, j, w * 10 + (s[i] as int - '0' as int))
  }

  function Parse(fmt: string, i: nat, sp: Spec, args: Args, n: nat): (r: Parsed)
    ensures i < r.i
    decreases |fmt| - i
  {
    var c := At(fmt, i);
    if c == '*' then Parse(fmt, i + 1, sp.(width := ToInt(args(n).num)), args, n + 1)
    else if c == '#' then Parse(fmt, i + 1, sp.(alt := true), args, n)
    else if c == '0' then Parse(fmt, i + 1, sp.(zero := true), args, n)
    else if '1' <= c <= '9' then
      var j := DigitsEnd(fmt, i + 1);
      Parse(fmt, j, sp.(width := Width(fmt, i + 1, j, (c - '0') as int)), args, n)
    else if c == 'h' then
      if At(fmt, i + 1) == 'h' then Parse(fmt, i + 2, sp.(byte := true), args, n)
      else Parse(fmt, i + 1, sp.(half := true), args, n)
    else Parsed(c, i + 1, sp, n)
  }

  function Plain(): Spec { Spec(false, false, false, false, 0) }

  predicate Numeric(c: char) { c == 'o' || c == 'd' || c == 'i' || c == 'u' || c == 'X' || c == 'x' || c == 'p' }

  function Base(c: char): nat { if c == 'o' then 8 else if c == 'X' || c == 'x' || c == 'p' then 16 else 10 }

  /** What a directive prints. */
  function Directive(p: Parsed, args: Args): string {
    if Numeric(p.c) then Number(args(p.n).num % U32, p.sp, Base(p.c), p.c == 'd' || p.c == 'i', p.c == 'X')
    else if p.c == 's' then args(p.n).str + Repeat(' ', p.sp.width - |args(p.n).str|)
    else if p.c == 'c' then [(args(p.n).num % 256) as char]
    else [p.c]
  }

  function Used(p: Parsed): nat { if Numeric(p.c) || p.c == 's' || p.c == 'c' then p.n + 1 else p.n }

  /** What the format prints from i on, with arguments from n on. */
  function Output(fmt: string, i: nat, args: Args, n: nat): string
    decreases |fmt| - i
  {
    if i >= |fmt| then []
    else if fmt[i] != '%' then [fmt[i]] + Output(fmt, i + 1, args, n)
    else
      var p := Parse(fmt, i + 1, Plain(), args, n);
      Directive(p, args) + Output(fmt, p.i, args, Used(p))
  }

  /** The longest number there is has eleven digits, so the twelve-character scratch buffer always has room. */
  lemma DigitsFit(x: nat, base: nat, upper: bool)
    requires 8 <= base <= 16 && x < U32
    ensures |Digits(x, base, upper)| <= 11
  {
    DigitsBound(x, base, upper, 11);
  }

  lemma {:induction false} DigitsBound(x: nat, base: nat, upper: bool, k: nat)
    requires 8 <= base <= 16 && 0 < k <= 11 && x < U32 && x < Power(8, k)
    ensures |Digits(x, base, upper)| <= k
    decreases k
  {
    if x >= base {
      assert x / base <= x / 8 by { DivLess(x, base); }
      assert k > 1;
      DigitsBound(x / base, base, upper, k - 1);
    }
  }

  lemma DivLess(x: nat, base: nat)
    requires base >= 8
    ensures x / base <= x / 8
  {
    var q := x / base;
    assert 8 * q <= base * q;
    assert base * q <= x;
  }

  // ----- what numbers look like

  /** The value of a digit as a reader takes it, letters in one case only; -1 for anything else. */
  function DigitValue(c: char, upper: bool): int {
    if '0' <= c <= '9' then c as int - 48
    else if upper && 'A' <= c <= 'F' then c as int - 55
    else if !upper && 'a' <= c <= 'f' then c as int - 87
    else -1
  }

  function ReadDigits(s: string, base: nat, upper: bool): int
    decreases |s|
  {
    if s == [] then 0 else ReadDigits(s[..|s| - 1], base, upper) * base + DigitValue(s[|s| - 1], upper)
  }

  /** s writes out x in a base, without leading zeros. */
  ghost predicate Writes(s: string, x: nat, base: nat, upper: bool) {
    && s != [] && (forall i :: 0 <= i < |s| ==> 0 <= DigitValue(s[i], upper) < base)
    && ReadDigits(s, base, upper) == x && (|s| > 1 ==> s[0] != '0')
  }

  lemma DigitIs(d: nat, upper: bool)
    requires d < 16
    ensures DigitValue(Digit(d, upper), upper) == d && (d > 0 ==> Digit(d, upper) != '0')
  {
    if d < 8 {
      if d == 0 {} else if d == 1 {} else if d == 2 {} else if d == 3 {} else if d == 4 {} else if d == 5 {} else {}
    } else {
      if d == 8 {} else if d == 9 {} else if d == 10 {} else if d == 11 {} else if d == 12 {} else if d == 13 {} else {}
    }
  }

  lemma ReadSnoc(s: string, c: char, base: nat, upper: bool)
    ensures ReadDigits(s + [c], base, upper) == ReadDigits(s, base, upper) * base + DigitValue(c, upper)
  {
    assert (s + [c])[..|s + [c]| - 1] == s;
  }

  lemma {:induction false} DigitsWrite(x: nat, base: nat, upper: bool)
    requires 2 <= base <= 16
    ensures Writes(Digits(x, base, upper), x, base, upper)
    ensures x > 0 ==> Digits(x, base, upper)[0] != '0'
    decreases x
  {
    hide DigitValue, Digit, ReadDigits, Writes;
    Smaller(x, base);
    DigitIs(x % base, upper);
    if x < base {
      SmallMod(x, base);
      OneDigit(Digit(x, upper), base, upper);
      assert Digits(x, base, upper) == [Digit(x, upper)];
    } else {
      Quotient(x, base);
      DigitsWrite(x / base, base, upper);
      MoreDigits(Digits(x / base, base, upper), x / base, Digit(x % base, upper), base, upper);
      Division(x, base);
      Commute(base, x / base);
    }
  }

  lemma OneDigit(c: char, base: nat, upper: bool)
    requires 0 <= DigitValue(c, upper) < base
    ensures Writes([c], DigitValue(c, upper), base, upper)
  {
    hide DigitValue;
    ReadNothing(base, upper);
    ReadSnoc([], c, base, upper);
    assert [] + [c] == [c];
  }

  lemma MoreDigits(s: string, x: nat, c: char, base: nat, upper: bool)
    requires Writes(s, x, base, upper) && s[0] != '0' && 0 <= DigitValue(c, upper) < base
    ensures Writes(s + [c], x * base + DigitValue(c, upper), base, upper)
  {
    hide DigitValue, ReadDigits;
    ReadSnoc(s, c, base, upper);
  }

  lemma ReadNothing(base: nat, upper: bool)
    ensures ReadDigits([], base, upper) == 0
  {}

  /** What the unsigned conversions print: the argument, cut to the size asked for, in base 10, 8 or 16, with the prefix
      asked for first, then spaces or zeros up to the width, then the digits, none of them a leading zero. */
  lemma UnsignedPrints(p: Parsed, args: Args) returns (digits: string)
    requires p.c == 'u' || p.c == 'o' || p.c == 'x' || p.c == 'X' || p.c == 'p'
    ensures var y := args(p.n).num;
            var x := if p.sp.byte then y % 256 else if p.sp.half then y % 65536 else y % 0x1_0000_0000;
            match p.c
            case 'u' => Writes(digits, x, 10, false)
            case 'o' => Writes(digits, x, 8, false)
            case 'X' => Writes(digits, x, 16, true)
            case _ => Writes(digits, x, 16, false)
    ensures var prefix := if !p.sp.alt || p.c == 'u' then "" else if p.c == 'o' then "0" else "0x";
            Directive(p, args)
            == prefix + Repeat(if p.sp.zero then '0' else ' ', p.sp.width - |prefix| - |digits|) + digits
    ensures Used(p) == p.n + 1
  {
    hide Digits, Repeat, Writes, Cut, Number;
    var y := args(p.n).num % U32;
    CutUnsigned(args(p.n).num, p.sp);
    UnsignedNumber(y, p.sp, Base(p.c), p.c == 'X');
    digits := Digits(Cut(y, p.sp, false), Base(p.c), p.c == 'X');
    DigitsWrite(Cut(y, p.sp, false), Base(p.c), p.c == 'X');
  }

  lemma UnsignedNumber(y: nat, sp: Spec, base: nat, upper: bool)
    requires 2 <= base <= 16 && y < U32
    ensures var digits := Digits(Cut(y, sp, false), base, upper);
            Number(y, sp, base, false, upper)
            == Prefix(sp, base) + Repeat(if sp.zero then '0' else ' ', sp.width - |Prefix(sp, base)| - |digits|) + digits
  {
    hide Digits, Repeat, Cut, Prefix;
  }

  lemma CutUnsigned(y: nat, sp: Spec)
    ensures Cut(y % U32, sp, false) == if sp.byte then y % 256 else if sp.half then y % 65536 else y % 0x1_0000_0000
  {
    CutIs(y);
  }

  /** Cutting a number twice. */
  lemma CutIs(y: nat)
    ensures y % U32 % 0x100 == y % 0x100 && y % U32 % 0x1_0000 == y % 0x1_0000
  {
    ModMod(y, 0x100, U32);
    ModMod(y, 0x1_0000, U32);
  }

  /** The signed value of the low bits of a number. */
  function Signed(y: nat, bits: nat): int
    requires bits > 0
  {
    var m := y % Power(2, bits);
    if 2 * m >= Power(2, bits) then m - Power(2, bits) else m
  }

  /** The signed conversions print the argument in base 10, a minus sign before or behind the padding. Characters have no
      sign here. */
  lemma SignedPrints(p: Parsed, args: Args) returns (digits: string)
    requires p.c == 'd' || p.c == 'i'
    ensures var y := args(p.n).num;
            var x := if p.sp.byte then y % 256 else if p.sp.half then Signed(y, 16) else Signed(y, 32);
            var sign := if x < 0 then "-" else "";
            var pad := Repeat(if p.sp.zero then '0' else ' ', p.sp.width - |sign| - |digits|);
            && Writes(digits, if x < 0 then -x else x, 10, false)
            && Directive(p, args) == (if p.sp.zero then sign + pad else pad + sign) + digits
    ensures Used(p) == p.n + 1
  {
    hide Digits, Repeat, Writes, Signed, Cut, Number;
    var y := args(p.n).num % U32;
    var x := Cut(y, p.sp, true);
    CutSigned(args(p.n).num, p.sp);
    digits := Digits(Magnitude(x, true), 10, false);
    DigitsWrite(Magnitude(x, true), 10, false);
    SignedNumber(y, p.sp);
  }

  lemma SignedNumber(y: nat, sp: Spec)
    requires y < U32
    ensures var x := ToInt(Cut(y, sp, true));
            var digits := Digits(if x < 0 then -x else x, 10, false);
            var sign := if x < 0 then "-" else "";
            var pad := Repeat(if sp.zero then '0' else ' ', sp.width - |sign| - |digits|);
            Number(y, sp, 10, true, false) == (if sp.zero then sign + pad else pad + sign) + digits
  {
    hide Digits, Repeat, Cut;
    var x := Cut(y, sp, true);
    var digits := Digits(Magnitude(x, true), 10, false);
    var sign := if x >= 0x8000_0000 then "-" else "";
    Arranged(sign, Repeat(if sp.zero then '0' else ' ', sp.width - |sign| - |digits|), digits, sp.zero);
  }

  lemma Arranged(sign: string, pad: string, digits: string, zero: bool)
    ensures (if zero then sign else "") + "" + pad + (if zero then "" else sign) + digits
         == (if zero then sign + pad else pad + sign) + digits
  {
    assert sign + "" == sign && "" + "" == "" && "" + pad == pad;
    assert sign + pad + "" == sign + pad;
  }

  lemma CutSigned(y: nat, sp: Spec)
    ensures ToInt(Cut(y % U32, sp, true))
         == if sp.byte then y % 256 else if sp.half then Signed(y, 16) else Signed(y, 32)
  {
    hide Power;
    CutIs(y);
    Widths();
  }

  lemma Widths()
    ensures Power(2, 16) == 0x1_0000 && Power(2, 32) == U32
  {
    assert Power(2, 4) == 16 && Power(2, 8) == 256 && Power(2, 12) == 4096;
    assert Power(2, 16) == 0x1_0000 && Power(2, 20) == 0x10_0000 && Power(2, 24) == 0x100_0000;
    assert Power(2, 28) == 0x1000_0000;
  }

  /** Strings are padded on the right; characters are cut to a byte; any other character prints itself. */
  lemma OthersPrint(p: Parsed, args: Args)
    ensures p.c == 's' ==>
      var str := args(p.n).str;
      |Directive(p, args)| == (if p.sp.width > |str| then p.sp.width else |str|) && str <= Directive(p, args)
      && (forall i :: |str| <= i < |Directive(p, args)| ==> Directive(p, args)[i] == ' ') && Used(p) == p.n + 1
    ensures p.c == 'c' ==> Directive(p, args) == [(args(p.n).num % 256) as char] && Used(p) == p.n + 1
    ensures p.c !in "odiuXxpsc" ==> Directive(p, args) == [p.c] && Used(p) == p.n
  {
    hide Number;
  }

  // ----- what formats mean

  /** A modifier as it is written: #, 0, hh, h, * or a width. */
  datatype Modifier = Alt | Zero | Byte | Half | Star | Wide(w: nat)

  function Spelled(m: Modifier): (r: string)
    ensures r != []
  {
    match m
    case Alt => "#"
    case Zero => "0"
    case Byte => "hh"
    case Half => "h"
    case Star => "*"
    case Wide(w) => Digits(w, 10, false)
  }

  function SpelledAll(ms: seq<Modifier>): string
    decreases |ms|
  {
    if ms == [] then "" else Spelled(ms[0]) + SpelledAll(ms[1..])
  }

  /** What the modifiers set, and which argument comes next. */
  function Applied(ms: seq<Modifier>, sp: Spec, args: Args, n: nat): (Spec, nat)
    decreases |ms|
  {
    if ms == [] then (sp, n)
    else
      match ms[0]
      case Alt => Applied(ms[1..], sp.(alt := true), args, n)
      case Zero => Applied(ms[1..], sp.(zero := true), args, n)
      case Byte => Applied(ms[1..], sp.(byte := true), args, n)
      case Half => Applied(ms[1..], sp.(half := true), args, n)
      case Star => Applied(ms[1..], sp.(width := Signed(args(n).num, 32)), args, n + 1)
      case Wide(w) => Applied(ms[1..], sp.(width := w), args, n)
  }

  /** They can be told apart where they stand together: a width is not zero, no digit follows it, and no h an h. */
  predicate Apart(ms: seq<Modifier>) {
    && (forall k :: 0 <= k < |ms| && ms[k].Wide? ==> ms[k].w > 0)
    && (forall k :: 0 <= k < |ms| - 1 && ms[k].Wide? ==> !ms[k + 1].Zero? && !ms[k + 1].Wide?)
    && (forall k :: 0 <= k < |ms| - 1 && ms[k].Half? ==> !ms[k + 1].Half? && !ms[k + 1].Byte?)
  }

  /** s has t at i. */
  predicate HasAt(s: string, i: nat, t: string) { i + |t| <= |s| && s[i..i + |t|] == t }

  /** A character that is no modifier, and so ends a directive. */
  predicate Converts(c: char) { c != '*' && c != '#' && c != 'h' && !('0' <= c <= '9') }

  lemma HasParts(s: string, i: nat, t: string, u: string)
    requires HasAt(s, i, t + u)
    ensures HasAt(s, i, t) && HasAt(s, i + |t|, u)
  {
    assert s[i..i + |t|] == s[i..i + |t + u|][..|t|];
    assert s[i + |t|..i + |t| + |u|] == s[i..i + |t + u|][|t|..];
  }

  lemma HasFirst(s: string, i: nat, t: string)
    requires HasAt(s, i, t) && t != []
    ensures At(s, i) == t[0]
  {
    assert s[i..i + |t|][0] == s[i];
  }

  lemma {:induction false} WidthSnoc(s: string, i: nat, j: nat, w: int)
    requires i <= j < |s|
    ensures Width(s, i, j + 1, w) == Width(s, i, j, w) * 10 + (s[j] as int - '0' as int)
    decreases j - i
  {
    if i < j { WidthSnoc(s, i + 1, j, w * 10 + (s[i] as int - '0' as int)); }
  }

  /** The digits from i on that go on to j are read as the number they write. */
  lemma {:induction false} WidthReads(s: string, i: nat, j: nat, k: nat)
    requires i < k <= j <= |s| && forall l :: i <= l < j ==> 0 <= DigitValue(s[l], false) < 10
    ensures Width(s, i + 1, k, s[i] as int - '0' as int) == ReadDigits(s[i..k], 10, false)
    decreases k
  {
    assert s[i..k][..|s[i..k]| - 1] == s[i..k - 1];
    if k > i + 1 {
      WidthReads(s, i, j, k - 1);
      WidthSnoc(s, i + 1, k - 1, s[i] as int - '0' as int);
    } else {
      ReadNothing(10, false);
      assert s[i..i] == [];
    }
  }

  lemma {:induction false} DigitsStop(s: string, i: nat, j: nat)
    requires i <= j <= |s| && (forall l :: i <= l < j ==> '0' <= s[l] <= '9') && !('0' <= At(s, j) <= '9')
    ensures DigitsEnd(s, i) == j
    decreases j - i
  {
    if i < j { DigitsStop(s, i + 1, j); }
  }

  /** A width is read as the number it writes. */
  lemma WideParses(fmt: string, i: nat, w: nat, sp: Spec, args: Args, n: nat)
    requires w > 0 && HasAt(fmt, i, Digits(w, 10, false)) && !('0' <= At(fmt, i + |Digits(w, 10, false)|) <= '9')
    ensures Parse(fmt, i, sp, args, n) == Parse(fmt, i + |Digits(w, 10, false)|, sp.(width := w), args, n)
  {
    hide Digits, ReadDigits, Width, Parse;
    DigitsWrite(w, 10, false);
    var d, j := Digits(w, 10, false), i + |Digits(w, 10, false)|;
    HasFirst(fmt, i, d);
    forall l | i <= l < j
      ensures 0 <= DigitValue(fmt[l], false) < 10
    {
      assert fmt[i..j][l - i] == fmt[l];
    }
    DigitsStop(fmt, i + 1, j);
    WidthReads(fmt, i, j, j);
    ParseWide(fmt, i, sp, args, n);
  }

  lemma ParseWide(fmt: string, i: nat, sp: Spec, args: Args, n: nat)
    requires i < |fmt| && '1' <= fmt[i] <= '9'
    ensures var j := DigitsEnd(fmt, i + 1);
            Parse(fmt, i, sp, args, n)
            == Parse(fmt, j, sp.(width := Width(fmt, i + 1, j, fmt[i] as int - '0' as int)), args, n)
  {}

  /** A directive is read as the modifiers it was spelled with. */
  lemma {:induction false} DirectiveParses(fmt: string, i: nat, ms: seq<Modifier>, c: char, sp: Spec, args: Args, n: nat)
    requires HasAt(fmt, i, SpelledAll(ms) + [c]) && Apart(ms) && Converts(c)
    ensures var (sp', n') := Applied(ms, sp, args, n);
            Parse(fmt, i, sp, args, n) == Parsed(c, i + |SpelledAll(ms)| + 1, sp', n')
    decreases |ms|
  {
    hide Parse, Spelled, Signed;
    if ms == [] {
      assert SpelledAll(ms) + [c] == [c];
      HasFirst(fmt, i, [c]);
      ParseEnds(fmt, i, sp, args, n);
    } else {
      var m, rest := ms[0], SpelledAll(ms[1..]) + [c];
      assert SpelledAll(ms) + [c] == Spelled(m) + rest;
      HasParts(fmt, i, Spelled(m), rest);
      HasFirst(fmt, i, Spelled(m));
      HasFirst(fmt, i + |Spelled(m)|, rest);
      NextSpelled(ms, c);
      var (sp', n') := Applied([m], sp, args, n);
      OneParses(fmt, i, m, sp, args, n);
      AppliedFirst(ms, sp, args, n);
      DirectiveParses(fmt, i + |Spelled(m)|, ms[1..], c, sp', args, n');
    }
  }

  lemma OneParses(fmt: string, i: nat, m: Modifier, sp: Spec, args: Args, n: nat)
    requires HasAt(fmt, i, Spelled(m))
    requires m.Wide? ==> m.w > 0 && !('0' <= At(fmt, i + |Spelled(m)|) <= '9')
    requires m.Half? ==> At(fmt, i + |Spelled(m)|) != 'h'
    ensures var (sp', n') := Applied([m], sp, args, n);
            Parse(fmt, i, sp, args, n) == Parse(fmt, i + |Spelled(m)|, sp', args, n')
  {
    hide Digits, Signed, ToInt, Width, DigitsEnd, Parse;
    HasFirst(fmt, i, Spelled(m));
    AppliedOne(m, sp, args, n);
    if m.Wide? {
      WideParses(fmt, i, m.w, sp, args, n);
    } else {
      if m.Byte? { assert fmt[i..i + 2][1] == At(fmt, i + 1); }
      StarIs(args(n).num);
      ParseStep(fmt, i, sp, args, n);
    }
  }

  lemma AppliedOne(m: Modifier, sp: Spec, args: Args, n: nat)
    ensures Applied([m], sp, args, n)
         == match m
            case Alt => (sp.(alt := true), n)
            case Zero => (sp.(zero := true), n)
            case Byte => (sp.(byte := true), n)
            case Half => (sp.(half := true), n)
            case Star => (sp.(width := Signed(args(n).num, 32)), n + 1)
            case Wide(w) => (sp.(width := w), n)
  {
    hide Signed;
    assert [m][1..] == [];
  }

  lemma ParseStep(fmt: string, i: nat, sp: Spec, args: Args, n: nat)
    requires var c := At(fmt, i); c == '*' || c == '#' || c == '0' || c == 'h'
    ensures Parse(fmt, i, sp, args, n)
         == match At(fmt, i)
            case '*' => Parse(fmt, i + 1, sp.(width := ToInt(args(n).num)), args, n + 1)
            case '#' => Parse(fmt, i + 1, sp.(alt := true), args, n)
            case '0' => Parse(fmt, i + 1, sp.(zero := true), args, n)
            case _ =>
              if At(fmt, i + 1) == 'h' then Parse(fmt, i + 2, sp.(byte := true), args, n)
              else Parse(fmt, i + 1, sp.(half := true), args, n)
  {
    hide ToInt, Width, DigitsEnd;
  }

  lemma ParseEnds(fmt: string, i: nat, sp: Spec, args: Args, n: nat)
    requires Converts(At(fmt, i))
    ensures Parse(fmt, i, sp, args, n) == Parsed(At(fmt, i), i + 1, sp, n)
  {
    hide ToInt, Width, DigitsEnd;
  }

  lemma AppliedFirst(ms: seq<Modifier>, sp: Spec, args: Args, n: nat)
    requires ms != []
    ensures var (sp', n') := Applied([ms[0]], sp, args, n);
            Applied(ms, sp, args, n) == Applied(ms[1..], sp', args, n')
  {
    hide Signed;
    assert [ms[0]][1..] == [];
  }

  lemma StarIs(x: nat)
    ensures ToInt(x) == Signed(x, 32)
  {
    Widths();
  }

  /** What stands behind the first modifier does not belong to it. */
  lemma NextSpelled(ms: seq<Modifier>, c: char)
    requires ms != [] && Apart(ms) && Converts(c)
    ensures var next := (SpelledAll(ms[1..]) + [c])[0];
            && (ms[0].Wide? ==> !('0' <= next <= '9'))
            && (ms[0].Half? ==> next != 'h')
    ensures Apart(ms[1..])
  {
    hide Digits;
    if |ms| > 1 {
      assert ms[1..][0] == ms[1];
      if ms[1].Wide? { FirstOfWide(ms[1].w); }
    }
  }

  lemma FirstOfWide(w: nat)
    requires w > 0
    ensures '1' <= Digits(w, 10, false)[0] <= '9'
  {
    hide Digits, ReadDigits;
    DigitsWrite(w, 10, false);
  }

  lemma OneCharacter(s: string, i: nat, j: nat, rest: string)
    requires i < j <= |s|
    ensures [s[i]] + (s[i + 1..j] + rest) == s[i..j] + rest
  {
    assert s[i..j] == [s[i]] + s[i + 1..j];
  }

  /** Text is copied as it stands. */
  lemma {:induction false} TextPrints(fmt: string, i: nat, j: nat, args: Args, n: nat)
    requires i <= j <= |fmt| && forall k :: i <= k < j ==> fmt[k] != '%'
    ensures Output(fmt, i, args, n) == fmt[i..j] + Output(fmt, j, args, n)
    decreases j - i
  {
    hide Parse, Directive;
    if i < j {
      TextPrints(fmt, i + 1, j, args, n);
      OneCharacter(fmt, i, j, Output(fmt, j, args, n));
    } else {
      assert fmt[i..j] == [];
    }
  }

  /** And a directive is replaced by what its conversion prints of its argument, modified as its modifiers say. */
  lemma DirectivePrints(fmt: string, i: nat, ms: seq<Modifier>, c: char, args: Args, n: nat)
    requires HasAt(fmt, i, "%" + (SpelledAll(ms) + [c])) && Apart(ms) && Converts(c)
    ensures var (sp, n') := Applied(ms, Spec(false, false, false, false, 0), args, n);
            var p := Parsed(c, i + |SpelledAll(ms)| + 2, sp, n');
            Output(fmt, i, args, n) == Directive(p, args) + Output(fmt, p.i, args, Used(p))
  {
    hide Parse, Directive;
    HasParts(fmt, i, "%", SpelledAll(ms) + [c]);
    HasFirst(fmt, i, "%");
    DirectiveParses(fmt, i + 1, ms, c, Plain(), args, n);
  }

  // ----- the printing routine

  /** What the buffer holds after out has been printed to it: as much as fits, then a terminator; nothing at all when
      the buffer has no size. */
  function BufferAfter(was: string, size: nat, out: string): (r: string)
    requires size <= |was|
    ensures |r| == |was|
  {
    if size == 0 then was
    else
      var n := if |out| < size then |out| else size - 1;
      out[..n] + ['\0'] + was[n + 1..]
  }

  /** A bounded buffer and how much has been printed to it. */
  class Printer {
    const str: array<char>
    const size: nat
    var p: nat
    ghost const was: string
    ghost var out: string

    ghost predicate Valid()
      reads this, str
    {
      && size <= str.Length == |was| && p == |out|
      && forall i :: 0 <= i < str.Length ==> str[i] == if i < p && i + 1 < size then out[i] else was[i]
    }

    constructor (str: array<char>, size: nat)
      requires size <= str.Length
      ensures Valid() && out == [] && was == str[..] && this.str == str && this.size == size
    {
      this.str, this.size, p, out, was := str, size, 0, [], str[..];
    }

    /** do_putch: stores c if there is room for it and the terminator, and counts it in any case. */
    method PutChar(c: char)
      requires Valid()
      modifies this`p, this`out, str
      ensures Valid() && out == old(out) + [c]
    {
      if p + 1 < size { str[p] := c; }
      p := p + 1;
      out := out + [c];
    }

    method PutString(s: string)
      requires Valid()
      modifies this`p, this`out, str
      ensures Valid() && out == old(out) + s
    {
      for i := 0 to |s|
        invariant Valid() && out == old(out) + s[..i]
      {
        assert s[..i + 1] == s[..i] + [s[i]];
        PutChar(s[i]);
      }
      assert s[..|s|] == s;
    }

    /** c, as often as room says, or not at all. */
    method Pad(c: char, room: int)
      requires Valid()
      modifies this`p, this`out, str
      ensures Valid() && out == old(out) + Repeat(c, room)
    {
      var k := 0;
      while k < room
        invariant 0 <= k && (k <= room || k == 0) && Valid() && out == old(out) + Repeat(c, k)
      {
        PutChar(c);
        k := k + 1;
      }
      RepeatNone(c, room, k);
    }

    /** The first q characters of tmp, last first. */
    method PutReversed(tmp: array<char>, q0: nat, ghost d: string)
      requires Valid() && tmp != str && q0 == |d| <= tmp.Length && forall i :: 0 <= i < q0 ==> tmp[i] == d[q0 - 1 - i]
      modifies this`p, this`out, str
      ensures Valid() && out == old(out) + d
    {
      var q := q0;
      while q != 0
        invariant 0 <= q <= |d| && Valid() && out == old(out) + d[..|d| - q]
        invariant forall i :: 0 <= i < q0 ==> tmp[i] == d[q0 - 1 - i]
        decreases q
      {
        q := q - 1;
        assert d[..|d| - q] == d[..|d| - q - 1] + [d[|d| - q - 1]];
        PutChar(tmp[q]);
      }
      assert d[..|d|] == d;
    }

    /** The digits of x, padded, with the sign between the padding and the digits. */
    method PutDigits(x: nat, base: nat, upper: bool, room: int, pad: char, minus: bool)
      requires Valid() && 8 <= base <= 16 && x < U32
      modifies this`p, this`out, str
      ensures Valid()
      ensures out == old(out) + Repeat(pad, room - |Digits(x, base, upper)|) + (if minus then "-" else "")
                     + Digits(x, base, upper)
    {
      hide Digits, Repeat;
      DigitsFit(x, base, upper);
      var tmp := new char[12];
      var q := FillDigits(tmp, x, base, upper);
      Pad(pad, room - q);
      if minus { PutChar('-'); }
      assert out == old(out) + Repeat(pad, room - |Digits(x, base, upper)|) + (if minus then "-" else "");
      PutReversed(tmp, q, Digits(x, base, upper));
    }

    method PutPrefix(sp: Spec, base: nat)
      requires Valid()
      modifies this`p, this`out, str
      ensures Valid() && out == old(out) + Prefix(sp, base)
    {
      if sp.alt {
        if base == 8 || base == 16 { PutChar('0'); }
        if base == 16 { PutChar('x'); }
      }
    }

    /** A number. */
    method PutNumber(y: nat, sp: Spec, base: nat, sign: bool, upper: bool)
      requires Valid() && 8 <= base <= 16 && y < U32
      modifies this`p, this`out, str
      ensures Valid() && out == old(out) + Number(y, sp, base, sign, upper)
    {
      hide Digits, Repeat, Cut, Prefix;
      var x := Cut(y, sp, sign);
      var minus, width := sign && x >= 0x8000_0000, sp.width;
      ghost var magnitude := Magnitude(x, sign);
      if minus {
        if sp.zero { PutChar('-'); }
        width := width - 1;
        x := U32 - x;
      }
      PutPrefix(sp, base);
      width := width - |Prefix(sp, base)|;
      ghost var head := (if minus && sp.zero then "-" else "") + Prefix(sp, base);
      assert out == old(out) + head;
      PutDigits(x, base, upper, width, if sp.zero then '0' else ' ', minus && !sp.zero);
      NumberParts(old(out), y, sp, base, sign, upper, head);
    }

    /** A directive, once its modifiers have been read. */
    method PutDirective(d: Parsed, args: Args)
      requires Valid()
      modifies this`p, this`out, str
      ensures Valid() && out == old(out) + Directive(d, args)
    {
      hide Number, Repeat;
      if Numeric(d.c) {
        PutNumber(args(d.n).num % U32, d.sp, Base(d.c), d.c == 'd' || d.c == 'i', d.c == 'X');
      } else if d.c == 's' {
        PutString(args(d.n).str);
        Pad(' ', d.sp.width - |args(d.n).str|);
      } else if d.c == 'c' {
        PutChar((args(d.n).num % 256) as char);
      } else {
        PutChar(d.c);
      }
    }

    /** The terminator. */
    method Finish()
      requires Valid()
      modifies str
      ensures str[..] == BufferAfter(was, size, out)
    {
      if size > 0 {
        if p + 1 <= size { str[p] := '\0'; } else { str[size - 1] := '\0'; }
      }
    }
  }

  lemma RepeatNone(c: char, room: int, k: int)
    requires 0 <= k && (k == room || (k == 0 && room <= 0))
    ensures Repeat(c, k) == Repeat(c, room)
  {}

  lemma DigitsOfZero(base: nat, upper: bool)
    requires 2 <= base <= 16
    ensures Digits(0, base, upper) == "0"
  {}

  lemma NumberParts(start: string, y: nat, sp: Spec, base: nat, sign: bool, upper: bool, head: string)
    requires 8 <= base <= 16 && y < U32
    requires var minus := sign && Cut(y, sp, sign) >= 0x8000_0000;
             head == (if minus && sp.zero then "-" else "") + Prefix(sp, base)
    ensures var minus := sign && Cut(y, sp, sign) >= 0x8000_0000;
            var digits := Digits(Magnitude(Cut(y, sp, sign), sign), base, upper);
            var room := sp.width - (if minus then 1 else 0) - |Prefix(sp, base)| - |digits|;
            start + head + Repeat(if sp.zero then '0' else ' ', room) + (if minus && !sp.zero then "-" else "") + digits
            == start + Number(y, sp, base, sign, upper)
  {
    hide Digits, Repeat, Cut, Prefix;
    var minus := sign && Cut(y, sp, sign) >= 0x8000_0000;
    var digits := Digits(Magnitude(Cut(y, sp, sign), sign), base, upper);
    var room := sp.width - (if minus then 1 else 0) - |Prefix(sp, base)| - |digits|;
    Regroup(start, head, Repeat(if sp.zero then '0' else ' ', room), if minus && !sp.zero then "-" else "", digits);
  }

  lemma Regroup(a: string, b: string, c: string, d: string, e: string)
    ensures a + b + c + d + e == a + (b + c + d + e)
  {}

  /** The digits of x, least significant first, by repeated division; q of them. */
  method FillDigits(tmp: array<char>, x: nat, base: nat, upper: bool) returns (q: nat)
    requires 8 <= base <= 16 && |Digits(x, base, upper)| <= tmp.Length
    modifies tmp
    ensures q == |Digits(x, base, upper)|
    ensures forall i :: 0 <= i < q ==> tmp[i] == Digits(x, base, upper)[q - 1 - i]
  {
    hide Digits, Digit;
    ghost var d := Digits(x, base, upper);
    q := 0;
    if x == 0 {
      DigitsOfZero(base, upper);
      tmp[0] := '0';
      return 1;
    }
    var y: nat := x;
    while y != 0
      invariant 0 <= q <= |d| <= tmp.Length && (if y == 0 then q == |d| else Digits(y, base, upper) == d[..|d| - q])
      invariant forall i :: 0 <= i < q ==> tmp[i] == d[|d| - 1 - i]
      decreases y
    {
      DigitsStep(y, base, upper);
      tmp[q] := Digit(y % base, upper);
      q := q + 1;
      y := y / base;
    }
  }

  lemma Quotient(y: nat, base: nat)
    requires 2 <= base && y > 0
    ensures y / base == 0 <==> y < base
    ensures y / base < y
  {
    if y < base {
    } else {
      assert y == base * (y / base) + y % base;
    }
  }

  lemma DigitsStep(y: nat, base: nat, upper: bool)
    requires 2 <= base <= 16 && y > 0
    ensures var d := Digits(y, base, upper);
            && d[|d| - 1] == Digit(y % base, upper)
            && (if y / base == 0 then |d| == 1 else d[..|d| - 1] == Digits(y / base, base, upper))
            && y / base < y
  {
    hide Digit;
    Quotient(y, base);
  }

  /** The modifier loop of a directive. */
  method ParseDirective(fmt: string, i0: nat, args: Args, n0: nat) returns (d: Parsed)
    ensures d == Parse(fmt, i0, Plain(), args, n0)
  {
    hide Width;
    var i, n, sp := i0, n0, Plain();
    while true
      invariant Parse(fmt, i, sp, args, n) == Parse(fmt, i0, Plain(), args, n0)
      decreases |fmt| - i
    {
      var c := At(fmt, i);
      if c == '*' {
        sp, i, n := sp.(width := ToInt(args(n).num)), i + 1, n + 1;
      } else if c == '#' {
        sp, i := sp.(alt := true), i + 1;
      } else if c == '0' {
        sp, i := sp.(zero := true), i + 1;
      } else if '1' <= c <= '9' {
        var j, w := ReadWidth(fmt, i + 1, (c - '0') as int);
        sp, i := sp.(width := w), j;
      } else if c == 'h' {
        if At(fmt, i + 1) == 'h' { sp, i := sp.(byte := true), i + 2; } else { sp, i := sp.(half := true), i + 1; }
      } else {
        return Parsed(c, i + 1, sp, n);
      }
    }
  }

  method ReadWidth(fmt: string, i: nat, first: int) returns (j: nat, w: int)
    requires i <= |fmt|
    ensures j == DigitsEnd(fmt, i) && w == Width(fmt, i, j, first)
  {
    j, w := i, first;
    while '0' <= At(fmt, j) <= '9'
      invariant i <= j <= |fmt| && DigitsEnd(fmt, j) == DigitsEnd(fmt, i)
      invariant Width(fmt, j, DigitsEnd(fmt, i), w) == Width(fmt, i, DigitsEnd(fmt, i), first)
      decreases |fmt| - j
    {
      w := w * 10 + (fmt[j] as int - '0' as int);
      j := j + 1;
    }
  }

  /** vsnprintf: the whole output is counted, and what fits is stored, terminated unless there is no room at all. */
  method VsnPrintf(str: array<char>, size: nat, fmt: string, args: Args) returns (count: nat)
    requires size <= str.Length
    modifies str
    ensures count == |Output(fmt, 0, args, 0)|
    ensures str[..] == BufferAfter(old(str[..]), size, Output(fmt, 0, args, 0))
  {
    hide Parse, Directive, BufferAfter;
    var printer := new Printer(str, size);
    var i, n := 0, 0;
    while i < |fmt|
      invariant printer.Valid() && fresh(printer) && printer.str == str && printer.size == size
      invariant printer.was == old(str[..])
      invariant printer.out + Output(fmt, i, args, n) == Output(fmt, 0, args, 0)
      decreases |fmt| - i
    {
      if fmt[i] != '%' {
        printer.PutChar(fmt[i]);
        i := i + 1;
      } else {
        var d := ParseDirective(fmt, i + 1, args, n);
        printer.PutDirective(d, args);
        i, n := d.i, Used(d);
      }
    }
    assert printer.out + [] == printer.out;
    printer.Finish();
    count := printer.p;
  }
}
