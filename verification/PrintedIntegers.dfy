/** What the integer conversions of printf print, told without the tables and the steps of the code: the digits
    read back as the value in the radix of the conversion, the sign and the prefix are those of section 7.19.6.1
    of ISO C99, and separators stand between groups of digits. */
module PrintedIntegers {
  import opened Options
  import opened Stdio
  import A = IntegerFacts

  predicate IsConversion(letter: char)
  {
    letter == 'd' || letter == 'i' || letter == 'o' || letter == 'u' || letter == 'x' || letter == 'X'
  }

  function Radix(letter: char): nat { if letter == 'x' || letter == 'X' then 16 else if letter == 'o' then 8 else 10 }

  function GroupSize(letter: char): nat { if letter == 'x' || letter == 'X' then 4 else 3 }

  // The value of a digit by its character code, in either case; -1 if it is none.
  function DigitValue(c: char): int
  {
    if '0' <= c <= '9' then c as int - '0' as int
    else if 'a' <= c <= 'f' then c as int - 'a' as int + 10
    else if 'A' <= c <= 'F' then c as int - 'A' as int + 10
    else -1
  }

  // A digit as the conversion prints it: %x in lower case, %X in upper case.
  predicate IsDigitOf(c: char, letter: char)
  {
    && 0 <= DigitValue(c) < Radix(letter)
    && (letter == 'x' ==> !('A' <= c <= 'F')) && (letter == 'X' ==> !('a' <= c <= 'f'))
  }

  // The number that s continues, after the digits read so far; separators are skipped.
  function ReadOn(s: string, radix: nat, soFar: int): int
    decreases |s|
  {
    if s == "" then soFar
    else if s[0] == ',' then ReadOn(s[1..], radix, soFar)
    else ReadOn(s[1..], radix, radix * soFar + DigitValue(s[0]))
  }

  function Power(radix: nat, k: nat): nat
  {
    if k == 0 then 1 else radix * Power(radix, k - 1)
  }

  // A separator follows the digit at q exactly if grouping is asked for, the number of digits behind it is a
  // multiple of the group size, and the value reaches that far.
  ghost predicate GroupedAt(s: string, q: nat, group: bool, letter: char, value: nat)
    requires q < |s|
  {
    var k := DigitsIn(s[q + 1..]);
    if s[q] == ',' then q > 0 && s[q - 1] != ','
    else
      q + 1 < |s| && s[q + 1] == ',' <==>
      group && k > 0 && k % GroupSize(letter) == 0 && value >= Power(Radix(letter), k)
  }

  ghost predicate Grouped(s: string, group: bool, letter: char, value: nat)
  {
    forall q: nat | q < |s| :: GroupedAt(s, q, group, letter, value)
  }

  ghost predicate AllSpaces(s: string) { forall ch | ch in s :: ch == ' ' }

  function SignOf(letter: char, negative: bool, f: Flags): string
  {
    if letter != 'd' && letter != 'i' then ""
    else if negative then "-"
    else if f.plus then "+"
    else if f.space then " "
    else ""
  }

  function PrefixOf(letter: char, value: nat, f: Flags): string
  {
    if !f.pound || value == 0 then "" else if letter == 'x' then "0x" else if letter == 'X' then "0X" else ""
  }

  function AbsoluteWidth(width: int): nat { if width < 0 then -width else width }

  // Left-justified, by the flag or by a negative width argument.
  predicate LeftJustified(f: Flags, width: int) { f.minus || width < 0 }

  // The zero flag counts only without the minus flag and without a precision.
  predicate ZeroPadded(f: Flags, precision: int) { f.zero && !f.minus && precision < 0 }

  /* Digits */

  lemma DigitChar(letter: char, r: nat)
    requires IsConversion(letter) && r < Radix(letter)
    ensures var b := BaseFor(letter);
      && b.base == Radix(letter) == |b.digits| && b.group == GroupSize(letter)
      && DigitValue(b.digits[r]) == r && IsDigitOf(b.digits[r], letter)
  {
    assert BASE_X.digits[..10] == BASE_D.digits && BASE_UPPER_X.digits[..10] == BASE_D.digits;
    assert forall d | 0 <= d < 10 :: BASE_D.digits[d] as int == '0' as int + d;
    assert forall d | 0 <= d < 8 :: BASE_O.digits[d] as int == '0' as int + d;
    assert forall d | 10 <= d < 16 :: BASE_X.digits[d] as int == 'a' as int + (d - 10);
    assert forall d | 10 <= d < 16 :: BASE_UPPER_X.digits[d] as int == 'A' as int + (d - 10);
  }

  lemma BaseIs(letter: char)
    requires IsConversion(letter)
    ensures var b := BaseFor(letter); IsBase(b) && b.base == Radix(letter) >= 8 && b.group == GroupSize(letter)
  {}

  lemma ReadDigit(c: char, comma: bool, t: string, radix: nat, soFar: int)
    requires c != ','
    ensures ReadOn([c] + (if comma then "," else "") + t, radix, soFar) ==
      ReadOn(t, radix, radix * soFar + DigitValue(c))
  {
    var rest := (if comma then "," else "") + t;
    assert [c] + (if comma then "," else "") + t == [c] + rest;
    assert ([c] + rest)[1..] == rest;
    assert comma ==> rest[0] == ',' && rest[1..] == t;
    assert !comma ==> rest == t;
  }

  // The digits of a value are read as the value.
  lemma {:induction false} ReadsValue(value: nat, letter: char, group: bool, cnt: nat, t: string)
    requires IsConversion(letter)
    ensures var s := Positional(value, BaseFor(letter), group, cnt);
      ReadOn(s + t, Radix(letter), 0) == ReadOn(t, Radix(letter), value)
    decreases value
  {
    var b := BaseFor(letter);
    BaseIs(letter);
    hide Positional, ReadOn, BaseFor, DigitValue, IsBase, IsConversion, Radix;
    if value == 0 {
      PositionalNone(b, group, cnt);
      assert "" + t == t;
    } else {
      PositionalStep(value, b, group, cnt, t);
      Smaller(value, b.base);
      A.DivMod(value, b.base);
      ReadsValue(value / b.base, letter, group, cnt + 1, DigitText(value, b, group, cnt) + t);
      DigitChar(letter, value % b.base);
      ReadDigit(b.digits[value % b.base], group && cnt > 0 && cnt % b.group == 0, t, b.base, value / b.base);
      Recompose(value, b.base);
    }
  }

  lemma Smaller(value: nat, base: nat)
    requires value > 0 && base >= 8
    ensures value / base < value
  {
    QuotientAtMost(value, base);
  }

  lemma Recompose(value: nat, base: nat)
    requires base > 0
    ensures base * (value / base) + value % base == value
  {}

  lemma {:induction false} ReadsZeros(n: int, t: string, radix: nat)
    ensures ReadOn(Repeat('0', n) + t, radix, 0) == ReadOn(t, radix, 0)
  {
    if n > 0 {
      assert (Repeat('0', n) + t)[1..] == Repeat('0', n - 1) + t;
      ReadsZeros(n - 1, t, radix);
    } else {
      assert Repeat('0', n) + t == t;
    }
  }

  // Only digits and separators, and separators only with the grouping flag.
  ghost predicate OnlyDigitsOf(s: string, letter: char, group: bool)
  {
    forall q | 0 <= q < |s| :: (s[q] == ',' && group) || IsDigitOf(s[q], letter)
  }

  lemma {:induction false} PositionalChars(value: nat, letter: char, group: bool, cnt: nat)
    requires IsConversion(letter)
    ensures OnlyDigitsOf(Positional(value, BaseFor(letter), group, cnt), letter, group)
    decreases value
  {
    var b := BaseFor(letter);
    BaseIs(letter);
    hide Positional, BaseFor, IsDigitOf, IsBase, IsConversion, Radix;
    if value == 0 {
      PositionalNone(b, group, cnt);
    } else {
      PositionalUnfold(value, b, group, cnt);
      Smaller(value, b.base);
      A.DivMod(value, b.base);
      PositionalChars(value / b.base, letter, group, cnt + 1);
      DigitChar(letter, value % b.base);
    }
  }

  /* How many digits */

  lemma {:induction false} NumDigitsIff(value: nat, radix: nat, k: nat)
    requires radix >= 8
    ensures k < NumDigits(value, radix) <==> value >= Power(radix, k)
    decreases k
  {
    if k > 0 {
      if value > 0 {
        NumDigitsIff(value / radix, radix, k - 1);
        AtLeastIff(value, radix, Power(radix, k - 1));
      } else {
        PowerPositive(radix, k);
      }
    }
  }

  lemma AtLeastIff(value: nat, radix: nat, p: nat)
    requires radix > 0
    ensures value / radix >= p <==> value >= radix * p
  {
    A.DivMod(value, radix);
    if value / radix >= p {
      A.MulMono(p, value / radix, radix);
    } else {
      A.MulMono(value / radix + 1, p, radix);
      A.MulDist(value / radix, 1, radix);
    }
  }

  lemma {:induction false} PowerPositive(radix: nat, k: nat)
    requires radix > 0
    ensures Power(radix, k) > 0
  {
    if k > 0 {
      PowerPositive(radix, k - 1);
      A.MulMono(1, Power(radix, k - 1), radix);
    }
  }

  /* Grouping */

  // The same about the text of the digits above the lowest cnt, where every digit is one of the value.
  ghost predicate OwnGroupedAt(s: string, q: nat, group: bool, size: nat, cnt: nat)
    requires q < |s| && size > 0
  {
    var k := DigitsIn(s[q + 1..]) + cnt;
    if s[q] == ',' then q > 0 && s[q - 1] != ','
    else q + 1 < |s| && s[q + 1] == ',' <==> group && k > 0 && k % size == 0
  }

  lemma OwnGroupedLow(high: string, c: char, comma: bool, q: nat, group: bool, size: nat, cnt: nat)
    requires size > 0 && c != ',' && (comma <==> group && cnt > 0 && cnt % size == 0)
    requires q < |high| ==> OwnGroupedAt(high, q, group, size, cnt + 1)
    requires q < |high + ([c] + if comma then "," else "")|
    ensures OwnGroupedAt(high + ([c] + if comma then "," else ""), q, group, size, cnt)
  {
    var low := [c] + if comma then "," else "";
    var s := high + low;
    OneDigit(c, comma);
    if q < |high| {
      assert s[q + 1..] == high[q + 1..] + low;
      DigitsInBoth(high[q + 1..], low);
    } else if q == |high| {
      assert s[q + 1..] == if comma then "," else "";
      NoDigitsIn();
    }
  }

  lemma NoDigitsIn()
    ensures DigitsIn("") == DigitsIn(",") == 0
  {
    assert ","[1..] == "";
  }

  lemma {:induction false} OwnGrouped(value: nat, letter: char, group: bool, cnt: nat, q: nat)
    requires IsConversion(letter) && q < |Positional(value, BaseFor(letter), group, cnt)|
    ensures OwnGroupedAt(Positional(value, BaseFor(letter), group, cnt), q, group, GroupSize(letter), cnt)
    decreases value
  {
    var b := BaseFor(letter);
    BaseIs(letter);
    hide Positional, BaseFor, IsBase, IsConversion, Radix, OwnGroupedAt, DigitsIn;
    if value == 0 {
      PositionalNone(b, group, cnt);
    } else {
      var high, c := Positional(value / b.base, b, group, cnt + 1), b.digits[value % b.base];
      PositionalUnfold(value, b, group, cnt);
      Smaller(value, b.base);
      if q < |high| {
        OwnGrouped(value / b.base, letter, group, cnt + 1, q);
      }
      NoSeparator(b, value % b.base);
      OwnGroupedLow(high, c, group && cnt > 0 && cnt % b.group == 0, q, group, b.group, cnt);
    }
  }

  // With leading zeros, and the digits counted by the value.
  lemma WithZeros(value: nat, letter: char, group: bool, zeros: int)
    requires IsConversion(letter)
    ensures Grouped(Repeat('0', zeros) + Positional(value, BaseFor(letter), group, 0), group, letter, value)
  {
    var s := Repeat('0', zeros) + Positional(value, BaseFor(letter), group, 0);
    hide Positional, BaseFor, IsBase, IsConversion, Repeat, GroupedAt;
    BaseIs(letter);
    forall q: nat | q < |s|
      ensures GroupedAt(s, q, group, letter, value)
    {
      AtPosition(value, letter, group, zeros, q);
    }
  }

  lemma AtPosition(value: nat, letter: char, group: bool, zeros: int, q: nat)
    requires IsConversion(letter)
    requires q < |Repeat('0', zeros) + Positional(value, BaseFor(letter), group, 0)|
    ensures GroupedAt(Repeat('0', zeros) + Positional(value, BaseFor(letter), group, 0), q, group, letter, value)
  {
    hide *;
    BaseIs(letter);
    var z, d := Repeat('0', zeros), Positional(value, BaseFor(letter), group, 0);
    NumDigitsIff(value, Radix(letter), DigitsIn((z + d)[q + 1..]));
    FirstDigit(value, letter, group);
    if q < |z| {
      RepeatFacts('0', zeros);
      OnZero(z, d, q);
      ZeroGrouped(z + d, q, group, letter, value);
    } else {
      OwnGrouped(value, letter, group, 0, q - |z|);
      OwnPart(z, d, q - |z|, group, letter, value);
    }
  }

  lemma OwnPart(z: string, d: string, q: nat, group: bool, letter: char, value: nat)
    requires q < |d| && d[0] != ',' && OwnGroupedAt(d, q, group, GroupSize(letter), 0)
    requires var k := DigitsIn((z + d)[|z| + q + 1..]);
      k < DigitsIn(d) ==> value >= Power(Radix(letter), k)
    ensures GroupedAt(z + d, |z| + q, group, letter, value)
  {
    hide Radix, GroupSize, Power, DigitsIn;
    assert (z + d)[|z| + q + 1..] == d[q + 1..];
    DigitsBehind(d, q);
  }

  lemma OnZero(z: string, d: string, q: nat)
    requires q < |z| && (forall i | 0 <= i < |z| :: z[i] == '0') && (d != "" ==> d[0] != ',')
    ensures (z + d)[q] == '0' && (q + 1 < |z + d| ==> (z + d)[q + 1] != ',')
    ensures DigitsIn((z + d)[q + 1..]) >= DigitsIn(d)
  {
    assert (z + d)[q + 1..] == z[q + 1..] + d;
    DigitsInBoth(z[q + 1..], d);
  }

  lemma ZeroGrouped(s: string, q: nat, group: bool, letter: char, value: nat)
    requires q < |s| && s[q] == '0' && (q + 1 < |s| ==> s[q + 1] != ',')
    requires value < Power(Radix(letter), DigitsIn(s[q + 1..]))
    ensures GroupedAt(s, q, group, letter, value)
  {}

  lemma FirstDigit(value: nat, letter: char, group: bool)
    requires IsConversion(letter)
    ensures var d := Positional(value, BaseFor(letter), group, 0);
      (d != "" ==> d[0] != ',') && DigitsIn(d) == NumDigits(value, Radix(letter))
  {
    var d := Positional(value, BaseFor(letter), group, 0);
    BaseIs(letter);
    OwnDigits(value, BaseFor(letter), group, 0);
    if d != "" {
      OwnGrouped(value, letter, group, 0, 0);
    }
  }

  lemma DigitsBehind(d: string, q: nat)
    requires q < |d|
    ensures DigitsIn(d[q + 1..]) <= DigitsIn(d) - if d[q] == ',' then 0 else 1
  {
    assert d == d[..q] + [d[q]] + d[q + 1..];
    DigitsInBoth(d[..q] + [d[q]], d[q + 1..]);
    DigitsInBoth(d[..q], [d[q]]);
    assert [d[q]][1..] == "";
  }

  /* The whole text */

  lemma {:induction false} RepeatJoin(c: char, m: nat, n: nat)
    ensures Repeat(c, m) + Repeat(c, n) == Repeat(c, m + n)
  {
    if m > 0 {
      RepeatJoin(c, m - 1, n);
    }
  }

  // The digits of a conversion, as zeros and the digits of the value.
  lemma BodyShape(value: nat, letter: char, c: Conversion) returns (zeros: nat)
    requires IsConversion(letter)
    ensures Body(value, BaseFor(letter), c) == Repeat('0', zeros) + Positional(value, BaseFor(letter), c.flags.group, 0)
  {
    var b := BaseFor(letter);
    BaseIs(letter);
    hide Positional, BaseFor, IsBase, IsConversion, Repeat;
    var d := Positional(value, b, c.flags.group, 0);
    var precision := if c.precision < 0 then 1 else c.precision;
    var n := (if precision < 63 then precision else 63) - |d|;
    RepeatFacts('0', n);
    var m: nat := if n < 0 then 0 else n;
    SameRepeat('0', n, m);
    zeros := m;
    if Body(value, b, c) != Repeat('0', m) + d {
      zeros := m + 1;
      RepeatJoin('0', 1, m);
      OneRepeat('0');
      assert "0" + (Repeat('0', m) + d) == ("0" + Repeat('0', m)) + d;
    }
  }

  lemma SameRepeat(c: char, n: int, m: nat)
    requires m == if n < 0 then 0 else n
    ensures Repeat(c, n) == Repeat(c, m)
  {}

  lemma OneRepeat(c: char)
    ensures Repeat(c, 1) == [c] && Repeat(c, 0) == ""
  {}

  lemma Spaces(n: nat)
    ensures AllSpaces(Repeat(' ', n))
  {
    RepeatFacts(' ', n);
  }

  // What is printed, taken apart.
  datatype Parts = Parts(lead: string, sign: string, prefix: string, digits: string, tail: string)

  function Joined(p: Parts): string { p.lead + p.sign + p.prefix + p.digits + p.tail }

  // A conversion of a value by its letter, with flags, width and precision as written in the format.
  function Printed(value: nat, negative: bool, letter: char, f: Flags, width: int, precision: int): string
    requires IsConversion(letter)
  {
    Rendered(value, letter == 'd' || letter == 'i', negative, BaseFor(letter), Combine(f, width, precision))
  }

  // How the digits of a value are written, with any number of leading zeros.
  ghost predicate WritesValue(digits: string, value: nat, letter: char, group: bool)
  {
    && OnlyDigitsOf(digits, letter, group) && ReadOn(digits, Radix(letter), 0) == value
    && Grouped(digits, group, letter, value)
  }

  lemma ZerosAndDigits(value: nat, letter: char, group: bool, zeros: nat)
    requires IsConversion(letter)
    ensures WritesValue(Repeat('0', zeros) + Positional(value, BaseFor(letter), group, 0), value, letter, group)
  {
    var z, d := Repeat('0', zeros), Positional(value, BaseFor(letter), group, 0);
    WithZeros(value, letter, group, zeros);
    PositionalChars(value, letter, group, 0);
    RepeatFacts('0', zeros);
    ReadsZeros(zeros, d, Radix(letter));
    ReadsValue(value, letter, group, 0, "");
    assert d + "" == d;
    ZeroIsDigit(letter);
    hide Positional, Grouped, IsDigitOf, BaseFor, Repeat;
  }

  lemma ZeroIsDigit(letter: char)
    requires IsConversion(letter)
    ensures IsDigitOf('0', letter)
  {}

  /** Every integer conversion, for every value, flags, width and precision: spaces, the sign, the prefix directly in
      front of the zeros and digits, and spaces. The digits are those of the radix and of the case of the letter, read
      as the value, and are grouped as asked. Spaces come first or last as the flags say, and only up to the width. */
  lemma PrintsValue(value: nat, negative: bool, letter: char, f: Flags, width: int, precision: int)
      returns (p: Parts)
    requires IsConversion(letter)
    ensures Printed(value, negative, letter, f, width, precision) == Joined(p)
    ensures p.sign == SignOf(letter, negative, f) && p.prefix == PrefixOf(letter, value, f)
    ensures WritesValue(p.digits, value, letter, f.group)
    ensures AllSpaces(p.lead) && AllSpaces(p.tail)
    ensures p.lead != "" ==> !LeftJustified(f, width) && !ZeroPadded(f, precision)
    ensures p.tail != "" ==> LeftJustified(f, width)
    ensures |Joined(p)| >= AbsoluteWidth(width)
    ensures |Joined(p)| > AbsoluteWidth(width) && !(LeftJustified(f, width) && ZeroPadded(f, precision)) ==>
      p.lead == "" && p.tail == ""
    ensures (ZeroPadded(f, precision) ==> |Joined(p)| > AbsoluteWidth(width) && !LeftJustified(f, width)) ==>
      HasDigits(p.digits, value, letter, f, precision)
  {
    hide *;
    var pad, zeros;
    p, pad, zeros := TakenApart(value, negative, letter, f, width, precision);
    Sides(f, width, precision, pad);
    ZerosAndDigits(value, letter, f.group, zeros);
    LongEnough(value, negative, letter, f, width, precision, pad);
    DigitsAsked(value, letter, f, width, precision);
  }

  // The digits are as many as the precision asks for, or as many as the value has, with a zero in front for the
  // # flag in octal. The buffer ends at 63 zeros, and separators would count towards the precision.
  predicate HasDigits(digits: string, value: nat, letter: char, f: Flags, precision: int)
  {
    var asked := if precision < 0 then 1 else precision;
    var own := NumDigits(value, Radix(letter)) + if f.pound && letter == 'o' then 1 else 0;
    asked <= 63 && !f.group ==> DigitsIn(digits) == if own < asked then asked else own
  }

  lemma DigitsAsked(value: nat, letter: char, f: Flags, width: int, precision: int)
    requires IsConversion(letter)
    ensures HasDigits(Body(value, BaseFor(letter), Combine(f, width, precision)), value, letter, f, precision)
  {
    PrecisionMet(value, BaseFor(letter), Combine(f, width, precision));
    hide Body, DigitsIn, NumDigits;
  }

  lemma TakenApart(value: nat, negative: bool, letter: char, f: Flags, width: int, precision: int)
      returns (p: Parts, pad: nat, zeros: nat)
    requires IsConversion(letter)
    ensures Printed(value, negative, letter, f, width, precision) == Joined(p)
    ensures p.sign == SignOf(letter, negative, f) && p.prefix == PrefixOf(letter, value, f)
    ensures p.digits == Repeat('0', zeros) + Positional(value, BaseFor(letter), f.group, 0)
    ensures p.lead == LeadOf(Combine(f, width, precision), pad) && p.tail == TailOf(Combine(f, width, precision), pad)
    ensures pad ==
      Padding(value, letter == 'd' || letter == 'i', negative, BaseFor(letter), Combine(f, width, precision))
    ensures (ZeroPadded(f, precision) ==> pad == 0) ==>
      p.digits == Body(value, BaseFor(letter), Combine(f, width, precision))
  {
    var c, b := Combine(f, width, precision), BaseFor(letter);
    var signed := letter == 'd' || letter == 'i';
    CombinedFlags(f, width, precision);
    BaseIs(letter);
    SignsAgree(letter, negative, f, width, precision);
    PrefixesAgree(letter, value, f, width, precision);
    hide *;
    pad := Padding(value, signed, negative, b, c);
    var own := BodyShape(value, letter, c);
    var d := Positional(value, b, f.group, 0);
    zeros := (if c.flags.zero then pad else 0) + own;
    RenderedParts(value, signed, negative, b, c, SignOf(letter, negative, f), PrefixOf(letter, value, f), own, d);
    p := Parts(LeadOf(c, pad), SignOf(letter, negative, f), PrefixOf(letter, value, f), Repeat('0', zeros) + d,
               TailOf(c, pad));
    PrintedIs(value, negative, letter, f, width, precision, p);
  }

  lemma PrintedIs(value: nat, negative: bool, letter: char, f: Flags, width: int, precision: int, p: Parts)
    requires IsConversion(letter)
    ensures IsBase(BaseFor(letter))
    ensures Printed(value, negative, letter, f, width, precision) ==
      Rendered(value, letter == 'd' || letter == 'i', negative, BaseFor(letter), Combine(f, width, precision))
    ensures Joined(p) == p.lead + p.sign + p.prefix + p.digits + p.tail
  {}

  lemma CombinedFlags(f: Flags, width: int, precision: int)
    ensures var c := Combine(f, width, precision);
      && c.width == AbsoluteWidth(width) && c.flags.group == f.group
      && c.flags.minus == LeftJustified(f, width) && c.flags.zero == ZeroPadded(f, precision)
  {}

  function LeadOf(c: Conversion, pad: nat): string { if !c.flags.minus && !c.flags.zero then Repeat(' ', pad) else "" }

  function TailOf(c: Conversion, pad: nat): string { if c.flags.minus then Repeat(' ', pad) else "" }

  lemma Sides(f: Flags, width: int, precision: int, pad: nat)
    ensures var c := Combine(f, width, precision);
      && (pad == 0 ==> LeadOf(c, pad) == "" && TailOf(c, pad) == "")
      && AllSpaces(LeadOf(c, pad)) && AllSpaces(TailOf(c, pad))
      && (LeadOf(c, pad) != "" ==> !LeftJustified(f, width) && !ZeroPadded(f, precision))
      && (TailOf(c, pad) != "" ==> LeftJustified(f, width))
  {
    CombinedFlags(f, width, precision);
    Spaces(pad);
  }

  lemma RenderedParts(value: nat, signed: bool, negative: bool, b: Base, c: Conversion, sign: string, prefix: string,
                      zeros: nat, d: string)
    requires IsBase(b) && sign == SignText(signed, negative, c.flags) && prefix == PrefixText(value, b, c.flags)
    requires Body(value, b, c) == Repeat('0', zeros) + d
    ensures var pad := Padding(value, signed, negative, b, c);
      var extra := if c.flags.zero then pad else 0;
      Rendered(value, signed, negative, b, c) ==
      LeadOf(c, pad) + sign + prefix + (Repeat('0', extra + zeros) + d) + TailOf(c, pad)
  {
    hide IsBase, SignText, PrefixText, Body, Repeat, Padding;
    var pad := Padding(value, signed, negative, b, c);
    var extra := if c.flags.zero then pad else 0;
    RepeatJoin('0', extra, zeros);
    OneRepeat('0');
    HeadParts(LeadOf(c, pad), sign, prefix, Repeat('0', extra), Repeat('0', zeros), d, TailOf(c, pad));
  }

  lemma LongEnough(value: nat, negative: bool, letter: char, f: Flags, width: int, precision: int, pad: nat)
    requires IsConversion(letter)
    requires pad ==
      Padding(value, letter == 'd' || letter == 'i', negative, BaseFor(letter), Combine(f, width, precision))
    ensures var n := |Printed(value, negative, letter, f, width, precision)|;
      && n >= AbsoluteWidth(width)
      && (n > AbsoluteWidth(width) && !(LeftJustified(f, width) && ZeroPadded(f, precision)) ==> pad == 0)
  {
    var c, signed := Combine(f, width, precision), letter == 'd' || letter == 'i';
    CombinedFlags(f, width, precision);
    RepeatFacts(' ', Padding(value, signed, negative, BaseFor(letter), c));
    RepeatFacts('0', Padding(value, signed, negative, BaseFor(letter), c));
    hide Combine, AbsoluteWidth, SignText, PrefixText, Body, Repeat;
  }

  lemma HeadParts(lead: string, sign: string, prefix: string, extra: string, zeros: string, d: string, tail: string)
    ensures lead + sign + prefix + extra + (zeros + d) + tail == lead + sign + prefix + (extra + zeros + d) + tail
  {}

  lemma SignsAgree(letter: char, negative: bool, f: Flags, width: int, precision: int)
    requires IsConversion(letter)
    ensures SignText(letter == 'd' || letter == 'i', negative, Combine(f, width, precision).flags) ==
      SignOf(letter, negative, f)
  {}

  lemma PrefixesAgree(letter: char, value: nat, f: Flags, width: int, precision: int)
    requires IsConversion(letter)
    ensures PrefixText(value, BaseFor(letter), Combine(f, width, precision).flags) == PrefixOf(letter, value, f)
  {}

  // The integer conversions of __vprintf, for a value of 64 bits.
  method PrintInteger(letter: char, value: int, f: Flags, width: int, precision: int) returns (out: string)
    requires IsConversion(letter)
    requires if letter == 'd' || letter == 'i' then -0x8000_0000_0000_0000 <= value < 0x8000_0000_0000_0000
             else 0 <= value < 0x1_0000_0000_0000_0000
    ensures out == Printed(if value < 0 then -value else value, value < 0, letter, f, width, precision)
  {
    hide Rendered, Combine;
    var c := Combine(f, width, precision);
    if letter == 'd' || letter == 'i' {
      out := FormatInteger(if value < 0 then -value else value, true, value < 0, BASE_D, c);
    } else {
      var b := if letter == 'o' then BASE_O else if letter == 'u' then BASE_D else if letter == 'x' then BASE_X
               else BASE_UPPER_X;
      out := FormatInteger(value, false, false, b, c);
    }
  }
}
