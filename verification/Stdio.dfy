/** Integer conversions of printf, atoi, and vsnprintf's bounded buffer. The characters that a
    conversion passes to its output function are the string it returns here. */
module Stdio {
  import opened Options
  import A = IntegerFacts

  datatype Flags = Flags(minus: bool, plus: bool, space: bool, pound: bool, zero: bool, group: bool)

  // precision -1 means that none was given.
  datatype Conversion = Conversion(flags: Flags, width: int, precision: int)

  datatype Base = Base(base: nat, digits: string, x: Option<char>, group: nat)

  const BASE_D := Base(10, "0123456789", None, 3)
  const BASE_O := Base(8, "01234567", None, 3)
  const BASE_X := Base(16, "0123456789abcdef", Some('x'), 4)
  const BASE_UPPER_X := Base(16, "0123456789ABCDEF", Some('X'), 4)

  predicate IsBase(b: Base) { b == BASE_D || b == BASE_O || b == BASE_X || b == BASE_UPPER_X }

  // The base of an integer conversion: lines 224 and 272-275.
  function BaseFor(letter: char): Base
  {
    if letter == 'o' then BASE_O
    else if letter == 'x' then BASE_X
    else if letter == 'X' then BASE_UPPER_X
    else BASE_D
  }

  // Lines 373-376 and 390-416 of parse_conversion: flags, width and precision as given in the format
  // or by '*' arguments, put together.
  function Combine(flags: Flags, width: int, precision: int): Conversion
  {
    var f := flags;
    var f := if f.minus then f.(zero := false) else f;
    var f := if f.plus then f.(space := false) else f;
    var f := if width < 0 then f.(minus := true) else f;
    var p := if precision < 0 then -1 else precision;
    Conversion(if p >= 0 then f.(zero := false) else f, if width < 0 then -width else width, p)
  }

  /* The text of a conversion */

  function Repeat(c: char, n: int): string
    decreases n
  {
    if n <= 0 then "" else [c] + Repeat(c, n - 1)
  }

  // The digits of value above the lowest cnt ones, with separators where grouping asks for them.
  function Positional(value: nat, b: Base, group: bool, cnt: nat): string
    requires IsBase(b)
    decreases value
  {
    if value == 0 then ""
    else
      Positional(value / b.base, b, group, cnt + 1)
      + [b.digits[value % b.base]]
      + (if group && cnt > 0 && cnt % b.group == 0 then "," else "")
  }

  // Section 7.19.6.1 of ISO C99: a signed conversion begins with a minus sign if the value is negative, and
  // otherwise with what the plus flag, or without it the space flag, asks for.
  function SignText(isSigned: bool, negative: bool, f: Flags): string
  {
    if !isSigned then "" else if negative then "-" else if f.plus then "+" else if f.space then " " else ""
  }

  function PrefixText(value: nat, b: Base, f: Flags): string
  {
    if f.pound && value != 0 && b.x.Some? then ['0', b.x.value] else ""
  }

  // The digits with the zeros that the precision asks for, up to the size of the buffer.
  function Body(value: nat, b: Base, c: Conversion): string
    requires IsBase(b)
  {
    var digits := Positional(value, b, c.flags.group, 0);
    var precision := if c.precision < 0 then 1 else c.precision;
    var wanted := if precision < 63 then precision else 63;
    var s := Repeat('0', wanted - |digits|) + digits;
    if c.flags.pound && b.base == 8 && (s == "" || s[0] != '0') then "0" + s else s
  }

  function Natural(value: nat, isSigned: bool, negative: bool, b: Base, c: Conversion): nat
    requires IsBase(b)
  {
    |SignText(isSigned, negative, c.flags)| + |PrefixText(value, b, c.flags)| + |Body(value, b, c)|
  }

  function Padding(value: nat, isSigned: bool, negative: bool, b: Base, c: Conversion): nat
    requires IsBase(b)
  {
    var n := c.width - Natural(value, isSigned, negative, b, c);
    if n < 0 then 0 else n
  }

  // What comes before the digits: spaces, the sign, the prefix and zeros.
  function HeadText(sign: string, prefix: string, f: Flags, pad: nat): string
  {
    (if !f.minus && !f.zero then Repeat(' ', pad) else "") + sign + prefix + (if f.zero then Repeat('0', pad) else "")
  }

  function Rendered(value: nat, isSigned: bool, negative: bool, b: Base, c: Conversion): string
    requires IsBase(b)
  {
    var pad := Padding(value, isSigned, negative, b, c);
    HeadText(SignText(isSigned, negative, c.flags), PrefixText(value, b, c.flags), c.flags, pad)
    + Body(value, b, c)
    + (if c.flags.minus then Repeat(' ', pad) else "")
  }

  lemma {:induction false} RepeatFacts(c: char, n: int)
    ensures |Repeat(c, n)| == if n < 0 then 0 else n
    ensures forall i | 0 <= i < |Repeat(c, n)| :: Repeat(c, n)[i] == c
  {
    if n > 0 {
      RepeatFacts(c, n - 1);
    }
  }

  /* The field width */

  /** A conversion takes as many characters as its width or its own text needs, unless the zero
      flag survives beside a left-justified field: then it is padded on both sides. */
  lemma FieldWidth(value: nat, isSigned: bool, negative: bool, b: Base, c: Conversion)
    requires IsBase(b) && c.width >= 0
    ensures var n := Natural(value, isSigned, negative, b, c);
      |Rendered(value, isSigned, negative, b, c)| == (if n < c.width then c.width else n)
      <==> !(c.flags.minus && c.flags.zero && n < c.width)
  {
    var pad := Padding(value, isSigned, negative, b, c);
    RepeatFacts(' ', pad);
    RepeatFacts('0', pad);
  }

  /** The two flags come together exactly for a zero flag without a minus flag, no precision, and a
      negative width argument; section 7.19.6.1 of ISO C99 says that 0 is then ignored. */
  lemma BothFlags(f: Flags, width: int, precision: int)
    ensures var c := Combine(f, width, precision);
      && c.width >= 0
      && (c.flags.minus && c.flags.zero <==> f.zero && !f.minus && width < 0 && precision < 0)
  {}

  /* The precision */

  // The digits of a text; the separators of the grouping flag are none.
  function DigitsIn(s: string): nat
  {
    if s == "" then 0 else (if s[0] == ',' then 0 else 1) + DigitsIn(s[1..])
  }

  function NumDigits(value: nat, base: nat): nat
    requires base >= 2
  {
    if value == 0 then 0 else 1 + NumDigits(value / base, base)
  }

  lemma {:induction false} DigitsInBoth(s: string, t: string)
    ensures DigitsIn(s + t) == DigitsIn(s) + DigitsIn(t)
  {
    if s == "" {
      assert s + t == t;
    } else {
      assert (s + t)[1..] == s[1..] + t;
      DigitsInBoth(s[1..], t);
    }
  }

  lemma {:induction false} DigitsInZeros(n: int)
    ensures DigitsIn(Repeat('0', n)) == |Repeat('0', n)| == if n < 0 then 0 else n
  {
    if n > 0 {
      DigitsInZeros(n - 1);
      assert Repeat('0', n)[1..] == Repeat('0', n - 1);
    }
  }

  lemma DigitTextIs(value: nat, b: Base, group: bool, cnt: nat)
    requires IsBase(b)
    ensures DigitsIn(DigitText(value, b, group, cnt)) == 1
    ensures |DigitText(value, b, group, cnt)| == if group && cnt > 0 && cnt % b.group == 0 then 2 else 1
    ensures 0 < value < b.base ==> DigitText(value, b, group, cnt)[0] != '0'
  {
    var c := b.digits[value % b.base];
    NoSeparator(b, value % b.base);
    if 0 < value < b.base {
      SmallRemainder(value, b.base);
      NoSeparator(b, value);
    }
    hide IsBase;
    OneDigit(c, group && cnt > 0 && cnt % b.group == 0);
  }

  lemma SmallRemainder(value: nat, base: nat)
    requires value < base
    ensures value % base == value
  {
    A.DivUnique(value, base, 0);
    A.DivMod(value, base);
  }

  lemma OneDigit(c: char, separated: bool)
    requires c != ','
    ensures DigitsIn([c] + if separated then "," else "") == 1
  {
    var t := [c] + if separated then "," else "";
    assert t[1..] == if separated then "," else "";
    assert ","[1..] == "";
  }

  lemma NoSeparator(b: Base, i: nat)
    requires IsBase(b) && i < b.base
    ensures |b.digits| == b.base && b.digits[i] != ',' && (i > 0 ==> b.digits[i] != '0')
  {
    if b == BASE_D || b == BASE_O {
    } else if b == BASE_X {
    } else {
    }
  }

  // The digits of a value, and whether separators come between them: there are some exactly when the next
  // multiple of the group size is below the top digit.
  lemma {:induction false} OwnDigits(value: nat, b: Base, group: bool, cnt: nat)
    requires IsBase(b) && cnt <= b.group
    ensures var s, n := Positional(value, b, group, cnt), NumDigits(value, b.base);
      && DigitsIn(s) == n <= |s| && (s == "" <==> value == 0) && (value > 0 ==> s[0] != '0')
      && (group ==> (|s| > n <==> n > 0 && cnt + n > b.group)) && (!group ==> |s| == n)
    decreases value
  {
    hide Positional;
    if value == 0 {
      PositionalNone(b, group, cnt);
    } else {
      var high, low := Positional(value / b.base, b, group, cnt + 1), DigitText(value, b, group, cnt);
      PositionalUnfold(value, b, group, cnt);
      DigitTextIs(value, b, group, cnt);
      DigitsInBoth(high, low);
      if cnt < b.group {
        OwnDigits(value / b.base, b, group, cnt + 1);
      } else {
        HighDigits(value / b.base, b, group, cnt + 1);
      }
    }
  }

  lemma {:induction false} HighDigits(value: nat, b: Base, group: bool, cnt: nat)
    requires IsBase(b)
    ensures var s, n := Positional(value, b, group, cnt), NumDigits(value, b.base);
      && DigitsIn(s) == n <= |s| && (s == "" <==> value == 0) && (value > 0 ==> s[0] != '0') && (!group ==> |s| == n)
    decreases value
  {
    hide Positional;
    if value == 0 {
      PositionalNone(b, group, cnt);
    } else {
      var high, low := Positional(value / b.base, b, group, cnt + 1), DigitText(value, b, group, cnt);
      PositionalUnfold(value, b, group, cnt);
      DigitTextIs(value, b, group, cnt);
      DigitsInBoth(high, low);
      HighDigits(value / b.base, b, group, cnt + 1);
    }
  }

  /** Section 7.19.6.1 of ISO C99: the precision is the minimum number of digits, and the # flag makes an octal
      conversion begin with a zero. The number of digits is the larger of the precision and the value's own
      digits, unless the precision is the larger and it exceeds 63, where the buffer ends, or separators
      are among the digits, since they count towards the precision. */
  lemma PrecisionMet(value: nat, b: Base, c: Conversion)
    requires IsBase(b)
    ensures var p, n := if c.precision < 0 then 1 else c.precision, NumDigits(value, b.base);
      var own := if c.flags.pound && b.base == 8 then n + 1 else n;
      DigitsIn(Body(value, b, c)) == (if own < p then p else own)
      <==> p <= own || (p <= 63 && !(c.flags.group && n > b.group))
  {
    hide Body;
    BodyDigits(value, b, c);
    OwnDigits(value, b, c.flags.group, 0);
  }

  lemma BodyDigits(value: nat, b: Base, c: Conversion)
    requires IsBase(b)
    ensures var p, digits := if c.precision < 0 then 1 else c.precision, Positional(value, b, c.flags.group, 0);
      var zeros := (if p < 63 then p else 63) - |digits|;
      DigitsIn(Body(value, b, c)) ==
      if zeros > 0 then zeros + DigitsIn(digits)
      else DigitsIn(digits) + if c.flags.pound && b.base == 8 then 1 else 0
  {
    hide Positional, DigitsIn;
    var p := if c.precision < 0 then 1 else c.precision;
    var digits := Positional(value, b, c.flags.group, 0);
    OwnDigits(value, b, c.flags.group, 0);
    var zeros := (if p < 63 then p else 63) - |digits|;
    DigitsInZeros(zeros);
    RepeatFacts('0', zeros);
    var s := Repeat('0', zeros) + digits;
    if zeros <= 0 {
      assert s == digits;
      DigitsInBoth("0", digits);
      OneZero();
    } else {
      DigitsInBoth(Repeat('0', zeros), digits);
      assert s[0] == '0';
    }
  }

  lemma OneZero()
    ensures DigitsIn("0") == 1
  {}

  /* format_integer */

  function Reversed(s: string): string
  {
    if s == "" then "" else Reversed(s[1..]) + [s[0]]
  }

  lemma {:induction false} ReversedMore(s: string, c: char)
    ensures Reversed(s + [c]) == [c] + Reversed(s)
  {
    if s != "" {
      assert (s + [c])[1..] == s[1..] + [c];
      ReversedMore(s[1..], c);
    }
  }

  function Pow8(n: nat): nat
  {
    if n == 0 then 1 else 8 * Pow8(n - 1)
  }

  lemma Pow8At22()
    ensures Pow8(22) == 0x4_0000_0000_0000_0000
  {
    assert Pow8(4) == 0x1000;
    assert Pow8(8) == 0x100_0000;
    assert Pow8(12) == 0x10_0000_0000;
    assert Pow8(16) == 0x1_0000_0000_0000;
    assert Pow8(20) == 0x1000_0000_0000_0000;
  }

  lemma FewDigits(value: nat, base: nat, room: nat)
    requires base >= 8 && value < Pow8(room) && value > 0
    ensures room > 0 && value / base < Pow8(room - 1) && value / base < value
  {
    assert value / base <= value / 8 by {
      QuotientAtMost(value, base);
    }
  }

  lemma QuotientAtMost(value: nat, base: nat)
    requires base >= 8
    ensures 8 * (value / base) <= value
  {
    A.DivMod(value, base);
    A.MulMono(8, base, value / base);
  }

  // The buffer of format_integer: the characters before cp, last one first.
  class Buffer {
    const buf: array<char>
    var cp: nat

    ghost predicate Valid()
      reads this
    {
      cp <= buf.Length == 64
    }

    ghost function Text(): string
      requires Valid()
      reads this, buf
    {
      Reversed(buf[..cp])
    }

    constructor ()
      ensures Valid() && cp == 0 && Text() == "" && fresh(buf)
    {
      buf := new char[64];
      cp := 0;
    }

    // cp[-1]
    method Peek() returns (c: char)
      requires Valid() && cp > 0
      ensures Text() != "" && c == Text()[0]
    {
      c := buf[cp - 1];
      ReversedMore(buf[..cp - 1], c);
      assert buf[..cp] == buf[..cp - 1] + [c];
    }

    // *cp++ = c
    method Push(c: char)
      requires Valid() && cp < 64
      modifies this`cp, buf
      ensures Valid() && cp == old(cp) + 1 && Text() == [c] + old(Text())
    {
      ReversedMore(buf[..cp], c);
      buf[cp] := c;
      assert buf[..cp + 1] == old(buf[..cp]) + [c];
      cp := cp + 1;
    }

    // *--cp
    method Pop() returns (c: char)
      requires Valid() && cp > 0
      modifies this`cp
      ensures Valid() && cp == old(cp) - 1 && old(Text()) == [c] + Text()
    {
      cp := cp - 1;
      c := buf[cp];
      ReversedMore(buf[..cp], c);
      assert buf[..cp + 1] == buf[..cp] + [c];
    }
  }

  // What one digit adds in front of the text, separator included.
  function DigitText(value: nat, b: Base, group: bool, cnt: nat): string
    requires IsBase(b)
  {
    [b.digits[value % b.base]] + (if group && cnt > 0 && cnt % b.group == 0 then "," else "")
  }

  lemma PositionalStep(value: nat, b: Base, group: bool, cnt: nat, t: string)
    requires IsBase(b) && value > 0
    ensures Positional(value, b, group, cnt) + t ==
      Positional(value / b.base, b, group, cnt + 1) + (DigitText(value, b, group, cnt) + t)
  {
    hide Positional;
    PositionalUnfold(value, b, group, cnt);
  }

  lemma PositionalUnfold(value: nat, b: Base, group: bool, cnt: nat)
    requires IsBase(b) && value > 0
    ensures Positional(value, b, group, cnt) ==
      Positional(value / b.base, b, group, cnt + 1) + DigitText(value, b, group, cnt)
  {}

  // Lines 508-512, towards the digits of a whole number.
  method PushDigit(buf: Buffer, value: nat, b: Base, group: bool, digitCnt: nat, ghost whole: string)
      returns (rest: nat)
    requires buf.Valid() && buf.cp <= 2 * digitCnt && digitCnt <= 22 && IsBase(b) && 0 < value < Pow8(22 - digitCnt)
    requires Positional(value, b, group, digitCnt) + buf.Text() == whole
    modifies buf`cp, buf.buf
    ensures buf.Valid() && buf.cp <= 2 * (digitCnt + 1)
    ensures digitCnt < 22 && rest < value && rest < Pow8(22 - (digitCnt + 1))
    ensures Positional(rest, b, group, digitCnt + 1) + buf.Text() == whole
  {
    hide Positional, Reversed, Pow8;
    FewDigits(value, b.base, 22 - digitCnt);
    PositionalStep(value, b, group, digitCnt, buf.Text());
    ghost var t := buf.Text();
    if group && digitCnt > 0 && digitCnt % b.group == 0 {
      buf.Push(',');
    }
    buf.Push(b.digits[value % b.base]);
    assert buf.Text() == DigitText(value, b, group, digitCnt) + t;
    rest := value / b.base;
  }

  // Lines 504-513: the digits, lowest first.
  method AccumulateDigits(buf: Buffer, value0: nat, b: Base, group: bool)
    requires buf.Valid() && buf.cp == 0 && buf.Text() == "" && IsBase(b) && value0 < 0x1_0000_0000_0000_0000
    modifies buf`cp, buf.buf
    ensures buf.Valid() && buf.cp <= 44 && buf.Text() == Positional(value0, b, group, 0)
  {
    hide Pow8, Reversed, IsBase, Positional, DigitText;
    ghost var whole := Positional(value0, b, group, 0);
    var value: nat, digitCnt: nat := value0, 0;
    Pow8At22();
    while value > 0
      invariant buf.Valid() && digitCnt <= 22 && buf.cp <= 2 * digitCnt
      invariant value < Pow8(22 - digitCnt)
      invariant Positional(value, b, group, digitCnt) + buf.Text() == whole
    {
      value := PushDigit(buf, value, b, group, digitCnt, whole);
      digitCnt := digitCnt + 1;
    }
    PositionalNone(b, group, digitCnt);
  }

  lemma PositionalNone(b: Base, group: bool, cnt: nat)
    requires IsBase(b)
    ensures Positional(0, b, group, cnt) == ""
  {}

  // output_dup
  method OutputDup(out: string, ch: char, cnt: nat) returns (out': string)
    ensures out' == out + Repeat(ch, cnt)
  {
    out' := out;
    var n := cnt;
    while n > 0
      invariant out' + Repeat(ch, n) == out + Repeat(ch, cnt)
    {
      out', n := out' + [ch], n - 1;
    }
  }

  // Lines 521-522.
  method AppendZeros(buf: Buffer, precision: int)
    requires buf.Valid() && buf.cp <= 44
    modifies buf`cp, buf.buf
    ensures buf.Valid() && buf.cp <= 63
    ensures buf.Text() == Repeat('0', (if precision < 63 then precision else 63) - old(buf.cp)) + old(buf.Text())
  {
    hide Reversed;
    ghost var wanted := if precision < 63 then precision else 63;
    while buf.cp < precision && buf.cp < 63
      invariant buf.Valid() && buf.cp <= 63
      invariant Repeat('0', wanted - buf.cp) + buf.Text() == Repeat('0', wanted - old(buf.cp)) + old(buf.Text())
    {
      RepeatLast('0', wanted - buf.cp);
      hide Repeat;
      buf.Push('0');
    }
  }

  // Lines 523-524.
  method OctalZero(buf: Buffer, b: Base, c: Conversion)
    requires buf.Valid() && buf.cp <= 63 && |buf.Text()| == buf.cp
    modifies buf`cp, buf.buf
    ensures buf.Valid()
    ensures var s := old(buf.Text());
      buf.Text() == if c.flags.pound && b.base == 8 && (s == "" || s[0] != '0') then "0" + s else s
  {
    hide Reversed;
    if c.flags.pound && b.base == 8 {
      var first := '-';
      if buf.cp > 0 {
        first := buf.Peek();
      }
      if first != '0' {
        buf.Push('0');
      }
    }
  }

  lemma {:induction false} RepeatLast(c: char, n: int)
    requires n > 0
    ensures Repeat(c, n) == Repeat(c, n - 1) + [c]
  {
    if n > 1 {
      RepeatLast(c, n - 1);
    }
  }

  // Lines 543-544.
  method OutputBuffer(out: string, buf: Buffer) returns (out': string)
    requires buf.Valid()
    modifies buf`cp
    ensures out' == out + old(buf.Text())
  {
    out' := out;
    while buf.cp > 0
      invariant buf.Valid() && out' + buf.Text() == out + old(buf.Text())
      decreases buf.cp
    {
      var c := buf.Pop();
      out' := out' + [c];
    }
  }

  function OptionText(c: Option<char>): string
  {
    if c.Some? then [c.value] else ""
  }

  // Lines 485-494: the sign character, if any.
  method SignCharacter(isSigned: bool, negative: bool, f: Flags) returns (sign: Option<char>)
    ensures sign == Some('-') <==> isSigned && negative
    ensures sign == Some('+') <==> isSigned && !negative && f.plus
    ensures sign == Some(' ') <==> isSigned && !negative && !f.plus && f.space
    ensures sign == None <==> !isSigned || !(negative || f.plus || f.space)
  {
    sign := None;
    if isSigned {
      if f.plus {
        sign := Some(if negative then '-' else '+');
      } else if f.space {
        sign := Some(if negative then '-' else ' ');
      } else if negative {
        sign := Some('-');
      }
    }
  }

  // Lines 504-524.
  method MakeBody(value: nat, b: Base, c: Conversion) returns (buf: Buffer)
    requires IsBase(b) && value < 0x1_0000_0000_0000_0000
    ensures fresh(buf) && fresh(buf.buf) && buf.Valid() && buf.Text() == Body(value, b, c)
    ensures buf.cp == |Body(value, b, c)|
  {
    buf := new Buffer();
    hide Positional, Reversed, Repeat;
    AccumulateDigits(buf, value, b, c.flags.group);
    DigitCount(buf);
    AppendZeros(buf, if c.precision < 0 then 1 else c.precision);
    DigitCount(buf);
    OctalZero(buf, b, c);
    DigitCount(buf);
  }

  // Lines 532-542: what comes before the digits.
  method OutputHead(sign: Option<char>, x: Option<char>, f: Flags, padCnt: nat) returns (out: string)
    ensures out == HeadText(OptionText(sign), if x.Some? then ['0', x.value] else "", f, padCnt)
  {
    hide Repeat;
    out := "";
    if !f.minus && !f.zero {
      out := OutputDup(out, ' ', padCnt);
    }
    if sign.Some? {
      out := out + [sign.value];
    }
    if x.Some? {
      out := out + ['0'];
      out := out + [x.value];
    }
    if f.zero {
      out := OutputDup(out, '0', padCnt);
    }
  }

  method FormatInteger(value: nat, isSigned: bool, negative: bool, b: Base, c: Conversion) returns (out: string)
    requires IsBase(b) && value < 0x1_0000_0000_0000_0000
    ensures out == Rendered(value, isSigned, negative, b, c)
  {
    hide Repeat, Body, Reversed, HeadText;
    var sign := SignCharacter(isSigned, negative, c.flags);
    var x := if c.flags.pound && value != 0 then b.x else None;
    var buf := MakeBody(value, b, c);
    var padCnt := c.width - buf.cp - (if x.Some? then 2 else 0) - (if sign.Some? then 1 else 0);
    if padCnt < 0 {
      padCnt := 0;
    }
    out := OutputHead(sign, x, c.flags, padCnt);
    out := OutputBuffer(out, buf);
    if c.flags.minus {
      out := OutputDup(out, ' ', padCnt);
    }
  }

  lemma DigitCount(buf: Buffer)
    requires buf.Valid()
    ensures |buf.Text()| == buf.cp
  {
    ReversedLength(buf.buf[..buf.cp]);
  }

  lemma {:induction false} ReversedLength(s: string)
    ensures |Reversed(s)| == |s|
  {
    if s != "" {
      ReversedLength(s[1..]);
    }
  }

  /* vsnprintf */

  // The record that vsnprintf_helper updates; p is an index into the buffer.
  class Aux {
    var p: nat
    var length: nat
    const maxLength: nat

    constructor (bufSize: nat)
      ensures p == 0 && length == 0 && maxLength == if bufSize > 0 then bufSize - 1 else 0
    {
      p, length := 0, 0;
      maxLength := if bufSize > 0 then bufSize - 1 else 0;
    }

    // vsnprintf_helper
    method Helper(ch: char, buffer: array<char>)
      requires p < buffer.Length || length >= maxLength
      modifies this, buffer
      ensures length == old(length) + 1
      ensures p == if old(length) < maxLength then old(p) + 1 else old(p)
      ensures old(length) < maxLength ==> old(p) < buffer.Length && buffer[..] == old(buffer[..])[old(p) := ch]
      ensures old(length) >= maxLength ==> buffer[..] == old(buffer[..])
    {
      if length < maxLength {
        buffer[p] := ch;
        p := p + 1;
      }
      length := length + 1;
    }
  }

  /** vsnprintf of the characters that the formatting produces: the longest prefix that fits is
      stored and terminated, nothing else in the buffer changes, and the full length is returned. */
  method Vsnprintf(buffer: array<char>, bufSize: nat, output: string) returns (length: nat)
    requires bufSize <= buffer.Length
    modifies buffer
    ensures length == |output|
    ensures bufSize == 0 ==> buffer[..] == old(buffer[..])
    ensures bufSize > 0 ==>
      var n := if |output| < bufSize then |output| else bufSize - 1;
      buffer[..] == output[..n] + ['\0'] + old(buffer[n + 1..])
  {
    hide Stored;
    ghost var before := buffer[..];
    var n;
    n, length := StoreAll(buffer, bufSize, output);
    StoredEnds(before, output, n);
    if bufSize > 0 {
      buffer[n] := '\0';
      assert buffer[..] == Stored(before, output, n)[n := '\0'];
      assert before[n + 1..] == old(buffer[n + 1..]);
    }
  }

  // One call of the helper for each character.
  method StoreAll(buffer: array<char>, bufSize: nat, output: string) returns (n: nat, length: nat)
    requires bufSize <= buffer.Length
    modifies buffer
    ensures length == |output|
    ensures n == if |output| < bufSize then |output| else if bufSize > 0 then bufSize - 1 else 0
    ensures buffer[..] == Stored(old(buffer[..]), output, n)
  {
    hide Stored;
    var aux := new Aux(bufSize);
    ghost var before := buffer[..];
    StoredEnds(before, output, 0);
    for i := 0 to |output|
      invariant aux.length == i && aux.p == (if i < aux.maxLength then i else aux.maxLength)
      invariant buffer[..] == Stored(before, output, aux.p)
    {
      if i < aux.maxLength {
        StoreOne(before, output, i);
      }
      aux.Helper(output[i], buffer);
    }
    n, length := aux.p, aux.length;
  }

  // The first p characters of the output over the old content of the buffer.
  function Stored(before: string, output: string, p: nat): string
    requires p <= |output| && p <= |before|
  {
    output[..p] + before[p..]
  }

  lemma StoreOne(before: string, output: string, p: nat)
    requires p < |output| && p < |before|
    ensures |Stored(before, output, p)| == |before|
    ensures Stored(before, output, p)[p := output[p]] == Stored(before, output, p + 1)
  {}

  lemma StoredEnds(before: string, output: string, p: nat)
    requires p <= |output| && p <= |before|
    ensures p == 0 ==> Stored(before, output, p) == before
    ensures p < |before| ==> Stored(before, output, p)[p := '\0'] == output[..p] + ['\0'] + before[p + 1..]
  {}

  /* atoi, in 32-bit two's complement arithmetic */

  function Wrap(x: int): int
  {
    (x + 0x8000_0000) % 0x1_0000_0000 - 0x8000_0000
  }

  predicate IsDigit(c: char) { '0' <= c <= '9' }

  predicate IsSpace(c: char) { c == ' ' || '\t' <= c <= '\r' }

  function SkipSpace(s: string): string
  {
    if s != "" && IsSpace(s[0]) then SkipSpace(s[1..]) else s
  }

  // The digits at the start of s, taken away from ten times the value, one after the other.
  function Accumulate(s: string, value: int): int
    decreases |s|
  {
    if s != "" && IsDigit(s[0]) then
      Accumulate(s[1..], Wrap(Wrap(value * 10) - (s[0] as int - '0' as int)))
    else value
  }

  function Signed(s: string): int
  {
    if s != "" && s[0] == '-' then Accumulate(s[1..], 0)
    else if s != "" && s[0] == '+' then Wrap(-Accumulate(s[1..], 0))
    else Wrap(-Accumulate(s, 0))
  }

  method Atoi(s: string) returns (value: int)
    ensures value == Signed(SkipSpace(s))
  {
    hide Wrap, Accumulate;
    var i := 0;
    while i < |s| && IsSpace(s[i])
      invariant i <= |s| && SkipSpace(s[i..]) == SkipSpace(s)
    {
      assert s[i..][1..] == s[i + 1..];
      i := i + 1;
    }
    assert SkipSpace(s) == s[i..];
    var negative := false;
    ghost var t := s[i..];
    if i < |s| && s[i] == '+' {
      i := i + 1;
    } else if i < |s| && s[i] == '-' {
      negative := true;
      i := i + 1;
    }
    ghost var u := s[i..];
    assert negative ==> t != "" && t[0] == '-' && u == t[1..];
    assert !negative ==> Wrap(-Accumulate(u, 0)) == Signed(t);
    value := ParseDigits(s, i);
    if !negative {
      value := Wrap(-value);
    }
  }

  // Lines 35-36.
  method ParseDigits(s: string, from: nat) returns (value: int)
    requires from <= |s|
    ensures value == Accumulate(s[from..], 0)
  {
    hide Wrap;
    var i := from;
    value := 0;
    while i < |s| && IsDigit(s[i])
      invariant i <= |s| && Accumulate(s[i..], value) == Accumulate(s[from..], 0)
    {
      assert s[i..][1..] == s[i + 1..];
      value := Wrap(Wrap(value * 10) - (s[i] as int - '0' as int));
      i := i + 1;
    }
  }

  /* Reading back what was printed */

  lemma {:induction false} ZerosFirst(n: int, t: string)
    ensures Accumulate(Repeat('0', n) + t, 0) == Accumulate(t, 0)
  {
    if n > 0 {
      assert (Repeat('0', n) + t)[1..] == Repeat('0', n - 1) + t;
      ZerosFirst(n - 1, t);
    } else {
      assert Repeat('0', n) + t == t;
    }
  }

  lemma DigitChars()
    ensures forall d | 0 <= d < 10 :: BASE_D.digits[d] as int == '0' as int + d
  {}

  lemma WrapDigit(q: int, r: int)
    requires 0 <= q && 0 <= r < 10 && 10 * q + r <= 0x8000_0000
    ensures Wrap(Wrap(-q * 10) - r) == -(10 * q + r)
  {}

  lemma {:induction false} DigitsBack(n: int, cnt: nat, t: string)
    requires 0 <= n <= 0x8000_0000
    ensures Accumulate(Positional(n, BASE_D, false, cnt) + t, 0) == Accumulate(t, -n)
    decreases n
  {
    if n == 0 {
      assert Positional(n, BASE_D, false, cnt) + t == t;
    } else {
      var q, r := n / 10, n % 10;
      var d := BASE_D.digits[r];
      DigitChars();
      var rest := [d] + t;
      PositionalStep(n, BASE_D, false, cnt, t);
      assert DigitText(n, BASE_D, false, cnt) == [d];
      WrapDigit(q, r);
      hide Positional, Wrap;
      DigitsBack(q, cnt + 1, rest);
      assert rest[1..] == t;
    }
  }

  lemma {:induction false} OnlyDigits(n: nat, cnt: nat)
    ensures forall i | 0 <= i < |Positional(n, BASE_D, false, cnt)| :: IsDigit(Positional(n, BASE_D, false, cnt)[i])
    ensures Positional(n, BASE_D, false, cnt) == "" <==> n == 0
    decreases n
  {
    if n > 0 {
      OnlyDigits(n / 10, cnt + 1);
    }
  }

  lemma {:induction false} SpacesFirst(n: int, t: string)
    ensures SkipSpace(Repeat(' ', n) + t) == SkipSpace(t)
  {
    if n > 0 {
      assert (Repeat(' ', n) + t)[1..] == Repeat(' ', n - 1) + t;
      SpacesFirst(n - 1, t);
    } else {
      assert Repeat(' ', n) + t == t;
    }
  }

  // The digits of a field: padding zeros, precision zeros and the number itself.
  function Field(z: int, p: int, n: nat): string
  {
    Repeat('0', z) + (Repeat('0', p) + Positional(n, BASE_D, false, 0))
  }

  lemma FieldFacts(z: int, p: int, n: int, tail: int)
    requires 0 <= n <= 0x8000_0000
    ensures Accumulate(Field(z, p, n) + Repeat(' ', tail), 0) == -n
    ensures Field(z, p, n) == "" ==> n == 0
    ensures Field(z, p, n) != "" ==> IsDigit(Field(z, p, n)[0])
  {
    var t, ds := Repeat(' ', tail), Positional(n, BASE_D, false, 0);
    assert Field(z, p, n) + t == Repeat('0', z) + (Repeat('0', p) + (ds + t));
    ZerosFirst(z, Repeat('0', p) + (ds + t));
    ZerosFirst(p, ds + t);
    DigitsBack(n, 0, t);
    RepeatFacts(' ', tail);
    RepeatFacts('0', z);
    RepeatFacts('0', p);
    OnlyDigits(n, 0);
  }

  // Without a sign character: white space is skipped, and digits are no sign.
  lemma ReadsUnsigned(field: string, tail: int, n: int)
    requires 0 <= n < 0x8000_0000 && Accumulate(field + Repeat(' ', tail), 0) == -n
    requires if field == "" then n == 0 else IsDigit(field[0])
    ensures Signed(SkipSpace(field + Repeat(' ', tail))) == n
  {
    hide Accumulate, Wrap, Repeat;
    WrapSmall(n);
    var t := Repeat(' ', tail);
    if field == "" {
      assert field + t == t + "";
      SpacesFirst(tail, "");
      NoDigits();
    } else {
      StartsWithDigit(field, t);
    }
  }

  lemma StartsWithDigit(field: string, t: string)
    requires field != "" && IsDigit(field[0])
    ensures SkipSpace(field + t) == field + t && Signed(field + t) == Wrap(-Accumulate(field + t, 0))
  {
    hide Accumulate, Wrap;
    assert (field + t)[0] == field[0];
  }

  lemma WrapSmall(n: int)
    requires 0 <= n < 0x8000_0000
    ensures Wrap(n) == n
  {}

  // A sign character in front of a text.
  lemma SignFirst(sign: string, u: string)
    ensures sign == "" ==> sign + u == u
    ensures sign == " " ==> SkipSpace(sign + u) == SkipSpace(u)
    ensures sign == "-" ==> SkipSpace(sign + u) == sign + u && Signed(sign + u) == Accumulate(u, 0)
    ensures sign == "+" ==> SkipSpace(sign + u) == sign + u && Signed(sign + u) == Wrap(-Accumulate(u, 0))
  {
    hide Accumulate, Wrap;
    assert |sign| == 1 ==> (sign + u)[1..] == u;
  }

  // Leading spaces, a sign, the field and trailing spaces read as the number.
  lemma ReadsBack(lead: int, sign: string, z: int, p: int, n: int, tail: int)
    requires 0 <= n <= 0x8000_0000 && (n == 0x8000_0000 ==> sign == "-")
    requires sign == "" || sign == " " || sign == "+" || sign == "-"
    ensures Signed(SkipSpace(Repeat(' ', lead) + (sign + (Field(z, p, n) + Repeat(' ', tail))))) ==
      if sign == "-" then -n else n
  {
    hide Field, Accumulate, Wrap, Repeat, SkipSpace, Signed;
    var u := Field(z, p, n) + Repeat(' ', tail);
    FieldFacts(z, p, n, tail);
    SpacesFirst(lead, sign + u);
    SignFirst(sign, u);
    if sign != "-" {
      WrapSmall(n);
      ReadsUnsigned(Field(z, p, n), tail, n);
    }
  }

  lemma NoDigits()
    ensures Accumulate("", 0) == 0
  {}

  /** atoi reads every 32-bit int back from every decimal conversion without the grouping flag,
      whatever the other flags, the width and the precision. */
  lemma AtoiRoundTrip(v: int, c: Conversion)
    requires -0x8000_0000 <= v < 0x8000_0000 && !c.flags.group
    ensures Signed(SkipSpace(Rendered(if v < 0 then -v else v, true, v < 0, BASE_D, c))) == v
  {
    var n: nat, negative := if v < 0 then -v else v, v < 0;
    var f, pad := c.flags, Padding(n, true, negative, BASE_D, c);
    var sign := SignText(true, negative, f);
    var p := RenderedShape(n, negative, c);
    hide Rendered;
    var lead := if !f.minus && !f.zero then pad else 0;
    ReadsBack(lead, sign, if f.zero then pad else 0, p, n, if f.minus then pad else 0);
  }

  lemma RenderedShape(n: nat, negative: bool, c: Conversion) returns (p: int)
    requires !c.flags.group
    ensures var f, pad := c.flags, Padding(n, true, negative, BASE_D, c);
      var lead, zeros, tail :=
        if !f.minus && !f.zero then pad else 0, if f.zero then pad else 0, if f.minus then pad else 0;
      Rendered(n, true, negative, BASE_D, c) ==
      Repeat(' ', lead) + (SignText(true, negative, f) + (Field(zeros, p, n) + Repeat(' ', tail)))
  {
    hide Positional, Repeat, SignText, Padding;
    var precision := if c.precision < 0 then 1 else c.precision;
    p := (if precision < 63 then precision else 63) - |Positional(n, BASE_D, false, 0)|;
    NoRepeat();
  }

  lemma NoRepeat()
    ensures Repeat(' ', 0) == "" && Repeat('0', 0) == ""
  {}

  /* What atoi reads, for every text */

  // The white space of the C locale, section 7.4.1.10 of ISO C99: space, and tab, line feed, vertical tab, form feed
  // and carriage return.
  predicate White(c: char)
  {
    var n := c as int;
    n == 32 || n == 9 || n == 10 || n == 11 || n == 12 || n == 13
  }

  predicate AllWhite(s: string) { forall i | 0 <= i < |s| :: White(s[i]) }

  predicate AllDecimal(s: string) { forall i | 0 <= i < |s| :: '0' <= s[i] <= '9' }

  // The number that the decimal digits s continue.
  function DecimalOn(s: string, soFar: int): int
    decreases |s|
  {
    if s == "" then soFar else DecimalOn(s[1..], 10 * soFar + (s[0] as int - '0' as int))
  }

  // The same number in 32 bits.
  ghost predicate SameInt32(value: int, number: int)
  {
    -0x8000_0000 <= value < 0x8000_0000 && (value - number) % 0x1_0000_0000 == 0
  }

  lemma WrapIs(x: int)
    ensures SameInt32(Wrap(x), x)
  {}

  lemma WrapTurns(x: int) returns (k: int)
    ensures Wrap(x) == x + 0x1_0000_0000 * k
  {
    k := (Wrap(x) - x) / 0x1_0000_0000;
  }

  lemma WrapUnique(x: int, k: int)
    ensures Wrap(x + 0x1_0000_0000 * k) == Wrap(x)
  {}

  lemma WrapOnce(x: int, d: int)
    ensures Wrap(Wrap(Wrap(x) * 10) - d) == Wrap(x * 10 - d) && Wrap(-Wrap(x)) == Wrap(-x)
  {
    hide Wrap;
    var k := WrapTurns(x);
    var l := WrapTurns(Wrap(x) * 10);
    WrapUnique(x * 10 - d, 10 * k + l);
    WrapUnique(-x, -k);
  }

  lemma {:induction false} AccumulateAll(digits: string, rest: string, soFar: int)
    requires AllDecimal(digits) && (rest == "" || !IsDigit(rest[0]))
    ensures Accumulate(digits + rest, Wrap(-soFar)) == Wrap(-DecimalOn(digits, soFar))
    decreases |digits|
  {
    if digits == "" {
      assert digits + rest == rest;
    } else {
      var s, d := digits + rest, digits[0] as int - '0' as int;
      assert s[1..] == digits[1..] + rest && s[0] == digits[0];
      WrapOnce(-soFar, d);
      hide Wrap;
      assert -soFar * 10 - d == -(10 * soFar + d);
      AccumulateAll(digits[1..], rest, 10 * soFar + d);
    }
  }

  lemma {:induction false} WhiteFirst(lead: string, t: string)
    requires AllWhite(lead)
    ensures SkipSpace(lead + t) == SkipSpace(t)
  {
    if lead == "" {
      assert lead + t == t;
    } else {
      assert (lead + t)[1..] == lead[1..] + t;
      WhiteFirst(lead[1..], t);
    }
  }

  /** atoi on every text: leading white space, at most one sign, decimal digits, and any rest. The result is the
      number in 32 bits; for digits of a 32-bit int it is the number. */
  lemma AtoiReads(lead: string, sign: string, digits: string, rest: string)
    requires AllWhite(lead) && (sign == "" || sign == "+" || sign == "-") && AllDecimal(digits)
    requires rest != "" ==> !('0' <= rest[0] <= '9')
    requires sign == "" && digits == "" && rest != "" ==> !White(rest[0]) && rest[0] != '+' && rest[0] != '-'
    ensures var number := DecimalOn(digits, 0);
      SameInt32(Signed(SkipSpace(lead + (sign + (digits + rest)))), if sign == "-" then -number else number)
  {
    hide Wrap, Accumulate, DecimalOn, SameInt32, SkipSpace, Signed;
    var t, number := digits + rest, DecimalOn(digits, 0);
    WhiteFirst(lead, sign + t);
    AccumulateAll(digits, rest, 0);
    WrapSmall(0);
    WrapOnce(-number, 0);
    WrapIs(-number);
    WrapIs(number);
    SignFirst(sign, t);
    if sign == "" {
      assert t != "" ==> t[0] == if digits != "" then digits[0] else rest[0];
      NotSkipped(t);
    }
  }

  lemma NotSkipped(t: string)
    requires t != "" ==> !White(t[0]) && t[0] != '+' && t[0] != '-'
    ensures SkipSpace(t) == t && Signed(t) == Wrap(-Accumulate(t, 0))
  {
    hide Wrap, Accumulate;
  }
}
