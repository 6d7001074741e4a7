/** The infix evaluator of the calculator: one scan over the text with a stack of numbers and a
    stack of operators. Numbers, operators and functions are left uninterpreted, so what is
    shown holds for every arithmetic, floating point included. */
module Calculator {
  import opened Options

  datatype Fn = Percent | Factorial | Log | Ln | Root | Sin | Cos | Tan

  // The arithmetic of the numbers; parse is None where parseDouble throws an exception.
  datatype Arith<!V> = Arith(
    parse: string -> Option<V>,
    zero: V,
    add: (V, V) -> V,
    subtract: (V, V) -> V,
    multiply: (V, V) -> V,
    divide: (V, V) -> V,
    power: (V, V) -> V,
    percent: V -> V,
    factorial: V -> V,
    log: V -> V,
    ln: V -> V,
    root: V -> V,
    sin: V -> V,
    cos: V -> V,
    tan: V -> V,
    nonPositive: V -> bool,
    negative: V -> bool)

  const TIMES: char := '\U{D7}'
  const DIVIDED: char := '\U{F7}'

  predicate IsOperator(c: char) { c == '+' || c == '-' || c == TIMES || c == DIVIDED || c == '^' }

  function Precedence(c: char): int
  {
    if c == '+' || c == '-' then 1
    else if c == TIMES || c == DIVIDED then 2
    else if c == '^' then 3
    else -1
  }

  predicate IsNumChar(c: char) { '0' <= c <= '9' || c == '.' }

  // After such a character a minus sign starts a number.
  predicate AllowsSign(c: char) { IsOperator(c) || c == '(' }

  function Name(f: Fn): string
  {
    match f
    case Percent => "%"
    case Factorial => "!"
    case Log => "log"
    case Ln => "ln"
    case Root => "root"
    case Sin => "sin"
    case Cos => "cos"
    case Tan => "tan"
  }

  // applyOp
  function ApplyOp<V>(a: Arith<V>, op: char, second: V, first: V): V
  {
    if op == '+' then a.add(first, second)
    else if op == '-' then a.subtract(first, second)
    else if op == TIMES then a.multiply(first, second)
    else if op == DIVIDED then a.divide(first, second)
    else if op == '^' then a.power(first, second)
    else a.zero
  }

  function ApplyFn<V>(a: Arith<V>, f: Fn, v: V): V
  {
    match f
    case Percent => a.percent(v)
    case Factorial => a.factorial(v)
    case Log => a.log(v)
    case Ln => a.ln(v)
    case Root => a.root(v)
    case Sin => a.sin(v)
    case Cos => a.cos(v)
    case Tan => a.tan(v)
  }

  predicate Rejects<V>(a: Arith<V>, f: Fn, v: V)
  {
    match f
    case Log => a.nonPositive(v)
    case Ln => a.nonPositive(v)
    case Root => a.negative(v)
    case _ => false
  }

  /* The evaluator as a function of the text */

  datatype Machine<V> = Machine(nums: seq<V>, ops: seq<char>)

  // Crash is an exception of the source: an empty stack, or a number that does not parse.
  datatype Outcome<V> = Going(m: Machine<V>) | Error | Crash

  datatype Answer<V> = Value(v: V) | ErrorText | Exception

  function Top(ops: seq<char>): char
    requires ops != []
  {
    ops[|ops| - 1]
  }

  // numbers.push(applyOp(operations.pop(), numbers.pop(), numbers.pop()))
  function Apply<V>(a: Arith<V>, m: Machine<V>): (o: Outcome<V>)
    requires m.ops != []
    ensures o.Going? ==> |o.m.ops| < |m.ops|
  {
    var n := |m.nums|;
    if n < 2 then Crash
    else Going(Machine(m.nums[..n - 2] + [ApplyOp(a, Top(m.ops), m.nums[n - 1], m.nums[n - 2])], m.ops[..|m.ops| - 1]))
  }

  function Reduce<V>(a: Arith<V>, m: Machine<V>, q: int): Outcome<V>
    decreases |m.ops|
  {
    if m.ops == [] || q > Precedence(Top(m.ops)) then Going(m)
    else
      match Apply(a, m)
      case Going(m') => Reduce(a, m', q)
      case o => o
  }

  function CloseParen<V>(a: Arith<V>, m: Machine<V>): Outcome<V>
    decreases |m.ops|
  {
    if m.ops == [] then Crash
    else if Top(m.ops) == '(' then Going(m.(ops := m.ops[..|m.ops| - 1]))
    else
      match Apply(a, m)
      case Going(m') => CloseParen(a, m')
      case o => o
  }

  function Finish<V>(a: Arith<V>, m: Machine<V>): Answer<V>
    decreases |m.ops|
  {
    if m.ops == [] || |m.nums| < 2 then
      if m.nums == [] then Exception else Value(m.nums[|m.nums| - 1])
    else Finish(a, Apply(a, m).m)
  }

  function CallFn<V>(a: Arith<V>, f: Fn, m: Machine<V>): Outcome<V>
  {
    var n := |m.nums|;
    if n == 0 then Crash
    else if Rejects(a, f, m.nums[n - 1]) then Error
    else Going(m.(nums := m.nums[..n - 1] + [ApplyFn(a, f, m.nums[n - 1])]))
  }

  // How many digits and points the text starts with.
  function Digits(s: string): (n: nat)
    ensures n <= |s|
  {
    if s == "" || !IsNumChar(s[0]) then 0 else 1 + Digits(s[1..])
  }

  function PushNum<V>(a: Arith<V>, text: string, m: Machine<V>): Outcome<V>
  {
    match a.parse(text)
    case Some(v) => Going(m.(nums := m.nums + [v]))
    case None => Crash
  }

  function PushOp<V>(a: Arith<V>, c: char, m: Machine<V>): Outcome<V>
  {
    match Reduce(a, m, Precedence(c))
    case Going(m') => Going(m'.(ops := m'.ops + [c]))
    case o => o
  }

  // The function whose name the text starts with, in the order of the source.
  function FnAt(s: string): Option<Fn>
  {
    if Name(Percent) <= s then Some(Percent)
    else if Name(Factorial) <= s then Some(Factorial)
    else if Name(Log) <= s then Some(Log)
    else if Name(Ln) <= s then Some(Ln)
    else if Name(Root) <= s then Some(Root)
    else if Name(Sin) <= s then Some(Sin)
    else if Name(Cos) <= s then Some(Cos)
    else if Name(Tan) <= s then Some(Tan)
    else None
  }

  // One iteration at the start of s: its outcome and how far it goes.
  function Step<V>(a: Arith<V>, start: bool, s: string, m: Machine<V>): (r: (Outcome<V>, nat))
    requires s != ""
    ensures 1 <= r.1 <= |s|
  {
    var c := s[0];
    if IsNumChar(c) || (c == '-' && start) then
      var n := if c == '-' then 1 + Digits(s[1..]) else Digits(s);
      (PushNum(a, s[..n], m), n)
    else if c == '(' then (Going(m.(ops := m.ops + [c])), 1)
    else if c == ')' then (CloseParen(a, m), 1)
    else if IsOperator(c) then (PushOp(a, c, m), 1)
    else
      match FnAt(s)
      case Some(f) => (CallFn(a, f, m), |Name(f)|)
      case None => (Going(m), 1)
  }

  function Scan<V>(a: Arith<V>, start: bool, s: string, m: Machine<V>): Outcome<V>
    decreases |s|
  {
    if s == "" then Going(m)
    else
      var (o, n) := Step(a, start, s, m);
      if o.Going? then Scan(a, AllowsSign(s[n - 1]), s[n..], o.m) else o
  }

  function Evaluate<V>(a: Arith<V>, s: string): Answer<V>
  {
    match Scan(a, true, s, Machine([], []))
    case Going(m) => Finish(a, m)
    case Error => ErrorText
    case Crash => Exception
  }

  /* Expressions, their text and their value */

  // A sum of products of powers of factors, each grouped to the left.
  datatype Sum = Term(p: Product) | Plus(l: Sum, r: Product) | Minus(l: Sum, r: Product)

  datatype Product = Single(w: Power) | Times(l: Product, r: Power) | Over(l: Product, r: Power)

  datatype Power = Plain(f: Factor) | Raised(l: Power, r: Factor)

  datatype Factor =
    | Number(neg: bool, digits: string)
    | Group(e: Sum)
    | PercentOf(f: Factor)
    | FactorialOf(f: Factor)
    | LogOf(f: Factor)
    | LnOf(f: Factor)
    | RootOf(f: Factor)
    | SinOf(f: Factor)
    | CosOf(f: Factor)
    | TanOf(f: Factor)

  function SumText(e: Sum): string
  {
    match e
    case Term(p) => ProductText(p)
    case Plus(l, r) => SumText(l) + "+" + ProductText(r)
    case Minus(l, r) => SumText(l) + "-" + ProductText(r)
  }

  function ProductText(e: Product): string
  {
    match e
    case Single(w) => PowerText(w)
    case Times(l, r) => ProductText(l) + "\U{D7}" + PowerText(r)
    case Over(l, r) => ProductText(l) + "\U{F7}" + PowerText(r)
  }

  function PowerText(e: Power): string
  {
    match e
    case Plain(f) => FactorText(f)
    case Raised(l, r) => PowerText(l) + "^" + FactorText(r)
  }

  function FactorText(e: Factor): string
  {
    match e
    case Number(neg, digits) => NumberText(neg, digits)
    case Group(e) => "(" + SumText(e) + ")"
    case PercentOf(f) => FactorText(f) + "%"
    case FactorialOf(f) => FactorText(f) + "!"
    case LogOf(f) => FactorText(f) + "log"
    case LnOf(f) => FactorText(f) + "ln"
    case RootOf(f) => FactorText(f) + "root"
    case SinOf(f) => FactorText(f) + "sin"
    case CosOf(f) => FactorText(f) + "cos"
    case TanOf(f) => FactorText(f) + "tan"
  }

  function NumberText(neg: bool, digits: string): string
  {
    (if neg then "-" else "") + digits
  }

  // Some number is written with at least one digit or point, and parses.
  predicate IsNumber<V>(a: Arith<V>, neg: bool, digits: string)
  {
    && digits != "" && (forall i | 0 <= i < |digits| :: '0' <= digits[i] <= '9' || digits[i] == '.')
    && a.parse(NumberText(neg, digits)).Some?
  }

  predicate SumOk<V>(a: Arith<V>, e: Sum)
  {
    match e
    case Term(p) => ProductOk(a, p)
    case Plus(l, r) => SumOk(a, l) && ProductOk(a, r)
    case Minus(l, r) => SumOk(a, l) && ProductOk(a, r)
  }

  predicate ProductOk<V>(a: Arith<V>, e: Product)
  {
    match e
    case Single(w) => PowerOk(a, w)
    case Times(l, r) => ProductOk(a, l) && PowerOk(a, r)
    case Over(l, r) => ProductOk(a, l) && PowerOk(a, r)
  }

  predicate PowerOk<V>(a: Arith<V>, e: Power)
  {
    match e
    case Plain(f) => FactorOk(a, f)
    case Raised(l, r) => PowerOk(a, l) && FactorOk(a, r)
  }

  predicate FactorOk<V>(a: Arith<V>, e: Factor)
  {
    match e
    case Number(neg, digits) => IsNumber(a, neg, digits)
    case Group(e) => SumOk(a, e)
    case _ => FactorOk(a, e.f)
  }

  // The values of two operands put together, unless one of them has none.
  function Both<V>(v: Option<V>, w: Option<V>, op: (V, V) -> V): Option<V>
  {
    if v.Some? && w.Some? then Some(op(v.value, w.value)) else None
  }

  function Unless<V>(v: Option<V>, rejects: V -> bool, fn: V -> V): Option<V>
  {
    if v.Some? && !rejects(v.value) then Some(fn(v.value)) else None
  }

  // None when a logarithm or a root rejects its operand.
  function SumValue<V>(a: Arith<V>, e: Sum): Option<V>
  {
    match e
    case Term(p) => ProductValue(a, p)
    case Plus(l, r) => Both(SumValue(a, l), ProductValue(a, r), a.add)
    case Minus(l, r) => Both(SumValue(a, l), ProductValue(a, r), a.subtract)
  }

  function ProductValue<V>(a: Arith<V>, e: Product): Option<V>
  {
    match e
    case Single(w) => PowerValue(a, w)
    case Times(l, r) => Both(ProductValue(a, l), PowerValue(a, r), a.multiply)
    case Over(l, r) => Both(ProductValue(a, l), PowerValue(a, r), a.divide)
  }

  function PowerValue<V>(a: Arith<V>, e: Power): Option<V>
  {
    match e
    case Plain(f) => FactorValue(a, f)
    case Raised(l, r) => Both(PowerValue(a, l), FactorValue(a, r), a.power)
  }

  function FactorValue<V>(a: Arith<V>, e: Factor): Option<V>
  {
    match e
    case Number(neg, digits) => a.parse(NumberText(neg, digits))
    case Group(e) => SumValue(a, e)
    case PercentOf(f) => Unless(FactorValue(a, f), _ => false, a.percent)
    case FactorialOf(f) => Unless(FactorValue(a, f), _ => false, a.factorial)
    case LogOf(f) => Unless(FactorValue(a, f), a.nonPositive, a.log)
    case LnOf(f) => Unless(FactorValue(a, f), a.nonPositive, a.ln)
    case RootOf(f) => Unless(FactorValue(a, f), a.negative, a.root)
    case SinOf(f) => Unless(FactorValue(a, f), _ => false, a.sin)
    case CosOf(f) => Unless(FactorValue(a, f), _ => false, a.cos)
    case TanOf(f) => Unless(FactorValue(a, f), _ => false, a.tan)
  }

  /* Scanning the text of an expression */

  // What stands on the operator stack waits for an operator that binds no tighter than itself.
  predicate Below(ops: seq<char>, q: int)
  {
    ops == [] || Precedence(Top(ops)) < q
  }

  function Loaded<V>(m: Machine<V>, v: V): Machine<V>
  {
    m.(nums := m.nums + [v])
  }

  // A closing parenthesis, an operator of level q or the end of the text finds m' as if v had
  // been pushed on m, for every q up to top.
  ghost predicate Settles<V(!new)>(a: Arith<V>, m': Machine<V>, m: Machine<V>, v: V, top: int)
  {
    forall q | 0 <= q <= top :: Reduce(a, m', q) == Reduce(a, Loaded(m, v), q)
  }

  predicate Stops(t: string) { t == "" || !IsNumChar(t[0]) }

  lemma {:induction false} DigitsOf(d: string, t: string)
    requires (forall i | 0 <= i < |d| :: IsNumChar(d[i])) && Stops(t)
    ensures Digits(d + t) == |d|
  {
    if d == "" {
      assert d + t == t;
    } else {
      DigitsOf(d[1..], t);
      assert (d + t)[1..] == d[1..] + t;
    }
  }

  lemma StepNum<V(!new)>(a: Arith<V>, neg: bool, d: string, t: string, m: Machine<V>)
    requires d != "" && (forall i | 0 <= i < |d| :: IsNumChar(d[i])) && Stops(t)
    ensures var text := NumberText(neg, d);
      Step(a, true, text + t, m) == (PushNum(a, text, m), |text|) && !AllowsSign((text + t)[|text| - 1])
  {
    hide CloseParen, PushOp, CallFn, FnAt, PushNum;
    var text := NumberText(neg, d);
    var s := text + t;
    NumberParts(neg, d, t);
    DigitsOf(d, t);
  }

  lemma NumberParts(neg: bool, d: string, t: string)
    requires d != ""
    ensures var text := NumberText(neg, d);
      var s := text + t;
      && |text| == |d| + (if neg then 1 else 0) && s[..|text|] == text && s[|text| - 1] == d[|d| - 1]
      && if neg then s[0] == '-' && s[1..] == d + t else s == d + t && s[0] == d[0]
  {}

  lemma ScanNum<V(!new)>(a: Arith<V>, neg: bool, d: string, t: string, m: Machine<V>)
    requires IsNumber(a, neg, d) && Stops(t)
    ensures Scan(a, true, NumberText(neg, d) + t, m) == Scan(a, false, t, Loaded(m, a.parse(NumberText(neg, d)).value))
  {
    hide Step, AllowsSign;
    var text := NumberText(neg, d);
    StepNum(a, neg, d, t, m);
    assert (text + t)[|text|..] == t;
  }

  lemma FnNames(f: Fn, t: string)
    ensures FnAt(Name(f) + t) == Some(f)
    ensures var s := Name(f) + t;
      !IsNumChar(s[0]) && !IsOperator(s[0]) && s[0] != '(' && s[0] != ')' && !AllowsSign(s[|Name(f)| - 1])
  {
    var s := Name(f) + t;
    assert s[0] == Name(f)[0];
    if |Name(f)| > 1 {
      assert s[1] == Name(f)[1];
    }
  }

  lemma ScanFn<V(!new)>(a: Arith<V>, f: Fn, t: string, m: Machine<V>, v: V)
    ensures Scan(a, false, Name(f) + t, Loaded(m, v)) ==
      if Rejects(a, f, v) then Error else Scan(a, false, t, Loaded(m, ApplyFn(a, f, v)))
  {
    var s := Name(f) + t;
    FnNames(f, t);
    assert s[|Name(f)|..] == t;
    assert Loaded(m, v).nums[..|m.nums|] == m.nums;
  }

  lemma ScanOp<V(!new)>(a: Arith<V>, c: char, t: string, m': Machine<V>, m: Machine<V>, v: V)
    requires IsOperator(c) && Below(m.ops, Precedence(c)) && Settles(a, m', m, v, Precedence(c))
    ensures Scan(a, false, [c] + t, m') == Scan(a, true, t, Machine(m.nums + [v], m.ops + [c]))
  {
    assert ([c] + t)[1..] == t;
    assert Reduce(a, m', Precedence(c)) == Going(Loaded(m, v));
  }

  // Going from the operands of c to its result.
  lemma ReduceOne<V(!new)>(a: Arith<V>, m: Machine<V>, c: char, v: V, w: V, q: int)
    requires q <= Precedence(c)
    ensures Reduce(a, Machine(m.nums + [v] + [w], m.ops + [c]), q) == Reduce(a, Loaded(m, ApplyOp(a, c, w, v)), q)
  {
    var m' := Machine(m.nums + [v] + [w], m.ops + [c]);
    assert m'.nums[..|m'.nums| - 2] == m.nums && m'.ops[..|m'.ops| - 1] == m.ops;
  }

  lemma {:induction false} CloseAfter<V(!new)>(a: Arith<V>, m': Machine<V>, m: Machine<V>)
    requires Reduce(a, m', 0) == Going(m) && m.ops != [] && Top(m.ops) == '('
    ensures CloseParen(a, m') == Going(m.(ops := m.ops[..|m.ops| - 1]))
    decreases |m'.ops|
  {
    if m' != m {
      CloseAfter(a, Apply(a, m').m, m);
    }
  }

  lemma ScanClose<V(!new)>(a: Arith<V>, t: string, m': Machine<V>, m: Machine<V>, v: V)
    requires Settles(a, m', m.(ops := m.ops + ['(']), v, 1)
    ensures Scan(a, false, ")" + t, m') == Scan(a, false, t, Loaded(m, v))
  {
    var inner := m.(ops := m.ops + ['(']);
    assert Reduce(a, m', 0) == Reduce(a, Loaded(inner, v), 0) == Going(Loaded(inner, v));
    CloseAfter(a, m', Loaded(inner, v));
    assert Loaded(inner, v).ops[..|m.ops|] == m.ops;
    assert (")" + t)[1..] == t;
  }

  // Scanning a text with value v in front of t leaves v, or its pending operators of level q and above, on the stacks.
  ghost predicate Scans<V(!new)>(a: Arith<V>, text: string, v: Option<V>, t: string, m: Machine<V>, m': Machine<V>,
                                 q: int)
  {
    && (v.None? ==> Scan(a, true, text + t, m) == Error)
    && (v.Some? ==>
          && Scan(a, true, text + t, m) == Scan(a, false, t, m')
          && Settles(a, m', m, v.value, q) && (q == 4 ==> m' == Loaded(m, v.value)))
  }

  lemma ScansLower<V(!new)>(a: Arith<V>, text: string, v: Option<V>, t: string, m: Machine<V>, m': Machine<V>, q: int)
    requires Scans(a, text, v, t, m, m', q) && 0 < q <= 4
    ensures Scans(a, text, v, t, m, m', q - 1)
  {}

  // An operator between two operands first applies what binds at least as tightly on its left.
  lemma ScanBin<V(!new)>(a: Arith<V>, op: char, l: string, r: string, lv: Option<V>, rv: Option<V>, f: (V, V) -> V,
                         t: string, m: Machine<V>, m1: Machine<V>, m': Machine<V>)
    requires IsOperator(op) && Below(m.ops, Precedence(op)) && forall x, y :: f(x, y) == ApplyOp(a, op, y, x)
    requires Scans(a, l, lv, [op] + (r + t), m, m1, Precedence(op))
    requires lv.Some? ==>
      Scans(a, r, rv, t, Machine(m.nums + [lv.value], m.ops + [op]), m', Precedence(op) + 1)
    ensures Scans(a, l + [op] + r, Both(lv, rv, f), t, m, m', Precedence(op))
  {
    TextJoined(l, [op], r);
    TextJoined(l, [op] + r, t);
    TextJoined([op], r, t);
    PrecedenceIs(op);
    hide Scan, Settles, Precedence, IsOperator, Below, Loaded, ApplyOp;
    if lv.Some? {
      ScanOp(a, op, r + t, m1, m, lv.value);
      if rv.Some? {
        SettlesBin(a, op, lv.value, rv.value, m, m');
      }
    }
  }

  lemma PrecedenceIs(op: char)
    requires IsOperator(op)
    ensures 1 <= Precedence(op) <= 3
  {}

  lemma SettlesBin<V(!new)>(a: Arith<V>, op: char, v: V, w: V, m: Machine<V>, m': Machine<V>)
    requires Settles(a, m', Machine(m.nums + [v], m.ops + [op]), w, Precedence(op) + 1)
    ensures Settles(a, m', m, ApplyOp(a, op, w, v), Precedence(op))
  {
    hide Reduce, ApplyOp;
    forall q | 0 <= q <= Precedence(op)
      ensures Reduce(a, m', q) == Reduce(a, Loaded(m, ApplyOp(a, op, w, v)), q)
    {
      ReduceOne(a, m, op, v, w, q);
    }
  }

  // What a function makes of its operand.
  function Applied<V>(a: Arith<V>, f: Fn, v: Option<V>): Option<V>
  {
    if v.Some? && !Rejects(a, f, v.value) then Some(ApplyFn(a, f, v.value)) else None
  }

  // A function after its operand.
  lemma ScanPost<V(!new)>(a: Arith<V>, x: string, v: Option<V>, f: Fn, t: string, m: Machine<V>, m1: Machine<V>)
      returns (m': Machine<V>)
    requires Scans(a, x, v, Name(f) + t, m, m1, 4)
    ensures Scans(a, x + Name(f), Applied(a, f, v), t, m, m', 4)
  {
    hide Scan, Name, Settles, Rejects, ApplyFn, Loaded;
    TextJoined(x, Name(f), t);
    m' := m1;
    if v.Some? {
      ScanFn(a, f, t, m, v.value);
      m' := Loaded(m, ApplyFn(a, f, v.value));
      SettlesLoaded(a, m, ApplyFn(a, f, v.value));
    }
  }

  lemma TextJoined(x: string, y: string, t: string)
    ensures x + y + t == x + (y + t)
  {}

  lemma SettlesLoaded<V(!new)>(a: Arith<V>, m: Machine<V>, v: V)
    ensures Settles(a, Loaded(m, v), m, v, 4)
  {}

  // A parenthesis is worth what is in it.
  lemma ScanGroup<V(!new)>(a: Arith<V>, x: string, v: Option<V>, t: string, m: Machine<V>, m1: Machine<V>)
      returns (m': Machine<V>)
    requires Scans(a, x, v, ")" + t, m.(ops := m.ops + ['(']), m1, 1)
    ensures Scans(a, "(" + x + ")", v, t, m, m', 4)
  {
    var s, rest := "(" + x + ")" + t, x + (")" + t);
    assert s[1..] == rest && s[0] == '(';
    assert Scan(a, true, s, m) == Scan(a, true, rest, m.(ops := m.ops + ['(']));
    hide Scan, Step;
    m' := m1;
    if v.Some? {
      ScanClose(a, t, m1, m, v.value);
      m' := Loaded(m, v.value);
    }
  }

  /** Scanning the text of a sum loads its value, or its pending operators, on the stacks. */
  lemma {:induction false} ScanSum<V(!new)>(a: Arith<V>, e: Sum, t: string, m: Machine<V>) returns (m': Machine<V>)
    requires SumOk(a, e) && Stops(t) && Below(m.ops, 1)
    ensures Scans(a, SumText(e), SumValue(a, e), t, m, m', 1)
    decreases e
  {
    hide Scans;
    match e
    case Term(p) =>
      m' := ScanProduct(a, p, t, m);
      ScansLower(a, ProductText(p), ProductValue(a, p), t, m, m', 2);
    case Plus(l, r) =>
      var m1 := ScanSum(a, l, "+" + (ProductText(r) + t), m);
      var lv := SumValue(a, l);
      m' := m1;
      if lv.Some? {
        m' := ScanProduct(a, r, t, Machine(m.nums + [lv.value], m.ops + ['+']));
      }
      ScanBin(a, '+', SumText(l), ProductText(r), lv, ProductValue(a, r), a.add, t, m, m1, m');
    case Minus(l, r) =>
      var m1 := ScanSum(a, l, "-" + (ProductText(r) + t), m);
      var lv := SumValue(a, l);
      m' := m1;
      if lv.Some? {
        m' := ScanProduct(a, r, t, Machine(m.nums + [lv.value], m.ops + ['-']));
      }
      ScanBin(a, '-', SumText(l), ProductText(r), lv, ProductValue(a, r), a.subtract, t, m, m1, m');
  }

  lemma {:induction false} ScanProduct<V(!new)>(a: Arith<V>, e: Product, t: string, m: Machine<V>)
      returns (m': Machine<V>)
    requires ProductOk(a, e) && Stops(t) && Below(m.ops, 2)
    ensures Scans(a, ProductText(e), ProductValue(a, e), t, m, m', 2)
    decreases e
  {
    hide Scans;
    match e
    case Single(w) =>
      m' := ScanPower(a, w, t, m);
      ScansLower(a, PowerText(w), PowerValue(a, w), t, m, m', 3);
    case Times(l, r) =>
      var m1 := ScanProduct(a, l, [TIMES] + (PowerText(r) + t), m);
      var lv := ProductValue(a, l);
      m' := m1;
      if lv.Some? {
        m' := ScanPower(a, r, t, Machine(m.nums + [lv.value], m.ops + [TIMES]));
      }
      ScanBin(a, TIMES, ProductText(l), PowerText(r), lv, PowerValue(a, r), a.multiply, t, m, m1, m');
    case Over(l, r) =>
      var m1 := ScanProduct(a, l, [DIVIDED] + (PowerText(r) + t), m);
      var lv := ProductValue(a, l);
      m' := m1;
      if lv.Some? {
        m' := ScanPower(a, r, t, Machine(m.nums + [lv.value], m.ops + [DIVIDED]));
      }
      ScanBin(a, DIVIDED, ProductText(l), PowerText(r), lv, PowerValue(a, r), a.divide, t, m, m1, m');
  }

  lemma {:induction false} ScanPower<V(!new)>(a: Arith<V>, e: Power, t: string, m: Machine<V>) returns (m': Machine<V>)
    requires PowerOk(a, e) && Stops(t) && Below(m.ops, 3)
    ensures Scans(a, PowerText(e), PowerValue(a, e), t, m, m', 3)
    decreases e
  {
    hide Scans;
    match e
    case Plain(f) =>
      m' := ScanFactor(a, f, t, m);
      ScansLower(a, FactorText(f), FactorValue(a, f), t, m, m', 4);
    case Raised(l, r) =>
      var m1 := ScanPower(a, l, "^" + (FactorText(r) + t), m);
      var lv := PowerValue(a, l);
      m' := m1;
      if lv.Some? {
        m' := ScanFactor(a, r, t, Machine(m.nums + [lv.value], m.ops + ['^']));
      }
      ScanBin(a, '^', PowerText(l), FactorText(r), lv, FactorValue(a, r), a.power, t, m, m1, m');
  }

  lemma {:induction false} ScanFactor<V(!new)>(a: Arith<V>, e: Factor, t: string, m: Machine<V>)
      returns (m': Machine<V>)
    requires FactorOk(a, e) && Stops(t)
    ensures Scans(a, FactorText(e), FactorValue(a, e), t, m, m', 4)
    decreases e
  {
    match e
    case Number(neg, digits) =>
      ScanNum(a, neg, digits, t, m);
      m' := Loaded(m, FactorValue(a, e).value);
    case Group(x) =>
      hide Scans;
      m' := ScanSum(a, x, ")" + t, m.(ops := m.ops + ['(']));
      m' := ScanGroup(a, SumText(x), SumValue(a, x), t, m, m');
    case _ =>
      var f := FnOf(e);
      FnNames(f, t);
      PostParts(a, e);
      hide Scans, FactorText, FactorValue, Name, Applied;
      m' := ScanFactor(a, e.f, Name(f) + t, m);
      m' := ScanPost(a, FactorText(e.f), FactorValue(a, e.f), f, t, m, m');
  }

  // What the name behind a factor stands for.
  lemma PostParts<V>(a: Arith<V>, e: Factor)
    requires !e.Number? && !e.Group?
    ensures FactorText(e) == FactorText(e.f) + Name(FnOf(e))
    ensures FactorValue(a, e) == Applied(a, FnOf(e), FactorValue(a, e.f))
  {}

  // The function that the scan finds behind a factor.
  function FnOf(e: Factor): Fn
    requires !e.Number? && !e.Group?
  {
    match e
    case PercentOf(_) => Percent
    case FactorialOf(_) => Factorial
    case LogOf(_) => Log
    case LnOf(_) => Ln
    case RootOf(_) => Root
    case SinOf(_) => Sin
    case CosOf(_) => Cos
    case TanOf(_) => Tan
  }

  lemma {:induction false} FinishAfter<V(!new)>(a: Arith<V>, m': Machine<V>, v: V)
    requires Reduce(a, m', 0) == Going(Machine([v], []))
    ensures Finish(a, m') == Value(v)
    decreases |m'.ops|
  {
    if m'.ops != [] {
      FinishAfter(a, Apply(a, m').m, v);
    }
  }

  /** The evaluator computes the value of every expression from its text, with products before sums, powers before
      products, and equal operators from left to right; neither of its stacks is ever empty when it is popped. */
  lemma EvaluatesTree<V(!new)>(a: Arith<V>, e: Sum)
    requires SumOk(a, e)
    ensures Evaluate(a, SumText(e)) == match SumValue(a, e) { case Some(v) => Value(v) case None => ErrorText }
  {
    var m := Machine([], []);
    assert SumText(e) + "" == SumText(e);
    var m' := ScanSum(a, e, "", m);
    if SumValue(a, e).Some? {
      assert Reduce(a, m', 0) == Reduce(a, Loaded(m, SumValue(a, e).value), 0);
      FinishAfter(a, m', SumValue(a, e).value);
    }
  }

  /* The evaluator as it runs */

  // Where the scan of the whole text would end from here.
  function Remaining<V>(a: Arith<V>, s: string, i: nat, m: Machine<V>): Outcome<V>
    requires i <= |s|
  {
    Scan(a, i == 0 || AllowsSign(s[i - 1]), s[i..], m)
  }

  lemma Advance<V>(a: Arith<V>, s: string, i: nat, m: Machine<V>, o: Outcome<V>, n: nat)
    requires i < |s| && (o, n) == Step(a, i == 0 || AllowsSign(s[i - 1]), s[i..], m)
    ensures i + n <= |s| && Remaining(a, s, i, m) == if o.Going? then Remaining(a, s, i + n, o.m) else o
  {
    assert s[i..][n..] == s[i + n..] && s[i..][n - 1] == s[i + n - 1];
  }

  // The loop over the characters of a number.
  method ScanDigits(s: string, from: nat) returns (i: nat)
    requires from <= |s|
    ensures i == from + Digits(s[from..])
  {
    i := from;
    while i < |s| && IsNumChar(s[i])
      invariant from <= i <= |s| && Digits(s[from..]) == i - from + Digits(s[i..])
    {
      assert s[i..][1..] == s[i + 1..];
      i := i + 1;
    }
  }

  method ReduceLoop<V>(a: Arith<V>, m0: Machine<V>, q: int) returns (o: Outcome<V>)
    ensures o == Reduce(a, m0, q)
  {
    var m := m0;
    while m.ops != [] && q <= Precedence(Top(m.ops))
      invariant Reduce(a, m, q) == Reduce(a, m0, q)
      decreases |m.ops|
    {
      o := Apply(a, m);
      if !o.Going? {
        return;
      }
      m := o.m;
    }
    return Going(m);
  }

  method CloseLoop<V>(a: Arith<V>, m0: Machine<V>) returns (o: Outcome<V>)
    ensures o == CloseParen(a, m0)
  {
    var m := m0;
    while m.ops != [] && Top(m.ops) != '('
      invariant CloseParen(a, m) == CloseParen(a, m0)
      decreases |m.ops|
    {
      o := Apply(a, m);
      if !o.Going? {
        return;
      }
      m := o.m;
    }
    return if m.ops == [] then Crash else Going(m.(ops := m.ops[..|m.ops| - 1]));
  }

  // One iteration of the scan; next is where the following one starts.
  method ScanOne<V>(a: Arith<V>, s: string, i: nat, m: Machine<V>) returns (o: Outcome<V>, next: nat)
    requires i < |s|
    ensures i < next <= |s| && (o, next - i) == Step(a, i == 0 || AllowsSign(s[i - 1]), s[i..], m)
  {
    hide CloseParen, Reduce, CallFn, PushNum;
    var c := s[i];
    var start := i == 0 || AllowsSign(s[i - 1]);
    next := i + 1;
    if IsNumChar(c) || (c == '-' && start) {
      assert s[i..][1..] == s[i + 1..];
      next := ScanDigits(s, if c == '-' then i + 1 else i);
      o := PushNum(a, s[i..next], m);
      assert s[i..][..next - i] == s[i..next];
    } else if c == '(' {
      o := Going(m.(ops := m.ops + [c]));
    } else if c == ')' {
      o := CloseLoop(a, m);
    } else if IsOperator(c) {
      o := ReduceLoop(a, m, Precedence(c));
      if o.Going? {
        o := Going(o.m.(ops := o.m.ops + [c]));
      }
    } else {
      var f := FnAt(s[i..]);
      if f.Some? {
        o := CallFn(a, f.value, m);
        next := i + |Name(f.value)|;
      } else {
        o := Going(m);
      }
    }
  }

  // The scan of the whole text.
  method ScanAll<V>(a: Arith<V>, s: string) returns (o: Outcome<V>)
    ensures o == Scan(a, true, s, Machine([], []))
  {
    hide Step;
    var m := Machine([], []);
    var i := 0;
    assert s[0..] == s;
    while i < |s|
      invariant i <= |s| && Remaining(a, s, i, m) == Scan(a, true, s, Machine([], []))
    {
      hide Remaining, Scan;
      var next;
      o, next := ScanOne(a, s, i, m);
      Advance(a, s, i, m, o, next - i);
      if !o.Going? {
        return;
      }
      m, i := o.m, next;
    }
    return Going(m);
  }

  // getAnswer, up to the formatting of the result
  method GetAnswer<V>(a: Arith<V>, expression: string) returns (answer: Answer<V>)
    ensures answer == Evaluate(a, expression)
  {
    var o := ScanAll(a, expression);
    match o {
      case Error => return ErrorText;
      case Crash => return Exception;
      case Going(m0) =>
        var m := m0;
        while m.ops != [] && |m.nums| >= 2
          invariant Finish(a, m) == Finish(a, m0)
          decreases |m.ops|
        {
          m := Apply(a, m).m;
        }
        return if m.nums == [] then Exception else Value(m.nums[|m.nums| - 1]);
    }
  }
}
