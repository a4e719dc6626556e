/**
  Expressions of the solver's expression manager: typed variables, typed
  constants and function applications, the manager that interns variable
  names into consecutive ids and instantiates functions through a list of
  instantiators, and the SMT-LIB style rendering of expressions and
  constants.
*/
module Exprs {
  import SynthExprs

  datatype Failure = ArgumentError | TypeError

  datatype Result<T> = Ok(value: T) | Err(error: Failure)

  /** The expression types the rendering distinguishes. */
  datatype ExprType = BoolType | IntType | BitVectorType(size: nat)

  /** A constant's Python value: a `bool` or an `int`. */
  datatype Value = BoolValue(b: bool) | IntValue(i: int)

  /** What an instantiator returns for a function name; only the name is rendered. */
  datatype FunctionInfo = FunctionInfo(functionName: string)

  datatype Expr =
    | VariableExpr(exprType: ExprType, varId: nat)
    | ConstantExpr(exprType: ExprType, constValue: Value)
    | FunctionExpr(functionInfo: FunctionInfo, children: seq<Expr>)

  /** An instantiator gives the function for a name and argument list, or `None`. */
  type Instantiator = (string, seq<Expr>) -> SynthExprs.Option<FunctionInfo>

  // ---------------------------------------------------------------------
  // Interning variable names
  // ---------------------------------------------------------------------

  /** The variables map and next id after interning `name`, and the name's id. */
  function Intern(vars: map<string, nat>, next: nat, name: string): (map<string, nat>, nat, nat) {
    if name in vars then (vars, next, vars[name]) else (vars[name := next], next + 1, next)
  }

  /** The manager's invariant: the interned names have the distinct ids
      `1 .. next - 1`, and `next` is one more than their number. */
  ghost predicate Interned(vars: map<string, nat>, next: nat) {
    && next == |vars| + 1
    && (forall n :: n in vars ==> 1 <= vars[n] < next)
    && (forall a, b :: a in vars && b in vars && a != b ==> vars[a] != vars[b])
  }

  lemma InternKeepsInterned(vars: map<string, nat>, next: nat, name: string)
    requires Interned(vars, next)
    ensures Interned(Intern(vars, next, name).0, Intern(vars, next, name).1)
  {
    if name !in vars {
      assert vars[name := next].Keys == vars.Keys + {name};
    }
  }

  /** A new name gets an id no interned name has, and the map only grows:
      no name is dropped and no id changes. */
  lemma InternGrows(vars: map<string, nat>, next: nat, name: string)
    requires Interned(vars, next)
    ensures var (vars', _, id) := Intern(vars, next, name);
            && vars'.Keys == vars.Keys + {name}
            && (forall n :: n in vars ==> vars'[n] == vars[n])
            && vars'[name] == id
            && (name !in vars ==> forall n :: n in vars ==> vars[n] != id)
  {
  }

  /** Interning the same name again returns the same id and changes nothing. */
  lemma InternStable(vars: map<string, nat>, next: nat, name: string)
    ensures var (vars', next', id) := Intern(vars, next, name);
            Intern(vars', next', name) == (vars', next', id)
  {
  }

  /** Interning two different names gives them different ids. */
  lemma InternDistinguishes(vars: map<string, nat>, next: nat, a: string, b: string)
    requires Interned(vars, next) && a != b
    ensures var (vars', next', idA) := Intern(vars, next, a);
            idA != Intern(vars', next', b).2
  {
    InternKeepsInterned(vars, next, a);
    var (vars', next', idA) := Intern(vars, next, a);
    InternGrows(vars', next', b);
  }

  // ---------------------------------------------------------------------
  // The expression manager
  // ---------------------------------------------------------------------

  /** The first instantiation any instantiator gives, in order. */
  function FirstInstance(insts: seq<Instantiator>, name: string, children: seq<Expr>): SynthExprs.Option<FunctionInfo> {
    if |insts| == 0 then SynthExprs.None
    else if insts[0](name, children).Some? then insts[0](name, children)
    else FirstInstance(insts[1..], name, children)
  }

  class ExprManager {
    const functionInstantiators: seq<Instantiator>
    var variablesMap: map<string, nat>
    var nextVarId: nat

    ghost predicate Valid()
      reads this
    {
      Interned(variablesMap, nextVarId)
    }

    constructor (instantiators: seq<Instantiator>)
      ensures Valid()
      ensures functionInstantiators == instantiators && variablesMap == map[] && nextVarId == 1
    {
      functionInstantiators := instantiators;
      variablesMap := map[];
      nextVarId := 1;
    }

    /** `make_variable_expr`: the id of an interned name, or the next id for a new one. */
    method MakeVariableExpr(varType: ExprType, varName: string) returns (r: Expr)
      modifies this
      ensures var (vars, next, id) := Intern(old(variablesMap), old(nextVarId), varName);
              variablesMap == vars && nextVarId == next && r == VariableExpr(varType, id)
      ensures old(Valid()) ==> Valid()
    {
      if varName in variablesMap {
        r := VariableExpr(varType, variablesMap[varName]);
      } else {
        ghost var before := variablesMap;
        ghost var wasValid := Valid();
        variablesMap := variablesMap[varName := nextVarId];
        var varId := nextVarId;
        nextVarId := nextVarId + 1;
        r := VariableExpr(varType, varId);
        if wasValid {
          InternKeepsInterned(before, varId, varName);
        }
      }
    }

    /** `make_function_expr`: the function the first instantiator that knows
        the name gives, applied to the children unchanged; an `ArgumentError`
        when none does. */
    method MakeFunctionExpr(functionName: string, children: seq<Expr>) returns (r: Result<Expr>)
      ensures r.Err? <==> forall i :: 0 <= i < |functionInstantiators| ==> functionInstantiators[i](functionName, children).None?
      ensures r.Err? ==> r.error == ArgumentError
      ensures r.Ok? ==> r.value.FunctionExpr? && r.value.children == children
      ensures r.Ok? ==>
        exists i :: 0 <= i < |functionInstantiators| &&
          (forall j :: 0 <= j < i ==> functionInstantiators[j](functionName, children).None?) &&
          functionInstantiators[i](functionName, children) == SynthExprs.Some(r.value.functionInfo)
    {
      var i := 0;
      while i < |functionInstantiators|
        invariant 0 <= i <= |functionInstantiators|
        invariant forall j :: 0 <= j < i ==> functionInstantiators[j](functionName, children).None?
      {
        var functionInfo := functionInstantiators[i](functionName, children);
        if functionInfo.Some? {
          return Ok(FunctionExpr(functionInfo.value, children));
        }
        i := i + 1;
      }
      return Err(ArgumentError);
    }

    /** `make_constant_expr`: the type and value are kept as given. */
    static function MakeConstantExpr(constType: ExprType, constValue: Value): (r: Expr)
      ensures r.ConstantExpr? && r.exprType == constType && r.constValue == constValue
    {
      ConstantExpr(constType, constValue)
    }

    /** `make_true_expr`: the Boolean constant that renders as `True`. */
    static function MakeTrueExpr(): (r: Expr)
      ensures r.ConstantExpr? && r.exprType == BoolType && ConstantToString(r.exprType, r.constValue) == "True"
    {
      ConstantExpr(BoolType, BoolValue(true))
    }

    /** `make_false_expr` as written: it builds the constant `True`. */
    static function MakeFalseExprAsWritten(): (r: Expr)
      ensures r.ConstantExpr? && r.exprType == BoolType && ConstantToString(r.exprType, r.constValue) == "True"
      ensures r == MakeTrueExpr()
    {
      ConstantExpr(BoolType, BoolValue(true))
    }

    /** `make_false_expr` as its documentation states: the Boolean constant `False`. */
    static function MakeFalseExpr(): (r: Expr)
      ensures r.ConstantExpr? && r.exprType == BoolType && ConstantToString(r.exprType, r.constValue) == "False"
      ensures r != MakeTrueExpr()
    {
      ConstantExpr(BoolType, BoolValue(false))
    }
  }

  /** The manager's instantiation agrees with the first instance any
      instantiator gives. */
  lemma FirstInstanceMeaning(insts: seq<Instantiator>, name: string, children: seq<Expr>)
    ensures FirstInstance(insts, name, children).None? <==> forall i :: 0 <= i < |insts| ==> insts[i](name, children).None?
    ensures FirstInstance(insts, name, children).Some? ==>
      exists i :: && 0 <= i < |insts| && insts[i](name, children) == FirstInstance(insts, name, children)
                  && forall j :: 0 <= j < i ==> insts[j](name, children).None?
  {
    if |insts| > 0 && insts[0](name, children).None? {
      FirstInstanceMeaning(insts[1..], name, children);
      assert forall i :: 1 <= i < |insts| ==> insts[1..][i - 1] == insts[i];
      if FirstInstance(insts, name, children).Some? {
        var i :| && 0 <= i < |insts[1..]| && insts[1..][i](name, children) == FirstInstance(insts, name, children)
                 && forall j :: 0 <= j < i ==> insts[1..][j](name, children).None?;
        assert insts[i + 1](name, children) == FirstInstance(insts, name, children);
      }
    }
  }

  // ---------------------------------------------------------------------
  // Rendering constants
  // ---------------------------------------------------------------------

  /** The digit for `d`: `0`-`9`, then upper-case `A`-`F`. */
  function DigitChar(d: nat): char
    requires d < 16
  {
    if d < 10 then ('0' as int + d) as char else ('A' as int + d - 10) as char
  }

  function DigitValue(c: char): nat {
    if '0' <= c <= '9' then c as int - '0' as int
    else if 'A' <= c <= 'F' then c as int - 'A' as int + 10
    else 0
  }

  /** The digits of `n` in `base`, most significant first, without leading zeros. */
  function Digits(n: nat, base: nat): seq<char>
    requires 2 <= base <= 16
    decreases n
  {
    if n < base then [DigitChar(n)] else Digits(n / base, base) + [DigitChar(n % base)]
  }

  /** The number a digit string denotes in `base`. */
  function ParseDigits(s: seq<char>, base: nat): nat
    decreases |s|
  {
    if |s| == 0 then 0 else ParseDigits(s[..|s| - 1], base) * base + DigitValue(s[|s| - 1])
  }

  function Zeros(k: nat): seq<char> {
    seq(k, _ => '0')
  }

  /** Left-padding with zeros up to `width`; a longer string is kept whole. */
  function ZeroPad(s: seq<char>, width: nat): seq<char> {
    if |s| >= width then s else Zeros(width - |s|) + s
  }

  /** `format(n, '0<width><b or X>')`: a negative number keeps its sign in front
      of the zero padding, which then fills one place less. */
  function Format(n: int, width: nat, base: nat): string
    requires 2 <= base <= 16
  {
    if n < 0 then "-" + ZeroPad(Digits(-n, base), if width > 0 then width - 1 else 0)
    else ZeroPad(Digits(n, base), width)
  }

  /** Python's `str` of an `int`. */
  function IntToString(i: int): string {
    if i < 0 then "-" + Digits(-i, 10) else Digits(i, 10)
  }

  /** Python's `int` of such a string. */
  function ParseInt(s: string): int {
    if |s| > 0 && s[0] == '-' then 0 - ParseDigits(s[1..], 10) as int else ParseDigits(s, 10)
  }

  /** Python's `str` of a constant's value. */
  function ValueToString(v: Value): string {
    match v
    case BoolValue(b) => if b then "True" else "False"
    case IntValue(i) => IntToString(i)
  }

  /** The integer `format` sees: a `bool` counts as 0 or 1. */
  function ValueAsInt(v: Value): int {
    match v
    case BoolValue(b) => if b then 1 else 0
    case IntValue(i) => i
  }

  /** `_constant_to_string` as written: the hexadecimal branch divides the
      format string by 4 and raises a `TypeError`. */
  function ConstantToStringAsWritten(t: ExprType, v: Value): Result<string> {
    match t
    case BoolType => Ok(ValueToString(v))
    case IntType => Ok(ValueToString(v))
    case BitVectorType(numBits) =>
      if numBits % 4 == 0 then Err(TypeError)
      else Ok("#b" + Format(ValueAsInt(v), numBits, 2))
  }

  /** `_constant_to_string` with the hexadecimal branch as intended: `#x` and
      `num_bits / 4` upper-case hexadecimal digits. */
  function ConstantToString(t: ExprType, v: Value): string {
    match t
    case BoolType => ValueToString(v)
    case IntType => ValueToString(v)
    case BitVectorType(numBits) =>
      if numBits % 4 == 0 then "#x" + Format(ValueAsInt(v), numBits / 4, 16)
      else "#b" + Format(ValueAsInt(v), numBits, 2)
  }

  /** The written conversion fails exactly on the widths divisible by 4, and
      agrees with the intended one everywhere else. */
  lemma ConstantToStringAgrees(t: ExprType, v: Value)
    ensures ConstantToStringAsWritten(t, v).Err? <==> t.BitVectorType? && t.size % 4 == 0
    ensures ConstantToStringAsWritten(t, v).Ok? ==> ConstantToStringAsWritten(t, v).value == ConstantToString(t, v)
  {
  }

  /** A four-bit vector: the written conversion raises, the intended one gives `#xA`. */
  lemma HexBranchRaises()
    ensures ConstantToStringAsWritten(BitVectorType(4), IntValue(10)) == Err(TypeError)
    ensures ConstantToString(BitVectorType(4), IntValue(10)) == "#xA"
  {
    assert Digits(10, 16) == ['A'];
  }

  lemma {:induction false} DigitsRoundTrip(n: nat, base: nat)
    requires 2 <= base <= 16
    ensures ParseDigits(Digits(n, base), base) == n
    decreases n
  {
    var d := Digits(n, base);
    if n >= base {
      var q, rem := n / base, n % base;
      assert d == Digits(q, base) + [DigitChar(rem)];
      DivSmaller(n, base);
      DigitsRoundTrip(q, base);
      DigitCharValue(rem);
      ParseSnoc(Digits(q, base), DigitChar(rem), base);
      calc {
        ParseDigits(d, base);
        ParseDigits(Digits(q, base), base) * base + DigitValue(DigitChar(rem));
        q * base + rem;
        { DivMod(n, base); }
        n;
      }
    } else {
      DigitCharValue(n);
      assert d[..0] == [];
    }
  }

  lemma DivSmaller(n: nat, base: nat)
    requires base >= 2 && n >= base
    ensures n / base < n
  {
    var q, r := n / base, n % base;
    DivMod(n, base);
    assert q * base == q * (base - 2) + 2 * q;
    assert q * (base - 2) >= 0;
    assert r < base;
  }

  lemma DivMod(n: nat, base: nat)
    requires base > 0
    ensures (n / base) * base + n % base == n
  {
  }

  lemma ParseSnoc(s: seq<char>, c: char, base: nat)
    ensures ParseDigits(s + [c], base) == ParseDigits(s, base) * base + DigitValue(c)
  {
    assert (s + [c])[..|s|] == s;
  }

  lemma DigitCharValue(d: nat)
    requires d < 16
    ensures DigitValue(DigitChar(d)) == d
  {
  }

  /** The first digit is never `-`, so a sign can be told apart. */
  lemma {:induction false} DigitsShape(n: nat, base: nat)
    requires 2 <= base <= 16
    ensures |Digits(n, base)| > 0 && Digits(n, base)[0] != '-'
    ensures forall i :: 0 <= i < |Digits(n, base)| ==> Digits(n, base)[i] != '(' && Digits(n, base)[i] != ')'
    decreases n
  {
    if n >= base {
      DivSmaller(n, base);
      DigitsShape(n / base, base);
      DigitCharShape(n % base);
      assert Digits(n, base) == Digits(n / base, base) + [DigitChar(n % base)];
    } else {
      DigitCharShape(n);
    }
  }

  lemma DigitCharShape(d: nat)
    requires d < 16
    ensures DigitChar(d) != '-' && DigitChar(d) != '(' && DigitChar(d) != ')'
  {
  }

  /** Numbers below `base^w` take at most `w` digits. */
  lemma {:induction false} DigitsFit(n: nat, base: nat, w: nat)
    requires 2 <= base <= 16 && 1 <= w && n < Pow(base, w)
    ensures |Digits(n, base)| <= w
    decreases w
  {
    assert Pow(base, 1) == base;
    if n >= base {
      DivBelowPow(n, base, w - 1);
      DigitsFit(n / base, base, w - 1);
    }
  }

  function Pow(b: nat, k: nat): nat {
    if k == 0 then 1 else b * Pow(b, k - 1)
  }

  lemma DivBelowPow(n: nat, base: nat, k: nat)
    requires base >= 2 && n < Pow(base, k + 1)
    ensures n / base < Pow(base, k)
  {
    assert Pow(base, k + 1) == base * Pow(base, k);
  }

  /** Leading zeros do not change the number. */
  lemma {:induction false} ParseLeadingZeros(k: nat, s: seq<char>, base: nat)
    ensures ParseDigits(Zeros(k) + s, base) == ParseDigits(s, base)
    decreases |s|
  {
    if |s| == 0 {
      ParseZeros(k, base);
      assert Zeros(k) + s == Zeros(k);
    } else {
      ParseLeadingZeros(k, s[..|s| - 1], base);
      assert (Zeros(k) + s)[..|Zeros(k) + s| - 1] == Zeros(k) + s[..|s| - 1];
    }
  }

  lemma {:induction false} ParseZeros(k: nat, base: nat)
    ensures ParseDigits(Zeros(k), base) == 0
  {
    if k > 0 {
      ParseZeros(k - 1, base);
      assert Zeros(k)[..k - 1] == Zeros(k - 1);
    }
  }

  /** `str` of an `int` reads back as the same number. */
  lemma IntToStringRoundTrip(i: int)
    ensures ParseInt(IntToString(i)) == i
  {
    if i < 0 {
      DigitsRoundTrip(-i, 10);
      assert ("-" + Digits(-i, 10))[1..] == Digits(-i, 10);
    } else {
      DigitsRoundTrip(i, 10);
      DigitsShape(i, 10);
    }
  }

  /** A bit-vector constant with a non-negative value: a `#b` (or `#x`)
      prefix, then the value's binary (or hexadecimal) digits, zero-padded to
      the width (or a quarter of it); a value that fits the width takes
      exactly that many digits. */
  lemma BitVectorConstantRoundTrip(numBits: nat, value: nat)
    ensures var s := ConstantToString(BitVectorType(numBits), IntValue(value));
            var base := if numBits % 4 == 0 then 16 else 2;
            var width := if numBits % 4 == 0 then numBits / 4 else numBits;
            && s[..2] == (if numBits % 4 == 0 then "#x" else "#b")
            && ParseDigits(s[2..], base) == value
            && |s| >= 2 + width
            && (width >= 1 && value < Pow(base, width) ==> |s| == 2 + width)
  {
    var base := if numBits % 4 == 0 then 16 else 2;
    var width := if numBits % 4 == 0 then numBits / 4 else numBits;
    var s := ConstantToString(BitVectorType(numBits), IntValue(value));
    var d := Digits(value, base);
    DigitsRoundTrip(value, base);
    assert s == (if numBits % 4 == 0 then "#x" else "#b") + ZeroPad(d, width);
    assert s[2..] == ZeroPad(d, width);
    if |d| < width {
      ParseLeadingZeros(width - |d|, d, base);
    }
    if width >= 1 && value < Pow(base, width) {
      DigitsFit(value, base, width);
    }
  }

  // ---------------------------------------------------------------------
  // Rendering expressions
  // ---------------------------------------------------------------------

  /** The concatenation of `parts`, last part last. */
  function Joined(parts: seq<string>): string {
    if |parts| == 0 then "" else Joined(parts[..|parts| - 1]) + parts[|parts| - 1]
  }

  /** Each child's rendering followed by a space. */
  function Rendered(e: Expr, nameOf: nat -> string): seq<string>
    requires e.FunctionExpr?
    decreases e, 0
  {
    seq(|e.children|, i requires 0 <= i < |e.children| => Render(e.children[i], nameOf) + " ")
  }

  /** The rendering of an expression: a variable's name (`nameOf` gives the
      name a variable id was interned under), a constant's string, and for an
      application `(`, the function name, a space, each child followed by a
      space, and `)`. */
  function Render(e: Expr, nameOf: nat -> string): string
    decreases e, 1
  {
    match e
    case VariableExpr(_, id) => nameOf(id)
    case ConstantExpr(t, v) => ConstantToString(t, v)
    case FunctionExpr(f, _) => "(" + f.functionName + " " + Joined(Rendered(e, nameOf)) + ")"
  }

  /** `expression_to_string`. */
  method ExpressionToString(e: Expr, nameOf: nat -> string) returns (s: string)
    ensures s == Render(e, nameOf)
    decreases e
  {
    match e
    case VariableExpr(_, id) =>
      s := nameOf(id);
    case ConstantExpr(t, v) =>
      s := ConstantToString(t, v);
    case FunctionExpr(f, children) =>
      ghost var parts := Rendered(e, nameOf);
      var retval := "(" + f.functionName + " ";
      for i := 0 to |children|
        invariant retval == "(" + f.functionName + " " + Joined(parts[..i])
      {
        var child := ExpressionToString(children[i], nameOf);
        assert parts[..i + 1][..i] == parts[..i];
        retval := retval + child;
        retval := retval + " ";
      }
      assert parts[..|children|] == parts;
      s := retval + ")";
  }

  function CountChar(s: string, c: char): nat {
    if |s| == 0 then 0 else CountChar(s[..|s| - 1], c) + (if s[|s| - 1] == c then 1 else 0)
  }

  /** No parentheses. */
  predicate Plain(s: string) {
    forall i :: 0 <= i < |s| ==> s[i] != '(' && s[i] != ')'
  }

  ghost predicate PlainNames(e: Expr) {
    match e
    case FunctionExpr(f, cs) => Plain(f.functionName) && forall i :: 0 <= i < |cs| ==> PlainNames(cs[i])
    case _ => true
  }

  predicate Balanced(s: string) {
    CountChar(s, '(') == CountChar(s, ')')
  }

  lemma {:induction false} CountAppend(a: string, b: string, c: char)
    ensures CountChar(a + b, c) == CountChar(a, c) + CountChar(b, c)
    decreases |b|
  {
    if |b| > 0 {
      CountAppend(a, b[..|b| - 1], c);
      assert (a + b)[..|a + b| - 1] == a + b[..|b| - 1];
    } else {
      assert a + b == a;
    }
  }

  lemma {:induction false} PlainBalanced(s: string)
    requires Plain(s)
    ensures CountChar(s, '(') == 0 && CountChar(s, ')') == 0
    decreases |s|
  {
    if |s| > 0 {
      PlainBalanced(s[..|s| - 1]);
    }
  }

  lemma {:induction false} JoinedBalanced(parts: seq<string>)
    requires forall i :: 0 <= i < |parts| ==> Balanced(parts[i])
    ensures Balanced(Joined(parts))
  {
    if |parts| > 0 {
      var init := parts[..|parts| - 1];
      JoinedBalanced(init);
      CountAppend(Joined(init), parts[|parts| - 1], '(');
      CountAppend(Joined(init), parts[|parts| - 1], ')');
    }
  }

  lemma ZeroPadPlain(s: string, width: nat)
    requires Plain(s)
    ensures Plain(ZeroPad(s, width))
  {
  }

  lemma FormatPlain(n: int, width: nat, base: nat)
    requires 2 <= base <= 16
    ensures Plain(Format(n, width, base))
  {
    var m: nat := if n < 0 then -n else n;
    DigitsShape(m, base);
    ZeroPadPlain(Digits(m, base), if n < 0 then (if width > 0 then width - 1 else 0) else width);
  }

  lemma ConstantPlain(t: ExprType, v: Value)
    ensures Plain(ConstantToString(t, v))
  {
    match t
    case BitVectorType(numBits) =>
      if numBits % 4 == 0 {
        FormatPlain(ValueAsInt(v), numBits / 4, 16);
      } else {
        FormatPlain(ValueAsInt(v), numBits, 2);
      }
    case _ =>
      match v
      case BoolValue(_) =>
      case IntValue(i) =>
        DigitsShape(if i < 0 then -i else i, 10);
  }

  /** With parenthesis-free names, every rendering has as many `(` as `)`. */
  lemma {:induction false} RenderBalanced(e: Expr, nameOf: nat -> string)
    requires PlainNames(e) && forall id :: Plain(nameOf(id))
    ensures Balanced(Render(e, nameOf))
    decreases e
  {
    match e
    case VariableExpr(_, id) =>
      PlainBalanced(nameOf(id));
    case ConstantExpr(t, v) =>
      ConstantPlain(t, v);
      PlainBalanced(ConstantToString(t, v));
    case FunctionExpr(f, cs) =>
      var parts := Rendered(e, nameOf);
      forall i | 0 <= i < |parts|
        ensures Balanced(parts[i])
      {
        RenderBalanced(cs[i], nameOf);
        CountAppend(Render(cs[i], nameOf), " ", '(');
        CountAppend(Render(cs[i], nameOf), " ", ')');
      }
      JoinedBalanced(parts);
      PlainBalanced(f.functionName);
      var head := "(" + f.functionName + " ";
      assert head == "(" + (f.functionName + " ");
      CountAppend(f.functionName, " ", '(');
      CountAppend(f.functionName, " ", ')');
      CountAppend("(", f.functionName + " ", '(');
      CountAppend("(", f.functionName + " ", ')');
      CountAppend(head, Joined(parts), '(');
      CountAppend(head, Joined(parts), ')');
      CountAppend(head + Joined(parts), ")", '(');
      CountAppend(head + Joined(parts), ")", ')');
  }
}
