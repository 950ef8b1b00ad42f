/** Dimension expressions of the interface description language: the tree, the postfix code
the generator emits for it, and the stack machine of the run-time library. */
module DimExpr {
  import opened Wrappers

  // The value types and operator codes of ninf_stub_info.h.
  const VALUE_ERROR: int := -1
  const VALUE_NONE: int := 0
  const VALUE_CONST: int := 1
  const VALUE_IN_ARG: int := 2
  const VALUE_BY_EXPR: int := 3
  const VALUE_OP: int := 4
  const VALUE_END_OF_OP: int := 5

  const OP_VALUE_UN_MINUS: int := 6
  const OP_VALUE_TRY: int := 14

  datatype BinOp = Plus | Minus | Mul | Div | Mod | Beki | Eq | Neq | Gt | Lt | Ge | Le

  function Code(op: BinOp): int {
    match op
    case Plus => 1
    case Minus => 2
    case Mul => 3
    case Div => 4
    case Mod => 5
    case Beki => 7
    case Eq => 8
    case Neq => 9
    case Gt => 10
    case Lt => 11
    case Ge => 12
    case Le => 13
  }

  datatype Expr =
    | Const(value: int)
    | Ident(name: string)
    | Neg(arg: Expr)
    | Binary(op: BinOp, left: Expr, right: Expr)
    | Try(cond: Expr, yes: Expr, no: Expr)

  function Nodes(e: Expr): (n: nat)
    ensures n >= 1
  {
    match e
    case Const(_) => 1
    case Ident(_) => 1
    case Neg(a) => 1 + Nodes(a)
    case Binary(_, l, r) => 1 + Nodes(l) + Nodes(r)
    case Try(c, y, n) => 1 + Nodes(c) + Nodes(y) + Nodes(n)
  }

  /** What the generator knows of a parameter. */
  datatype Param = Param(name: string, ndim: nat, isIn: bool)

  /** A run-time argument, as far as ninf_get_value distinguishes them. */
  datatype Arg = IntArg(i: int) | FloatArg(f: real) | OtherArg

  /** The results of an evaluation; all but `Value` end the program. */
  datatype Outcome =
    | Value(v: int)
    | StackOverflow
    | StackUnderflow
    | DivideByZero
    | UnknownOp
    | UnknownType
    | BadArgument

  // Division and remainder of ISO C, section 6.5.5: truncation toward zero.

  function CDiv(a: int, b: int): int
    requires b != 0
  {
    if a >= 0 then a / b else -((-a) / b)
  }

  function CMod(a: int, b: int): int
    requires b != 0
  {
    a - b * CDiv(a, b)
  }

  function Magnitude(b: int): int { if b >= 0 then b else -b }

  /** Quotient and remainder are determined: the remainder is smaller than the divisor and has the sign
      of the dividend. */
  lemma TruncatedDivision(a: int, b: int)
    requires b != 0
    ensures a == b * CDiv(a, b) + CMod(a, b)
    ensures (a >= 0 ==> CMod(a, b) >= 0) && (a <= 0 ==> CMod(a, b) <= 0)
    ensures -Magnitude(b) < CMod(a, b) < Magnitude(b)
  {
    var n := if a >= 0 then a else -a;
    assert n == (n / b) * b + n % b;
    assert b * CDiv(a, b) == if a >= 0 then (n / b) * b else -((n / b) * b);
  }

  // ----- The meaning of a tree -----

  /** The first parameter of that name. */
  function Lookup(params: seq<Param>, name: string): (j: nat)
    ensures j <= |params|
    ensures j < |params| ==> params[j].name == name
    ensures forall k | 0 <= k < j :: params[k].name != name
  {
    if params == [] then 0
    else if params[0].name == name then 0
    else
      var j := Lookup(params[1..], name);
      assert forall k | 1 <= k < 1 + j :: params[k] == params[1..][k - 1];
      1 + j
  }

  /** An identifier is usable when it names an IN scalar. */
  predicate Usable(params: seq<Param>, name: string) {
    var j := Lookup(params, name);
    j < |params| && params[j].ndim == 0 && params[j].isIn
  }

  predicate Resolves(params: seq<Param>, e: Expr) {
    match e
    case Const(_) => true
    case Ident(name) => Usable(params, name)
    case Neg(a) => Resolves(params, a)
    case Binary(_, l, r) => Resolves(params, l) && Resolves(params, r)
    case Try(c, y, n) => Resolves(params, c) && Resolves(params, y) && Resolves(params, n)
  }

  function ArgValue(args: seq<Arg>, j: int): Outcome {
    if 0 <= j < |args| then
      match args[j]
      case IntArg(i) => Value(i)
      case FloatArg(f) => Value(if f >= 0.0 then f.Floor else -((-f).Floor))
      case OtherArg => BadArgument
    else BadArgument
  }

  function Bit(b: bool): int { if b then 1 else 0 }

  function Apply(op: BinOp, left: int, right: int): Outcome {
    match op
    case Plus => Value(left + right)
    case Minus => Value(left - right)
    case Mul => Value(left * right)
    case Div => if right == 0 then DivideByZero else Value(CDiv(left, right))
    case Mod => if right == 0 then DivideByZero else Value(CMod(left, right))
    case Beki => UnknownOp
    case Eq => Value(Bit(left == right))
    case Neq => Value(Bit(left != right))
    case Gt => Value(Bit(left > right))
    case Lt => Value(Bit(left < right))
    case Ge => Value(Bit(left >= right))
    case Le => Value(Bit(left <= right))
  }

  /** Subtrees are evaluated from left to right, all of them: `?:` is strict.  The first one
      that fails decides. */
  function Meaning(e: Expr, params: seq<Param>, args: seq<Arg>): Outcome {
    match e
    case Const(v) => Value(v)
    case Ident(name) => if Usable(params, name) then ArgValue(args, Lookup(params, name)) else UnknownType
    case Neg(a) =>
      (match Meaning(a, params, args)
       case Value(v) => Value(-v)
       case fault => fault)
    case Binary(op, l, r) =>
      var x := Meaning(l, params, args);
      if !x.Value? then x
      else
        var y := Meaning(r, params, args);
        if !y.Value? then y else Apply(op, x.v, y.v)
    case Try(c, y, n) =>
      var a := Meaning(c, params, args);
      if !a.Value? then a
      else
        var b := Meaning(y, params, args);
        if !b.Value? then b
        else
          var d := Meaning(n, params, args);
          if !d.Value? then d else if a.v != 0 then b else d
  }

  // ----- The emitted code -----

  datatype Item = Item(t: int, v: int)

  /** The pair that compile_param_value hands back for the root of `e`. */
  function Root(e: Expr, params: seq<Param>): Item {
    match e
    case Const(v) => Item(VALUE_CONST, v)
    case Ident(name) => if Usable(params, name) then Item(VALUE_IN_ARG, Lookup(params, name)) else Item(VALUE_ERROR, 0)
    case Neg(_) => Item(VALUE_OP, OP_VALUE_UN_MINUS)
    case Binary(op, _, _) => Item(VALUE_OP, Code(op))
    case Try(_, _, _) => Item(VALUE_OP, OP_VALUE_TRY)
  }

  /** The pairs pushed below the root. */
  function Below(e: Expr, params: seq<Param>): (code: seq<Item>)
    ensures |code| == Nodes(e) - 1
    decreases e, 0
  {
    match e
    case Const(_) => []
    case Ident(_) => []
    case Neg(a) => Postfix(a, params)
    case Binary(_, l, r) => Postfix(l, params) + Postfix(r, params)
    case Try(c, y, n) => Postfix(c, params) + Postfix(y, params) + Postfix(n, params)
  }

  function Postfix(e: Expr, params: seq<Param>): (code: seq<Item>)
    ensures |code| == Nodes(e)
    decreases e, 1
  {
    Below(e, params) + [Root(e, params)]
  }

  /** struct ninf_expression with the index that push_expression advances.  The C code does
      not test the index; `overrun` records that it has written past the end. */
  class Expression {
    var types: array<int>
    var vals: array<int>
    var index: nat
    var overrun: bool

    ghost predicate Valid()
      reads this, types, vals
    {
      && types != vals && types.Length == vals.Length == NINF_EXPRESSION_LENGTH
      && (overrun <==> index > NINF_EXPRESSION_LENGTH)
    }

    /** The pairs pushed so far. */
    ghost function Pushed(): seq<Item>
      requires Valid() && !overrun
      reads this, types, vals
    {
      seq(index, i requires 0 <= i < index && Valid() && !overrun reads this, types, vals =>
            Item(types[i], vals[i]))
    }

    /** The whole array, as the run-time library sees it. */
    ghost function Slots(): (s: seq<Item>)
      requires Valid()
      reads this, types, vals
      ensures |s| == NINF_EXPRESSION_LENGTH
    {
      seq(NINF_EXPRESSION_LENGTH, i requires 0 <= i < NINF_EXPRESSION_LENGTH && Valid() reads this, types, vals =>
            Item(types[i], vals[i]))
    }

    lemma SlotsBeginWithPushed()
      requires Valid() && !overrun
      ensures Slots() == Pushed() + Slots()[index..]
    {
    }

    constructor ()
      ensures Valid() && fresh(types) && fresh(vals) && index == 0 && !overrun && Pushed() == []
    {
      types := new int[NINF_EXPRESSION_LENGTH](i => VALUE_NONE);
      vals := new int[NINF_EXPRESSION_LENGTH](i => 0);
      index, overrun := 0, false;
    }

    method Push(t: int, v: int)
      requires Valid()
      modifies this, types, vals
      ensures Valid() && types == old(types) && vals == old(vals) && index == old(index) + 1
      ensures !overrun ==> !old(overrun) && Pushed() == old(Pushed()) + [Item(t, v)]
    {
      if index < NINF_EXPRESSION_LENGTH {
        types[index] := t;
        vals[index] := v;
      } else {
        overrun := true;
      }
      index := index + 1;
    }
  }

  /** The IDENT case of compile_param_value: search for an IN scalar parameter. */
  method CompileIdent(params: seq<Param>, name: string) returns (t: int, v: int, errors: nat)
    ensures Item(t, v) == Root(Ident(name), params)
    ensures errors == 0 <==> Resolves(params, Ident(name))
  {
    var j := 0;
    while j < |params| && params[j].name != name
      invariant 0 <= j <= |params| && forall k | 0 <= k < j :: params[k].name != name
    {
      j := j + 1;
    }
    if j < |params| && params[j].ndim == 0 && params[j].isIn {
      t, v, errors := VALUE_IN_ARG, j, 0;
    } else {
      t, v, errors := VALUE_ERROR, 0, 1;
    }
  }

  /** compile_param_value: the pairs below the root are pushed, the root is returned.  An
      identifier that is not an IN scalar is reported. */
  method CompileParamValue(params: seq<Param>, e: Expr, out: Expression) returns (t: int, v: int, errors: nat)
    requires out.Valid()
    modifies out, out.types, out.vals
    ensures out.Valid() && out.types == old(out.types) && out.vals == old(out.vals)
    ensures out.index == old(out.index) + Nodes(e) - 1
    ensures !out.overrun ==> !old(out.overrun) && out.Pushed() == old(out.Pushed()) + Below(e, params)
    ensures Item(t, v) == Root(e, params)
    ensures errors == 0 <==> Resolves(params, e)
    decreases Nodes(e), 0
  {
    match e
    case Const(value) =>
      t, v, errors := VALUE_CONST, value, 0;
    case Ident(name) =>
      t, v, errors := CompileIdent(params, name);
    case Neg(arg) =>
      errors := CompileOperand(params, arg, out);
      t, v := VALUE_OP, OP_VALUE_UN_MINUS;
    case Binary(op, left, right) =>
      errors := CompileOperands(params, left, right, out);
      t, v := VALUE_OP, Code(op);
    case Try(cond, yes, no) =>
      var n := CompileOperands(params, cond, yes, out);
      var m := CompileOperand(params, no, out);
      t, v, errors := VALUE_OP, OP_VALUE_TRY, n + m;
      if !out.overrun {
        Associate(old(out.Pushed()), Postfix(cond, params) + Postfix(yes, params), Postfix(no, params));
      }
  }

  /** `t = compile_param_value(...); push_expression(t, v, ...);` */
  method CompileOperand(params: seq<Param>, e: Expr, out: Expression) returns (errors: nat)
    requires out.Valid()
    modifies out, out.types, out.vals
    ensures out.Valid() && out.types == old(out.types) && out.vals == old(out.vals)
    ensures out.index == old(out.index) + Nodes(e)
    ensures !out.overrun ==> !old(out.overrun) && out.Pushed() == old(out.Pushed()) + Postfix(e, params)
    ensures errors == 0 <==> Resolves(params, e)
    decreases Nodes(e), 1
  {
    var t, v;
    t, v, errors := CompileParamValue(params, e, out);
    out.Push(t, v);
    if !out.overrun {
      Associate(old(out.Pushed()), Below(e, params), [Root(e, params)]);
    }
  }

  /** The two operands of a binary operator, or the first two of `?:`. */
  method CompileOperands(params: seq<Param>, l: Expr, r: Expr, out: Expression) returns (errors: nat)
    requires out.Valid()
    modifies out, out.types, out.vals
    ensures out.Valid() && out.types == old(out.types) && out.vals == old(out.vals)
    ensures out.index == old(out.index) + Nodes(l) + Nodes(r)
    ensures !out.overrun ==> !old(out.overrun) &&
                             out.Pushed() == old(out.Pushed()) + (Postfix(l, params) + Postfix(r, params))
    ensures errors == 0 <==> Resolves(params, l) && Resolves(params, r)
    decreases Nodes(l) + Nodes(r), 2
  {
    var n := CompileOperand(params, l, out);
    var m := CompileOperand(params, r, out);
    errors := n + m;
    if !out.overrun {
      Associate(old(out.Pushed()), Postfix(l, params), Postfix(r, params));
    }
  }

  /** compile_param_value_front. */
  method CompileFront(params: seq<Param>, x: Option<Expr>, out: Expression) returns (t: int, v: int, errors: nat)
    requires out.Valid() && out.index == 0
    modifies out, out.types, out.vals
    ensures out.Valid() && out.types == old(out.types) && out.vals == old(out.vals)
    ensures out.overrun <==> x.Some? && Nodes(x.value) >= NINF_EXPRESSION_LENGTH
    ensures errors == 0 <==> (x.Some? ==> Resolves(params, x.value))
    ensures x.None? ==> t == VALUE_NONE
    ensures x.Some? && Nodes(x.value) == 1 ==> Item(t, v) == Root(x.value, params)
    ensures x.Some? && Nodes(x.value) > 1 ==> t == VALUE_BY_EXPR
    ensures x.Some? && 1 < Nodes(x.value) < NINF_EXPRESSION_LENGTH ==>
              out.Pushed() == Postfix(x.value, params) + [Item(VALUE_END_OF_OP, 0)]
  {
    match x
    case None => t, v, errors := VALUE_NONE, 0, 0;
    case Some(e) =>
      t, v, errors := CompileParamValue(params, e, out);
      LeavesAreNotOperators(e, params);
      if t == VALUE_OP {
        out.Push(t, v);
        out.Push(VALUE_END_OF_OP, 0);
        t := VALUE_BY_EXPR;
      }
  }

  lemma LeavesAreNotOperators(e: Expr, params: seq<Param>)
    ensures Root(e, params).t == VALUE_OP <==> Nodes(e) > 1
  {
  }

  // ----- The stack machine -----

  datatype Machine = Running(stack: seq<int>) | Halted(result: Outcome)

  /** An operator code on two operands, the left one pushed first. */
  function TwoOperands(code: int, left: int, right: int): Outcome {
    if code == 1 then Value(left + right)
    else if code == 2 then Value(left - right)
    else if code == 3 then Value(left * right)
    else if code == 4 then (if right == 0 then DivideByZero else Value(CDiv(left, right)))
    else if code == 5 then (if right == 0 then DivideByZero else Value(CMod(left, right)))
    else if code == 8 then Value(if left == right then 1 else 0)
    else if code == 9 then Value(if left != right then 1 else 0)
    else if code == 10 then Value(if left > right then 1 else 0)
    else if code == 11 then Value(if left < right then 1 else 0)
    else if code == 12 then Value(if left >= right then 1 else 0)
    else if code == 13 then Value(if left <= right then 1 else 0)
    else UnknownOp
  }

  /** How many values an operator pops; 0 for a code the evaluator does not know. */
  function Arity(code: int): nat {
    if code == OP_VALUE_UN_MINUS then 1
    else if code == OP_VALUE_TRY then 3
    else if 1 <= code <= 5 || 8 <= code <= 13 then 2
    else 0
  }

  function Operate(code: int, stack: seq<int>): Machine {
    var n, k := |stack|, Arity(code);
    if k == 0 then Halted(UnknownOp)
    else if n < k then Halted(StackUnderflow)
    else if k == 1 then Running(stack[..n - 1] + [-stack[n - 1]])
    else if k == 3 then Running(stack[..n - 3] + [if stack[n - 3] != 0 then stack[n - 2] else stack[n - 1]])
    else
      match TwoOperands(code, stack[n - 2], stack[n - 1])
      case Value(v) => Running(stack[..n - 2] + [v])
      case fault => Halted(fault)
  }

  function Top(stack: seq<int>): Outcome {
    if stack == [] then StackUnderflow else Value(stack[|stack| - 1])
  }

  /** ninf_get_value without an expression. */
  function PlainValue(t: int, v: int, args: seq<Arg>, default: int): Outcome {
    if t == VALUE_NONE then Value(default)
    else if t == VALUE_CONST then Value(v)
    else if t == VALUE_IN_ARG then ArgValue(args, v)
    else UnknownType
  }

  /** What the operators do to the stack, by their numbers: a row of operands is replaced by one value. */
  predicate Acts(code: int, was: seq<int>, now: seq<int>) {
    && (code == 6 ==> |was| >= 1 && now == was[..|was| - 1] + [-was[|was| - 1]])
    && (code == 14 ==>
          |was| >= 3 && now == was[..|was| - 3] + [if was[|was| - 3] == 0 then was[|was| - 1] else was[|was| - 2]])
    && (1 <= code <= 5 || 8 <= code <= 13 ==>
          && |was| >= 2 && |now| == |was| - 1 && now[..|now| - 1] == was[..|was| - 2]
          && Yields(code, was[|was| - 2], was[|was| - 1], now[|now| - 1]))
  }

  /** `v` is what operator number `code` makes of `a` and `b`. */
  predicate Yields(code: int, a: int, b: int, v: int) {
    && (code == 1 ==> v == a + b)
    && (code == 2 ==> v + b == a)
    && (code == 3 ==> v == a * b)
    && (code == 4 ==> b != 0 && v == CDiv(a, b))
    && (code == 5 ==> b != 0 && a == CDiv(a, b) * b + v)
    && (code == 8 ==> (v == 1 <==> a == b))
    && (code == 9 ==> (v == 1 <==> a != b))
    && (code == 10 ==> (v == 1 <==> a > b))
    && (code == 11 ==> (v == 1 <==> a < b))
    && (code == 12 ==> (v == 1 <==> a >= b))
    && (code == 13 ==> (v == 1 <==> a <= b))
    && (8 <= code <= 13 ==> v in {0, 1})
  }

  lemma OperateActs(code: int, stack: seq<int>)
    requires Operate(code, stack).Running?
    ensures Acts(code, stack, Operate(code, stack).stack)
  {
  }

  /** One turn of the loop of ninf_eval_expression. */
  function Turn(item: Item, stack: seq<int>, args: seq<Arg>): Machine {
    if item.t == VALUE_NONE || item.t == VALUE_CONST || item.t == VALUE_IN_ARG then
      var r := PlainValue(item.t, item.v, args, 0);
      if !r.Value? then Halted(r)
      else if |stack| >= NINF_EXPRESSION_LENGTH then Halted(StackOverflow)
      else Running(stack + [r.v])
    else if item.t == VALUE_OP then Operate(item.v, stack)
    else if item.t == VALUE_END_OF_OP then Halted(Top(stack))
    else Halted(UnknownType)
  }

  function Run(code: seq<Item>, stack: seq<int>, args: seq<Arg>): Machine {
    if code == [] then Running(stack)
    else
      match Turn(code[0], stack, args)
      case Running(next) => Run(code[1..], next, args)
      case Halted(r) => Halted(r)
  }

  /** ninf_eval_expression: what is popped at the end of the code or at its end marker. */
  function Exec(code: seq<Item>, args: seq<Arg>): Outcome {
    match Run(code, [], args)
    case Running(stack) => Top(stack)
    case Halted(r) => r
  }

  lemma RunStep(code: seq<Item>, i: nat, stack: seq<int>, args: seq<Arg>)
    requires i < |code|
    ensures Run(code[i..], stack, args) ==
            match Turn(code[i], stack, args)
            case Running(next) => Run(code[i + 1..], next, args)
            case Halted(r) => Halted(r)
  {
    assert code[i..][1..] == code[i + 1..];
  }

  lemma {:induction false} RunAppend(a: seq<Item>, b: seq<Item>, stack: seq<int>, args: seq<Arg>)
    ensures Run(a + b, stack, args) ==
            match Run(a, stack, args)
            case Running(next) => Run(b, next, args)
            case Halted(r) => Halted(r)
  {
    if a == [] {
      assert a + b == b;
    } else {
      assert (a + b)[0] == a[0] && (a + b)[1..] == a[1..] + b;
      match Turn(a[0], stack, args)
      case Running(next) => RunAppend(a[1..], b, next, args);
      case Halted(_) =>
    }
  }

  // ----- Compiler correctness -----

  /** What running the code of a subtree must do to a stack. */
  function Leaves(meaning: Outcome, stack: seq<int>): Machine {
    match meaning
    case Value(v) => Running(stack + [v])
    case fault => Halted(fault)
  }

  lemma OperatorsAgree(op: BinOp, stack: seq<int>, left: int, right: int)
    ensures Operate(Code(op), stack + [left] + [right]) == Leaves(Apply(op, left, right), stack)
  {
    var s := stack + [left] + [right];
    assert s[..|s| - 2] == stack;
  }

  lemma TernaryAgrees(stack: seq<int>, a: int, b: int, d: int)
    ensures Operate(OP_VALUE_TRY, stack + [a] + [b] + [d]) == Running(stack + [if a != 0 then b else d])
  {
    var s := stack + [a] + [b] + [d];
    assert s[..|s| - 3] == stack;
  }

  lemma RunOne(item: Item, stack: seq<int>, args: seq<Arg>)
    ensures Run([item], stack, args) == Turn(item, stack, args)
  {
  }

  lemma RunBinary(op: BinOp, stack: seq<int>, left: int, right: int, args: seq<Arg>)
    ensures Run([Item(VALUE_OP, Code(op))], stack + [left] + [right], args) == Leaves(Apply(op, left, right), stack)
  {
    RunOne(Item(VALUE_OP, Code(op)), stack + [left] + [right], args);
    OperatorsAgree(op, stack, left, right);
  }

  lemma RunTry(stack: seq<int>, a: int, b: int, d: int, args: seq<Arg>)
    ensures Run([Item(VALUE_OP, OP_VALUE_TRY)], stack + [a] + [b] + [d], args) ==
            Running(stack + [if a != 0 then b else d])
  {
    RunOne(Item(VALUE_OP, OP_VALUE_TRY), stack + [a] + [b] + [d], args);
    TernaryAgrees(stack, a, b, d);
  }

  /** With a free slot for every node, the code of a tree leaves exactly its value on top of
      what was on the stack before, or stops with the fault the tree means. */
  lemma {:induction false} RunTree(e: Expr, params: seq<Param>, args: seq<Arg>, stack: seq<int>)
    requires |stack| + Nodes(e) <= NINF_EXPRESSION_LENGTH
    ensures Run(Postfix(e, params), stack, args) == Leaves(Meaning(e, params, args), stack)
    decreases Nodes(e)
  {
    RunAppend(Below(e, params), [Root(e, params)], stack, args);
    match e
    case Const(_) => RunOne(Root(e, params), stack, args);
    case Ident(_) => RunOne(Root(e, params), stack, args);
    case Neg(a) =>
      RunTree(a, params, args, stack);
      var x := Meaning(a, params, args);
      if x.Value? {
        RunOne(Root(e, params), stack + [x.v], args);
        assert (stack + [x.v])[..|stack|] == stack;
      }
    case Binary(op, l, r) =>
      RunPair(l, r, params, args, stack);
      var x, y := Meaning(l, params, args), Meaning(r, params, args);
      if x.Value? && y.Value? {
        RunBinary(op, stack, x.v, y.v, args);
      }
    case Try(c, y, n) =>
      RunTriple(c, y, n, params, args, stack);
      var a, b, d := Meaning(c, params, args), Meaning(y, params, args), Meaning(n, params, args);
      if a.Value? && b.Value? && d.Value? {
        RunTry(stack, a.v, b.v, d.v, args);
      }
  }

  lemma {:induction false} RunPair(l: Expr, r: Expr, params: seq<Param>, args: seq<Arg>, stack: seq<int>)
    requires |stack| + Nodes(l) + Nodes(r) <= NINF_EXPRESSION_LENGTH
    ensures Run(Postfix(l, params) + Postfix(r, params), stack, args) ==
            match Meaning(l, params, args)
            case Value(v) => Leaves(Meaning(r, params, args), stack + [v])
            case fault => Halted(fault)
    decreases Nodes(l) + Nodes(r)
  {
    RunAppend(Postfix(l, params), Postfix(r, params), stack, args);
    RunTree(l, params, args, stack);
    match Meaning(l, params, args)
    case Value(v) => RunTree(r, params, args, stack + [v]);
    case _ =>
  }

  lemma {:induction false} RunTriple(c: Expr, y: Expr, n: Expr, params: seq<Param>, args: seq<Arg>, stack: seq<int>)
    requires |stack| + Nodes(c) + Nodes(y) + Nodes(n) <= NINF_EXPRESSION_LENGTH
    ensures Run(Postfix(c, params) + Postfix(y, params) + Postfix(n, params), stack, args) ==
            match Meaning(c, params, args)
            case Value(a) =>
              (match Meaning(y, params, args)
               case Value(b) => Leaves(Meaning(n, params, args), stack + [a] + [b])
               case fault => Halted(fault))
            case fault => Halted(fault)
    decreases Nodes(c) + Nodes(y) + Nodes(n)
  {
    RunPair(c, y, params, args, stack);
    RunAppend(Postfix(c, params) + Postfix(y, params), Postfix(n, params), stack, args);
    var a, b := Meaning(c, params, args), Meaning(y, params, args);
    if a.Value? && b.Value? {
      RunTree(n, params, args, stack + [a.v] + [b.v]);
    }
  }

  /** Whatever the rest of the array holds, evaluating the emitted code means the tree. */
  lemma CompilerIsCorrect(e: Expr, params: seq<Param>, args: seq<Arg>, rest: seq<Item>)
    requires Nodes(e) <= NINF_EXPRESSION_LENGTH
    ensures Exec(Postfix(e, params) + [Item(VALUE_END_OF_OP, 0)] + rest, args) == Meaning(e, params, args)
  {
    var end := [Item(VALUE_END_OF_OP, 0)] + rest;
    assert Postfix(e, params) + [Item(VALUE_END_OF_OP, 0)] + rest == Postfix(e, params) + end;
    RunAppend(Postfix(e, params), end, [], args);
    RunTree(e, params, args, []);
  }

  predicate UsesBeki(e: Expr) {
    match e
    case Const(_) => false
    case Ident(_) => false
    case Neg(a) => UsesBeki(a)
    case Binary(op, l, r) => op == Beki || UsesBeki(l) || UsesBeki(r)
    case Try(c, y, n) => UsesBeki(c) || UsesBeki(y) || UsesBeki(n)
  }

  /** Every name that resolves is given a number. */
  predicate Numeric(e: Expr, params: seq<Param>, args: seq<Arg>) {
    match e
    case Const(_) => true
    case Ident(name) => Usable(params, name) ==> ArgValue(args, Lookup(params, name)).Value?
    case Neg(a) => Numeric(a, params, args)
    case Binary(_, l, r) => Numeric(l, params, args) && Numeric(r, params, args)
    case Try(c, y, n) => Numeric(c, params, args) && Numeric(y, params, args) && Numeric(n, params, args)
  }

  /** What `r` can be for a tree: no stack fault; an unknown operator only from `^`, an unknown type only
      from a name that does not resolve, a bad argument only from one that is no number.  Without any
      of these it is a value or a division by zero. */
  predicate Expected(r: Outcome, e: Expr, params: seq<Param>, args: seq<Arg>) {
    && !r.StackOverflow? && !r.StackUnderflow?
    && (r.UnknownOp? ==> UsesBeki(e)) && (r.UnknownType? ==> !Resolves(params, e))
    && (r.BadArgument? ==> !Numeric(e, params, args))
    && (r.Value? ==> !UsesBeki(e) && Resolves(params, e) && Numeric(e, params, args))
    && (!UsesBeki(e) && Resolves(params, e) && Numeric(e, params, args) ==> r.Value? || r.DivideByZero?)
  }

  lemma {:induction false} MeaningFaults(e: Expr, params: seq<Param>, args: seq<Arg>)
    ensures Expected(Meaning(e, params, args), e, params, args)
  {
    match e
    case Const(_) =>
    case Ident(_) =>
    case Neg(a) => MeaningFaults(a, params, args);
    case Binary(_, l, r) =>
      MeaningFaults(l, params, args);
      MeaningFaults(r, params, args);
    case Try(c, y, n) =>
      MeaningFaults(c, params, args);
      MeaningFaults(y, params, args);
      MeaningFaults(n, params, args);
  }

  /** The emitted code never overflows or underflows the stack, and every other fault has its reason in
      the tree. */
  lemma NoStackFaults(e: Expr, params: seq<Param>, args: seq<Arg>, rest: seq<Item>)
    requires Nodes(e) <= NINF_EXPRESSION_LENGTH
    ensures Expected(Exec(Postfix(e, params) + [Item(VALUE_END_OF_OP, 0)] + rest, args), e, params, args)
  {
    CompilerIsCorrect(e, params, args, rest);
    MeaningFaults(e, params, args);
  }

  /** `2 ^ 3` is compiled, and its code stops at an operator that the evaluator does not know. */
  lemma PowerIsUnknown(params: seq<Param>, args: seq<Arg>, rest: seq<Item>)
    ensures var e := Binary(Beki, Const(2), Const(3));
            && Resolves(params, e) && Nodes(e) == 3
            && Exec(Postfix(e, params) + [Item(VALUE_END_OF_OP, 0)] + rest, args) == UnknownOp
  {
    CompilerIsCorrect(Binary(Beki, Const(2), Const(3)), params, args, rest);
  }

  // ----- What the operators mean, told by the code -----

  /** The outcome of the code emitted for a tree. */
  function Evaluated(e: Expr, params: seq<Param>, args: seq<Arg>): Outcome {
    Exec(Postfix(e, params) + [Item(VALUE_END_OF_OP, 0)], args)
  }

  lemma OutcomeMeans(e: Expr, params: seq<Param>, args: seq<Arg>)
    requires Nodes(e) <= NINF_EXPRESSION_LENGTH
    ensures Evaluated(e, params, args) == Meaning(e, params, args)
  {
    CompilerIsCorrect(e, params, args, []);
    var code := Postfix(e, params) + [Item(VALUE_END_OF_OP, 0)];
    assert code + [] == code;
  }

  /** The operands of an operator have the values `a` and `b`. */
  predicate Operands(l: Expr, r: Expr, params: seq<Param>, args: seq<Arg>, a: int, b: int) {
    && Nodes(l) + Nodes(r) < NINF_EXPRESSION_LENGTH
    && Evaluated(l, params, args) == Value(a) && Evaluated(r, params, args) == Value(b)
  }

  predicate Truth(r: Outcome, holds: bool) {
    r == Value(if holds then 1 else 0)
  }

  lemma OperatorMeans(op: BinOp, l: Expr, r: Expr, params: seq<Param>, args: seq<Arg>, a: int, b: int)
    requires Operands(l, r, params, args, a, b)
    ensures Evaluated(Binary(op, l, r), params, args) == Apply(op, a, b)
  {
    OutcomeMeans(l, params, args);
    OutcomeMeans(r, params, args);
    OutcomeMeans(Binary(op, l, r), params, args);
  }

  /** Sum, difference, product: the difference and the right operand make up the left one. */
  lemma SumsAndProducts(l: Expr, r: Expr, params: seq<Param>, args: seq<Arg>, a: int, b: int)
    requires Operands(l, r, params, args, a, b)
    ensures Evaluated(Binary(Plus, l, r), params, args) == Value(a + b)
    ensures var d := Evaluated(Binary(Minus, l, r), params, args); d.Value? && d.v + b == a
    ensures Evaluated(Binary(Mul, l, r), params, args) == Value(a * b)
    ensures var n := Evaluated(Neg(l), params, args); n.Value? && n.v + a == 0
  {
    OperatorMeans(Plus, l, r, params, args, a, b);
    OperatorMeans(Minus, l, r, params, args, a, b);
    OperatorMeans(Mul, l, r, params, args, a, b);
    OutcomeMeans(l, params, args);
    OutcomeMeans(Neg(l), params, args);
  }

  /** Quotient and remainder make up the left operand, and the remainder is smaller than the right one
      and has the sign of the left; dividing by 0 ends the program. */
  lemma Quotients(l: Expr, r: Expr, params: seq<Param>, args: seq<Arg>, a: int, b: int)
    requires Operands(l, r, params, args, a, b)
    ensures var q, m := Evaluated(Binary(Div, l, r), params, args), Evaluated(Binary(Mod, l, r), params, args);
            if b == 0 then q == m == DivideByZero
            else && q.Value? && m.Value? && a == b * q.v + m.v && -Magnitude(b) < m.v < Magnitude(b)
                 && (a >= 0 ==> m.v >= 0) && (a <= 0 ==> m.v <= 0)
  {
    OperatorMeans(Div, l, r, params, args, a, b);
    OperatorMeans(Mod, l, r, params, args, a, b);
    if b != 0 {
      TruncatedDivision(a, b);
    }
  }

  /** The comparisons are 1 or 0 as they hold. */
  lemma Comparisons(l: Expr, r: Expr, params: seq<Param>, args: seq<Arg>, a: int, b: int)
    requires Operands(l, r, params, args, a, b)
    ensures Truth(Evaluated(Binary(Lt, l, r), params, args), a < b)
    ensures Truth(Evaluated(Binary(Gt, l, r), params, args), a > b)
    ensures Truth(Evaluated(Binary(Le, l, r), params, args), a <= b)
    ensures Truth(Evaluated(Binary(Ge, l, r), params, args), a >= b)
    ensures Truth(Evaluated(Binary(Eq, l, r), params, args), a == b)
    ensures Truth(Evaluated(Binary(Neq, l, r), params, args), a != b)
  {
    OperatorMeans(Lt, l, r, params, args, a, b);
    OperatorMeans(Gt, l, r, params, args, a, b);
    OperatorMeans(Le, l, r, params, args, a, b);
    OperatorMeans(Ge, l, r, params, args, a, b);
    OperatorMeans(Eq, l, r, params, args, a, b);
    OperatorMeans(Neq, l, r, params, args, a, b);
  }

  /** `?:` is the second operand unless the first is 0, and the third otherwise. */
  lemma Conditional(c: Expr, y: Expr, n: Expr, params: seq<Param>, args: seq<Arg>, a: int, b: int, d: int)
    requires Nodes(c) + Nodes(y) + Nodes(n) < NINF_EXPRESSION_LENGTH
    requires Evaluated(c, params, args) == Value(a)
    requires Evaluated(y, params, args) == Value(b) && Evaluated(n, params, args) == Value(d)
    ensures a != 0 ==> Evaluated(Try(c, y, n), params, args) == Value(b)
    ensures a == 0 ==> Evaluated(Try(c, y, n), params, args) == Value(d)
  {
    OutcomeMeans(c, params, args);
    OutcomeMeans(y, params, args);
    OutcomeMeans(n, params, args);
    OutcomeMeans(Try(c, y, n), params, args);
  }

  /** An operand that ends the program ends it before the operator, the left one first. */
  lemma FaultsFirst(op: BinOp, l: Expr, r: Expr, params: seq<Param>, args: seq<Arg>)
    requires Nodes(l) + Nodes(r) < NINF_EXPRESSION_LENGTH
    ensures var x, y := Evaluated(l, params, args), Evaluated(r, params, args);
            var z := Evaluated(Binary(op, l, r), params, args);
            (!x.Value? ==> z == x) && (x.Value? && !y.Value? ==> z == y)
  {
    OutcomeMeans(l, params, args);
    OutcomeMeans(r, params, args);
    OutcomeMeans(Binary(op, l, r), params, args);
  }

  /** A constant is itself; a name is the argument of the first parameter of that name, a floating point
      number being cut toward zero. */
  lemma LeafValues(v: int, name: string, params: seq<Param>, args: seq<Arg>, j: nat)
    requires j < |params| == |args| && params[j].name == name && params[j].ndim == 0 && params[j].isIn
    requires forall k | 0 <= k < j :: params[k].name != name
    ensures Evaluated(Const(v), params, args) == Value(v)
    ensures var r := Evaluated(Ident(name), params, args);
            match args[j]
            case IntArg(i) => r == Value(i)
            case FloatArg(f) =>
              r.Value? && if f >= 0.0 then r.v as real <= f < r.v as real + 1.0 else r.v as real - 1.0 < f <= r.v as real
            case OtherArg => r == BadArgument
  {
    assert Lookup(params, name) == j;
    OutcomeMeans(Const(v), params, args);
    OutcomeMeans(Ident(name), params, args);
  }

  /** The codes of the operators are those of enum value_op. */
  lemma OperatorCodes(op: BinOp, l: Expr, r: Expr, params: seq<Param>)
    ensures var code := Postfix(Binary(op, l, r), params);
            code == Postfix(l, params) + Postfix(r, params) + [
              Item(4, match op
                      case Plus => 1 case Minus => 2 case Mul => 3 case Div => 4 case Mod => 5 case Beki => 7
                      case Eq => 8 case Neq => 9 case Gt => 10 case Lt => 11 case Ge => 12 case Le => 13)]
  {
  }

  function Negated(n: nat): Expr { if n == 0 then Const(1) else Neg(Negated(n - 1)) }

  lemma {:induction false} NodesOfNegated(n: nat, params: seq<Param>)
    ensures Nodes(Negated(n)) == n + 1 && Resolves(params, Negated(n))
  {
    if n > 0 {
      NodesOfNegated(n - 1, params);
    }
  }

  /** A tree of 20 nodes writes past the end, and no error is reported; one of 19 does not. */
  method TwentyNodes(params: seq<Param>) returns (overrun: bool, fits: bool, errors: nat)
    ensures overrun && fits && errors == 0
  {
    NodesOfNegated(19, params);
    NodesOfNegated(18, params);
    var long := new Expression();
    var short := new Expression();
    var t, v, e := CompileFront(params, Some(Negated(19)), long);
    overrun, errors := long.overrun, e;
    t, v, e := CompileFront(params, Some(Negated(18)), short);
    fits := !short.overrun;
  }

  // ----- ninf_eval_expression -----

  /** EXP_STACK and EXP_STACK_POINTER.  The C program stops where a method says `ok == false`. */
  class ExpStack {
    const slots: array<int>
    var pointer: nat

    ghost predicate Valid()
      reads this
    {
      slots.Length == NINF_EXPRESSION_LENGTH && pointer <= NINF_EXPRESSION_LENGTH
    }

    ghost function Contents(): seq<int>
      requires Valid()
      reads this, slots
    {
      slots[..pointer]
    }

    constructor ()
      ensures Valid() && fresh(slots) && Contents() == []
    {
      slots := new int[NINF_EXPRESSION_LENGTH];
      pointer := 0;
    }

    method Push(item: int) returns (ok: bool)
      requires Valid()
      modifies this, slots
      ensures Valid()
      ensures ok == (|old(Contents())| < NINF_EXPRESSION_LENGTH)
      ensures Contents() == if ok then old(Contents()) + [item] else old(Contents())
    {
      ok := pointer < NINF_EXPRESSION_LENGTH;
      if ok {
        slots[pointer] := item;
        pointer := pointer + 1;
      }
    }

    method Pop() returns (r: Outcome)
      requires Valid()
      modifies this
      ensures Valid() && r == Top(old(Contents()))
      ensures r.Value? ==> Contents() == old(Contents())[..|old(Contents())| - 1]
    {
      if pointer <= 0 {
        return StackUnderflow;
      }
      pointer := pointer - 1;
      return Value(slots[pointer]);
    }

    /** The VALUE_OP case; `Value` means that the loop goes on. */
    method Operator(code: int) returns (r: Outcome)
      requires Valid()
      modifies this, slots
      ensures Valid()
      ensures r.Value? ==> Operate(code, old(Contents())) == Running(Contents())
      ensures !r.Value? ==> Operate(code, old(Contents())) == Halted(r)
      ensures r.Value? ==> Acts(code, old(Contents()), Contents())
    {
      if code == OP_VALUE_UN_MINUS {
        r := Pop();
        if r.Value? {
          var _ := Push(-r.v);
        }
      } else if code == OP_VALUE_TRY {
        r := Ternary();
      } else if 1 <= code <= 5 || 8 <= code <= 13 {
        r := BinaryOperator(code);
      } else {
        r := UnknownOp;
      }
      if r.Value? {
        OperateActs(code, old(Contents()));
      }
    }

    method BinaryOperator(code: int) returns (r: Outcome)
      requires Valid() && Arity(code) == 2
      modifies this, slots
      ensures Valid()
      ensures r.Value? ==> Operate(code, old(Contents())) == Running(Contents())
      ensures !r.Value? ==> Operate(code, old(Contents())) == Halted(r)
    {
      var right := Pop();
      if !right.Value? { return right; }
      var left := Pop();
      if !left.Value? { return left; }
      r := TwoOperands(code, left.v, right.v);
      if r.Value? {
        var _ := Push(r.v);
      }
    }

    method Ternary() returns (r: Outcome)
      requires Valid()
      modifies this, slots
      ensures Valid()
      ensures r.Value? ==> Operate(OP_VALUE_TRY, old(Contents())) == Running(Contents())
      ensures !r.Value? ==> Operate(OP_VALUE_TRY, old(Contents())) == Halted(r)
    {
      var right := Pop();
      if !right.Value? { return right; }
      var left := Pop();
      if !left.Value? { return left; }
      r := Pop();
      if r.Value? {
        var _ := Push(if r.v != 0 then left.v else right.v);
      }
    }

    /** ninf_eval_expression. */
    method Eval(exp: Expression, args: seq<Arg>) returns (r: Outcome)
      requires Valid() && exp.Valid() && slots !in {exp.types, exp.vals}
      modifies this, slots
      ensures Valid() && r == Exec(exp.Slots(), args)
    {
      pointer := 0;
      var i := 0;
      ghost var code := exp.Slots();
      while i < NINF_EXPRESSION_LENGTH
        invariant 0 <= i <= NINF_EXPRESSION_LENGTH && Valid() && exp.Slots() == code
        invariant Run(code, [], args) == Run(code[i..], Contents(), args)
      {
        var t, val := exp.types[i], exp.vals[i];
        assert code[i] == Item(t, val);
        RunStep(code, i, Contents(), args);
        if t == VALUE_NONE || t == VALUE_CONST || t == VALUE_IN_ARG {
          r := PlainValue(t, val, args, 0);
          if !r.Value? { return r; }
          var ok := Push(r.v);
          if !ok { return StackOverflow; }
        } else if t == VALUE_OP {
          r := Operator(val);
          if !r.Value? { return r; }
        } else if t == VALUE_END_OF_OP {
          r := Pop();
          return r;
        } else {
          return UnknownType;
        }
        i := i + 1;
      }
      r := Pop();
    }

    /** ninf_get_value. */
    method GetValue(t: int, v: int, exp: Expression, args: seq<Arg>, default: int) returns (r: Outcome)
      requires Valid() && exp.Valid() && slots !in {exp.types, exp.vals}
      modifies this, slots
      ensures Valid()
      ensures r == if t == VALUE_BY_EXPR then Exec(exp.Slots(), args) else PlainValue(t, v, args, default)
    {
      if t == VALUE_BY_EXPR {
        r := Eval(exp, args);
      } else {
        r := PlainValue(t, v, args, default);
      }
    }
  }

  /** The generator and the run time together: a dimension given by an expression of at most 19
      nodes has the value the tree means, a missing one its default; the code array is overrun
      exactly by the larger trees. */
  method CompileThenEvaluate(params: seq<Param>, x: Option<Expr>, args: seq<Arg>, default: int)
    returns (r: Outcome, overrun: bool)
    ensures overrun <==> x.Some? && Nodes(x.value) >= NINF_EXPRESSION_LENGTH
    ensures x.None? ==> r == Value(default)
    ensures x.Some? && !overrun ==> r == Meaning(x.value, params, args)
  {
    var out := new Expression();
    var t, v, _ := CompileFront(params, x, out);
    var stack := new ExpStack();
    r := stack.GetValue(t, v, out, args, default);
    overrun := out.overrun;
    if x.Some? && !overrun {
      if Nodes(x.value) > 1 {
        out.SlotsBeginWithPushed();
        CompilerIsCorrect(x.value, params, args, out.Slots()[out.index..]);
      }
    }
  }
}
