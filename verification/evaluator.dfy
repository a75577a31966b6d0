/** `Expr::evaluate` and `LiteralOrVar::value`.

    Evaluation is eager and recursive, and it memoises itself: whenever a
    node's result is a literal, the node is overwritten with that literal,
    so every parent sharing it reads the literal next time. Evaluating a
    declaration appends one entry to the variable list and is never
    rewritten.

    Nothing in the program forbids a cyclic graph, and a function call
    builds new nodes, so evaluation carries `fuel`: each node visit and each
    dereference of a variable costs one unit, and running out is reported
    as `OutOfFuel`. */
module Evaluator {
  import opened Wrappers
  import opened Literals
  import opened Expressions

  /** Why an evaluation aborts. */
  datatype EvalError =
    | Arith(cause: ArithError)  // a panic inside the literal algebra
    | NoneOperand               // "Cannot operate on none"
    | Dangling(handle: Handle)  // a handle that names no node (impossible with shared references)
    | OutOfFuel                 // the fuel bound of the model was reached

  /** The operator a node carries, applied to its two operand values. */
  function Apply(op: Op, l: LiteralType, r: LiteralType): Result<LiteralType, ArithError> {
    match op
    case Plus => Add(l, r)
    case Minus => Sub(l, r)
    case Times => Mul(l, r)
    case Over => Div(l, r)
  }

  /** `Expr::evaluate` on the node at `n`. */
  function Eval(fns: Callee, st: State, n: Handle, fuel: nat): (r: Result<Step<LiteralOrVar>, EvalError>)
    requires Valid(st)
    ensures r.Success? ==> Valid(r.value.st) && Evolves(st, r.value.st)
    ensures r.Success? && r.value.val.Lit? ==>
      n in r.value.st.heap && r.value.st.heap[n] == Literal(r.value.val.lit)
    decreases fuel, 1, 0
  {
    if fuel == 0 then Failure(OutOfFuel)
    else if n !in st.heap then Failure(Dangling(n))
    else
      var s :- EvalNode(fns, st, st.heap[n], fuel - 1);
      // A node that was already a literal evaluates to itself in an
      // unchanged state, so the rewrite never alters a literal.
      assert st.heap[n].Literal? ==> s.st == st && s.val == Lit(st.heap[n].lit);
      Success(Step(Settle(s.st, n, s.val), s.val))
  }

  /** The self-rewrite at the end of `evaluate`: a literal result replaces
      the node; a variable reference leaves it alone. */
  function Settle(st: State, n: Handle, v: LiteralOrVar): State {
    match v
    case Lit(lit) => st.(heap := st.heap[n := Literal(lit)])
    case VarRef(_, _) => st
  }

  /** The value computed for node `e`, before the node is rewritten. */
  function EvalNode(fns: Callee, st: State, e: Expr, fuel: nat): (r: Result<Step<LiteralOrVar>, EvalError>)
    requires Valid(st)
    ensures r.Success? ==> Valid(r.value.st) && Evolves(st, r.value.st)
    decreases fuel, 6, 0
  {
    match e
    case Literal(lit) => Success(Step(st, Lit(lit)))
    case ArithmeticExpr(lhs, op, rhs) => EvalBinary(fns, st, lhs, op, rhs, fuel)
    case BooleanExpr(lhs, cmp, rhs) => EvalBinary(fns, st, lhs, cmp, rhs, fuel)
    case IfElseExpr(cond, ifTrue, ifFalse) =>
      var c :- Operand(fns, st, cond, fuel);
      var taken := Truthy(c.val.GetOr(Bool(false)));
      if taken then
        var b :- Eval(fns, c.st, ifTrue, fuel);
        EvolvesTransitive(st, c.st, b.st);
        Success(b)
      else if ifFalse.Some? then
        var b :- Eval(fns, c.st, ifFalse.value, fuel);
        EvolvesTransitive(st, c.st, b.st);
        Success(b)
      else
        Success(Step(c.st, Lit(None)))
    case FunctionCall(callee, args) =>
      var a :- EvalArgs(fns, st, args, fuel);
      var k := Alloc(a.st, fns(callee, a.val));
      var b :- Eval(fns, k.st, k.val, fuel);
      EvolvesTransitive(st, a.st, k.st);
      EvolvesTransitive(st, k.st, b.st);
      Success(b)
    case Var(_, target) => Eval(fns, st, target, fuel)
    case VarDecl(name, bound) =>
      var k := Alloc(st, Var(name, bound));
      var v := VarRef(name, k.val);
      var st' := k.st.(vars := k.st.vars + [v]);
      assert st'.vars[..|st.vars|] == st.vars;
      Success(Step(st', v))
  }

  /** `LiteralOrVar::value`: a literal's payload, or the value of the node a
      variable reference points to. */
  function Value(fns: Callee, st: State, v: LiteralOrVar, fuel: nat): (r: Result<Step<Option<LiteralType>>, EvalError>)
    requires Valid(st)
    ensures r.Success? ==> Valid(r.value.st) && Evolves(st, r.value.st)
    ensures v.Lit? ==> r == Success(Step(st, v.lit))
    decreases fuel, 0, 0
  {
    match v
    case Lit(lit) => Success(Step(st, lit))
    case VarRef(_, node) =>
      if fuel == 0 then Failure(OutOfFuel)
      else
        var s :- Eval(fns, st, node, fuel - 1);
        var t :- Value(fns, s.st, s.val, fuel - 1);
        EvolvesTransitive(st, s.st, t.st);
        Success(t)
  }

  /** `node.evaluate().value()`: the optional value of the node at `h`. */
  function Operand(fns: Callee, st: State, h: Handle, fuel: nat): (r: Result<Step<Option<LiteralType>>, EvalError>)
    requires Valid(st)
    ensures r.Success? ==> Valid(r.value.st) && Evolves(st, r.value.st)
    decreases fuel, 2, 0
  {
    var s :- Eval(fns, st, h, fuel);
    var t :- Value(fns, s.st, s.val, fuel);
    EvolvesTransitive(st, s.st, t.st);
    Success(t)
  }

  /** An operand that must be present: `.expect("Cannot operate on none")`. */
  function Required(fns: Callee, st: State, h: Handle, fuel: nat): (r: Result<Step<LiteralType>, EvalError>)
    requires Valid(st)
    ensures r.Success? ==> Valid(r.value.st) && Evolves(st, r.value.st)
    decreases fuel, 4, 0
  {
    var s :- Operand(fns, st, h, fuel);
    if s.val.None? then Failure(NoneOperand) else Success(Step(s.st, s.val.value))
  }

  /** `ArithmeticExpr` and `BooleanExpr`: the left operand, then the right
      one, then the operator. */
  function EvalBinary(fns: Callee, st: State, lhs: Handle, op: Op, rhs: Handle, fuel: nat): (r: Result<Step<LiteralOrVar>, EvalError>)
    requires Valid(st)
    ensures r.Success? ==> Valid(r.value.st) && Evolves(st, r.value.st)
    ensures r.Success? ==> r.value.val.Lit? && r.value.val.lit.Some?
    decreases fuel, 5, 0
  {
    var l :- Required(fns, st, lhs, fuel);
    var rv :- Required(fns, l.st, rhs, fuel);
    EvolvesTransitive(st, l.st, rv.st);
    match Apply(op, l.val, rv.val)
    case Failure(e) => Failure(Arith(e))
    case Success(x) => Success(Step(rv.st, Lit(Some(x))))
  }

  /** The arguments of a `FunctionCall`, evaluated in order. */
  function EvalArgs(fns: Callee, st: State, args: seq<Handle>, fuel: nat): (r: Result<Step<seq<Option<LiteralType>>>, EvalError>)
    requires Valid(st)
    ensures r.Success? ==> Valid(r.value.st) && Evolves(st, r.value.st)
    ensures r.Success? ==> |r.value.val| == |args|
    decreases fuel, 3, |args|
  {
    if |args| == 0 then Success(Step(st, []))
    else
      var a :- Operand(fns, st, args[0], fuel);
      var rest :- EvalArgs(fns, a.st, args[1..], fuel);
      EvolvesTransitive(st, a.st, rest.st);
      Success(Step(rest.st, [a.val] + rest.val))
  }
}
