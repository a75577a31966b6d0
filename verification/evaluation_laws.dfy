/** Laws of `Expr::evaluate`: what each kind of node does, memoisation and
    idempotence, short-circuiting, operand order, the append-only variable
    list, and independence from the fuel bound. */
module EvaluationLaws {
  import opened Wrappers
  import opened Literals
  import opened Expressions
  import opened Evaluator
  import opened Environment

  /*** One law per kind of node ***/

  /** A literal node evaluates to its payload and nothing changes. */
  lemma EvalLiteral(fns: Callee, st: State, n: Handle, fuel: nat)
    requires Valid(st) && fuel > 0
    requires n in st.heap && st.heap[n].Literal?
    ensures Eval(fns, st, n, fuel) == Success(Step(st, Lit(st.heap[n].lit)))
  {
    assert st.heap[n := st.heap[n]] == st.heap;
  }

  /** Once a node's evaluation yields a literal, the node is that literal:
      evaluating it again, with any fuel, yields the same literal and
      changes nothing. */
  lemma EvalIdempotent(fns: Callee, st: State, n: Handle, fuel: nat, fuel': nat)
    requires Valid(st) && fuel' > 0
    requires Eval(fns, st, n, fuel).Success? && Eval(fns, st, n, fuel).value.val.Lit?
    ensures var s := Eval(fns, st, n, fuel).value;
      Eval(fns, s.st, n, fuel') == Success(s)
  {
    var s := Eval(fns, st, n, fuel).value;
    EvalLiteral(fns, s.st, n, fuel');
  }

  /** A declaration allocates one `Var` node aliasing its bound expression,
      appends exactly one entry naming it to the variable list, returns that
      entry, does not evaluate the bound expression, and is not rewritten. */
  lemma EvalVarDecl(fns: Callee, st: State, n: Handle, fuel: nat)
    requires Valid(st) && fuel > 0
    requires n in st.heap && st.heap[n].VarDecl?
    ensures var d := st.heap[n];
      var r := Eval(fns, st, n, fuel);
      && r.Success?
      && r.value.val == VarRef(d.name, st.next)
      && r.value.st.vars == st.vars + [r.value.val]
      && r.value.st.heap == st.heap[st.next := Var(d.name, d.bound)]
      && r.value.st.heap[n] == d
  {
  }

  /** A variable node evaluates to whatever its target evaluates to, and is
      itself rewritten when that result is a literal. */
  lemma EvalVar(fns: Callee, st: State, n: Handle, fuel: nat)
    requires Valid(st) && fuel > 0
    requires n in st.heap && st.heap[n].Var?
    ensures Eval(fns, st, n, fuel) ==
      match Eval(fns, st, st.heap[n].target, fuel - 1)
      case Failure(e) => Failure(e)
      case Success(s) => Success(Step(Settle(s.st, n, s.val), s.val))
  {
  }

  /** `LiteralOrVar::value` on a variable reference forces the evaluation of
      the referenced node and takes the value of what that yields. */
  lemma ValueOfVarRef(fns: Callee, st: State, name: string, k: Handle, fuel: nat)
    requires Valid(st) && fuel > 0
    ensures Value(fns, st, VarRef(name, k), fuel) ==
      match Eval(fns, st, k, fuel - 1)
      case Failure(e) => Failure(e)
      case Success(s) => Value(fns, s.st, s.val, fuel - 1)
  {
  }

  /*** Binary nodes: left operand first, both strictly ***/

  /** Both operands of an arithmetic or boolean node are evaluated, the left
      one first and the right one in the state the left one leaves; a
      failure of the left operand is the node's failure, whatever the right
      operand would do. */
  lemma EvalBinaryOrder(fns: Callee, st: State, n: Handle, fuel: nat)
    requires Valid(st) && fuel > 0
    requires n in st.heap && (st.heap[n].ArithmeticExpr? || st.heap[n].BooleanExpr?)
    ensures var e := st.heap[n];
      var op := if e.ArithmeticExpr? then e.op else e.cmp;
      var l := Required(fns, st, e.lhs, fuel - 1);
      && (l.Failure? ==> Eval(fns, st, n, fuel) == Failure(l.error))
      && (l.Success? ==>
            var r := Required(fns, l.value.st, e.rhs, fuel - 1);
            && (r.Failure? ==> Eval(fns, st, n, fuel) == Failure(r.error))
            && (r.Success? ==>
                  Eval(fns, st, n, fuel) ==
                    match Apply(op, l.value.val, r.value.val)
                    case Failure(x) => Failure(Arith(x))
                    case Success(v) =>
                      Success(Step(Settle(r.value.st, n, Lit(Some(v))), Lit(Some(v))))))
  {
    var e := st.heap[n];
    var op := if e.ArithmeticExpr? then e.op else e.cmp;
    assert EvalNode(fns, st, e, fuel - 1) == EvalBinary(fns, st, e.lhs, op, e.rhs, fuel - 1);
  }

  /** An operand whose value is absent aborts the node with `NoneOperand`. */
  lemma AbsentOperandFails(fns: Callee, st: State, h: Handle, fuel: nat)
    requires Valid(st)
    requires Operand(fns, st, h, fuel).Success? && Operand(fns, st, h, fuel).value.val.None?
    ensures Required(fns, st, h, fuel) == Failure(NoneOperand)
  {
  }

  /** Two binary nodes with the same left operand fail alike when that
      operand fails, whatever their operators and right operands: the right
      operand is never looked at. */
  lemma LeftFailureDecides(fns: Callee, st: State, n: Handle, n': Handle, fuel: nat)
    requires Valid(st) && fuel > 0
    requires n in st.heap && (st.heap[n].ArithmeticExpr? || st.heap[n].BooleanExpr?)
    requires n' in st.heap && (st.heap[n'].ArithmeticExpr? || st.heap[n'].BooleanExpr?)
    requires st.heap[n].lhs == st.heap[n'].lhs
    requires Required(fns, st, st.heap[n].lhs, fuel - 1).Failure?
    ensures Eval(fns, st, n, fuel) == Eval(fns, st, n', fuel)
    ensures Eval(fns, st, n, fuel) == Failure(Required(fns, st, st.heap[n].lhs, fuel - 1).error)
  {
    EvalBinaryOrder(fns, st, n, fuel);
    EvalBinaryOrder(fns, st, n', fuel);
  }

  /** A binary node over two distinct literal nodes applies its operator to
      their payloads, and only the node itself changes; an absent payload
      aborts with `NoneOperand`. */
  lemma BinaryOfLiterals(fns: Callee, st: State, n: Handle, fuel: nat)
    requires Valid(st) && fuel >= 2
    requires n in st.heap && (st.heap[n].ArithmeticExpr? || st.heap[n].BooleanExpr?)
    requires var e := st.heap[n];
      && e.lhs != e.rhs && e.lhs in st.heap && e.rhs in st.heap
      && st.heap[e.lhs].Literal? && st.heap[e.rhs].Literal?
    ensures var e := st.heap[n];
      var op := if e.ArithmeticExpr? then e.op else e.cmp;
      var a := st.heap[e.lhs].lit;
      var b := st.heap[e.rhs].lit;
      Eval(fns, st, n, fuel) ==
        if a.None? || b.None? then Failure(NoneOperand)
        else
          match Apply(op, a.value, b.value)
          case Failure(x) => Failure(Arith(x))
          case Success(w) => Success(Step(st.(heap := st.heap[n := Literal(Some(w))]), Lit(Some(w))))
  {
    var e := st.heap[n];
    EvalLiteral(fns, st, e.lhs, fuel - 1);
    EvalLiteral(fns, st, e.rhs, fuel - 1);
    EvalBinaryOrder(fns, st, n, fuel);
  }

  /** A node reached from both operands through two distinct variable nodes
      is computed once: the left operand collapses it, and the right operand
      merely reads the literal left behind, so the state after the whole
      node is the state after that one computation plus three rewrites.
      The computation must not pass through the two variable nodes, which
      would make the graph cyclic. */
  lemma SharedOperandComputedOnce(fns: Callee, st: State, n: Handle, a: Handle, b: Handle, k: Handle,
                                  x: string, y: string, op: Op, fuel: nat, v: LiteralType)
    requires Valid(st)
    requires n in st.heap && st.heap[n] == ArithmeticExpr(a, op, b)
    requires a != b && a in st.heap && b in st.heap
    requires st.heap[a] == Var(x, k) && st.heap[b] == Var(y, k)
    requires Eval(fns, st, k, fuel).Success? && Eval(fns, st, k, fuel).value.val == Lit(Some(v))
    requires var s := Eval(fns, st, k, fuel).value.st;
      s.heap[a] == st.heap[a] && s.heap[b] == st.heap[b]
    ensures var s := Eval(fns, st, k, fuel).value.st;
      var once := s.heap[a := Literal(Some(v))][b := Literal(Some(v))];
      Eval(fns, st, n, fuel + 2) ==
        match Apply(op, v, v)
        case Failure(z) => Failure(Arith(z))
        case Success(w) => Success(Step(s.(heap := once[n := Literal(Some(w))]), Lit(Some(w))))
  {
    var s := Eval(fns, st, k, fuel).value.st;
    EvalVar(fns, st, a, fuel + 1);
    var sa := s.(heap := s.heap[a := Literal(Some(v))]);
    assert Valid(sa);
    assert Required(fns, st, a, fuel + 1) == Success(Step(sa, v));
    assert sa.heap[k] == Literal(Some(v));
    EvalLiteral(fns, sa, k, fuel);
    EvalVar(fns, sa, b, fuel + 1);
    var sb := sa.(heap := sa.heap[b := Literal(Some(v))]);
    assert Required(fns, sa, b, fuel + 1) == Success(Step(sb, v));
    assert EvalNode(fns, st, st.heap[n], fuel + 1) == EvalBinary(fns, st, a, op, b, fuel + 1);
  }

  /*** Variables: a chain of `Var` nodes ***/

  /** `hs` is a chain of variable nodes, each pointing at the next, that ends
      at a literal node. */
  ghost predicate VarChain(st: State, hs: seq<Handle>) {
    && |hs| > 0
    && (forall i :: 0 <= i < |hs| ==> hs[i] in st.heap)
    && (forall i :: 0 <= i < |hs| - 1 ==> st.heap[hs[i]].Var? && st.heap[hs[i]].target == hs[i + 1])
    && st.heap[hs[|hs| - 1]].Literal?
  }

  /** The heap with every node of `hs` rewritten to the literal `lit`. */
  function CollapseAll(heap: map<Handle, Expr>, hs: seq<Handle>, lit: Option<LiteralType>): map<Handle, Expr>
    decreases |hs|
  {
    if |hs| == 0 then heap else CollapseAll(heap, hs[1..], lit)[hs[0] := Literal(lit)]
  }

  /** Evaluating the head of a variable chain yields the literal at its end
      and collapses every node of the chain into that literal; nothing else
      changes. */
  lemma {:induction false} VarChainCollapses(fns: Callee, st: State, hs: seq<Handle>, fuel: nat)
    requires Valid(st) && VarChain(st, hs) && fuel >= |hs|
    ensures var lit := st.heap[hs[|hs| - 1]].lit;
      Eval(fns, st, hs[0], fuel) == Success(Step(st.(heap := CollapseAll(st.heap, hs, lit)), Lit(lit)))
    decreases |hs|
  {
    var lit := st.heap[hs[|hs| - 1]].lit;
    if |hs| == 1 {
      EvalLiteral(fns, st, hs[0], fuel);
      assert CollapseAll(st.heap, hs, lit) == st.heap[hs[0] := st.heap[hs[0]]] == st.heap;
    } else {
      var tail := hs[1..];
      assert VarChain(st, tail) by {
        assert forall i :: 0 <= i < |tail| ==> tail[i] == hs[i + 1];
      }
      VarChainCollapses(fns, st, tail, fuel - 1);
      EvalVar(fns, st, hs[0], fuel);
    }
  }

  /*** Conditionals: only the chosen branch ***/

  /** The condition is evaluated (absent counts as false); then exactly the
      chosen branch is evaluated, in the state the condition left. With a
      false condition and no else branch the result is an absent literal. */
  lemma EvalIfElse(fns: Callee, st: State, n: Handle, fuel: nat)
    requires Valid(st) && fuel > 0
    requires n in st.heap && st.heap[n].IfElseExpr?
    ensures var e := st.heap[n];
      var c := Operand(fns, st, e.cond, fuel - 1);
      && (c.Failure? ==> Eval(fns, st, n, fuel) == Failure(c.error))
      && (c.Success? ==>
            var chosen := if Truthy(c.value.val.GetOr(Bool(false))) then Some(e.ifTrue) else e.ifFalse;
            Eval(fns, st, n, fuel) ==
              if chosen.None? then Success(Step(Settle(c.value.st, n, Lit(None)), Lit(None)))
              else
                match Eval(fns, c.value.st, chosen.value, fuel - 1)
                case Failure(x) => Failure(x)
                case Success(s) => Success(Step(Settle(s.st, n, s.val), s.val)))
  {
  }

  /** With a false (or absent) condition and no else branch, the then
      branch is never evaluated: apart from the conditional's own rewrite,
      the heap and variables are exactly as the condition left them. */
  lemma IfElseShortCircuit(fns: Callee, st: State, n: Handle, fuel: nat)
    requires Valid(st) && fuel > 0
    requires n in st.heap && st.heap[n].IfElseExpr? && st.heap[n].ifFalse.None?
    requires Operand(fns, st, st.heap[n].cond, fuel - 1).Success?
    requires !Truthy(Operand(fns, st, st.heap[n].cond, fuel - 1).value.val.GetOr(Bool(false)))
    ensures var c := Operand(fns, st, st.heap[n].cond, fuel - 1).value.st;
      var r := Eval(fns, st, n, fuel);
      && r.Success? && r.value.val == Lit(None)
      && r.value.st.vars == c.vars
      && r.value.st.heap == c.heap[n := Literal(None)]
  {
    EvalIfElse(fns, st, n, fuel);
  }

  /*** Function calls: two evaluation passes ***/

  /** A call evaluates its arguments in order, hands their values to the
      host function, places the node it returns at a fresh handle, and
      evaluates that node: its result is the call's result. */
  lemma EvalCall(fns: Callee, st: State, n: Handle, fuel: nat)
    requires Valid(st) && fuel > 0
    requires n in st.heap && st.heap[n].FunctionCall?
    ensures var e := st.heap[n];
      var a := EvalArgs(fns, st, e.args, fuel - 1);
      && (a.Failure? ==> Eval(fns, st, n, fuel) == Failure(a.error))
      && (a.Success? ==>
            var k := Alloc(a.value.st, fns(e.callee, a.value.val));
            && k.val !in st.heap
            && Eval(fns, st, n, fuel) ==
                 match Eval(fns, k.st, k.val, fuel - 1)
                 case Failure(x) => Failure(x)
                 case Success(s) => Success(Step(Settle(s.st, n, s.val), s.val)))
  {
    var a := EvalArgs(fns, st, st.heap[n].args, fuel - 1);
    if a.Success? {
      assert Evolves(st, a.value.st);
    }
  }

  /** Two conditionals over the same condition that would choose the same
      branch evaluate alike, up to their own rewrite: the branch that is not
      chosen, whichever it is, plays no part. */
  lemma UnchosenBranchIgnored(fns: Callee, st: State, n: Handle, n': Handle, fuel: nat)
    requires Valid(st) && fuel > 0
    requires n in st.heap && st.heap[n].IfElseExpr? && n' in st.heap && st.heap[n'].IfElseExpr?
    requires st.heap[n].cond == st.heap[n'].cond
    requires var c := Operand(fns, st, st.heap[n].cond, fuel - 1);
      c.Success? ==>
        if Truthy(c.value.val.GetOr(Bool(false))) then st.heap[n].ifTrue == st.heap[n'].ifTrue
        else st.heap[n].ifFalse == st.heap[n'].ifFalse
    ensures var r := Eval(fns, st, n, fuel);
      var r' := Eval(fns, st, n', fuel);
      && (r.Failure? <==> r'.Failure?)
      && (r.Failure? ==> r.error == r'.error)
      && (r.Success? ==> r.value.val == r'.value.val && SameBut(r.value.st, r'.value.st, n, n'))
  {
    EvalIfElse(fns, st, n, fuel);
    EvalIfElse(fns, st, n', fuel);
  }

  /** Two states that agree everywhere except possibly at the nodes `n` and `n'`. */
  ghost predicate SameBut(s: State, s': State, n: Handle, n': Handle) {
    && s.next == s'.next
    && s.vars == s'.vars
    && s.heap.Keys == s'.heap.Keys
    && forall h :: h in s.heap && h != n && h != n' ==> s.heap[h] == s'.heap[h]
  }

  /*** Function calls over literal arguments ***/

  /** Every handle of `hs` names a literal node. */
  ghost predicate AllLiterals(st: State, hs: seq<Handle>) {
    forall i :: 0 <= i < |hs| ==> hs[i] in st.heap && st.heap[hs[i]].Literal?
  }

  /** The payloads of the literal nodes `hs`, in order. */
  function Payloads(st: State, hs: seq<Handle>): seq<Option<LiteralType>>
    requires AllLiterals(st, hs)
    decreases |hs|
  {
    if |hs| == 0 then [] else [st.heap[hs[0]].lit] + Payloads(st, hs[1..])
  }

  /** Literal arguments yield exactly their payloads, in order, and leave
      the state as it was. */
  lemma {:induction false} LiteralArgs(fns: Callee, st: State, args: seq<Handle>, fuel: nat)
    requires Valid(st) && fuel > 0 && AllLiterals(st, args)
    ensures EvalArgs(fns, st, args, fuel) == Success(Step(st, Payloads(st, args)))
    decreases |args|
  {
    if |args| > 0 {
      EvalLiteral(fns, st, args[0], fuel);
      var tail := args[1..];
      assert AllLiterals(st, tail) by {
        assert forall i :: 0 <= i < |tail| ==> tail[i] == args[i + 1];
      }
      LiteralArgs(fns, st, tail, fuel);
    }
  }

  /** A call over literal arguments hands exactly their payloads, in order,
      to the host function; the node it returns is placed at the next free
      handle, and that node's result is the call's result. */
  lemma CallOfLiterals(fns: Callee, st: State, n: Handle, fuel: nat)
    requires Valid(st) && fuel >= 2
    requires n in st.heap && st.heap[n].FunctionCall? && AllLiterals(st, st.heap[n].args)
    ensures var e := st.heap[n];
      var k := Alloc(st, fns(e.callee, Payloads(st, e.args)));
      && k.val == st.next
      && Eval(fns, st, n, fuel) ==
           match Eval(fns, k.st, k.val, fuel - 1)
           case Failure(x) => Failure(x)
           case Success(s) => Success(Step(Settle(s.st, n, s.val), s.val))
  {
    LiteralArgs(fns, st, st.heap[n].args, fuel - 1);
    EvalCall(fns, st, n, fuel);
  }

  /*** The variable list ***/

  /** Evaluation never changes what a declared name resolves to. */
  lemma EvalKeepsBindings(fns: Callee, st: State, n: Handle, fuel: nat, name: string)
    requires Valid(st)
    requires Eval(fns, st, n, fuel).Success?
    requires Lookup(st.vars, name).Some?
    ensures Lookup(Eval(fns, st, n, fuel).value.st.vars, name) == Lookup(st.vars, name)
  {
    LookupStable(st.vars, Eval(fns, st, n, fuel).value.st.vars, name);
  }

  /*** Fuel is only a bound: more of it never changes a result ***/

  lemma {:induction false} EvalFuel(fns: Callee, st: State, n: Handle, f: nat, f': nat)
    requires Valid(st) && f <= f'
    requires Eval(fns, st, n, f) != Failure(OutOfFuel)
    ensures Eval(fns, st, n, f') == Eval(fns, st, n, f)
    decreases f, 1, 0
  {
    if n in st.heap {
      EvalNodeFuel(fns, st, st.heap[n], f - 1, f' - 1);
    }
  }

  lemma {:induction false} EvalNodeFuel(fns: Callee, st: State, e: Expr, f: nat, f': nat)
    requires Valid(st) && f <= f'
    requires EvalNode(fns, st, e, f) != Failure(OutOfFuel)
    ensures EvalNode(fns, st, e, f') == EvalNode(fns, st, e, f)
    decreases f, 6, 0
  {
    match e
    case Literal(_) =>
    case ArithmeticExpr(lhs, op, rhs) => EvalBinaryFuel(fns, st, lhs, op, rhs, f, f');
    case BooleanExpr(lhs, cmp, rhs) => EvalBinaryFuel(fns, st, lhs, cmp, rhs, f, f');
    case IfElseExpr(cond, ifTrue, ifFalse) =>
      OperandFuel(fns, st, cond, f, f');
      var c := Operand(fns, st, cond, f);
      if c.Success? {
        if Truthy(c.value.val.GetOr(Bool(false))) {
          EvalFuel(fns, c.value.st, ifTrue, f, f');
        } else if ifFalse.Some? {
          EvalFuel(fns, c.value.st, ifFalse.value, f, f');
        }
      }
    case FunctionCall(callee, args) =>
      EvalArgsFuel(fns, st, args, f, f');
      var a := EvalArgs(fns, st, args, f);
      if a.Success? {
        var k := Alloc(a.value.st, fns(callee, a.value.val));
        EvalFuel(fns, k.st, k.val, f, f');
      }
    case Var(_, target) => EvalFuel(fns, st, target, f, f');
    case VarDecl(_, _) =>
  }

  lemma {:induction false} ValueFuel(fns: Callee, st: State, v: LiteralOrVar, f: nat, f': nat)
    requires Valid(st) && f <= f'
    requires Value(fns, st, v, f) != Failure(OutOfFuel)
    ensures Value(fns, st, v, f') == Value(fns, st, v, f)
    decreases f, 0, 1
  {
    match v
    case Lit(_) =>
    case VarRef(name, node) => ValueRefFuel(fns, st, name, node, f, f');
  }

  lemma {:induction false} ValueRefFuel(fns: Callee, st: State, name: string, node: Handle, f: nat, f': nat)
    requires Valid(st) && f <= f'
    requires Value(fns, st, VarRef(name, node), f) != Failure(OutOfFuel)
    ensures Value(fns, st, VarRef(name, node), f') == Value(fns, st, VarRef(name, node), f)
    decreases f, 0, 0
  {
    assert f > 0;
    var r := Eval(fns, st, node, f - 1);
    assert r != Failure(OutOfFuel);
    EvalFuel(fns, st, node, f - 1, f' - 1);
    if r.Success? {
      var s := r.value;
      ValueStep(fns, st, name, node, s, f);
      ValueStep(fns, st, name, node, s, f');
      ValueFuel(fns, s.st, s.val, f - 1, f' - 1);
      Chain(Value(fns, st, VarRef(name, node), f'), Value(fns, s.st, s.val, f' - 1),
            Value(fns, s.st, s.val, f - 1), Value(fns, st, VarRef(name, node), f));
    }
  }

  /** `value` on a variable whose node evaluates to `s` is the value of `s`
      at one fuel less. */
  lemma ValueStep(fns: Callee, st: State, name: string, node: Handle, s: Step<LiteralOrVar>, f: nat)
    requires Valid(st) && f > 0
    requires Eval(fns, st, node, f - 1) == Success(s)
    ensures Valid(s.st)
    ensures Value(fns, st, VarRef(name, node), f) == Value(fns, s.st, s.val, f - 1)
  {
  }

  /** Three equalities in a row; the fuel lemmas join their steps with it
      rather than by unfolding `Value` once more. */
  lemma Chain<T>(a: T, b: T, c: T, d: T)
    requires a == b && b == c && c == d
    ensures a == d
  {
  }

  lemma {:induction false} OperandFuel(fns: Callee, st: State, h: Handle, f: nat, f': nat)
    requires Valid(st) && f <= f'
    requires Operand(fns, st, h, f) != Failure(OutOfFuel)
    ensures Operand(fns, st, h, f') == Operand(fns, st, h, f)
    decreases f, 2, 0
  {
    EvalFuel(fns, st, h, f, f');
    var s := Eval(fns, st, h, f);
    if s.Success? {
      ValueFuel(fns, s.value.st, s.value.val, f, f');
    }
  }

  lemma {:induction false} RequiredFuel(fns: Callee, st: State, h: Handle, f: nat, f': nat)
    requires Valid(st) && f <= f'
    requires Required(fns, st, h, f) != Failure(OutOfFuel)
    ensures Required(fns, st, h, f') == Required(fns, st, h, f)
    decreases f, 4, 0
  {
    OperandFuel(fns, st, h, f, f');
  }

  lemma {:induction false} EvalBinaryFuel(fns: Callee, st: State, lhs: Handle, op: Op, rhs: Handle, f: nat, f': nat)
    requires Valid(st) && f <= f'
    requires EvalBinary(fns, st, lhs, op, rhs, f) != Failure(OutOfFuel)
    ensures EvalBinary(fns, st, lhs, op, rhs, f') == EvalBinary(fns, st, lhs, op, rhs, f)
    decreases f, 5, 0
  {
    RequiredFuel(fns, st, lhs, f, f');
    var l := Required(fns, st, lhs, f);
    if l.Success? {
      RequiredFuel(fns, l.value.st, rhs, f, f');
    }
  }

  lemma {:induction false} EvalArgsFuel(fns: Callee, st: State, args: seq<Handle>, f: nat, f': nat)
    requires Valid(st) && f <= f'
    requires EvalArgs(fns, st, args, f) != Failure(OutOfFuel)
    ensures EvalArgs(fns, st, args, f') == EvalArgs(fns, st, args, f)
    decreases f, 3, |args|
  {
    if |args| > 0 {
      OperandFuel(fns, st, args[0], f, f');
      var a := Operand(fns, st, args[0], f);
      if a.Success? {
        EvalArgsFuel(fns, a.value.st, args[1..], f, f');
      }
    }
  }
}
