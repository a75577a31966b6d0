/** The expression graph of the interpreter.

    In the program every node lives behind a shared, mutable reference, so a
    node reachable from several parents is one physical node, and rewriting
    it is seen by all of them. Here the nodes live in an arena: a `Heap`
    maps stable handles to nodes, and a child is referred to by its handle.
    The process-wide variable list is an explicit sequence in the same
    `State`, threaded through evaluation. */
module Expressions {
  import opened Wrappers
  import opened Literals

  /** The address of one shared node. */
  type Handle = nat

  /** The binary operators a node can carry: the four `fn(LiteralType,
      LiteralType) -> LiteralType` the literal algebra provides. */
  datatype Op = Plus | Minus | Times | Over

  /** Identifies a host function that a `FunctionCall` node invokes. */
  type FnId = nat

  /** What a host function does: given the argument values, build a node
      whose evaluation is the call's result. */
  type Callee = (FnId, seq<Option<LiteralType>>) -> Expr

  datatype Expr =
    | Literal(lit: Option<LiteralType>)
    | Var(name: string, target: Handle)
    | VarDecl(name: string, bound: Handle)
    | ArithmeticExpr(lhs: Handle, op: Op, rhs: Handle)
    | IfElseExpr(cond: Handle, ifTrue: Handle, ifFalse: Option<Handle>)
    | FunctionCall(callee: FnId, args: seq<Handle>)
    | BooleanExpr(lhs: Handle, cmp: Op, rhs: Handle)

  /** What evaluation yields: a (possibly absent) literal, or a reference to
      a variable node, which is produced by a declaration. */
  datatype LiteralOrVar =
    | Lit(lit: Option<LiteralType>)
    | VarRef(name: string, node: Handle)

  /** The heap of nodes, the next unused handle, and the variable list. */
  datatype State = State(heap: map<Handle, Expr>, next: Handle, vars: seq<LiteralOrVar>)

  /** A value together with the state it leaves behind. */
  datatype Step<+T> = Step(st: State, val: T)

  /** Every allocated handle lies below `next`, so `next` is always fresh. */
  ghost predicate Valid(st: State) {
    forall k :: k in st.heap ==> k < st.next
  }

  /** A node evolves only by collapsing into a literal, and a literal never changes again. */
  predicate Collapsed(before: Expr, after: Expr) {
    after == before || (after.Literal? && !before.Literal?)
  }

  /** How any evaluation may change the state: nodes are only added, or
      rewritten one way into literals; the variable list only grows at its end.
      Both heap facts are triggered by a look at the later heap, so a chain
      of evolutions is only unfolded for the handles a proof asks about. */
  ghost predicate Evolves(st: State, st': State) {
    && st.next <= st'.next
    && (forall k {:trigger k in st'.heap} :: k in st.heap ==> k in st'.heap)
    && st.vars <= st'.vars
    && (forall k {:trigger st'.heap[k]} :: k in st.heap ==> Collapsed(st.heap[k], st'.heap[k]))
  }

  /** Evolution composes; the evaluator chains its sub-steps with this. */
  lemma EvolvesTransitive(s0: State, s1: State, s2: State)
    requires Evolves(s0, s1) && Evolves(s1, s2)
    ensures Evolves(s0, s2)
  {
  }

  /** Places `e` at a fresh handle (`Rc::new(RefCell::new(e))`). */
  function Alloc(st: State, e: Expr): (r: Step<Handle>)
    requires Valid(st)
    ensures r.val !in st.heap
    ensures r.st.heap == st.heap[r.val := e]
    ensures r.st.vars == st.vars
    ensures Valid(r.st) && Evolves(st, r.st)
  {
    Step(State(st.heap[st.next := e], st.next + 1, st.vars), st.next)
  }
}
