/** Concrete runs of the interpreter on small graphs, from the words of a
    source file or from a hand-built heap to the value that is printed. */
module Scenarios {
  import opened Wrappers
  import opened Literals
  import opened Expressions
  import opened Evaluator
  import opened Environment
  import opened EvaluationLaws
  import opened Tokens
  import opened Driver

  function IntLit(i: i64): Expr {
    Literal(Some(Int(i)))
  }

  /** Words that are decimal renderings of small numbers, or "+". */
  lemma ClassifySmall()
    ensures Classify("1") == Success(IntToken(1))
    ensures Classify("2") == Success(IntToken(2))
    ensures Classify("3") == Success(IntToken(3))
    ensures Classify("4") == Success(IntToken(4))
    ensures Classify("5") == Success(IntToken(5))
    ensures Classify("+") == Success(PlusToken)
  {
    DecimalParses(1);
    DecimalParses(2);
    DecimalParses(3);
    DecimalParses(4);
    DecimalParses(5);
    assert Decimal(1) == "1" && Decimal(2) == "2" && Decimal(3) == "3";
    assert Decimal(4) == "4" && Decimal(5) == "5";
  }

  /** The source text `5 + 3` evaluates to 8. */
  method FivePlusThree() returns (r: Result<LiteralOrVar, RunError>)
    ensures r == Success(Lit(Some(Int(8))))
  {
    ClassifySmall();
    var words := ["5", "+", "3"];
    var toks := [IntToken(5), PlusToken, IntToken(3)];
    assert forall k :: 0 <= k < |words| ==> Classify(words[k]) == Success(toks[k]);
    assert Tokenize(words).value == toks;
    assert toks[3..] == [];
    assert Triples(toks);
    assert LastOperands(toks) == (5, 3);
    r := Run(words);
  }

  /** Only the last `Int + Int` triple survives: the tokens of `1 + 2 4 + 5`
      evaluate to 9. */
  method LastTripleWins() returns (r: Result<LiteralOrVar, RunError>)
    ensures r == Success(Lit(Some(Int(9))))
  {
    var last := [IntToken(4), PlusToken, IntToken(5)];
    var toks := [IntToken(1), PlusToken, IntToken(2)] + last;
    assert last[3..] == [];
    assert Triples(last);
    assert toks[3..] == last;
    assert Triples(toks);
    assert LastOperands(toks) == (4, 5);
    r := RunTokens(toks);
  }

  /** A word that is neither an integer nor "+" aborts the run. */
  method UnknownWordAborts() returns (r: Result<LiteralOrVar, RunError>)
    ensures r == Failure(LexFailed(UnknownWord("*")))
  {
    DecimalParses(5);
    assert Decimal(5) == "5";
    assert ParseI64("*") == None;
    r := Run(["5", "*", "3"]);
  }

  /** `if true { 1 } else { 2 }` yields 1 and leaves the else branch alone. */
  lemma IfTrueTakesThen(fns: Callee)
    ensures var st := State(map[0 := Literal(Some(Bool(true))), 1 := IntLit(1), 2 := IntLit(2),
                                3 := IfElseExpr(0, 1, Some(2))], 4, []);
      var r := Eval(fns, st, 3, 3);
      && r.Success? && r.value.val == Lit(Some(Int(1)))
      && r.value.st.heap[2] == IntLit(2)
      && r.value.st.heap[3] == IntLit(1)
  {
    var st := State(map[0 := Literal(Some(Bool(true))), 1 := IntLit(1), 2 := IntLit(2),
                        3 := IfElseExpr(0, 1, Some(2))], 4, []);
    EvalLiteral(fns, st, 0, 2);
    EvalLiteral(fns, st, 1, 2);
    EvalIfElse(fns, st, 3, 3);
  }

  /** `if false { f() }` yields an absent value and never calls `f`: no node
      is allocated for its result. */
  lemma IfFalseNeverCalls(fns: Callee)
    ensures var st := State(map[0 := Literal(Some(Bool(false))), 1 := FunctionCall(7, []),
                                2 := IfElseExpr(0, 1, None)], 3, []);
      var r := Eval(fns, st, 2, 3);
      && r.Success? && r.value.val == Lit(None)
      && r.value.st.next == 3
      && r.value.st.heap[1] == FunctionCall(7, [])
  {
    var st := State(map[0 := Literal(Some(Bool(false))), 1 := FunctionCall(7, []),
                        2 := IfElseExpr(0, 1, None)], 3, []);
    EvalLiteral(fns, st, 0, 2);
    IfElseShortCircuit(fns, st, 2, 3);
  }

  /** `let a = 10;` appends `a`, and looking `a` up finds the new entry. */
  lemma DeclareA(fns: Callee)
    ensures var st := State(map[0 := IntLit(10), 1 := VarDecl("a", 0)], 2, []);
      var d := Eval(fns, st, 1, 1);
      && d.Success? && d.value.val == VarRef("a", 2)
      && d.value.st == State(map[0 := IntLit(10), 1 := VarDecl("a", 0), 2 := Var("a", 0)], 3, [VarRef("a", 2)])
      && Lookup(d.value.st.vars, "a") == Some(VarRef("a", 2))
  {
    var st := State(map[0 := IntLit(10), 1 := VarDecl("a", 0)], 2, []);
    EvalVarDecl(fns, st, 1, 1);
    assert Declares(VarRef("a", 2), "a");
  }

  /** After `let a = 10;`, the expression `a + 5` (a reference to the
      variable's node, plus a literal) evaluates to 15; the variable's node
      collapses to the literal 10 on the way. */
  lemma ReferenceA(fns: Callee)
    ensures var st := State(map[0 := IntLit(10), 1 := VarDecl("a", 0), 2 := Var("a", 0),
                                3 := Var("a", 2), 4 := IntLit(5), 5 := ArithmeticExpr(3, Plus, 4)],
                            6, [VarRef("a", 2)]);
      var r := Eval(fns, st, 5, 5);
      && r.Success? && r.value.val == Lit(Some(Int(15)))
      && r.value.st.heap[2] == IntLit(10)
  {
    var st2 := State(map[0 := IntLit(10), 1 := VarDecl("a", 0), 2 := Var("a", 0),
                         3 := Var("a", 2), 4 := IntLit(5), 5 := ArithmeticExpr(3, Plus, 4)],
                     6, [VarRef("a", 2)]);
    // The reference: node 3 -> node 2 -> node 0, all collapsing to 10.
    EvalLiteral(fns, st2, 0, 2);
    EvalVar(fns, st2, 2, 3);
    var s2 := Settle(st2, 2, Lit(Some(Int(10))));
    assert Eval(fns, st2, 2, 3) == Success(Step(s2, Lit(Some(Int(10)))));
    EvalVar(fns, st2, 3, 4);
    var s3 := Settle(s2, 3, Lit(Some(Int(10))));
    assert Eval(fns, st2, 3, 4) == Success(Step(s3, Lit(Some(Int(10)))));
    assert Required(fns, st2, 3, 4) == Success(Step(s3, Int(10)));
    assert s3.heap[4] == IntLit(5);
    EvalLiteral(fns, s3, 4, 4);
    assert Required(fns, s3, 4, 4) == Success(Step(s3, Int(5)));
    EvalBinaryOrder(fns, st2, 5, 5);
  }
}
