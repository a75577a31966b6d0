/** The entry point's tree-building loop and the run that follows it.

    The tree starts as the literal 5. Each `Int + Int` triple of tokens
    replaces the whole tree with the node `Int + Int`; anything else aborts.
    The final tree is evaluated. */
module Driver {
  import opened Wrappers
  import opened Literals
  import opened Expressions
  import opened Evaluator
  import opened Tokens

  datatype ParseError =
    | Unhandled     // `panic!("Unhandled")`: a token where the other kind is expected
    | MissingToken  // `unwrap()` on the end of the token stream

  datatype RunError = LexFailed(lex: LexError) | ParseFailed(parse: ParseError) | EvalFailed(eval: EvalError)

  /** The token stream the loop accepts: `Int + Int` triples, nothing else. */
  ghost predicate Triples(toks: seq<Token>)
    decreases |toks|
  {
    || |toks| == 0
    || (&& |toks| >= 3
        && toks[0].IntToken? && toks[1].PlusToken? && toks[2].IntToken?
        && Triples(toks[3..]))
  }

  /** The same streams described position by position: the length is a
      multiple of three and exactly the positions 1, 4, 7, ... hold `+`. */
  ghost predicate PlusEveryThird(toks: seq<Token>) {
    && |toks| % 3 == 0
    && forall j :: 0 <= j < |toks| ==> (toks[j].PlusToken? <==> j % 3 == 1)
  }

  lemma {:induction false} TriplesByPosition(toks: seq<Token>)
    ensures Triples(toks) <==> PlusEveryThird(toks)
    decreases |toks|
  {
    if |toks| >= 3 {
      var tail := toks[3..];
      TriplesByPosition(tail);
      assert forall j :: 3 <= j < |toks| ==> toks[j] == tail[j - 3];
      if Triples(toks) {
        forall j | 0 <= j < |toks|
          ensures toks[j].PlusToken? <==> j % 3 == 1
        {
          if j >= 3 {
            assert toks[j] == tail[j - 3];
          }
        }
      }
      if PlusEveryThird(toks) {
        forall j | 0 <= j < |tail|
          ensures tail[j].PlusToken? <==> j % 3 == 1
        {
          assert tail[j] == toks[j + 3];
        }
      }
    }
  }

  /** In an accepted, non-empty stream the last three tokens form a triple. */
  lemma {:induction false} LastTripleShape(toks: seq<Token>)
    requires Triples(toks) && |toks| > 0
    ensures |toks| >= 3
    ensures toks[|toks| - 3].IntToken? && toks[|toks| - 2].PlusToken? && toks[|toks| - 1].IntToken?
    decreases |toks|
  {
    if |toks| > 3 {
      LastTripleShape(toks[3..]);
    }
  }

  /** The two integers of the last triple of an accepted, non-empty stream. */
  function LastOperands(toks: seq<Token>): (i64, i64)
    requires Triples(toks) && |toks| > 0
  {
    LastTripleShape(toks);
    (toks[|toks| - 3].i, toks[|toks| - 1].i)
  }

  /** The loop over the tokens: the operands of the last triple, or `None`
      when there are no tokens and the tree stays the literal 5. */
  function ParseTokens(toks: seq<Token>): (r: Result<Option<(i64, i64)>, ParseError>)
    ensures r.Success? <==> Triples(toks)
    ensures r.Success? ==> (r.value.None? <==> |toks| == 0)
    ensures r.Success? && |toks| > 0 ==> r.value == Some(LastOperands(toks))
    decreases |toks|
  {
    if |toks| == 0 then Success(None)
    else if toks[0].PlusToken? then Failure(Unhandled)
    else if |toks| == 1 then Failure(MissingToken)
    else if toks[1].IntToken? then Failure(Unhandled)
    else if |toks| == 2 then Failure(MissingToken)
    else if toks[2].PlusToken? then Failure(Unhandled)
    else
      var rest := ParseTokens(toks[3..]);
      if rest.Failure? then
        Failure(rest.error)
      else
        Success(if rest.value.None? then Some((toks[0].i, toks[2].i)) else rest.value)
  }

  /** The tree the loop leaves: the literal 5, or `a + b` over two fresh
      literal nodes. Returns the state holding it and the root's handle. */
  function Build(p: Option<(i64, i64)>): (r: Step<Handle>)
    ensures Valid(r.st) && r.st.vars == []
    ensures r.val in r.st.heap
  {
    match p
    case None => Step(State(map[0 := Literal(Some(Int(5)))], 1, []), 0)
    case Some((a, b)) =>
      var heap := map[0 := Literal(Some(Int(a))), 1 := Literal(Some(Int(b))), 2 := ArithmeticExpr(0, Plus, 1)];
      Step(State(heap, 3, []), 2)
  }

  /** The entry point builds no function calls. */
  const NoFunctions: Callee := (f: FnId, args: seq<Option<LiteralType>>) => Literal(None)

  /** Enough fuel for a node over two literals. */
  const RunFuel: nat := 3

  /** The loop over the tokens, then the evaluation of the tree it leaves. */
  method RunTokens(toks: seq<Token>) returns (r: Result<LiteralOrVar, RunError>)
    ensures !Triples(toks) ==> r.Failure? && r.error.ParseFailed?
    ensures |toks| == 0 ==> r == Success(Lit(Some(Int(5))))
    ensures Triples(toks) && |toks| > 0 ==>
      var sum := LastOperands(toks).0 + LastOperands(toks).1;
      r == if InI64(sum) then Success(Lit(Some(Int(sum)))) else Failure(EvalFailed(Arith(Overflow)))
  {
    var p := ParseTokens(toks);
    if p.Failure? {
      return Failure(ParseFailed(p.error));
    }
    var b := Build(p.value);
    EvalBuilt(p.value);
    var e := Eval(NoFunctions, b.st, b.val, RunFuel);
    if e.Failure? {
      return Failure(EvalFailed(e.error));
    }
    return Success(e.value.val);
  }

  /** Classify the words, build the tree, evaluate it. */
  method Run(words: seq<string>) returns (r: Result<LiteralOrVar, RunError>)
    ensures Tokenize(words).Failure? ==> r == Failure(LexFailed(Tokenize(words).error))
    ensures Tokenize(words).Success? && !Triples(Tokenize(words).value) ==> r.Failure? && r.error.ParseFailed?
    ensures |words| == 0 ==> r == Success(Lit(Some(Int(5))))
    ensures Tokenize(words).Success? && Triples(Tokenize(words).value) && |words| > 0 ==>
      var toks := Tokenize(words).value;
      var sum := LastOperands(toks).0 + LastOperands(toks).1;
      r == if InI64(sum) then Success(Lit(Some(Int(sum)))) else Failure(EvalFailed(Arith(Overflow)))
  {
    var t := Tokenize(words);
    if t.Failure? {
      return Failure(LexFailed(t.error));
    }
    var toks := t.value;
    assert |toks| == |words|;
    r := RunTokens(toks);
  }

  /** Evaluating the built tree adds its two literals, or yields the 5. */
  lemma EvalBuilt(p: Option<(i64, i64)>)
    ensures var b := Build(p);
      var r := Eval(NoFunctions, b.st, b.val, RunFuel);
      match p
      case None => r.Success? && r.value.val == Lit(Some(Int(5)))
      case Some((x, y)) =>
        if InI64(x + y) then r.Success? && r.value.val == Lit(Some(Int(x + y)))
        else r == Failure(Arith(Overflow))
  {
    var b := Build(p);
    if p.Some? {
      var x, y := p.value.0, p.value.1;
      var st := b.st;
      assert Eval(NoFunctions, st, 0, RunFuel - 1) == Success(Step(st, Lit(Some(Int(x))))) by {
        assert st.heap[0 := st.heap[0]] == st.heap;
      }
      assert Required(NoFunctions, st, 0, RunFuel - 1) == Success(Step(st, Int(x)));
      assert Eval(NoFunctions, st, 1, RunFuel - 1) == Success(Step(st, Lit(Some(Int(y))))) by {
        assert st.heap[1 := st.heap[1]] == st.heap;
      }
      assert Required(NoFunctions, st, 1, RunFuel - 1) == Success(Step(st, Int(y)));
      assert EvalNode(NoFunctions, st, st.heap[2], RunFuel - 1) == EvalBinary(NoFunctions, st, 0, Plus, 1, RunFuel - 1);
    } else {
      assert b.st.heap[0 := b.st.heap[0]] == b.st.heap;
    }
  }
}
