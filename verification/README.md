# A verified model of the `madness` expression interpreter

The interpreter has two parts, and this project models both in Dafny.

- **The literal value algebra** (`src/literal_type.rs`). `LiteralType` is `Int(i64) | Bool(bool)`. It has partial `+ - * /` and unary `-`, and two coercions: truthiness and the numeric value. Addition and subtraction coerce a `Bool` to 0/1. Multiplication and division panic on any `Bool` operand. Division truncates toward zero. A division by zero panics, and so does an i64 overflow.
- **The self-memoising evaluator** (`src/main.rs`). It covers `Expr::evaluate`, `LiteralOrVar::value`, the global variable list `VARS` and the name lookup in the `expr!` macro. Nodes are shared and mutable. When a node's result is a literal, the node overwrites itself with that literal. Evaluating a `VarDecl` pushes one entry onto `VARS` and never rewrites the declaration node.
- **The entry point's token loop** (`main`). It classifies each word as an integer or `+`, then builds the `Int + Int` tree and evaluates it.

Modules, one per component:

| file | module | models |
|---|---|---|
| `wrappers.dfy` | `Wrappers` | `Option`, and `Result` for panics |
| `literals.dfy` | `Literals` | `LiteralType` and its operator and conversion impls |
| `expressions.dfy` | `Expressions` | `Expr`, `LiteralOrVar`, the heap of shared nodes, and how a state may evolve |
| `evaluator.dfy` | `Evaluator` | `Expr::evaluate`, `LiteralOrVar::value` |
| `environment.dfy` | `Environment` | `VARS` and the first-match name lookup |
| `evaluation_laws.dfy` | `EvaluationLaws` | per-node laws, memoisation, short-circuit, operand order, fuel independence |
| `tokens.dfy` | `Tokens` | `Token`, `str::parse::<i64>`, and the word classification loop |
| `driver.dfy` | `Driver` | the tree-building loop of `main` and the final evaluation |
| `scenarios.dfy` | `Scenarios` | concrete end-to-end runs |

How the model is shaped:

- Shared `Rc<RefCell<Expr>>` nodes become handles into an arena, `map<Handle, Expr>`, with a `next` counter for fresh handles. Rewriting a node means updating its slot, and every parent holding the handle sees the change.
- `VARS` becomes a sequence in the same `State`, threaded through evaluation.
- A panic becomes a `Failure` carrying the reason, so evaluation aborts with it.
- Every evaluation function requires `Valid(st)`: every allocated handle lies below `next`. This models that `Rc::new` always creates a new object, and evaluation preserves it.
- Evaluation carries `fuel`, because the source allows cyclic graphs and function calls build new nodes.
- A function pointer in a `FunctionCall` becomes a `Callee` parameter, `(FnId, seq<Option<LiteralType>>) -> Expr`. The node it returns is placed at a fresh handle and then evaluated.

Facts about the program that shape the model:

- `LiteralType` has exactly two variants, `Int` and `Bool` (`src/literal_type.rs:4-7`). There are no text literals.
- The only operator functions are the four of the literal algebra. `BooleanExpr` evaluates exactly like `ArithmeticExpr` (`src/main.rs:46-48`, `64-66`).
- Every node whose result is a literal is rewritten into that literal (`src/main.rs:79-82`), whatever its kind, `Var` included.
- Every node whose result is a variable reference stays as it is. That is a `VarDecl`, and also a `Var`, conditional or call whose result is a reference made by a declaration. Evaluating such a node again declares again, appending a new entry to `VARS`.
- Lookup of a name declared twice returns the *first* declaration (`src/main.rs:122-127`).

## Model

| member | source | states |
|---|---|---|
| `Literals.Truthy` | src/literal_type.rs:119-126 | A `Bool` is its own truth value. Any literal is true exactly when its numeric value is nonzero. |
| `Literals.ToI64` | src/literal_type.rs:128-135 | `Bool(true)` converts to 1 and `Bool(false)` to 0. An `Int` converts to its own value. |
| `Literals.Add` | src/literal_type.rs:9-40 | On all four cells, the sum of the numeric values of both operands, always an `Int`. It fails with `Overflow` exactly when that sum leaves the i64 range. |
| `Literals.Sub` | src/literal_type.rs:42-73 | On all four cells, left minus right of the numeric values, always an `Int`. It fails with `Overflow` exactly when out of range. |
| `Literals.Mul` | src/literal_type.rs:75-95 | Defined exactly for `Int * Int` within range, and the result is the product. A `Bool` on either side fails with "Can't multiply a bool". An overflow fails with `Overflow`. |
| `Literals.TruncDiv` | src/literal_type.rs:102 | The quotient leaves a remainder smaller than the divisor in magnitude, with the dividend's sign. This is rounding toward zero. |
| `Literals.Div` | src/literal_type.rs:97-117 | A `Bool` on either side fails with "Can't divide a bool". A zero divisor fails with `DivideByZero`. `i64::MIN / -1` fails with `Overflow`. It succeeds in every other `Int / Int` case. The quotient truncates toward zero. |
| `Literals.Neg` | src/literal_type.rs:137-146 | The negated numeric value, always an `Int`. It is undefined only for `i64::MIN`. |
| `Literals.CoercionsAgree` | src/literal_type.rs:119-135 | Truthiness survives the conversion to a number. Adding the `Int` zero, on either side, converts a literal to its numeric value. |
| `Literals.AddCommutes` | src/literal_type.rs:31-39 | Swapping the operands of `+` changes nothing, errors included. |
| `Literals.SubIsAddNeg` | src/literal_type.rs:64-72 | `l - r` equals `l + (-r)` whenever `-r` exists. |
| `Literals.NegTwice` | src/literal_type.rs:137-146 | Negating twice gives back the numeric value as an `Int`. |
| `Literals.DivUndoesMul` | src/literal_type.rs:97-104 | `(a * b) / b == a` whenever `b != 0` and the product does not overflow. |
| `Expressions.Alloc` | src/main.rs:71 | A new node gets a handle that was not in the heap. Nothing else in the heap or the variable list changes. |
| `Evaluator.Eval` | src/main.rs:44-84 | Nodes are only added or collapsed one way into literals. A literal never changes. The variable list only grows at its end. After a literal result, the evaluated node is that literal. |
| `Evaluator.EvalNode` | src/main.rs:45-77 | Every kind of node keeps the same one-way evolution of the state. |
| `Evaluator.Value` | src/main.rs:21-28 | A literal yields its payload and changes nothing. A variable forces evaluation of its node, and the state only evolves. |
| `Evaluator.Operand` | src/main.rs:47 | `evaluate().value()` on an operand keeps the state's evolution one way. |
| `Evaluator.Required` | src/main.rs:47 | An operand that must be present keeps the state's evolution one way. |
| `Evaluator.EvalBinary` | src/main.rs:46-48 | The result of an arithmetic or boolean node is always a present literal. The state only evolves. |
| `Evaluator.EvalArgs` | src/main.rs:62 | A call produces exactly one value per argument. The state only evolves. |
| `Environment.Lookup` | src/main.rs:120-129 | The result is absent exactly when no entry declares the name. Otherwise it is the earliest entry declaring it. |
| `Environment.LookupAfterDeclare` | src/main.rs:70-76 | Appending a declaration never changes a name that already resolves. A name seen for the first time resolves to the new entry. |
| `Environment.LookupStable` | src/main.rs:41 | Appending to the list keeps every resolved name bound to the same entry. |
| `EvaluationLaws.EvalLiteral` | src/main.rs:49 | A `Literal(v)` node evaluates to `v` and the state is unchanged. |
| `EvaluationLaws.EvalIdempotent` | src/main.rs:79-83 | After a literal result, evaluating the node again, with any fuel, returns the same result and changes nothing. |
| `EvaluationLaws.EvalVarDecl` | src/main.rs:70-76 | A declaration does four things. It allocates one `Var` node aliasing the bound expression. It appends exactly one entry naming it. It returns that entry. It leaves the declaration node and everything else untouched. |
| `EvaluationLaws.LeftFailureDecides` | src/main.rs:46-48 | When the left operand fails, every binary node over it fails with that error, whatever its operator and right operand. |
| `EvaluationLaws.BinaryOfLiterals` | src/main.rs:46-48 | Over two distinct literal nodes, a binary node yields its operator applied to their payloads, or that operator's panic. An absent payload fails with "Cannot operate on none". Only the node itself is rewritten. |
| `EvaluationLaws.SharedOperandComputedOnce` | src/main.rs:47-82 | A node reached from both operands through two distinct `Var` nodes is computed once. The right operand reads the literal the left one left behind. The final state is that one computation plus the rewrites of the two `Var` nodes and the binary node. |
| `EvaluationLaws.VarChainCollapses` | src/main.rs:67-82 | A chain of `Var` nodes ending at a literal yields that literal. Every node of the chain collapses into it, and nothing else changes. |
| `EvaluationLaws.UnchosenBranchIgnored` | src/main.rs:50-60 | Two conditionals with the same condition that choose the same branch evaluate alike, apart from their own rewrites. The branch that is not chosen plays no part. |
| `EvaluationLaws.IfElseShortCircuit` | src/main.rs:54-58 | With a false condition and no else branch, the state is exactly as the condition left it, apart from the node's own rewrite. |
| `EvaluationLaws.LiteralArgs` | src/main.rs:62 | Literal argument nodes yield exactly their payloads, in order, and leave the state unchanged. |
| `EvaluationLaws.CallOfLiterals` | src/main.rs:61-63 | A call over literal arguments passes exactly their payloads, in order, to the host function. The returned node is placed at the next free handle, and its result is the call's result. |
| `EvaluationLaws.EvalKeepsBindings` | src/main.rs:72-74 | No evaluation changes what an already-declared name resolves to. |
| `EvaluationLaws.EvalFuel` | src/main.rs:44-84 | Any evaluation that did not run out of fuel gives the identical result with more fuel. |
| `EvaluationLaws.EvalNodeFuel` | src/main.rs:45-77 | Same fuel independence for the per-node step. |
| `EvaluationLaws.ValueFuel` | src/main.rs:22-27 | Same fuel independence for `value`. |
| `EvaluationLaws.ValueRefFuel` | src/main.rs:25 | Same fuel independence for `value` on a variable, whose referenced node is evaluated first. |
| `EvaluationLaws.OperandFuel` | src/main.rs:47 | Same fuel independence for an operand. |
| `EvaluationLaws.RequiredFuel` | src/main.rs:47 | Same fuel independence for a required operand. |
| `EvaluationLaws.EvalBinaryFuel` | src/main.rs:64-66 | Same fuel independence for binary nodes. |
| `EvaluationLaws.EvalArgsFuel` | src/main.rs:62 | Same fuel independence for call arguments. |
| `Tokens.ParseI64` | src/main.rs:180-181 | An accepted word is nonempty and is not a lone sign. Its value's sign follows the leading `-`. The value itself is pinned by `Tokens.ParsedIsDecimal`. |
| `Tokens.NatDigits` | src/main.rs:180 | The reference decimal rendering that the parse lemmas invert. It uses only digits, has no leading zero, and denotes exactly the number. |
| `Tokens.DecimalParses` | src/main.rs:180-181 | Every i64 written in decimal is parsed back to itself. |
| `Tokens.StripIsDecimal` | src/main.rs:180-181 | A run of digits, with its leading zeros removed, is the decimal rendering of the number it denotes. |
| `Tokens.ParsedIsDecimal` | src/main.rs:180-181 | Every accepted word is the decimal rendering of its value, up to a `+` sign, leading zeros and a `-` before zero. |
| `Tokens.PaddedParses` | src/main.rs:180-181 | Conversely, every decimal rendering of an i64 is accepted, with any number of leading zeros and a sign that agrees with the value. |
| `Tokens.Classify` | src/main.rs:180-186 | A word is an integer token exactly when it parses, is the plus token exactly when it is `+`, and otherwise fails with "Unkown word!". |
| `Tokens.Tokenize` | src/main.rs:179-189 | On success there is one token per word, each the word's classification. On failure it names the first unclassifiable word. |
| `Driver.TriplesByPosition` | src/main.rs:194-218 | The streams the loop accepts are exactly those whose length is a multiple of three and whose `+` tokens sit at positions 1, 4, 7, ... and nowhere else. |
| `Driver.LastTripleShape` | src/main.rs:196-218 | An accepted non-empty stream ends with `Int + Int`. |
| `Driver.ParseTokens` | src/main.rs:194-220 | It succeeds exactly on `Int + Int` triples. The tree it leaves holds the two integers of the last triple, or stays the initial 5 exactly when there are no tokens. |
| `Driver.Build` | src/main.rs:191 | The tree is a valid heap holding its root, with an empty variable list. |
| `Driver.EvalBuilt` | src/main.rs:209 | The built tree evaluates to the sum of the last triple, or to `Overflow`, or to 5. |
| `Driver.RunTokens` | src/main.rs:191-222 | Malformed token streams fail in parsing. An empty stream yields 5. Otherwise the result is the sum of the last triple's integers, or `Overflow`. |
| `Driver.Run` | src/main.rs:175-222 | Classification failures surface first. After that, the same outcome as `RunTokens`, in terms of the words. |
| `Scenarios.FivePlusThree` | src/main.rs:209 | The words `5 + 3` evaluate to 8. |
| `Scenarios.LastTripleWins` | src/main.rs:198 | The tokens of `1 + 2 4 + 5` evaluate to 9: each triple replaces the tree. |
| `Scenarios.UnknownWordAborts` | src/main.rs:185 | The words `5 * 3` abort on the word `*`. |
| `Scenarios.IfTrueTakesThen` | src/main.rs:51-52 | `if true {1} else {2}` yields 1, the else branch is untouched, and the node collapses to 1. |
| `Scenarios.IfFalseNeverCalls` | src/main.rs:54-58 | `if false {f()}` yields an absent value and allocates no node, so `f` never runs. |
| `Scenarios.DeclareA` | src/main.rs:70-76 | `let a = 10` appends `a`, and the lookup of `a` finds that entry. |
| `Scenarios.ReferenceA` | src/main.rs:109-114 | `a + 5` through the looked-up reference evaluates to 15, and the variable's node collapses to 10. |

## Left out

- File reading (`fs::read_to_string`) and printing the result with `{:?}` are I/O. `Run` takes the words and returns the value that would be printed.
- `split_whitespace` is left out, because Unicode whitespace splitting is a host library routine. The words are the input of `Run`.
- Release-build wrap-around on i64 overflow is left out. The model follows the debug build, where overflow panics (`Overflow`).
- `RefCell` borrow panics are left out, because the model has no borrow state.
  - The program panics with a borrow error whenever evaluation re-enters a node whose `RefCell` is still mutably borrowed.
  - This happens on a cycle, where a node is re-entered from its own evaluation.
  - It also happens without any cycle. The left operand's borrow in a binary node lives until the whole node's value is built (`src/main.rs:47`, `65`). So a node used as both operands panics, and so does a right operand whose evaluation reaches the left operand's node, as in `x + (x * 2)` over one shared `x`.
  - The model evaluates these graphs as if the borrow succeeded. A cyclic graph runs until it hits `OutOfFuel`, or finishes.
  - `EvaluationLaws.BinaryOfLiterals` and `EvaluationLaws.SharedOperandComputedOnce` state their laws only for graphs the program accepts: two distinct operand nodes, and a shared node that does not lead back to its `Var` parents.
- Fuel is left out of the source's semantics: a graph whose evaluation needs more steps than the given fuel reports `OutOfFuel`. The `*Fuel` lemmas show that fuel never changes a result that was reached.
- `Dangling` is a model-only error for a handle naming no node. Shared references make it impossible in the program.
- Arbitrary `fn(LiteralType, LiteralType) -> LiteralType` pointers in `ArithmeticExpr`/`BooleanExpr` are left out. The model uses the four operators the literal algebra defines.
- Arbitrary `fn(Vec<Option<LiteralType>>) -> Rc<RefCell<Expr>>` pointers are reduced to the `Callee` parameter. The model always allocates the returned node fresh. A host function that returns an already shared node is not modelled.
- The `expr!` macro and the `ToExpr` impls are left out, apart from the identifier lookup arm (`Environment.Lookup`). They only construct trees, so the scenarios build heaps directly.
- The `ToLiteral` trait is not part of this model. The driver builds `Int` literals from the parsed integers.
- The commented-out demo `main` is left out, because it is not live code.
- `Evaluator.Eval`: the contract does not promise that a node whose result is a variable reference stays unrewritten. On a cyclic graph an inner evaluation of the same node could collapse it first, which the program would reject with a borrow panic. `EvaluationLaws.EvalVarDecl` states the promise for declarations.
- `Tokens.ParseI64`: its own contract states only the sign of the value. `Tokens.ParsedIsDecimal` and `Tokens.PaddedParses` state the value and which words are accepted.
- `Evaluator.EvalBinary`: its contract says only that the result is a present literal. `EvaluationLaws.BinaryOfLiterals` gives the value over literal operands, as the operator applied to the payloads. Over other operands the value follows from the operand results, which the contract leaves open.
- `Evaluator.EvalArgs`: its contract gives only the number of values. `EvaluationLaws.LiteralArgs` gives the contents for literal arguments.
