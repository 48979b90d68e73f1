/** The expression parser and RPN evaluator of bqtool
    (package/bqtool/src/expression-parser.c, parse_expression and evaluate_expr).

    Operand values are of any type, and an interpretation gives the five operators their
    meaning.  A left parenthesis on the operator stack stops popping, as the comment at
    lines 280-300 of that file says. */
module ShuntingYard {
  import opened Options

  datatype Operator = Power | Mult | Div | Add | Subtract

  function Prec(o: Operator): nat {
    match o
    case Power => 6
    case Mult => 5
    case Div => 5
    case Add => 4
    case Subtract => 4
  }

  predicate RightAssoc(o: Operator) {
    o.Power?
  }

  datatype Token<V> = Const(v: V) | X | Op(o: Operator) | LeftParen | RightParen

  /** The incoming operator sends the one on top of the stack to the output. */
  predicate Pops(o: Operator, top: Operator) {
    if RightAssoc(o) then Prec(o) < Prec(top) else Prec(o) <= Prec(top)
  }

  predicate OnTopPopped<V>(stack: seq<Token<V>>, o: Operator) {
    stack != [] && stack[0].Op? && Pops(o, stack[0].o)
  }

  // ---------- The parser, as a function of what is left to read ----------

  /** How many operators o pops; stacks have their top at 0. */
  function PopCount<V>(stack: seq<Token<V>>, o: Operator): (n: nat)
    ensures n <= |stack|
  {
    if OnTopPopped(stack, o) then 1 + PopCount(stack[1..], o) else 0
  }

  /** How many tokens stand above the nearest left parenthesis. */
  function AboveParen<V>(stack: seq<Token<V>>): (n: nat)
    ensures n <= |stack|
    ensures n < |stack| ==> stack[n].LeftParen?
  {
    if stack == [] || stack[0].LeftParen? then 0 else 1 + AboveParen(stack[1..])
  }

  datatype Queues<V> = Queues(out: seq<Token<V>>, stack: seq<Token<V>>)

  /** One token.  None: a right parenthesis without a left one. */
  function Take<V>(tok: Token<V>, out: seq<Token<V>>, stack: seq<Token<V>>): Option<Queues<V>> {
    match tok
    case Const(_) => Some(Queues(out + [tok], stack))
    case X => Some(Queues(out + [tok], stack))
    case Op(o) =>
      var n := PopCount(stack, o);
      Some(Queues(out + stack[..n], [tok] + stack[n..]))
    case LeftParen => Some(Queues(out, [tok] + stack))
    case RightParen =>
      var n := AboveParen(stack);
      if n == |stack| then None else Some(Queues(out + stack[..n], stack[n + 1..]))
  }

  function Run<V>(input: seq<Token<V>>, out: seq<Token<V>>, stack: seq<Token<V>>): Option<seq<Token<V>>> {
    if input == [] then
      if AboveParen(stack) < |stack| then None else Some(out + stack)
    else
      var next := Take(input[0], out, stack);
      if next.None? then None else Run(input[1..], next.value.out, next.value.stack)
  }

  /** The stack only ever holds operators and left parentheses. */
  predicate StackTokens<V>(stack: seq<Token<V>>) {
    forall i | 0 <= i < |stack| :: stack[i].Op? || stack[i].LeftParen?
  }

  /** parse_expression, with its two queues. */
  method ParseExpression<V>(input: seq<Token<V>>) returns (r: Option<seq<Token<V>>>)
    ensures r == Run(input, [], [])
  {
    var outq, opStack, i := [], [], 0;
    while i < |input|
      invariant 0 <= i <= |input|
      invariant Run(input[i..], outq, opStack) == Run(input, [], [])
    {
      var tok := input[i];
      assert input[i..][0] == tok && input[i..][1..] == input[i + 1..];
      i := i + 1;
      match tok {
        case Const(_) => outq := outq + [tok];
        case X => outq := outq + [tok];
        case Op(o) =>
          outq, opStack := PopOperators(o, outq, opStack);
          opStack := [tok] + opStack;
        case LeftParen => opStack := [tok] + opStack;
        case RightParen =>
          var found;
          found, outq, opStack := PopToParen(outq, opStack);
          if !found {
            return None;
          }
      }
    }
    var found;
    ghost var stack := opStack;
    found, outq, opStack := PopToParen(outq, opStack);
    r := if found then None else Some(outq);
    if !found {
      assert stack[..|stack|] == stack;
    }
  }

  /** The inner loop for an operator token. */
  method PopOperators<V>(o: Operator, outq0: seq<Token<V>>, stack0: seq<Token<V>>)
      returns (outq: seq<Token<V>>, opStack: seq<Token<V>>)
    ensures var n := PopCount(stack0, o); outq == outq0 + stack0[..n] && opStack == stack0[n..]
  {
    outq, opStack := outq0, stack0;
    ghost var k := 0;
    while OnTopPopped(opStack, o)
      invariant 0 <= k <= |stack0| && opStack == stack0[k..] && outq == outq0 + stack0[..k]
      invariant k + PopCount(opStack, o) == PopCount(stack0, o)
      decreases |opStack|
    {
      outq := outq + [opStack[0]];
      opStack := opStack[1..];
      k := k + 1;
    }
  }

  /** The inner loop for a right parenthesis, and the last loop: pop_front until a left
      parenthesis is popped or the stack is empty. */
  method PopToParen<V>(outq0: seq<Token<V>>, stack0: seq<Token<V>>)
      returns (found: bool, outq: seq<Token<V>>, opStack: seq<Token<V>>)
    ensures var n := AboveParen(stack0);
            && outq == outq0 + stack0[..n]
            && (found <==> n < |stack0|)
            && (found ==> opStack == stack0[n + 1..])
  {
    outq, opStack, found := outq0, stack0, false;
    ghost var k := 0;
    while opStack != []
      invariant 0 <= k <= |stack0| && opStack == stack0[k..] && outq == outq0 + stack0[..k]
      invariant k + AboveParen(opStack) == AboveParen(stack0)
      decreases |opStack|
    {
      var tok := opStack[0];
      opStack := opStack[1..];
      if tok.LeftParen? {
        found := true;
        return;
      }
      outq := outq + [tok];
      k := k + 1;
    }
  }

  // ---------- Evaluating reverse Polish notation ----------

  type Meaning<!V> = (Operator, V, V) -> V

  datatype Outcome<V> = Result(v: V) | NotEnoughOperands | TooManyOperands | NoOperand

  /** Operand stacks have their top at 0.  None: an operator ran out of operands. */
  function EvalTokens<V>(tokens: seq<Token<V>>, x: V, meaning: Meaning<V>, stack: seq<V>): Option<seq<V>> {
    if tokens == [] then Some(stack)
    else
      match tokens[0]
      case Const(v) => EvalTokens(tokens[1..], x, meaning, [v] + stack)
      case X => EvalTokens(tokens[1..], x, meaning, [x] + stack)
      case Op(o) =>
        if |stack| < 2 then None
        else EvalTokens(tokens[1..], x, meaning, [meaning(o, stack[1], stack[0])] + stack[2..])
      case _ => EvalTokens(tokens[1..], x, meaning, stack)
  }

  function OutcomeOf<V>(stack: Option<seq<V>>): Outcome<V> {
    match stack
    case None => NotEnoughOperands
    case Some(s) => if s == [] then NoOperand else if |s| > 1 then TooManyOperands else Result(s[0])
  }

  /** evaluate_expr.  Where the original would read through a NULL pointer, on a queue
      without operands, the outcome is NoOperand. */
  method EvaluateExpr<V>(rpn: seq<Token<V>>, x: V, meaning: Meaning<V>) returns (r: Outcome<V>)
    ensures r == OutcomeOf(EvalTokens(rpn, x, meaning, []))
  {
    var stack: seq<V> := [];
    for i := 0 to |rpn|
      invariant EvalTokens(rpn[i..], x, meaning, stack) == EvalTokens(rpn, x, meaning, [])
    {
      assert rpn[i..][0] == rpn[i] && rpn[i..][1..] == rpn[i + 1..];
      match rpn[i] {
        case Const(v) => stack := [v] + stack;
        case X => stack := [x] + stack;
        case Op(o) =>
          if |stack| < 2 {
            return NotEnoughOperands;
          }
          var opnd2, opnd1 := stack[0], stack[1];
          stack := [meaning(o, opnd1, opnd2)] + stack[2..];
        case _ =>
      }
    }
    r := if stack == [] then NoOperand else if |stack| > 1 then TooManyOperands else Result(stack[0]);
  }
}
