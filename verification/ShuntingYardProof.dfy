/** What the parser and evaluator of bqtool compute: infix text printed from a tree parses to
    the tree's postorder, which evaluates to the tree's value; any token list parses exactly
    when its parentheses match, and no operand or operator is lost. */
module ShuntingYardProof {
  import opened Options
  import opened ShuntingYard

  datatype Tree<V> = Leaf(v: V) | Var | Node(o: Operator, left: Tree<V>, right: Tree<V>)

  function Postorder<V>(t: Tree<V>): seq<Token<V>> {
    match t
    case Leaf(v) => [Const(v)]
    case Var => [X]
    case Node(o, l, r) => Postorder(l) + Postorder(r) + [Op(o)]
  }

  /** The usual rules for leaving out parentheses. */
  predicate LeftNeedsParens<V>(o: Operator, l: Tree<V>) {
    l.Node? && (Prec(l.o) < Prec(o) || (Prec(l.o) == Prec(o) && RightAssoc(o)))
  }

  predicate RightNeedsParens<V>(o: Operator, r: Tree<V>) {
    r.Node? && (Prec(r.o) < Prec(o) || (Prec(r.o) == Prec(o) && !RightAssoc(o)))
  }

  function Wrap<V>(parens: bool, s: seq<Token<V>>): seq<Token<V>> {
    if parens then [LeftParen] + s + [RightParen] else s
  }

  function Infix<V>(t: Tree<V>): seq<Token<V>> {
    match t
    case Leaf(v) => [Const(v)]
    case Var => [X]
    case Node(o, l, r) =>
      Wrap(LeftNeedsParens(o, l), Infix(l)) + [Op(o)] + Wrap(RightNeedsParens(o, r), Infix(r))
  }

  // ---------- Parsing what was printed ----------

  /** Operators that any operator of o's strength or more leaves on the stack. */
  predicate AtLeast<V>(s: seq<Token<V>>, o: Operator) {
    forall i | 0 <= i < |s| :: s[i].Op? && Prec(s[i].o) >= Prec(o)
  }

  lemma {:induction false} PopAll<V>(ys: seq<Token<V>>, stack: seq<Token<V>>, o: Operator)
    requires forall i | 0 <= i < |ys| :: ys[i].Op? && Pops(o, ys[i].o)
    requires !OnTopPopped(stack, o)
    ensures PopCount(ys + stack, o) == |ys|
  {
    if ys == [] {
      assert ys + stack == stack;
    } else {
      assert (ys + stack)[1..] == ys[1..] + stack;
      PopAll(ys[1..], stack, o);
    }
  }

  lemma {:induction false} AboveAll<V>(ys: seq<Token<V>>, stack: seq<Token<V>>)
    requires forall i | 0 <= i < |ys| :: ys[i].Op?
    requires stack == [] || stack[0].LeftParen?
    ensures AboveParen(ys + stack) == |ys|
  {
    if ys == [] {
      assert ys + stack == stack;
    } else {
      assert (ys + stack)[1..] == ys[1..] + stack;
      AboveAll(ys[1..], stack);
    }
  }

  /** Reading a printed tree outputs the front xs of its postorder and leaves the rest, ys,
      on the stack in the order in which it will be popped. */
  ghost predicate Reads<V>(t: Tree<V>, printed: seq<Token<V>>, rest: seq<Token<V>>,
                           out: seq<Token<V>>, stack: seq<Token<V>>, xs: seq<Token<V>>, ys: seq<Token<V>>) {
    && xs + ys == Postorder(t)
    && Run(printed + rest, out, stack) == Run(rest, out + xs, ys + stack)
  }

  lemma {:induction false} ReadTree<V>(t: Tree<V>, rest: seq<Token<V>>, out: seq<Token<V>>, stack: seq<Token<V>>)
      returns (xs: seq<Token<V>>, ys: seq<Token<V>>)
    requires t.Node? ==> !OnTopPopped(stack, t.o)
    ensures Reads(t, Infix(t), rest, out, stack, xs, ys)
    ensures if t.Node? then AtLeast(ys, t.o) else ys == []
    decreases t, 0
  {
    match t
    case Leaf(v) =>
      xs, ys := [Const(v)], [];
      ReadOperand(Const(v), rest, out, stack);
    case Var =>
      xs, ys := [X], [];
      ReadOperand(X, rest, out, stack);
    case Node(o, l, r) =>
      var left, right := Wrap(LeftNeedsParens(o, l), Infix(l)), Wrap(RightNeedsParens(o, r), Infix(r));
      var xs1, ys1 := ReadChild(LeftNeedsParens(o, l), l, [Op(o)] + right + rest, out, stack);
      var xs2, ys2 := ReadChild(RightNeedsParens(o, r), r, rest, out + xs1 + ys1, [Op(o)] + stack);
      ChildrenRead(o, l, r, left, right, rest, out, stack, xs1, ys1, xs2, ys2);
      xs, ys := xs1 + ys1 + xs2, ys2 + [Op(o)];
  }

  /** Left operand, operator and right operand, read one after the other, are the node. */
  lemma ChildrenRead<V>(o: Operator, l: Tree<V>, r: Tree<V>, left: seq<Token<V>>, right: seq<Token<V>>,
                        rest: seq<Token<V>>, out: seq<Token<V>>, stack: seq<Token<V>>,
                        xs1: seq<Token<V>>, ys1: seq<Token<V>>, xs2: seq<Token<V>>, ys2: seq<Token<V>>)
    requires !OnTopPopped(stack, o)
    requires forall i | 0 <= i < |ys1| :: ys1[i].Op? && Pops(o, ys1[i].o)
    requires Reads(l, left, [Op(o)] + right + rest, out, stack, xs1, ys1)
    requires Reads(r, right, rest, out + xs1 + ys1, [Op(o)] + stack, xs2, ys2)
    ensures Reads(Node(o, l, r), left + [Op(o)] + right, rest, out, stack, xs1 + ys1 + xs2, ys2 + [Op(o)])
  {
    ReadOperator(o, right + rest, out + xs1, ys1, stack);
    ThreeReads((i, p, s) => Run(i, p, s), [Op(o)], left, right, rest, out, stack, xs1, ys1, xs2, ys2);
    Regrouped(xs1, ys1, xs2, ys2, [Op(o)]);
  }

  lemma Regrouped<V>(xs1: seq<V>, ys1: seq<V>, xs2: seq<V>, ys2: seq<V>, op: seq<V>)
    ensures (xs1 + ys1 + xs2) + (ys2 + op) == (xs1 + ys1) + (xs2 + ys2) + op
  {}

  /** Three reads in a row, whatever it is that reads. */
  lemma ThreeReads<V, R>(run: (seq<V>, seq<V>, seq<V>) -> R, op: seq<V>, left: seq<V>, right: seq<V>,
                         rest: seq<V>, out: seq<V>, stack: seq<V>,
                         xs1: seq<V>, ys1: seq<V>, xs2: seq<V>, ys2: seq<V>)
    requires run(left + (op + right + rest), out, stack) == run(op + right + rest, out + xs1, ys1 + stack)
    requires run(op + (right + rest), out + xs1, ys1 + stack) == run(right + rest, out + xs1 + ys1, op + stack)
    requires run(right + rest, out + xs1 + ys1, op + stack) == run(rest, out + xs1 + ys1 + xs2, ys2 + (op + stack))
    ensures run((left + op + right) + rest, out, stack) == run(rest, out + (xs1 + ys1 + xs2), (ys2 + op) + stack)
  {
    assert op + (right + rest) == op + right + rest;
    assert (left + op + right) + rest == left + (op + right + rest);
    assert out + (xs1 + ys1 + xs2) == out + xs1 + ys1 + xs2;
    assert (ys2 + op) + stack == ys2 + (op + stack);
  }

  lemma ReadOperand<V>(tok: Token<V>, rest: seq<Token<V>>, out: seq<Token<V>>, stack: seq<Token<V>>)
    requires tok.Const? || tok.X?
    ensures Run([tok] + rest, out, stack) == Run(rest, out + [tok], [] + stack)
  {
    assert ([tok] + rest)[1..] == rest && [] + stack == stack;
  }

  /** An operator drains what its left operand left on the stack, and no more. */
  lemma ReadOperator<V>(o: Operator, rest: seq<Token<V>>, out: seq<Token<V>>, ys: seq<Token<V>>, stack: seq<Token<V>>)
    requires forall i | 0 <= i < |ys| :: ys[i].Op? && Pops(o, ys[i].o)
    requires !OnTopPopped(stack, o)
    ensures Run([Op(o)] + rest, out, ys + stack) == Run(rest, out + ys, [Op(o)] + stack)
  {
    PopAll(ys, stack, o);
    var input := [Op(o)] + rest;
    assert input[1..] == rest && (ys + stack)[..|ys|] == ys && (ys + stack)[|ys|..] == stack;
  }

  lemma {:induction false} ReadChild<V>(parens: bool, t: Tree<V>, rest: seq<Token<V>>, out: seq<Token<V>>,
      stack: seq<Token<V>>)
      returns (xs: seq<Token<V>>, ys: seq<Token<V>>)
    requires t.Node? && !parens ==> !OnTopPopped(stack, t.o)
    ensures Reads(t, Wrap(parens, Infix(t)), rest, out, stack, xs, ys)
    ensures if t.Node? && !parens then AtLeast(ys, t.o) else ys == []
    decreases t, 1
  {
    if !parens {
      xs, ys := ReadTree(t, rest, out, stack);
    } else {
      var xs1, ys1 := ReadTree(t, [RightParen] + rest, out, [LeftParen] + stack);
      xs, ys := xs1 + ys1, [];
      assert xs + ys == Postorder(t);
      ReadLeftParen(Infix(t) + ([RightParen] + rest), out, stack);
      ReadRightParen(rest, out + xs1, ys1, stack);
      BetweenParens((i, p, s) => Run(i, p, s), LeftParen, Infix(t), RightParen, rest, out, stack, xs1, ys1);
    }
  }

  lemma ReadLeftParen<V>(rest: seq<Token<V>>, out: seq<Token<V>>, stack: seq<Token<V>>)
    ensures Run([LeftParen] + rest, out, stack) == Run(rest, out, [LeftParen] + stack)
  {
    var input := [LeftParen] + rest;
    assert input[0] == LeftParen && input[1..] == rest;
  }

  lemma ReadRightParen<V>(rest: seq<Token<V>>, out: seq<Token<V>>, ys: seq<Token<V>>, stack: seq<Token<V>>)
    requires forall i | 0 <= i < |ys| :: ys[i].Op?
    ensures Run([RightParen] + rest, out, ys + ([LeftParen] + stack)) == Run(rest, out + ys, stack)
  {
    var (input, full) := ([RightParen] + rest, ys + ([LeftParen] + stack));
    AboveAll(ys, [LeftParen] + stack);
    assert input[0] == RightParen && input[1..] == rest;
    assert full[..|ys|] == ys && full[|ys| + 1..] == stack;
  }

  /** A read between an opening and a closing, whatever it is that reads. */
  lemma BetweenParens<V, R>(run: (seq<V>, seq<V>, seq<V>) -> R, open: V, inner: seq<V>, close: V,
                            rest: seq<V>, out: seq<V>, stack: seq<V>, xs: seq<V>, ys: seq<V>)
    requires run([open] + (inner + ([close] + rest)), out, stack) == run(inner + ([close] + rest), out, [open] + stack)
    requires run(inner + ([close] + rest), out, [open] + stack) == run([close] + rest, out + xs, ys + ([open] + stack))
    requires run([close] + rest, out + xs, ys + ([open] + stack)) == run(rest, out + xs + ys, stack)
    ensures run(([open] + inner + [close]) + rest, out, stack) == run(rest, out + (xs + ys), [] + stack)
  {
    assert ([open] + inner + [close]) + rest == [open] + (inner + ([close] + rest));
    assert out + (xs + ys) == out + xs + ys && [] + stack == stack;
  }

  /** Parsing the printed tree yields its postorder. */
  lemma ParsePrinted<V>(t: Tree<V>)
    ensures Run(Infix(t), [], []) == Some(Postorder(t))
  {
    var xs, ys := ReadTree(t, [], [], []);
    AboveAll(ys, []);
    assert Infix(t) + [] == Infix(t) && ys + [] == ys && [] + xs == xs;
  }

  // ---------- The usual grammar ----------

  predicate Additive(o: Operator) {
    o.Add? || o.Subtract?
  }

  predicate Multiplicative(o: Operator) {
    o.Mult? || o.Div?
  }

  /** sum = sum (+|-) product | product */
  function SumText<V>(t: Tree<V>): seq<Token<V>>
    decreases t, 3
  {
    if t.Node? && Additive(t.o) then SumText(t.left) + [Op(t.o)] + ProductText(t.right) else ProductText(t)
  }

  /** product = product (*|/) power | power */
  function ProductText<V>(t: Tree<V>): seq<Token<V>>
    decreases t, 2
  {
    if t.Node? && Multiplicative(t.o) then ProductText(t.left) + [Op(t.o)] + PowerText(t.right) else PowerText(t)
  }

  /** power = operand ^ power | operand */
  function PowerText<V>(t: Tree<V>): seq<Token<V>>
    decreases t, 1
  {
    if t.Node? && t.o.Power? then OperandText(t.left) + [Op(t.o)] + PowerText(t.right) else OperandText(t)
  }

  /** operand = constant | x | ( sum ) */
  function OperandText<V>(t: Tree<V>): seq<Token<V>>
    decreases t, 0
  {
    match t
    case Leaf(v) => [Const(v)]
    case Var => [X]
    case Node(o, l, r) =>
      [LeftParen]
      + (if Additive(o) then SumText(l) + [Op(o)] + ProductText(r)
         else if Multiplicative(o) then ProductText(l) + [Op(o)] + PowerText(r)
         else OperandText(l) + [Op(o)] + PowerText(r))
      + [RightParen]
  }

  /** The program's strengths are those of the grammar. */
  lemma {:induction false} GrammarText<V>(t: Tree<V>)
    ensures SumText(t) == Infix(t)
    ensures ProductText(t) == Wrap(t.Node? && Additive(t.o), Infix(t))
    ensures PowerText(t) == Wrap(t.Node? && !t.o.Power?, Infix(t))
    ensures OperandText(t) == Wrap(t.Node?, Infix(t))
  {
    if t.Node? {
      GrammarText(t.left);
      GrammarText(t.right);
      assert OperandText(t) == Wrap(true, Infix(t));
    }
    assert PowerText(t) == Wrap(t.Node? && !t.o.Power?, Infix(t));
    assert ProductText(t) == Wrap(t.Node? && Additive(t.o), Infix(t));
  }

  /** Text of the usual grammar parses to the postorder of what it means. */
  lemma ParseGrammar<V>(t: Tree<V>)
    ensures Run(SumText(t), [], []) == Some(Postorder(t))
  {
    GrammarText(t);
    ParsePrinted(t);
  }

  /** The second of two operators takes the operand between them. */
  predicate SecondFirst(o1: Operator, o2: Operator) {
    (Additive(o1) && !Additive(o2)) || (!Additive(o1) && o2.Power?)
  }

  function OperandTree<V>(t: Token<V>): Tree<V>
    requires t.Const? || t.X?
  {
    if t.Const? then Leaf(t.v) else Var
  }

  predicate IsOperand<V>(t: Token<V>) {
    t.Const? || t.X?
  }

  /** Three operands in a row. */
  lemma ThreeOperands<V>(a: Token<V>, b: Token<V>, c: Token<V>, o1: Operator, o2: Operator, input: seq<Token<V>>)
    requires IsOperand(a) && IsOperand(b) && IsOperand(c) && input == [a, Op(o1), b, Op(o2), c]
    ensures Run(input, [], []) ==
            Some(if SecondFirst(o1, o2) then [a, b, c, Op(o2), Op(o1)] else [a, b, Op(o1), c, Op(o2)])
  {
    if SecondFirst(o1, o2) {
      RightTree(a, o1, b, o2, c);
      ParsePrinted(Node(o1, OperandTree(a), Node(o2, OperandTree(b), OperandTree(c))));
    } else {
      LeftTree(a, o1, b, o2, c);
      ParsePrinted(Node(o2, Node(o1, OperandTree(a), OperandTree(b)), OperandTree(c)));
    }
  }

  lemma RightTree<V>(a: Token<V>, o1: Operator, b: Token<V>, o2: Operator, c: Token<V>)
    requires IsOperand(a) && IsOperand(b) && IsOperand(c) && SecondFirst(o1, o2)
    ensures var t := Node(o1, OperandTree(a), Node(o2, OperandTree(b), OperandTree(c)));
      Infix(t) == [a, Op(o1), b, Op(o2), c] && Postorder(t) == [a, b, c, Op(o2), Op(o1)]
  {
    var (x, n) := (OperandTree(a), Node(o2, OperandTree(b), OperandTree(c)));
    SimpleNode(o2, OperandTree(b), OperandTree(c));
    assert Infix(Node(o1, x, n)) == Infix(x) + [Op(o1)] + Infix(n);
  }

  lemma LeftTree<V>(a: Token<V>, o1: Operator, b: Token<V>, o2: Operator, c: Token<V>)
    requires IsOperand(a) && IsOperand(b) && IsOperand(c) && !SecondFirst(o1, o2)
    ensures var t := Node(o2, Node(o1, OperandTree(a), OperandTree(b)), OperandTree(c));
      Infix(t) == [a, Op(o1), b, Op(o2), c] && Postorder(t) == [a, b, Op(o1), c, Op(o2)]
  {
    var (n, z) := (Node(o1, OperandTree(a), OperandTree(b)), OperandTree(c));
    SimpleNode(o1, OperandTree(a), OperandTree(b));
    assert Infix(Node(o2, n, z)) == Infix(n) + [Op(o2)] + Infix(z);
  }

  lemma SimpleNode<V>(o: Operator, x: Tree<V>, y: Tree<V>)
    requires !x.Node? && !y.Node?
    ensures Infix(Node(o, x, y)) == Infix(x) + [Op(o)] + Infix(y)
    ensures Postorder(Node(o, x, y)) == Postorder(x) + Postorder(y) + [Op(o)]
  {}

  // ---------- Evaluating a postorder ----------

  function Eval<V>(t: Tree<V>, x: V, meaning: Meaning<V>): V {
    match t
    case Leaf(v) => v
    case Var => x
    case Node(o, l, r) => meaning(o, Eval(l, x, meaning), Eval(r, x, meaning))
  }

  /** A postorder pushes exactly the tree's value. */
  lemma {:induction false} EvalPostorder<V>(t: Tree<V>, rest: seq<Token<V>>, x: V, meaning: Meaning<V>, stack: seq<V>)
    ensures EvalTokens(Postorder(t) + rest, x, meaning, stack)
         == EvalTokens(rest, x, meaning, [Eval(t, x, meaning)] + stack)
  {
    match t
    case Leaf(v) => assert ([Const(v)] + rest)[1..] == rest;
    case Var => assert ([X] + rest)[1..] == rest;
    case Node(o, l, r) =>
      var (a, b) := (Eval(l, x, meaning), Eval(r, x, meaning));
      EvalPostorder(l, Postorder(r) + ([Op(o)] + rest), x, meaning, stack);
      EvalPostorder(r, [Op(o)] + rest, x, meaning, [a] + stack);
      EvalOperator(o, rest, x, meaning, a, b, stack);
      RestMoved(Postorder(l), Postorder(r), [Op(o)], rest);
  }

  lemma RestMoved<V>(p: seq<V>, q: seq<V>, op: seq<V>, rest: seq<V>)
    ensures (p + q + op) + rest == p + (q + (op + rest))
  {}

  lemma EvalOperator<V>(o: Operator, rest: seq<Token<V>>, x: V, meaning: Meaning<V>, a: V, b: V, stack: seq<V>)
    ensures EvalTokens([Op(o)] + rest, x, meaning, [b] + ([a] + stack))
         == EvalTokens(rest, x, meaning, [meaning(o, a, b)] + stack)
  {
    var (input, operands) := ([Op(o)] + rest, [b] + ([a] + stack));
    assert input[0] == Op(o) && input[1..] == rest;
    assert operands[0] == b && operands[1] == a && operands[2..] == stack;
  }

  function Operators<V>(tokens: seq<Token<V>>): nat {
    if tokens == [] then 0 else (if tokens[0].Op? then 1 else 0) + Operators(tokens[1..])
  }

  function Operands<V>(tokens: seq<Token<V>>): nat {
    if tokens == [] then 0 else (if IsOperand(tokens[0]) then 1 else 0) + Operands(tokens[1..])
  }

  /** Every operator takes two operands and leaves one. */
  lemma {:induction false} EvalCounts<V>(tokens: seq<Token<V>>, x: V, meaning: Meaning<V>, stack: seq<V>)
    requires EvalTokens(tokens, x, meaning, stack).Some?
    ensures |EvalTokens(tokens, x, meaning, stack).value| == |stack| + Operands(tokens) - Operators(tokens)
    decreases |tokens|
  {
    if tokens != [] {
      match tokens[0]
      case Const(v) => EvalCounts(tokens[1..], x, meaning, [v] + stack);
      case X => EvalCounts(tokens[1..], x, meaning, [x] + stack);
      case Op(o) => EvalCounts(tokens[1..], x, meaning, [meaning(o, stack[1], stack[0])] + stack[2..]);
      case _ => EvalCounts(tokens[1..], x, meaning, stack);
    }
  }

  /** A result comes out only where there is one more operand than operators; otherwise an operator ran
      short, operands are left over, or there was none. */
  lemma OutcomeExact<V>(tokens: seq<Token<V>>, x: V, meaning: Meaning<V>)
    ensures var (n, r) := (Operands(tokens) - Operators(tokens), OutcomeOf(EvalTokens(tokens, x, meaning, [])));
      && (r.Result? ==> n == 1) && (r.TooManyOperands? ==> n > 1) && (r.NoOperand? ==> n == 0)
      && (r.NotEnoughOperands? <==> EvalTokens(tokens, x, meaning, []).None?)
  {
    if EvalTokens(tokens, x, meaning, []).Some? {
      EvalCounts(tokens, x, meaning, []);
    }
  }

  /** Printing a tree by the grammar, parsing the text and evaluating the queue gives the tree's value, with
      one operand left. */
  method RoundTrip<V>(t: Tree<V>, x: V, meaning: Meaning<V>) returns (r: Outcome<V>)
    ensures r == Result(Eval(t, x, meaning))
  {
    ParseGrammar(t);
    var queue := ParseExpression(SumText(t));
    assert queue.value + [] == queue.value;
    EvalPostorder(t, [], x, meaning, []);
    r := EvaluateExpr(queue.value, x, meaning);
  }

  // ---------- Any token list ----------

  function Parens<V>(stack: seq<Token<V>>): nat {
    if stack == [] then 0 else (if stack[0].LeftParen? then 1 else 0) + Parens(stack[1..])
  }

  /** Every right parenthesis has a left one before it, and all are closed. */
  predicate Balanced<V>(input: seq<Token<V>>, open: nat) {
    if input == [] then open == 0
    else if input[0].LeftParen? then Balanced(input[1..], open + 1)
    else if input[0].RightParen? then open > 0 && Balanced(input[1..], open - 1)
    else Balanced(input[1..], open)
  }

  ghost function Count<V>(t: Token<V>, s: seq<Token<V>>): nat {
    if s == [] then 0 else (if s[0] == t then 1 else 0) + Count(t, s[1..])
  }

  lemma {:induction false} CountConcat<V>(t: Token<V>, a: seq<Token<V>>, b: seq<Token<V>>)
    ensures Count(t, a + b) == Count(t, a) + Count(t, b)
  {
    if a == [] {
      assert a + b == b;
    } else {
      assert (a + b)[1..] == a[1..] + b;
      CountConcat(t, a[1..], b);
    }
  }

  /** Dropping n tokens from the stack that are no left parentheses. */
  lemma {:induction false} DropOperators<V>(stack: seq<Token<V>>, n: nat)
    requires StackTokens(stack) && n <= |stack|
    requires forall i | 0 <= i < n :: !stack[i].LeftParen?
    ensures Parens(stack[n..]) == Parens(stack) && StackTokens(stack[n..])
  {
    if n == 0 {
      assert stack[0..] == stack;
    } else {
      DropOperators(stack[1..], n - 1);
      assert stack[1..][n - 1..] == stack[n..];
    }
  }

  lemma {:induction false} PoppedAreOperators<V>(stack: seq<Token<V>>, o: Operator)
    ensures forall i | 0 <= i < PopCount(stack, o) :: !stack[i].LeftParen?
  {
    if OnTopPopped(stack, o) {
      PoppedAreOperators(stack[1..], o);
      forall i | 0 <= i < PopCount(stack, o)
        ensures !stack[i].LeftParen?
      {
        assert i > 0 ==> stack[i] == stack[1..][i - 1];
      }
    }
  }

  lemma {:induction false} AboveAreOperators<V>(stack: seq<Token<V>>)
    ensures forall i | 0 <= i < AboveParen(stack) :: !stack[i].LeftParen?
    ensures AboveParen(stack) == |stack| <==> Parens(stack) == 0
  {
    if stack != [] && !stack[0].LeftParen? {
      AboveAreOperators(stack[1..]);
      forall i | 0 <= i < AboveParen(stack)
        ensures !stack[i].LeftParen?
      {
        assert i > 0 ==> stack[i] == stack[1..][i - 1];
      }
    }
  }

  lemma TakeParens<V>(tok: Token<V>, out: seq<Token<V>>, stack: seq<Token<V>>)
    requires StackTokens(stack)
    ensures Take(tok, out, stack).None? <==> tok.RightParen? && Parens(stack) == 0
    ensures Take(tok, out, stack).Some? ==>
              var q := Take(tok, out, stack).value;
              && StackTokens(q.stack)
              && Parens(q.stack) == Parens(stack) + (if tok.LeftParen? then 1 else if tok.RightParen? then -1 else 0)
  {
    match tok
    case Op(o) => TakeOperator(o, out, stack);
    case LeftParen => assert ([tok] + stack)[1..] == stack;
    case RightParen => TakeRight(out, stack);
    case _ =>
  }

  lemma TakeOperator<V>(o: Operator, out: seq<Token<V>>, stack: seq<Token<V>>)
    requires StackTokens(stack)
    ensures var q := Take(Op(o), out, stack).value; StackTokens(q.stack) && Parens(q.stack) == Parens(stack)
  {
    PoppedAreOperators(stack, o);
    DropOperators(stack, PopCount(stack, o));
    assert ([Op(o)] + stack[PopCount(stack, o)..])[1..] == stack[PopCount(stack, o)..];
  }

  lemma TakeRight<V>(out: seq<Token<V>>, stack: seq<Token<V>>)
    requires StackTokens(stack)
    ensures Take(RightParen, out, stack).None? <==> Parens(stack) == 0
    ensures Take(RightParen, out, stack).Some? ==>
              var q := Take(RightParen, out, stack).value;
              StackTokens(q.stack) && Parens(q.stack) == Parens(stack) - 1
  {
    AboveAreOperators(stack);
    var n := AboveParen(stack);
    if n < |stack| {
      DropOperators(stack, n);
      assert stack[n..][1..] == stack[n + 1..];
    }
  }

  /** Moving the top of the stack to the output. */
  lemma MoveToOut<V>(t: Token<V>, out: seq<Token<V>>, stack: seq<Token<V>>, n: nat)
    requires n <= |stack|
    ensures Count(t, out + stack[..n]) + Count(t, stack[n..]) == Count(t, out) + Count(t, stack)
  {
    CountConcat(t, out, stack[..n]);
    CountConcat(t, stack[..n], stack[n..]);
    assert stack[..n] + stack[n..] == stack;
  }

  lemma TakeConserves<V>(t: Token<V>, tok: Token<V>, out: seq<Token<V>>, stack: seq<Token<V>>)
    requires !t.LeftParen? && !t.RightParen? && Take(tok, out, stack).Some?
    ensures var q := Take(tok, out, stack).value;
            Count(t, q.out) + Count(t, q.stack) == Count(t, out) + Count(t, stack) + (if tok == t then 1 else 0)
  {
    var n := if tok.Op? then PopCount(stack, tok.o) else if tok.RightParen? then AboveParen(stack) else 0;
    MoveToOut(t, out, stack, n);
    CountConcat(t, out, [tok]);
    CountConcat(t, [tok], stack[n..]);
    assert [tok][1..] == [] && stack[0..] == stack;
    if tok.RightParen? {
      assert stack[n..][1..] == stack[n + 1..];
    }
  }

  /** Parsing succeeds exactly when the parentheses match. */
  lemma {:induction false} ParseBalanced<V>(input: seq<Token<V>>, out: seq<Token<V>>, stack: seq<Token<V>>)
    requires StackTokens(stack)
    ensures Run(input, out, stack).Some? <==> Balanced(input, Parens(stack))
    decreases |input|
  {
    if input == [] {
      AboveAreOperators(stack);
    } else {
      TakeParens(input[0], out, stack);
      var next := Take(input[0], out, stack);
      if next.Some? {
        ParseBalanced(input[1..], next.value.out, next.value.stack);
      }
    }
  }

  /** Then every operand and operator is in the output as often as it was in the input. */
  lemma {:induction false} ParseConserves<V>(t: Token<V>, input: seq<Token<V>>, out: seq<Token<V>>,
      stack: seq<Token<V>>)
    requires !t.LeftParen? && !t.RightParen? && Run(input, out, stack).Some?
    ensures Count(t, Run(input, out, stack).value) == Count(t, out) + Count(t, stack) + Count(t, input)
    decreases |input|
  {
    if input == [] {
      CountConcat(t, out, stack);
    } else {
      TakeConserves(t, input[0], out, stack);
      var q := Take(input[0], out, stack).value;
      ParseConserves(t, input[1..], q.out, q.stack);
    }
  }
}
