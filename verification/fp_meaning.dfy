// What fplot's parser computes: the postfix form of every expression written with the parentheses it needs.

module FpMeaning {
  import opened FpParse

  // ----- the parser on one expression ---------------------------------------

  /** The stack after the text of e: the operators that still wait for the end of their last operand are on it. */
  function Waiting(e: Expr, below: Stack): Stack {
    match e
    case Un(op, a) => Waiting(a, On(TOp(op), below))
    case Bin(op, _, r) => Waiting(r, On(TOp(op), below))
    case _ => below
  }

  /** The code emitted for e while those operators wait. */
  function Emitted(e: Expr): seq<Op> {
    match e
    case Num(v) => [ONumber(v)]
    case X => [OVar]
    case Un(_, a) => Emitted(a)
    case Bin(_, l, r) => Postfix(l) + Emitted(r)
    case Paren(a) => Postfix(a)
  }

  function After(s: State, e: Expr): State {
    State(Waiting(e, s.stack), s.code + Emitted(e))
  }

  /** The same with all of e applied. */
  function Applied(s: State, e: Expr): State {
    s.(code := s.code + Postfix(e))
  }

  lemma Regroup(a: seq<Op>, b: seq<Op>, c: seq<Op>, d: seq<Op>)
    ensures a + b + c == a + (b + c)
    ensures a + b + c + d == a + (b + c + d)
  {
  }

  /** The last operand of a unary operator applied, then the operator. */
  lemma AppliedUnary(s: State, op: Operator, a: Expr)
    ensures Popped(Applied(s.(stack := On(TOp(op), s.stack)), a)) == Applied(s, Un(op, a))
  {
    Regroup(s.code, Postfix(a), [Instruction(op)], []);
  }

  /** The last operand of a binary operator applied, then the operator. */
  lemma AppliedBinary(s: State, op: Operator, l: Expr, r: Expr)
    ensures Popped(Applied(State(On(TOp(op), s.stack), s.code + Postfix(l)), r)) == Applied(s, Bin(op, l, r))
  {
    Regroup(s.code, Postfix(l), Postfix(r), [Instruction(op)]);
  }

  /** All that waits at the end of e is applied before an operator that closes it. */
  lemma {:induction false} PopsBefore(s: State, e: Expr, t: Operator)
    requires ClosedBy(e, t)
    ensures PopBefore(After(s, e), t) == PopBefore(Applied(s, e), t)
    decreases e
  {
    match e
    case Un(op, a) =>
      PopsBefore(s.(stack := On(TOp(op), s.stack)), a, t);
      AppliedUnary(s, op, a);
    case Bin(op, l, r) =>
      var s' := State(On(TOp(op), s.stack), s.code + Postfix(l));
      PopsBefore(s', r, t);
      AppliedBinary(s, op, l, r);
      Regroup(s.code, Postfix(l), Emitted(r), []);
    case _ =>
  }

  lemma {:induction false} PopsAll(s: State, e: Expr)
    ensures PopOperators(After(s, e)) == PopOperators(Applied(s, e))
    decreases e
  {
    match e
    case Un(op, a) =>
      PopsAll(s.(stack := On(TOp(op), s.stack)), a);
      AppliedUnary(s, op, a);
    case Bin(op, l, r) =>
      var s' := State(On(TOp(op), s.stack), s.code + Postfix(l));
      PopsAll(s', r);
      AppliedBinary(s, op, l, r);
      Regroup(s.code, Postfix(l), Emitted(r), []);
    case _ =>
  }

  /** Tokens b taken from where tokens a lead. */
  lemma {:induction false} StepsThen(s: State, a: seq<Token>, s': State, b: seq<Token>)
    requires Steps(s, a) == Ok(s')
    ensures Steps(s, a + b) == Steps(s', b)
    decreases |a|
  {
    if a == [] {
      assert a + b == b;
    } else {
      assert (a + b)[1..] == a[1..] + b;
      StepsThen(Step(s, a[0]).value, a[1..], s', b);
    }
  }

  lemma StepsOne(s: State, t: Token)
    ensures Steps(s, [t]) == Step(s, t)
  {
    match Step(s, t)
    case Ok(s') => assert Steps(s', [t][1..]) == Ok(s');
    case Fatal(_) =>
  }

  /** No operator on top of the stack is popped before t. */
  predicate Shielded(s: Stack, t: Operator) {
    !OperatorOnTop(s) || !BindsBefore(s.top.op, t)
  }

  /** Nothing that stands on the stack takes an operand away from e. */
  predicate Welcomes(s: Stack, e: Expr) {
    match e
    case Bin(op, l, _) => Shielded(s, op) && Welcomes(s, l)
    case _ => true
  }

  lemma {:induction false} HeldIsWelcome(o: Operator, s: Stack, e: Expr)
    requires HeldBy(o, e)
    ensures Welcomes(On(TOp(o), s), e)
  {
    match e
    case Bin(_, l, _) => HeldIsWelcome(o, s, l);
    case _ =>
  }

  lemma {:induction false} EmptyWelcomes(s: Stack, e: Expr)
    requires !OperatorOnTop(s)
    ensures Welcomes(s, e)
  {
    match e
    case Bin(_, l, _) => EmptyWelcomes(s, l);
    case _ =>
  }

  lemma {:induction false} ParsesExpr(s: State, e: Expr)
    requires Grouped(e) && Welcomes(s.stack, e)
    ensures Steps(s, Tokens(e)) == Ok(After(s, e))
    decreases e, 1
  {
    match e
    case Num(v) => StepsOne(s, TNumber(v));
    case X => StepsOne(s, TVar);
    case Un(op, a) => ParsesUnary(s, op, a);
    case Bin(op, l, r) => ParsesBinary(s, op, l, r);
    case Paren(a) => ParsesParen(s, a);
  }

  lemma {:induction false} ParsesUnary(s: State, op: Operator, a: Expr)
    requires Grouped(Un(op, a))
    ensures Steps(s, Tokens(Un(op, a))) == Ok(After(s, Un(op, a)))
    decreases Un(op, a), 0
  {
    var s' := s.(stack := On(TOp(op), s.stack));
    StepsOne(s, TOp(op));
    StepsThen(s, [TOp(op)], s', Tokens(a));
    HeldIsWelcome(op, s.stack, a);
    ParsesExpr(s', a);
  }

  /** A binary operator after its first operand. */
  lemma TakesOperator(s: State, l: Expr, op: Operator)
    requires op.binary && ClosedBy(l, op) && Shielded(s.stack, op)
    ensures Step(After(s, l), TOp(op)) == Ok(State(On(TOp(op), s.stack), s.code + Postfix(l)))
  {
    PopsBefore(s, l, op);
  }

  lemma {:induction false} ParsesBinary(s: State, op: Operator, l: Expr, r: Expr)
    requires Grouped(Bin(op, l, r)) && Welcomes(s.stack, Bin(op, l, r))
    ensures Steps(s, Tokens(Bin(op, l, r))) == Ok(After(s, Bin(op, l, r)))
    decreases Bin(op, l, r), 0
  {
    var s' := State(On(TOp(op), s.stack), s.code + Postfix(l));
    ParsesExpr(s, l);
    TakesOperator(s, l, op);
    StepsOne(After(s, l), TOp(op));
    StepsThen(s, Tokens(l), After(s, l), [TOp(op)]);
    StepsThen(s, Tokens(l) + [TOp(op)], s', Tokens(r));
    HeldIsWelcome(op, s.stack, r);
    ParsesExpr(s', r);
    Regroup(s.code, Postfix(l), Emitted(r), []);
  }

  lemma {:induction false} ParsesParen(s: State, a: Expr)
    requires Grouped(a)
    ensures Steps(s, Tokens(Paren(a))) == Ok(After(s, Paren(a)))
    decreases Paren(a), 0
  {
    var s1 := s.(stack := On(TParenL, s.stack));
    StepsOne(s, TParenL);
    StepsThen(s, [TParenL], s1, Tokens(a));
    EmptyWelcomes(s1.stack, a);
    ParsesExpr(s1, a);
    PopsAll(s1, a);
    StepsOne(After(s1, a), TParenR);
    StepsThen(s, [TParenL] + Tokens(a), After(s1, a), [TParenR]);
  }

  /** parse turns every expression written with the parentheses it needs into its postfix form. */
  lemma {:induction false} CompilesToPostfix(e: Expr)
    requires Grouped(e)
    ensures Compile(Tokens(e)) == Ok(Postfix(e))
  {
    EmptyWelcomes(Bottom, e);
    ParsesExpr(EMPTY, e);
    PopsAll(EMPTY, e);
    assert [] + Postfix(e) == Postfix(e);
  }

  // ----- parentheses only where they are needed ------------------------------

  function Wrapped(e: Expr, needed: bool): Expr {
    if needed then Paren(e) else e
  }

  /** A tree over its operators alone, with parentheses only where precedence and associativity call for them. */
  function Parenthesised(e: Expr): Expr {
    match e
    case Un(op, a) =>
      var a' := Parenthesised(a);
      Un(op, Wrapped(a', !HeldBy(op, a')))
    case Bin(op, l, r) =>
      var l', r' := Parenthesised(l), Parenthesised(r);
      Bin(op, Wrapped(l', !ClosedBy(l', op)), Wrapped(r', !HeldBy(op, r')))
    case Paren(a) => Paren(Parenthesised(a))
    case _ => e
  }

  /** The operators of a tree stand where operators of their kind may stand. */
  predicate WellKinded(e: Expr) {
    match e
    case Un(op, a) => !op.binary && WellKinded(a)
    case Bin(op, l, r) => op.binary && WellKinded(l) && WellKinded(r)
    case Paren(a) => WellKinded(a)
    case _ => true
  }

  lemma {:induction false} ParenthesisedIsGrouped(e: Expr)
    requires WellKinded(e)
    ensures Grouped(Parenthesised(e)) && Postfix(Parenthesised(e)) == Postfix(e)
  {
    match e
    case Un(op, a) => ParenthesisedIsGrouped(a);
    case Bin(op, l, r) =>
      ParenthesisedIsGrouped(l);
      ParenthesisedIsGrouped(r);
    case Paren(a) => ParenthesisedIsGrouped(a);
    case _ =>
  }

  /** Every expression tree, written with as few parentheses as precedence allows, compiles to its postfix form. */
  lemma {:induction false} CompilesMinimalText(e: Expr)
    requires WellKinded(e)
    ensures Compile(Tokens(Parenthesised(e))) == Ok(Postfix(e))
  {
    ParenthesisedIsGrouped(e);
    CompilesToPostfix(Parenthesised(e));
  }

  // ----- the parentheses are needed --------------------------------------------

  predicate Bare(e: Expr) {
    match e
    case Un(_, a) => Bare(a)
    case Bin(_, l, r) => Bare(l) && Bare(r)
    case Paren(_) => false
    case _ => true
  }

  /** The operator op and its operand r put behind l, inside the operators of l that are not applied before op. */
  function Insert(l: Expr, op: Operator, r: Expr): Expr {
    match l
    case Un(o, a) =>
      if !ClosedBy(a, op) then Un(o, Insert(a, op, r))
      else if BindsBefore(o, op) then Bin(op, l, r)
      else Un(o, Bin(op, a, r))
    case Bin(o, b, c) =>
      if !ClosedBy(c, op) then Bin(o, b, Insert(c, op, r))
      else if BindsBefore(o, op) then Bin(op, l, r)
      else Bin(o, b, Bin(op, c, r))
    case _ => Bin(op, l, r)
  }

  /** l, op and r grouped as their text is. */
  function Joined(l: Expr, op: Operator, r: Expr): Expr
    decreases r
  {
    match r
    case Bin(t, b, c) => Joined(Joined(l, op, b), t, c)
    case _ => Insert(l, op, r)
  }

  function Prefixed(op: Operator, a: Expr): Expr {
    match a
    case Bin(t, b, c) => Joined(Prefixed(op, b), t, c)
    case _ => Un(op, a)
  }

  /** The tree that the text of e stands for. */
  function Regrouped(e: Expr): Expr {
    match e
    case Un(op, a) => Prefixed(op, Regrouped(a))
    case Bin(op, l, r) => Joined(Regrouped(l), op, Regrouped(r))
    case _ => e
  }

  lemma {:induction false} InsertGroups(l: Expr, op: Operator, r: Expr)
    requires Grouped(l) && Grouped(r) && HeldBy(op, r) && op.binary
    ensures Grouped(Insert(l, op, r))
    ensures forall o :: HeldBy(o, l) && !ClosedBy(l, op) ==> HeldBy(o, Insert(l, op, r))
  {
    match l
    case Un(o, a) => InsertGroups(a, op, r);
    case Bin(o, b, c) => InsertGroups(c, op, r);
    case _ =>
  }

  lemma {:induction false} InsertKeepsText(l: Expr, op: Operator, r: Expr)
    ensures Tokens(Insert(l, op, r)) == Tokens(l) + [TOp(op)] + Tokens(r)
    ensures Bare(l) && Bare(r) ==> Bare(Insert(l, op, r))
  {
    match l
    case Un(o, a) =>
      InsertKeepsText(a, op, r);
      RegroupTokens([TOp(o)], Tokens(a), [TOp(op)], Tokens(r));
    case Bin(o, b, c) =>
      InsertKeepsText(c, op, r);
      RegroupTokens(Tokens(b) + [TOp(o)], Tokens(c), [TOp(op)], Tokens(r));
    case _ =>
  }

  lemma RegroupTokens(a: seq<Token>, b: seq<Token>, c: seq<Token>, d: seq<Token>)
    ensures a + (b + c + d) == a + b + c + d
  {
  }

  lemma {:induction false} JoinedGroups(l: Expr, op: Operator, r: Expr)
    requires Grouped(l) && Grouped(r) && op.binary
    ensures Grouped(Joined(l, op, r)) && Tokens(Joined(l, op, r)) == Tokens(l) + [TOp(op)] + Tokens(r)
    ensures Bare(l) && Bare(r) ==> Bare(Joined(l, op, r))
    decreases r
  {
    match r
    case Bin(t, b, c) =>
      JoinedGroups(l, op, b);
      JoinedGroups(Joined(l, op, b), t, c);
      RegroupTokens(Tokens(l) + [TOp(op)], Tokens(b), [TOp(t)], Tokens(c));
    case _ =>
      InsertGroups(l, op, r);
      InsertKeepsText(l, op, r);
  }

  lemma {:induction false} PrefixedGroups(op: Operator, a: Expr)
    requires Grouped(a) && !op.binary
    ensures Grouped(Prefixed(op, a)) && Tokens(Prefixed(op, a)) == [TOp(op)] + Tokens(a)
    ensures Bare(a) ==> Bare(Prefixed(op, a))
  {
    match a
    case Bin(t, b, c) =>
      PrefixedGroups(op, b);
      JoinedGroups(Prefixed(op, b), t, c);
      RegroupTokens([TOp(op)], Tokens(b), [TOp(t)], Tokens(c));
    case _ =>
  }

  /** Every text without parentheses is that of a tree grouped accordingly. */
  lemma {:induction false} RegroupedGroups(e: Expr)
    requires WellKinded(e) && Bare(e)
    ensures Grouped(Regrouped(e)) && Bare(Regrouped(e)) && Tokens(Regrouped(e)) == Tokens(e)
  {
    match e
    case Un(op, a) =>
      RegroupedGroups(a);
      PrefixedGroups(op, Regrouped(a));
    case Bin(op, l, r) =>
      RegroupedGroups(l);
      RegroupedGroups(r);
      JoinedGroups(Regrouped(l), op, Regrouped(r));
    case _ =>
  }

  /** The same tree but for the names of operators. */
  predicate Alike(e: Expr, g: Expr) {
    match e
    case Un(_, a) => g.Un? && Alike(a, g.arg)
    case Bin(_, l, r) => g.Bin? && Alike(l, g.left) && Alike(r, g.right)
    case _ => g == e
  }

  /** Postfix code is read from its end in one way only. */
  lemma {:induction false} CodeTellsShape(a: seq<Op>, e: Expr, b: seq<Op>, g: Expr)
    requires WellKinded(e) && WellKinded(g) && Bare(e) && Bare(g) && a + Postfix(e) == b + Postfix(g)
    ensures a == b && Alike(e, g)
    decreases e
  {
    var s, t := a + Postfix(e), b + Postfix(g);
    LastOp(a, e);
    LastOp(b, g);
    match e
    case Un(_, x) =>
      assert s[..|s| - 1] == a + Postfix(x) && t[..|t| - 1] == b + Postfix(g.arg);
      CodeTellsShape(a, x, b, g.arg);
    case Bin(_, l, r) =>
      assert s[..|s| - 1] == (a + Postfix(l)) + Postfix(r) && t[..|t| - 1] == (b + Postfix(g.left)) + Postfix(g.right);
      CodeTellsShape(a + Postfix(l), r, b + Postfix(g.left), g.right);
      CodeTellsShape(a, l, b, g.left);
    case _ =>
      assert s[..|s| - 1] == a && t[..|t| - 1] == b;
  }

  /** The last instruction of a code tells what kind of tree it is for. */
  lemma LastOp(a: seq<Op>, e: Expr)
    requires WellKinded(e) && Bare(e)
    ensures var s := a + Postfix(e);
            s != [] && s[|s| - 1] == match e
                                     case Num(v) => ONumber(v)
                                     case X => OVar
                                     case Un(op, _) => OUnary(op.f)
                                     case Bin(op, _, _) => OBinary(op.f)
                                     case Paren(_) => OVar
  {
  }

  lemma {:induction false} TextTellsNames(e: Expr, g: Expr)
    requires Alike(e, g)
    ensures |Tokens(e)| == |Tokens(g)|
    ensures Tokens(e) == Tokens(g) ==> e == g
  {
    match e
    case Un(op, a) =>
      TextTellsNames(a, g.arg);
      assert Tokens(e)[1..] == Tokens(a) && Tokens(g)[1..] == Tokens(g.arg) && Tokens(e)[0] == TOp(op);
    case Bin(op, l, r) =>
      TextTellsNames(l, g.left);
      TextTellsNames(r, g.right);
      var n := |Tokens(l)|;
      assert Tokens(e)[..n] == Tokens(l) && Tokens(e)[n] == TOp(op) && Tokens(e)[n + 1..] == Tokens(r);
      assert Tokens(g)[..n] == Tokens(g.left) && Tokens(g)[n] == TOp(g.op) && Tokens(g)[n + 1..] == Tokens(g.right);
    case _ =>
  }

  /** A tree without parentheses compiles to its postfix form if and only if its text is grouped as it is. */
  lemma BareTextMeansGrouped(e: Expr)
    requires WellKinded(e) && Bare(e)
    ensures Compile(Tokens(e)) == Ok(Postfix(e)) <==> Grouped(e)
  {
    var g := Regrouped(e);
    RegroupedGroups(e);
    CompilesToPostfix(g);
    GroupedIsWellKinded(g);
    if Grouped(e) {
      CompilesToPostfix(e);
    } else if Postfix(g) == Postfix(e) {
      assert [] + Postfix(e) == [] + Postfix(g);
      CodeTellsShape([], e, [], g);
      TextTellsNames(e, g);
    }
  }

  lemma {:induction false} GroupedIsWellKinded(e: Expr)
    requires Grouped(e)
    ensures WellKinded(e)
  {
    match e
    case Un(_, a) => GroupedIsWellKinded(a);
    case Bin(_, l, r) =>
      GroupedIsWellKinded(l);
      GroupedIsWellKinded(r);
    case Paren(a) => GroupedIsWellKinded(a);
    case _ =>
  }

  // ----- what the parser accepts ----------------------------------------------

  predicate Balanced(ts: seq<Token>, open: nat)
    decreases |ts|
  {
    if ts == [] then open == 0
    else match ts[0]
      case TParenL => Balanced(ts[1..], open + 1)
      case TParenR => open > 0 && Balanced(ts[1..], open - 1)
      case _ => Balanced(ts[1..], open)
  }

  /** The parentheses waiting on the stack. */
  function Open(s: Stack): nat {
    match s
    case Bottom => 0
    case On(t, next) => Open(next) + if t.TParenL? then 1 else 0
  }

  /** Only operators and opening parentheses ever come onto the stack. */
  predicate Proper(s: Stack) {
    s.On? ==> (s.top.TOp? || s.top.TParenL?) && Proper(s.next)
  }

  lemma {:induction false} PoppingKeepsOpen(s: State, t: Operator)
    requires Proper(s.stack)
    ensures Proper(PopBefore(s, t).stack) && Open(PopBefore(s, t).stack) == Open(s.stack)
    ensures Proper(PopOperators(s).stack) && Open(PopOperators(s).stack) == Open(s.stack)
    ensures var p := PopOperators(s).stack; p.On? ==> p.top.TParenL?
    decreases s.stack
  {
    if OperatorOnTop(s.stack) {
      PoppingKeepsOpen(Popped(s), t);
    }
  }

  lemma {:induction false} StepKeepsProper(s: State, t: Token)
    requires Proper(s.stack)
    ensures var r := Step(s, t);
            match t
            case TParenL => r.Ok? && Open(r.value.stack) == Open(s.stack) + 1
            case TParenR => if Open(s.stack) == 0 then r.Fatal? else r.Ok? && Open(r.value.stack) == Open(s.stack) - 1
            case _ => r.Ok? && Open(r.value.stack) == Open(s.stack)
    ensures Step(s, t).Ok? ==> Proper(Step(s, t).value.stack)
  {
    match t
    case TOp(op) => PoppingKeepsOpen(s, op);
    case TParenR => PoppingKeepsOpen(s, OPS[0]);
    case _ =>
  }

  lemma {:induction false} AcceptsFrom(s: State, ts: seq<Token>)
    requires Proper(s.stack)
    ensures Balanced(ts, Open(s.stack)) <==> Steps(s, ts).Ok? && Finish(Steps(s, ts).value).Ok?
    decreases |ts|
  {
    if ts == [] {
      PoppingKeepsOpen(s, OPS[0]);
    } else {
      StepKeepsProper(s, ts[0]);
      if Step(s, ts[0]).Ok? {
        AcceptsFrom(Step(s, ts[0]).value, ts[1..]);
      }
    }
  }

  /** When parse goes on to its end, only parentheses that are still open remain on the stack with the operators. */
  lemma {:induction false} ReachedIsProper(s: State, ts: seq<Token>)
    requires Proper(s.stack) && Steps(s, ts).Ok?
    ensures Proper(Steps(s, ts).value.stack)
    ensures Finish(Steps(s, ts).value).Ok? <==> Open(Steps(s, ts).value.stack) == 0
    decreases |ts|
  {
    if ts == [] {
      PoppingKeepsOpen(s, OPS[0]);
    } else {
      StepKeepsProper(s, ts[0]);
      ReachedIsProper(Step(s, ts[0]).value, ts[1..]);
    }
  }

  /** parse accepts exactly the token lists with balanced parentheses; it leaves all else to calcstack. */
  lemma {:induction false} AcceptsBalanced(ts: seq<Token>)
    ensures Compile(ts).Ok? <==> Balanced(ts, 0)
  {
    AcceptsFrom(EMPTY, ts);
  }
}
