// fplot's expressions by a grammar of tiers, against its operator precedence parser.

module FpGrammar {
  import opened FpParse
  import opened FpMeaning
  import opened FpCalc

  /** How tightly the binary operators bind, from the loosest to the tightest; 4 is that of everything else. */
  function Tier(name: string): (t: nat)
    ensures t <= 4
  {
    if name == "max" || name == "min" then 0
    else if name == "+" || name == "-" then 1
    else if name == "*" || name == "/" || name == "%" then 2
    else if name == "^" then 3
    else 4
  }

  /**
   * The grammar: what may stand where an operand of this tier is expected. Operators of a tier group from the left, ^
   * groups from the right, and a unary operator takes the operand next to it.
   */
  predicate Stands(e: Expr, tier: nat) {
    match e
    case Num(_) => true
    case X => true
    case Paren(a) => Stands(a, 0)
    case Un(op, a) => op in OPS && Tier(op.name) == 4 && Stands(a, 4)
    case Bin(op, l, r) =>
      var t := Tier(op.name);
      op in OPS && tier <= t < 4 && if t == 3 then Stands(l, 4) && Stands(r, 3) else Stands(l, t) && Stands(r, t + 1)
  }

  lemma FirstRows(i: nat)
    requires i < 8
    ensures var op := OPS[i]; op.binary && Tier(op.name) < 4 && op.prec == 100 * Tier(op.name)
    ensures OPS[i].rassoc <==> Tier(OPS[i].name) == 3
  {
  }

  lemma OtherRows(i: nat)
    requires 8 <= i < |OPS|
    ensures var op := OPS[i]; !op.binary && Tier(op.name) == 4 && op.prec == 400 && !op.rassoc
  {
  }

  /** What the table says of an operator. */
  lemma TableRow(op: Operator)
    requires op in OPS
    ensures op.binary <==> Tier(op.name) < 4
    ensures op.prec == 100 * Tier(op.name) && (op.rassoc <==> Tier(op.name) == 3)
  {
    var i :| 0 <= i < |OPS| && OPS[i] == op;
    if i < 8 {
      FirstRows(i);
    } else {
      OtherRows(i);
    }
  }

  /** The tier that an expression belongs to. */
  function TierOf(e: Expr): nat {
    if e.Bin? then Tier(e.op.name) else 4
  }

  lemma StandsLower(e: Expr, tier: nat, t: nat)
    requires Stands(e, tier) && t <= tier
    ensures Stands(e, t)
  {
  }

  /** What stands at a tier gives way to a binary operator of a lower one, or of the same one unless that is ^. */
  lemma {:induction false} StandsIsClosed(e: Expr, tier: nat, t: Operator)
    requires Stands(e, tier) && t in OPS && t.binary && (tier > Tier(t.name) || (tier == Tier(t.name) && tier != 3))
    ensures ClosedBy(e, t)
  {
    TableRow(t);
    match e
    case Un(op, a) =>
      TableRow(op);
      StandsIsClosed(a, 4, t);
    case Bin(op, _, r) =>
      TableRow(op);
      StandsIsClosed(r, if Tier(op.name) == 3 then 3 else Tier(op.name) + 1, t);
    case _ =>
  }

  /** What stands at a tier keeps its first operand from an operator of a lower one, or of ^ if it is at that tier. */
  lemma {:induction false} StandsIsHeld(o: Operator, e: Expr, tier: nat)
    requires Stands(e, tier) && o in OPS && (tier > Tier(o.name) || (tier == Tier(o.name) && tier >= 3))
    ensures HeldBy(o, e)
  {
    TableRow(o);
    match e
    case Bin(op, l, _) =>
      TableRow(op);
      StandsIsHeld(o, l, if Tier(op.name) == 3 then 4 else Tier(op.name));
    case _ =>
  }

  lemma {:induction false} StandsIsGrouped(e: Expr, tier: nat)
    requires Stands(e, tier)
    ensures Grouped(e)
  {
    match e
    case Un(op, a) =>
      TableRow(op);
      StandsIsGrouped(a, 4);
      StandsIsHeld(op, a, 4);
    case Bin(op, l, r) =>
      var t := Tier(op.name);
      var tl, tr := if t == 3 then 4 else t, if t == 3 then 3 else t + 1;
      TableRow(op);
      StandsIsGrouped(l, tl);
      StandsIsGrouped(r, tr);
      StandsIsClosed(l, tl, op);
      StandsIsHeld(op, r, tr);
    case Paren(a) => StandsIsGrouped(a, 0);
    case _ =>
  }

  predicate OverTable(e: Expr) {
    match e
    case Un(op, a) => op in OPS && OverTable(a)
    case Bin(op, l, r) => op in OPS && OverTable(l) && OverTable(r)
    case Paren(a) => OverTable(a)
    case _ => true
  }

  lemma {:induction false} GroupedStands(e: Expr)
    requires OverTable(e) && Grouped(e)
    ensures Stands(e, TierOf(e))
  {
    match e
    case Un(op, a) =>
      TableRow(op);
      GroupedStands(a);
      TightFirst(op, a);
    case Bin(op, l, r) =>
      var t := Tier(op.name);
      TableRow(op);
      GroupedStands(l);
      GroupedStands(r);
      TightLast(l, op);
      TightFirst(op, r);
      StandsLower(l, TierOf(l), if t == 3 then 4 else t);
      StandsLower(r, TierOf(r), if t == 3 then 3 else t + 1);
    case Paren(a) =>
      GroupedStands(a);
      StandsLower(a, TierOf(a), 0);
    case _ =>
  }

  /** The tier of an operand that an operator before it does not take apart. */
  lemma TightFirst(o: Operator, e: Expr)
    requires o in OPS && OverTable(e) && Grouped(e) && HeldBy(o, e)
    ensures TierOf(e) > Tier(o.name) || TierOf(e) == Tier(o.name) >= 3
  {
    TableRow(o);
    if e.Bin? {
      TableRow(e.op);
    }
  }

  /** The tier of an operand that gives way to an operator behind it. */
  lemma TightLast(e: Expr, t: Operator)
    requires t in OPS && t.binary && OverTable(e) && Grouped(e) && ClosedBy(e, t)
    ensures TierOf(e) > Tier(t.name) || TierOf(e) == Tier(t.name) < 3
  {
    TableRow(t);
    if e.Bin? {
      TableRow(e.op);
    }
  }

  /** The parser's own rule of grouping is the grammar. */
  lemma GroupedIsGrammar(e: Expr)
    requires OverTable(e)
    ensures Grouped(e) <==> Stands(e, 0)
  {
    if Grouped(e) {
      GroupedStands(e);
      StandsLower(e, TierOf(e), 0);
    } else if Stands(e, 0) {
      StandsIsGrouped(e, 0);
    }
  }

  /** parse turns every expression of the grammar into its postfix form. */
  lemma GrammarCompiles(e: Expr)
    requires Stands(e, 0)
    ensures Compile(Tokens(e)) == Ok(Postfix(e))
  {
    StandsIsGrouped(e, 0);
    CompilesToPostfix(e);
  }

  /** A tree without parentheses compiles to its postfix form if and only if it is an expression of the grammar. */
  lemma BareTextIsGrammar(e: Expr)
    requires OverTable(e) && WellKinded(e) && Bare(e)
    ensures Compile(Tokens(e)) == Ok(Postfix(e)) <==> Stands(e, 0)
  {
    GroupedIsGrammar(e);
    BareTextMeansGrouped(e);
  }

  predicate Atom(e: Expr) {
    match e
    case Num(_) => true
    case X => true
    case Paren(a) => Stands(a, 0)
    case _ => false
  }

  /** Of two operators between operands the first takes them when it is of a higher tier, or of the same one but ^. */
  lemma FirstGroups(l: Expr, o: Operator, m: Expr, p: Operator, r: Expr)
    requires Atom(l) && Atom(m) && Atom(r) && o in OPS && p in OPS && Tier(o.name) < 4 && Tier(p.name) < 4
    requires Tier(o.name) > Tier(p.name) || Tier(o.name) == Tier(p.name) < 3
    ensures Compile(Tokens(l) + [TOp(o)] + Tokens(m) + [TOp(p)] + Tokens(r)) ==
            Ok(Postfix(l) + Postfix(m) + [Instruction(o)] + Postfix(r) + [Instruction(p)]) ==
            Ok(Postfix(Bin(p, Bin(o, l, m), r)))
  {
    var d := Bin(o, l, m);
    var e := Bin(p, d, r);
    AtomStands(l);
    AtomStands(m);
    AtomStands(r);
    assert Stands(d, Tier(o.name));
    GrammarCompiles(e);
    assert Tokens(e) == Tokens(d) + [TOp(p)] + Tokens(r);
  }

  lemma AtomStands(e: Expr)
    requires Atom(e)
    ensures forall t: nat :: Stands(e, t)
  {
  }

  /** Otherwise the second does. */
  lemma SecondGroups(l: Expr, o: Operator, m: Expr, p: Operator, r: Expr)
    requires Atom(l) && Atom(m) && Atom(r) && o in OPS && p in OPS && Tier(o.name) < 4 && Tier(p.name) < 4
    requires Tier(o.name) < Tier(p.name) || Tier(o.name) == Tier(p.name) == 3
    ensures Compile(Tokens(l) + [TOp(o)] + Tokens(m) + [TOp(p)] + Tokens(r)) ==
            Ok(Postfix(l) + (Postfix(m) + Postfix(r) + [Instruction(p)]) + [Instruction(o)])
  {
    var e := Bin(o, l, Bin(p, m, r));
    GrammarCompiles(e);
    RegroupTokens(Tokens(l) + [TOp(o)], Tokens(m), [TOp(p)], Tokens(r));
    assert Tokens(e) == Tokens(l) + [TOp(o)] + (Tokens(m) + [TOp(p)] + Tokens(r));
  }

  /** l - m - r is (l - m) - r. */
  lemma MinusGroupsLeft(l: Expr, m: Expr, r: Expr)
    requires Atom(l) && Atom(m) && Atom(r)
    ensures OPS[3].name == "-"
    ensures Compile(Tokens(l) + [TOp(OPS[3])] + Tokens(m) + [TOp(OPS[3])] + Tokens(r)) ==
            Ok(Postfix(l) + Postfix(m) + [OBinary(Sub)] + Postfix(r) + [OBinary(Sub)])
  {
    var minus := Operator("-", true, false, 100, Sub);
    assert OPS[3] == minus;
    FirstGroups(l, minus, m, minus, r);
  }

  /** l ^ m ^ r is l ^ (m ^ r). */
  lemma PowerGroupsRight(l: Expr, m: Expr, r: Expr)
    requires Atom(l) && Atom(m) && Atom(r)
    ensures OPS[7].name == "^"
    ensures Compile(Tokens(l) + [TOp(OPS[7])] + Tokens(m) + [TOp(OPS[7])] + Tokens(r)) ==
            Ok(Postfix(l) + (Postfix(m) + Postfix(r) + [OBinary(Pot)]) + [OBinary(Pot)])
  {
    var power := Operator("^", true, true, 300, Pot);
    assert OPS[7] == power;
    SecondGroups(l, power, m, power, r);
  }

  /** The meaning of - is subtraction. */
  ghost predicate Subtracts(f: Meaning) {
    forall a, b :: f.binary(Sub, a, b) == a - b
  }

  /** The text l - m - r compiles to code that takes the values of m and r from that of l. */
  lemma MinusSubtracts(l: Expr, m: Expr, r: Expr, f: Meaning, x: real)
    requires Atom(l) && Atom(m) && Atom(r) && Subtracts(f)
    ensures var code := Compile(Tokens(l) + [TOp(OPS[3])] + Tokens(m) + [TOp(OPS[3])] + Tokens(r));
            code.Ok? && ApplyAll([], code.value, f, x) == [Eval(l, f, x) - Eval(m, f, x) - Eval(r, f, x)]
  {
    var minus := Operator("-", true, false, 100, Sub);
    assert OPS[3] == minus;
    AtomIsWellKinded(l);
    AtomIsWellKinded(m);
    AtomIsWellKinded(r);
    FirstGroups(l, minus, m, minus, r);
    DifferenceValue(minus, l, m, r, f, x);
  }

  lemma DifferenceValue(op: Operator, l: Expr, m: Expr, r: Expr, f: Meaning, x: real)
    requires op.binary && op.f == Sub && WellKinded(l) && WellKinded(m) && WellKinded(r) && Subtracts(f)
    ensures ApplyAll([], Postfix(Bin(op, Bin(op, l, m), r)), f, x) ==
            [Eval(l, f, x) - Eval(m, f, x) - Eval(r, f, x)]
  {
    var d := Bin(op, l, m);
    var e := Bin(op, d, r);
    assert Eval(d, f, x) == Eval(l, f, x) - Eval(m, f, x);
    TreeValue([], e, f, x);
    assert [] + [Eval(e, f, x)] == [Eval(e, f, x)];
  }

  lemma AtomIsWellKinded(e: Expr)
    requires Atom(e)
    ensures WellKinded(e)
  {
    StandsIsWellKinded(e);
  }

  lemma {:induction false} StandsIsWellKinded(e: Expr)
    requires Stands(e, 0)
    ensures WellKinded(e)
  {
    StandsIsGrouped(e, 0);
    GroupedIsWellKinded(e);
  }
}
