/** Symbolic formulas over package versions (src/types/expr.rs): the atoms
    `Ver(p) = v`, `Ver(p) ≤ v`, `Ver(p) ≥ v`, the connectives, their
    meaning under an assignment of versions to packages, and the
    precedence-aware printer. */
module Formulas {
  import opened Types
  import opened Strings
  import opened PartialOrders

  datatype AtomicExpr =
    | VerEq(pid: PackageId, version: Version)
    | VerLE(pid: PackageId, version: Version)
    | VerGE(pid: PackageId, version: Version)

  /** The arena references of the source become plain subterms. */
  datatype Expr =
    | Atom(atom: AtomicExpr)
    | Not(inner: Expr)
    | And(left: Expr, right: Expr)
    | Or(left: Expr, right: Expr)
    | Implies(left: Expr, right: Expr)
    | Bot
    | Top

  /** The version chosen for each package; the solver's integers may be
      negative. */
  type Assignment = PackageId -> int

  predicate EvalAtom(asg: Assignment, a: AtomicExpr)
  {
    match a
    case VerEq(p, v) => asg(p) == v
    case VerLE(p, v) => asg(p) <= v
    case VerGE(p, v) => asg(p) >= v
  }

  /** The meaning of a formula: `Bot` is false and `Top` is true. */
  predicate Eval(asg: Assignment, e: Expr)
  {
    match e
    case Atom(a) => EvalAtom(asg, a)
    case Not(x) => !Eval(asg, x)
    case And(l, r) => Eval(asg, l) && Eval(asg, r)
    case Or(l, r) => Eval(asg, l) || Eval(asg, r)
    case Implies(l, r) => Eval(asg, l) ==> Eval(asg, r)
    case Bot => false
    case Top => true
  }

  /** `Expr::not`: cancels a negation instead of stacking a second one. */
  function NotE(e: Expr): (r: Expr)
    ensures e.Not? ==> r == e.inner
    ensures !e.Not? ==> r == Not(e)
  {
    match e
    case Not(x) => x
    case _ => Not(e)
  }

  /** `Expr::not` negates. */
  lemma NotENegates(asg: Assignment, e: Expr)
    ensures Eval(asg, NotE(e)) <==> !Eval(asg, e)
  {
  }

  // ---------------------------------------------------------------------
  // Printing

  function RelationText(a: AtomicExpr): string
  {
    match a
    case VerEq(_, _) => " = "
    case VerLE(_, _) => " ≤ "
    case VerGE(_, _) => " ≥ "
  }

  /** `Display for AtomicExpr`: `Ver(p) = v`, `Ver(p) ≤ v` or `Ver(p) ≥ v`. */
  function AtomToString(a: AtomicExpr): string
  {
    "Ver(" + NatToString(a.pid) + ")" + RelationText(a) + NatToString(a.version)
  }

  /** A connective whose own precedence is `op` is parenthesised in the
      context `prec` unless `prec <= op`. */
  predicate NeedsParens(prec: Prec, op: Prec)
  {
    !PrecLe(prec, op)
  }

  function Wrap(paren: bool, s: string): string
  {
    if paren then "(" + s + ")" else s
  }

  /** `fmt_prec`: operands of `∧` and `∨` print in their connective's
      context, the right operand of `→` in `IMPL` and its left one in
      `IMPL_L`, the operand of `¬` in `NOT`. The constants print as the
      source writes them: `Bot` as "⊤" and `Top` as "⊥". */
  function FmtPrec(e: Expr, prec: Prec): string
  {
    match e
    case Atom(a) => AtomToString(a)
    case Not(x) => "¬" + FmtPrec(x, NOT_PREC)
    case And(l, r) => Wrap(NeedsParens(prec, AND_PREC), FmtPrec(l, AND_PREC) + " ∧ " + FmtPrec(r, AND_PREC))
    case Or(l, r) => Wrap(NeedsParens(prec, OR_PREC), FmtPrec(l, OR_PREC) + " ∨ " + FmtPrec(r, OR_PREC))
    case Implies(l, r) => Wrap(NeedsParens(prec, IMPL_PREC), FmtPrec(l, IMPL_PREC_L) + " → " + FmtPrec(r, IMPL_PREC))
    case Bot => "⊤"
    case Top => "⊥"
  }

  /** `Display for Expr`: printing starts in the default context `OUTER`. */
  function Show(e: Expr): string
  {
    FmtPrec(e, OUTER_PREC)
  }

  /** Where the printer puts parentheses, over the contexts it uses: `∧`
      and `∨` never mix bare, `→` groups to the right, anything compound
      under `¬` is parenthesised, and nothing is at the top. */
  lemma ParensTable()
    ensures forall p :: p in {OUTER_PREC, NOT_PREC, AND_PREC, OR_PREC, IMPL_PREC, IMPL_PREC_L} ==>
      (NeedsParens(p, AND_PREC) <==> p == NOT_PREC || p == OR_PREC)
    ensures forall p :: p in {OUTER_PREC, NOT_PREC, AND_PREC, OR_PREC, IMPL_PREC, IMPL_PREC_L} ==>
      (NeedsParens(p, OR_PREC) <==> p == NOT_PREC || p == AND_PREC)
    ensures forall p :: p in {OUTER_PREC, NOT_PREC, AND_PREC, OR_PREC, IMPL_PREC, IMPL_PREC_L} ==>
      (NeedsParens(p, IMPL_PREC) <==> p != OUTER_PREC && p != IMPL_PREC)
  {
  }

  /** The operand of `¬` is parenthesised exactly when it is a binary
      connective. */
  lemma NotOperandParens(x: Expr, prec: Prec)
    ensures var s := FmtPrec(Not(x), prec);
      |s| >= 2 && s[0] == '¬' && (s[1] == '(' <==> x.And? || x.Or? || x.Implies?)
  {
    var inner := FmtPrec(x, NOT_PREC);
    assert FmtPrec(Not(x), prec) == "¬" + inner;
    match x
    case Atom(a) =>
      assert inner == "Ver(" + (NatToString(a.pid) + ")" + RelationText(a) + NatToString(a.version));
    case Not(y) =>
    case And(l, r) =>
      assert NeedsParens(NOT_PREC, AND_PREC);
    case Or(l, r) =>
      assert NeedsParens(NOT_PREC, OR_PREC);
    case Implies(l, r) =>
      assert NeedsParens(NOT_PREC, IMPL_PREC);
    case Bot =>
    case Top =>
  }

  /** Removing every parenthesis. */
  function Strip(s: string): (r: string)
    ensures |r| <= |s|
  {
    if s == [] then []
    else (if s[0] == '(' || s[0] == ')' then [] else [s[0]]) + Strip(s[1..])
  }

  lemma {:induction false} StripConcat(a: string, b: string)
    ensures Strip(a + b) == Strip(a) + Strip(b)
  {
    if a == [] {
      assert a + b == b;
    } else {
      assert (a + b)[1..] == a[1..] + b;
      StripConcat(a[1..], b);
    }
  }

  /** The formula with its operators in order and no grouping at all. */
  function Flat(e: Expr): string
  {
    match e
    case Atom(a) => Strip(AtomToString(a))
    case Not(x) => "¬" + Flat(x)
    case And(l, r) => Flat(l) + " ∧ " + Flat(r)
    case Or(l, r) => Flat(l) + " ∨ " + Flat(r)
    case Implies(l, r) => Flat(l) + " → " + Flat(r)
    case Bot => "⊤"
    case Top => "⊥"
  }

  /** The printer only adds grouping: whatever the context, the output
      with its parentheses removed is the flat rendering. */
  lemma {:induction false} FmtPrecOnlyAddsParens(e: Expr, prec: Prec)
    ensures Strip(FmtPrec(e, prec)) == Flat(e)
  {
    match e
    case Atom(_) =>
    case Not(x) =>
      FmtPrecOnlyAddsParens(x, NOT_PREC);
      StripConcat("¬", FmtPrec(x, NOT_PREC));
    case And(l, r) =>
      FmtPrecOnlyAddsParens(l, AND_PREC);
      FmtPrecOnlyAddsParens(r, AND_PREC);
      BinaryFmtStrip(e, prec, AND_PREC, AND_PREC, AND_PREC, " ∧ ");
    case Or(l, r) =>
      FmtPrecOnlyAddsParens(l, OR_PREC);
      FmtPrecOnlyAddsParens(r, OR_PREC);
      BinaryFmtStrip(e, prec, OR_PREC, OR_PREC, OR_PREC, " ∨ ");
    case Implies(l, r) =>
      FmtPrecOnlyAddsParens(l, IMPL_PREC_L);
      FmtPrecOnlyAddsParens(r, IMPL_PREC);
      BinaryFmtStrip(e, prec, IMPL_PREC, IMPL_PREC_L, IMPL_PREC, " → ");
    case Bot =>
    case Top =>
  }

  /** The binary case of `FmtPrecOnlyAddsParens`: `e` is printed in
      context `prec` as its operands in contexts `lp` and `rp` around
      `op`, parenthesised when `op` binds looser than `prec`. */
  lemma BinaryFmtStrip(e: Expr, prec: Prec, own: Prec, lp: Prec, rp: Prec, op: string)
    requires e.And? || e.Or? || e.Implies?
    requires forall i :: 0 <= i < |op| ==> op[i] != '(' && op[i] != ')'
    requires FmtPrec(e, prec) == Wrap(NeedsParens(prec, own), FmtPrec(e.left, lp) + op + FmtPrec(e.right, rp))
    requires Flat(e) == Flat(e.left) + op + Flat(e.right)
    requires Strip(FmtPrec(e.left, lp)) == Flat(e.left) && Strip(FmtPrec(e.right, rp)) == Flat(e.right)
    ensures Strip(FmtPrec(e, prec)) == Flat(e)
  {
    BinaryStrip(FmtPrec(e.left, lp), op, FmtPrec(e.right, rp), NeedsParens(prec, own));
  }

  lemma BinaryStrip(l: string, op: string, r: string, paren: bool)
    requires forall i :: 0 <= i < |op| ==> op[i] != '(' && op[i] != ')'
    ensures Strip(Wrap(paren, l + op + r)) == Strip(l) + op + Strip(r)
  {
    StripConcat(l + op, r);
    StripConcat(l, op);
    StripNone(op);
    if paren {
      StripConcat("(" + (l + op + r), ")");
      StripConcat("(", l + op + r);
    }
  }

  lemma {:induction false} StripNone(s: string)
    requires forall i :: 0 <= i < |s| ==> s[i] != '(' && s[i] != ')'
    ensures Strip(s) == s
  {
    if s != [] {
      StripNone(s[1..]);
    }
  }

  /** Every opening parenthesis the printer writes is closed. */
  lemma {:induction false} FmtPrecBalanced(e: Expr, prec: Prec)
    ensures Count(FmtPrec(e, prec), '(') == Count(FmtPrec(e, prec), ')')
  {
    match e
    case Atom(a) => AtomBalanced(a);
    case Not(x) =>
      FmtPrecBalanced(x, NOT_PREC);
      CountConcat("¬", FmtPrec(x, NOT_PREC), '(');
      CountConcat("¬", FmtPrec(x, NOT_PREC), ')');
    case And(l, r) =>
      FmtPrecBalanced(l, AND_PREC);
      FmtPrecBalanced(r, AND_PREC);
      BinaryBalanced(FmtPrec(l, AND_PREC), " ∧ ", FmtPrec(r, AND_PREC), NeedsParens(prec, AND_PREC));
    case Or(l, r) =>
      FmtPrecBalanced(l, OR_PREC);
      FmtPrecBalanced(r, OR_PREC);
      BinaryBalanced(FmtPrec(l, OR_PREC), " ∨ ", FmtPrec(r, OR_PREC), NeedsParens(prec, OR_PREC));
    case Implies(l, r) =>
      FmtPrecBalanced(l, IMPL_PREC_L);
      FmtPrecBalanced(r, IMPL_PREC);
      BinaryBalanced(FmtPrec(l, IMPL_PREC_L), " → ", FmtPrec(r, IMPL_PREC), NeedsParens(prec, IMPL_PREC));
    case Bot =>
    case Top =>
  }

  lemma BinaryBalanced(l: string, op: string, r: string, paren: bool)
    requires Count(l, '(') == Count(l, ')') && Count(r, '(') == Count(r, ')')
    requires forall i :: 0 <= i < |op| ==> op[i] != '(' && op[i] != ')'
    ensures Count(Wrap(paren, l + op + r), '(') == Count(Wrap(paren, l + op + r), ')')
  {
    CountNoOccurrence(op, '(');
    CountNoOccurrence(op, ')');
    CountConcat(l + op, r, '(');
    CountConcat(l + op, r, ')');
    CountConcat(l, op, '(');
    CountConcat(l, op, ')');
    if paren {
      var s := l + op + r;
      CountConcat("(" + s, ")", '(');
      CountConcat("(" + s, ")", ')');
      CountConcat("(", s, '(');
      CountConcat("(", s, ')');
    }
  }

  lemma AtomBalanced(a: AtomicExpr)
    ensures Count(AtomToString(a), '(') == Count(AtomToString(a), ')')
  {
    AtomCount(a, '(');
    AtomCount(a, ')');
  }

  /** An atom holds one parenthesis of each kind, around the package. */
  lemma AtomCount(a: AtomicExpr, c: char)
    requires c == '(' || c == ')'
    ensures Count(AtomToString(a), c) == 1
  {
    var ps := NatToString(a.pid);
    var vs := NatToString(a.version);
    var rel := RelationText(a);
    var open := if c == '(' then 1 else 0;
    assert "Ver(" == "Ver" + "(";
    CountNoOccurrence("Ver", c);
    CountNoOccurrence(ps, c);
    CountNoOccurrence(rel, c);
    CountNoOccurrence(vs, c);
    CountConcat("Ver", "(", c);
    assert Count("Ver(", c) == open;
    CountConcat("Ver(", ps, c);
    CountConcat("Ver(" + ps, ")", c);
    assert Count("Ver(" + ps + ")", c) == 1;
    CountConcat("Ver(" + ps + ")", rel, c);
    CountConcat("Ver(" + ps + ")" + rel, vs, c);
  }

  /** The atoms of the printer's own test, and one of each other relation. */
  lemma AtomsPrinted()
    ensures AtomToString(VerEq(1, 1)) == "Ver(1) = 1" && AtomToString(VerEq(2, 1)) == "Ver(2) = 1"
    ensures AtomToString(VerLE(3, 12)) == "Ver(3) ≤ 12" && AtomToString(VerGE(3, 0)) == "Ver(3) ≥ 0"
  {
    assert NatToString(1) == "1" && NatToString(2) == "2" && NatToString(3) == "3";
    assert NatToString(0) == "0" && NatToString(12) == "12";
  }

  /** The formulas of the printer's own test, over any two atoms printing as
      `s1` and `s2` (there `Ver(1) = 1` and `Ver(2) = 1`): `∧` under `∨` is
      parenthesised on either side. */
  lemma PrettyPrintingAndUnderOr(a1: AtomicExpr, a2: AtomicExpr)
    ensures var e1, e2, s1, s2 := Atom(a1), Atom(a2), AtomToString(a1), AtomToString(a2);
      && Show(Or(And(e1, e2), e1)) == "(" + (s1 + " ∧ " + s2) + ")" + " ∨ " + s1
      && Show(Or(e1, And(e2, e1))) == s1 + " ∨ " + ("(" + (s2 + " ∧ " + s1) + ")")
  {
    var e1, e2, s1, s2 := Atom(a1), Atom(a2), AtomToString(a1), AtomToString(a2);
    assert NeedsParens(OR_PREC, AND_PREC) && !NeedsParens(OUTER_PREC, OR_PREC);
    assert FmtPrec(e1, AND_PREC) == s1 && FmtPrec(e2, AND_PREC) == s2 && FmtPrec(e1, OR_PREC) == s1;
    assert FmtPrec(And(e1, e2), OR_PREC) == "(" + (s1 + " ∧ " + s2) + ")";
    assert FmtPrec(And(e2, e1), OR_PREC) == "(" + (s2 + " ∧ " + s1) + ")";
  }

  /** `→` under `∨` is parenthesised. */
  lemma PrettyPrintingImpliesUnderOr(a1: AtomicExpr, a2: AtomicExpr)
    ensures var e1, e2, s1, s2 := Atom(a1), Atom(a2), AtomToString(a1), AtomToString(a2);
      Show(Or(Implies(e1, e2), e1)) == "(" + (s1 + " → " + s2) + ")" + " ∨ " + s1
  {
    var e1, e2, s1, s2 := Atom(a1), Atom(a2), AtomToString(a1), AtomToString(a2);
    assert NeedsParens(OR_PREC, IMPL_PREC) && !NeedsParens(OUTER_PREC, OR_PREC);
    assert FmtPrec(e1, IMPL_PREC_L) == s1 && FmtPrec(e2, IMPL_PREC) == s2 && FmtPrec(e1, OR_PREC) == s1;
    assert FmtPrec(Implies(e1, e2), OR_PREC) == "(" + (s1 + " → " + s2) + ")";
  }

  /** Nested `∧` needs no parentheses. */
  lemma PrettyPrintingAndUnderAnd(a1: AtomicExpr, a2: AtomicExpr)
    ensures var e1, e2, s1, s2 := Atom(a1), Atom(a2), AtomToString(a1), AtomToString(a2);
      Show(And(And(e1, e2), e1)) == s1 + " ∧ " + s2 + " ∧ " + s1
  {
    var e1, e2, s1, s2 := Atom(a1), Atom(a2), AtomToString(a1), AtomToString(a2);
    assert !NeedsParens(AND_PREC, AND_PREC) && !NeedsParens(OUTER_PREC, AND_PREC);
    assert FmtPrec(e1, AND_PREC) == s1 && FmtPrec(e2, AND_PREC) == s2;
    assert FmtPrec(And(e1, e2), AND_PREC) == s1 + " ∧ " + s2;
  }

  /** `→` groups to the right: a left operand `→` is parenthesised, a
      right one is not. */
  lemma PrettyPrintingImplies(a1: AtomicExpr, a2: AtomicExpr)
    ensures var e1, e2, s1, s2 := Atom(a1), Atom(a2), AtomToString(a1), AtomToString(a2);
      && Show(Implies(Implies(e1, e2), e1)) == "(" + (s1 + " → " + s2) + ")" + " → " + s1
      && Show(Implies(e1, Implies(e1, e2))) == s1 + " → " + (s1 + " → " + s2)
  {
    var e1, e2, s1, s2 := Atom(a1), Atom(a2), AtomToString(a1), AtomToString(a2);
    assert NeedsParens(IMPL_PREC_L, IMPL_PREC) && !NeedsParens(IMPL_PREC, IMPL_PREC) && !NeedsParens(OUTER_PREC, IMPL_PREC);
    assert FmtPrec(e1, IMPL_PREC_L) == s1 && FmtPrec(e2, IMPL_PREC) == s2 && FmtPrec(e1, IMPL_PREC) == s1;
    assert FmtPrec(Implies(e1, e2), IMPL_PREC_L) == "(" + (s1 + " → " + s2) + ")";
    assert FmtPrec(Implies(e1, e2), IMPL_PREC) == s1 + " → " + s2;
  }

  lemma PrettyPrintingImpliesNested(a1: AtomicExpr, a2: AtomicExpr)
    ensures var e1, e2, s1, s2 := Atom(a1), Atom(a2), AtomToString(a1), AtomToString(a2);
      Show(Implies(Implies(Implies(e1, e2), e1), e2)) ==
        "(" + ("(" + (s1 + " → " + s2) + ")" + " → " + s1) + ")" + " → " + s2
  {
    var e1, e2, s1, s2 := Atom(a1), Atom(a2), AtomToString(a1), AtomToString(a2);
    assert NeedsParens(IMPL_PREC_L, IMPL_PREC) && !NeedsParens(OUTER_PREC, IMPL_PREC);
    assert FmtPrec(e1, IMPL_PREC_L) == s1 && FmtPrec(e2, IMPL_PREC) == s2 && FmtPrec(e1, IMPL_PREC) == s1;
    var inner := "(" + (s1 + " → " + s2) + ")";
    assert FmtPrec(Implies(e1, e2), IMPL_PREC_L) == inner;
    assert FmtPrec(Implies(Implies(e1, e2), e1), IMPL_PREC_L) == "(" + (inner + " → " + s1) + ")";
  }
}
