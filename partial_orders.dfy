/** The two ways src/types/expr.rs combines partial orders to rank operator
    precedences: `Chain` puts one order wholly above another, `AntiChain`
    puts two orders side by side with nothing comparable across them. A
    partial order is given by its `partial_cmp`, a comparison that may
    answer "incomparable" (`None`). */
module PartialOrders {
  import opened Wrappers

  datatype Ordering = Less | Equal | Greater

  /** `Chain<T, V>`: every `Top` lies above every `Bot`. */
  datatype Chain<T, V> = Top(top: T) | Bot(bot: V)

  /** `AntiChain<L, R>`: a `Left` and a `Right` are never comparable. */
  datatype AntiChain<L, R> = Left(left: L) | Right(right: R)

  type Cmp<!T> = (T, T) -> Option<Ordering>

  function Flip(o: Option<Ordering>): Option<Ordering>
  {
    match o
    case None => None
    case Some(Less) => Some(Greater)
    case Some(Equal) => Some(Equal)
    case Some(Greater) => Some(Less)
  }

  /** `PartialOrd::le`: less or equal, and so false for incomparable values. */
  predicate IsLe(o: Option<Ordering>)
  {
    o == Some(Less) || o == Some(Equal)
  }

  /** `partial_cmp` for `Chain`. */
  function ChainCmp<T, V>(a: Chain<T, V>, b: Chain<T, V>, cmpT: Cmp<T>, cmpV: Cmp<V>): Option<Ordering>
  {
    match (a, b)
    case (Top(_), Bot(_)) => Some(Greater)
    case (Bot(_), Top(_)) => Some(Less)
    case (Top(t1), Top(t2)) => cmpT(t1, t2)
    case (Bot(b1), Bot(b2)) => cmpV(b1, b2)
  }

  /** `partial_cmp` for `AntiChain`. */
  function AntiChainCmp<L, R>(a: AntiChain<L, R>, b: AntiChain<L, R>, cmpL: Cmp<L>, cmpR: Cmp<R>): Option<Ordering>
  {
    match (a, b)
    case (Left(_), Right(_)) => None
    case (Right(_), Left(_)) => None
    case (Left(l1), Left(l2)) => cmpL(l1, l2)
    case (Right(r1), Right(r2)) => cmpR(r1, r2)
  }

  /** A comparison answers for `(y, x)` the flip of its answer for `(x, y)`. */
  ghost predicate Dual<T(!new)>(cmp: Cmp<T>)
  {
    forall x, y :: cmp(x, y) == Flip(cmp(y, x))
  }

  /** `<=` is transitive. */
  ghost predicate LeTransitive<T(!new)>(cmp: Cmp<T>)
  {
    forall x, y, z :: IsLe(cmp(x, y)) && IsLe(cmp(y, z)) ==> IsLe(cmp(x, z))
  }

  lemma ChainDual<T(!new), V(!new)>(cmpT: Cmp<T>, cmpV: Cmp<V>)
    requires Dual(cmpT) && Dual(cmpV)
    ensures forall a: Chain<T, V>, b: Chain<T, V> :: ChainCmp(a, b, cmpT, cmpV) == Flip(ChainCmp(b, a, cmpT, cmpV))
  {
    forall a: Chain<T, V>, b: Chain<T, V>
      ensures ChainCmp(a, b, cmpT, cmpV) == Flip(ChainCmp(b, a, cmpT, cmpV))
    {
      match (a, b)
      case (Top(t1), Top(t2)) => assert cmpT(t1, t2) == Flip(cmpT(t2, t1));
      case (Bot(b1), Bot(b2)) => assert cmpV(b1, b2) == Flip(cmpV(b2, b1));
      case _ =>
    }
  }

  lemma ChainTransitive<T(!new), V(!new)>(cmpT: Cmp<T>, cmpV: Cmp<V>)
    requires LeTransitive(cmpT) && LeTransitive(cmpV)
    ensures forall a: Chain<T, V>, b: Chain<T, V>, c: Chain<T, V> ::
      IsLe(ChainCmp(a, b, cmpT, cmpV)) && IsLe(ChainCmp(b, c, cmpT, cmpV)) ==> IsLe(ChainCmp(a, c, cmpT, cmpV))
  {
    forall a: Chain<T, V>, b: Chain<T, V>, c: Chain<T, V> |
      IsLe(ChainCmp(a, b, cmpT, cmpV)) && IsLe(ChainCmp(b, c, cmpT, cmpV))
      ensures IsLe(ChainCmp(a, c, cmpT, cmpV))
    {
      if a.Top? && b.Top? && c.Top? {
        assert IsLe(cmpT(a.top, b.top)) && IsLe(cmpT(b.top, c.top));
      } else if a.Bot? && b.Bot? && c.Bot? {
        assert IsLe(cmpV(a.bot, b.bot)) && IsLe(cmpV(b.bot, c.bot));
      }
    }
  }

  lemma AntiChainDual<L(!new), R(!new)>(cmpL: Cmp<L>, cmpR: Cmp<R>)
    requires Dual(cmpL) && Dual(cmpR)
    ensures forall a: AntiChain<L, R>, b: AntiChain<L, R> ::
      AntiChainCmp(a, b, cmpL, cmpR) == Flip(AntiChainCmp(b, a, cmpL, cmpR))
  {
    forall a: AntiChain<L, R>, b: AntiChain<L, R>
      ensures AntiChainCmp(a, b, cmpL, cmpR) == Flip(AntiChainCmp(b, a, cmpL, cmpR))
    {
      match (a, b)
      case (Left(l1), Left(l2)) => assert cmpL(l1, l2) == Flip(cmpL(l2, l1));
      case (Right(r1), Right(r2)) => assert cmpR(r1, r2) == Flip(cmpR(r2, r1));
      case _ =>
    }
  }

  lemma AntiChainTransitive<L(!new), R(!new)>(cmpL: Cmp<L>, cmpR: Cmp<R>)
    requires LeTransitive(cmpL) && LeTransitive(cmpR)
    ensures forall a: AntiChain<L, R>, b: AntiChain<L, R>, c: AntiChain<L, R> ::
      IsLe(AntiChainCmp(a, b, cmpL, cmpR)) && IsLe(AntiChainCmp(b, c, cmpL, cmpR)) ==> IsLe(AntiChainCmp(a, c, cmpL, cmpR))
  {
    forall a: AntiChain<L, R>, b: AntiChain<L, R>, c: AntiChain<L, R> |
      IsLe(AntiChainCmp(a, b, cmpL, cmpR)) && IsLe(AntiChainCmp(b, c, cmpL, cmpR))
      ensures IsLe(AntiChainCmp(a, c, cmpL, cmpR))
    {
      if a.Left? && b.Left? && c.Left? {
        assert IsLe(cmpL(a.left, b.left)) && IsLe(cmpL(b.left, c.left));
      } else if a.Right? && b.Right? && c.Right? {
        assert IsLe(cmpR(a.right, b.right)) && IsLe(cmpR(b.right, c.right));
      }
    }
  }

  /** Values of different sides of an antichain are incomparable. */
  lemma AntiChainIncomparable<L, R>(l: L, r: R, cmpL: Cmp<L>, cmpR: Cmp<R>)
    ensures !IsLe(AntiChainCmp(Left(l), Right(r), cmpL, cmpR))
    ensures !IsLe(AntiChainCmp(Right(r), Left(l), cmpL, cmpR))
  {
  }

  // ---------------------------------------------------------------------
  // The precedence order of the formula printer

  /** `u8` and `()` with their usual (total) orders. */
  function NatCmp(a: nat, b: nat): Option<Ordering>
  {
    if a < b then Some(Less) else if a == b then Some(Equal) else Some(Greater)
  }

  function UnitCmp(a: (), b: ()): Option<Ordering>
  {
    Some(Equal)
  }

  /** `ExprPrec = Chain<u8, Chain<AntiChain<(), ()>, u8>>`. */
  type Prec = Chain<nat, Chain<AntiChain<(), ()>, nat>>

  function SideCmp(a: AntiChain<(), ()>, b: AntiChain<(), ()>): Option<Ordering>
  {
    AntiChainCmp(a, b, UnitCmp, UnitCmp)
  }

  function LowCmp(a: Chain<AntiChain<(), ()>, nat>, b: Chain<AntiChain<(), ()>, nat>): Option<Ordering>
  {
    ChainCmp(a, b, SideCmp, NatCmp)
  }

  function PrecCmp(a: Prec, b: Prec): Option<Ordering>
  {
    ChainCmp(a, b, NatCmp, LowCmp)
  }

  /** `prec <= other` between precedences. */
  predicate PrecLe(a: Prec, b: Prec)
  {
    IsLe(PrecCmp(a, b))
  }

  const OUTER_PREC: Prec := Bot(Bot(0))
  const NOT_PREC: Prec := Top(0)
  const AND_PREC: Prec := Bot(Top(Left(())))
  const OR_PREC: Prec := Bot(Top(Right(())))
  const IMPL_PREC: Prec := Bot(Bot(1))
  const IMPL_PREC_L: Prec := Bot(Bot(2))

  /** The precedence order is a partial order: `<=` is reflexive,
      transitive and antisymmetric, and comparisons are dual. */
  lemma PrecIsPartialOrder()
    ensures forall a: Prec :: PrecLe(a, a)
    ensures forall a: Prec, b: Prec, c: Prec :: PrecLe(a, b) && PrecLe(b, c) ==> PrecLe(a, c)
    ensures forall a: Prec, b: Prec :: PrecLe(a, b) && PrecLe(b, a) ==> PrecCmp(a, b) == Some(Equal)
    ensures forall a: Prec, b: Prec :: PrecCmp(a, b) == Flip(PrecCmp(b, a))
  {
    assert Dual(UnitCmp) && LeTransitive(UnitCmp);
    assert Dual(NatCmp);
    AntiChainDual(UnitCmp, UnitCmp);
    AntiChainTransitive(UnitCmp, UnitCmp);
    assert Dual(SideCmp) && LeTransitive(SideCmp);
    ChainDual(SideCmp, NatCmp);
    ChainTransitive(SideCmp, NatCmp);
    assert Dual(LowCmp) && LeTransitive(LowCmp);
    ChainDual(NatCmp, LowCmp);
    ChainTransitive(NatCmp, LowCmp);
    forall a: Prec
      ensures PrecLe(a, a)
    {
      match a
      case Top(_) =>
      case Bot(Top(_)) =>
      case Bot(Bot(_)) =>
    }
    forall a: Prec, b: Prec | PrecLe(a, b) && PrecLe(b, a)
      ensures PrecCmp(a, b) == Some(Equal)
    {
      assert PrecCmp(a, b) == Flip(PrecCmp(b, a));
    }
  }

  /** How the six precedences of the printer are ordered: `NOT` is above
      all the others and `OUTER` is below all of them; `AND` and `OR` are
      incomparable; `IMPL` sits between `OUTER` and `IMPL_L`, all three
      below `AND` and `OR`. */
  lemma PrecTable()
    ensures forall p :: p in {OUTER_PREC, AND_PREC, OR_PREC, IMPL_PREC, IMPL_PREC_L} ==> PrecCmp(p, NOT_PREC) == Some(Less)
    ensures !PrecLe(AND_PREC, OR_PREC) && !PrecLe(OR_PREC, AND_PREC)
    ensures PrecCmp(OUTER_PREC, IMPL_PREC) == Some(Less) && PrecCmp(IMPL_PREC, IMPL_PREC_L) == Some(Less)
    ensures forall p :: p in {OUTER_PREC, IMPL_PREC, IMPL_PREC_L} ==>
      PrecCmp(p, AND_PREC) == Some(Less) && PrecCmp(p, OR_PREC) == Some(Less)
  {
  }
}
