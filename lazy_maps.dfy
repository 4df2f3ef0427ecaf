/**
 * `MapMonoid`: the monoid of values a lazy segment tree folds, together
 * with the maps it applies to ranges of them (`map_id`, `map`,
 * `composite`), and the two maps the crate defines, `MaxAdd` and `MinAdd`.
 */
module LazyMaps {
  import opened MathTraits

  /** A `MapMonoid`: the value monoid `M`, the identity map, applying a map, and composing two maps. */
  datatype MapMonoid<!T, !F> = MapMonoid(M: Monoid<T>, mapId: F, apply: (F, T) -> T, composite: (F, F) -> F)

  /**
   * The laws a lazy segment tree relies on: `M` is a monoid, `map_id` maps
   * every value to itself and is a left identity of `composite`, maps
   * distribute over `op`, and `composite(f, g)` applies `g` first.
   */
  ghost predicate IsLawful<T(!new), F(!new)>(MM: MapMonoid<T, F>)
  {
    IsMonoid(MM.M) &&
    (forall x :: MM.apply(MM.mapId, x) == x) &&
    (forall f :: MM.composite(MM.mapId, f) == f) &&
    (forall f, a, b :: MM.apply(f, MM.M.op(a, b)) == MM.M.op(MM.apply(f, a), MM.apply(f, b))) &&
    (forall f, g, x :: MM.apply(MM.composite(f, g), x) == MM.apply(f, MM.apply(g, x)))
  }

  /**
   * An integer extended by the bounds of its type: `NegInf` stands for
   * `min_value()` (`BoundedBelow`) and `PosInf` for `max_value()`
   * (`BoundedAbove`), which adding a finite amount leaves where they are.
   */
  datatype Ext = NegInf | Fin(v: int) | PosInf

  /** `Maximum::op`. */
  function MaxExt(a: Ext, b: Ext): (c: Ext)
    ensures c == a || c == b
  {
    match (a, b)
    case (NegInf, _) => b
    case (_, NegInf) => a
    case (PosInf, _) => a
    case (_, PosInf) => b
    case (Fin(x), Fin(y)) => if x >= y then a else b
  }

  /** `Minimum::op`. */
  function MinExt(a: Ext, b: Ext): (c: Ext)
    ensures c == a || c == b
  {
    match (a, b)
    case (PosInf, _) => b
    case (_, PosInf) => a
    case (NegInf, _) => a
    case (_, NegInf) => b
    case (Fin(x), Fin(y)) => if x <= y then a else b
  }

  /** `f.clone() + x.clone()`. */
  function AddExt(f: int, x: Ext): (y: Ext)
    ensures y.Fin? <==> x.Fin?
    ensures x.Fin? ==> y.v == f + x.v
  {
    match x
    case Fin(v) => Fin(f + v)
    case _ => x
  }

  /** `MaxAdd`: range add over range maximum; `map` and `composite` add, `map_id` is 0. */
  function MaxAdd(): (MM: MapMonoid<Ext, int>)
    ensures MM.M.id == NegInf && MM.mapId == 0
  {
    MapMonoid(Monoid(NegInf, MaxExt), 0, AddExt, (f: int, g: int) => f + g)
  }

  /** `MinAdd`: range add over range minimum; `map` and `composite` add, `map_id` is 0. */
  function MinAdd(): (MM: MapMonoid<Ext, int>)
    ensures MM.M.id == PosInf && MM.mapId == 0
  {
    MapMonoid(Monoid(PosInf, MinExt), 0, AddExt, (f: int, g: int) => f + g)
  }

  /** `MaxAdd` satisfies the laws. */
  lemma MaxAddLawful()
    ensures IsLawful(MaxAdd())
  {
    var MM := MaxAdd();
    forall a, b, c
      ensures MaxExt(MaxExt(a, b), c) == MaxExt(a, MaxExt(b, c))
    {
    }
    forall f: int, a, b
      ensures AddExt(f, MaxExt(a, b)) == MaxExt(AddExt(f, a), AddExt(f, b))
    {
    }
    forall f: int, g: int, x
      ensures AddExt(f + g, x) == AddExt(f, AddExt(g, x))
    {
    }
    assert IsMonoid(MM.M);
  }

  /** `MinAdd` satisfies the laws. */
  lemma MinAddLawful()
    ensures IsLawful(MinAdd())
  {
    var MM := MinAdd();
    forall a, b, c
      ensures MinExt(MinExt(a, b), c) == MinExt(a, MinExt(b, c))
    {
    }
    forall f: int, a, b
      ensures AddExt(f, MinExt(a, b)) == MinExt(AddExt(f, a), AddExt(f, b))
    {
    }
    forall f: int, g: int, x
      ensures AddExt(f + g, x) == AddExt(f, AddExt(g, x))
    {
    }
    assert IsMonoid(MM.M);
  }
}
