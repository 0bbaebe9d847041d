/** DistributionInverted, the benchmark's key distribution turned upside
    down: every value v of the wrapped distribution is reflected to
    max - (v - min), with min and max the wrapped distribution's bounds read
    once at construction, in Java's wrapping 64-bit arithmetic.

    The other distributions (Distribution and its subclasses) are not part of
    this model: a distribution that is not an inversion is an opaque `Other`
    with the bounds it reports, and the value its next() or
    inverseCumProb(p) returns is a parameter. The bounds a distribution
    reports are taken to be inverseCumProb(0) and inverseCumProb(1), so an
    inversion reports the reflections of its wrapped distribution's bounds. */
module DistributionInv {
  import opened JavaTypes

  datatype Distribution =
    | Other(id: nat, minValue: Long, maxValue: Long)
    | Inverted(wrapped: Distribution, min: Long, max: Long)

  /** minValue(), inverseCumProb(0): the lowest quantile of the distribution
      that draws, passed out through every inversion. */
  function MinValue(d: Distribution): Long
  {
    Outcome(d, Source(d).minValue)
  }

  /** maxValue(), inverseCumProb(1). */
  function MaxValue(d: Distribution): Long
  {
    Outcome(d, Source(d).maxValue)
  }

  /** Built by the constructor: every inversion holds the bounds of what it
      wraps. */
  predicate Constructed(d: Distribution)
  {
    match d
    case Other(_, _, _) => true
    case Inverted(w, lo, hi) => lo == MinValue(w) && hi == MaxValue(w) && Constructed(w)
  }

  /** The constructor: wrap d, capturing its bounds. */
  function NewInverted(wrapped: Distribution): (d: Distribution)
    ensures d.Inverted? && d.wrapped == wrapped
    ensures d.min == MinValue(wrapped) && d.max == MaxValue(wrapped)
    ensures Constructed(wrapped) ==> Constructed(d)
  {
    Inverted(wrapped, MinValue(wrapped), MaxValue(wrapped))
  }

  /** max - (v - min) with both subtractions wrapping. */
  function Reflect(min: Long, max: Long, v: Long): (r: Long)
    ensures (r - (max + min - v)) % TWO_64 == 0
  {
    var r := Wrap64(max - Wrap64(v - min));
    Wrap64Congruent(r, max + min - v);
    r
  }

  /** The two bounds play the same part: max - (v - min) and min - (v - max)
      are the same long. */
  lemma ReflectSymmetric(min: Long, max: Long, v: Long)
    ensures Reflect(min, max, v) == Reflect(max, min, v)
  {
    var r1, r2 := Reflect(min, max, v), Reflect(max, min, v);
    var k1 := (r1 - (max + min - v)) / TWO_64;
    var k2 := (r2 - (max + min - v)) / TWO_64;
    assert r1 - (max + min - v) == k1 * TWO_64;
    assert r2 - (min + max - v) == k2 * TWO_64;
    assert r1 == r2 + (k1 - k2) * TWO_64;
    Wrap64Shift(r2, k1 - k2);
  }

  /** Reflecting twice about the same bounds gives back v, for every v, the
      wrap-around included. */
  lemma ReflectInvolution(min: Long, max: Long, v: Long)
    ensures Reflect(min, max, Reflect(min, max, v)) == v
  {
    var r := Reflect(min, max, v);
    var rr := Reflect(min, max, r);
    var k1 := (rr - (max + min - r)) / TWO_64;
    var k2 := (r - (max + min - v)) / TWO_64;
    assert rr - (max + min - r) == k1 * TWO_64;
    assert r - (max + min - v) == k2 * TWO_64;
    assert rr == v + (k1 - k2) * TWO_64;
    Wrap64Shift(v, k1 - k2);
  }

  /** Inside the bounds there is no wrap-around: the reflection is
      max + min - v, again inside the bounds, and it swaps the ends. */
  lemma ReflectInRange(min: Long, max: Long, v: Long)
    requires min <= v <= max
    ensures Reflect(min, max, v) == max + min - v
    ensures min <= Reflect(min, max, v) <= max
  {
    Wrap64Congruent(Reflect(min, max, v), max + min - v);
  }

  lemma ReflectEnds(min: Long, max: Long)
    ensures Reflect(min, max, min) == max
    ensures Reflect(min, max, max) == min
  {
    Wrap64Congruent(Reflect(min, max, min), max);
    Wrap64Congruent(Reflect(min, max, max), min);
  }

  /** The innermost distribution that is not an inversion: the one that
      actually draws. */
  function Source(d: Distribution): (s: Distribution)
    ensures s.Other?
  {
    match d
    case Other(_, _, _) => d
    case Inverted(w, _, _) => Source(w)
  }

  /** What d returns when its innermost distribution returns v: next() on a
      draw v, inverseCumProb(p) on the quantile v; each inversion reflects
      the value its wrapped distribution returns. */
  function Outcome(d: Distribution, v: Long): Long
  {
    match d
    case Other(_, _, _) => v
    case Inverted(w, lo, hi) => Reflect(lo, hi, Outcome(w, v))
  }

  /** next() and inverseCumProb(p) of an inversion: the wrapped value, reflected. */
  lemma NextReflects(w: Distribution, v: Long)
    ensures Outcome(NewInverted(w), v) == Reflect(MinValue(w), MaxValue(w), Outcome(w, v))
  {
  }

  /** An inversion reports its wrapped distribution's bounds swapped: its
      minValue() is the wrapped maxValue() and the other way round. */
  lemma InvertedBoundsSwap(w: Distribution)
    ensures MinValue(NewInverted(w)) == MaxValue(w)
    ensures MaxValue(NewInverted(w)) == MinValue(w)
  {
    ReflectEnds(MinValue(w), MaxValue(w));
  }

  /** A value of the wrapped distribution inside its bounds comes out inside
      the same bounds, min as max and max as min. */
  lemma OutcomeInRange(w: Distribution, v: Long)
    requires MinValue(w) <= Outcome(w, v) <= MaxValue(w)
    ensures MinValue(w) <= Outcome(NewInverted(w), v) <= MaxValue(w)
    ensures Outcome(w, v) == MinValue(w) ==> Outcome(NewInverted(w), v) == MaxValue(w)
    ensures Outcome(w, v) == MaxValue(w) ==> Outcome(NewInverted(w), v) == MinValue(w)
  {
    ReflectInRange(MinValue(w), MaxValue(w), Outcome(w, v));
  }

  /** setSeed(seed): an inversion passes the seed on, unchanged, until it
      reaches the distribution that draws; the result names that distribution
      and the seed it receives. */
  function SetSeed(d: Distribution, seed: Long): (r: (Distribution, Long))
    ensures r.0 == Source(d) && r.1 == seed
  {
    match d
    case Other(_, _, _) => (d, seed)
    case Inverted(w, _, _) => SetSeed(w, seed)
  }

  /** invert: an inversion is unwrapped, anything else wrapped. */
  function Invert(d: Distribution): (r: Distribution)
    ensures d.Inverted? ==> r == d.wrapped
    ensures d.Other? ==> r == NewInverted(d)
  {
    if d.Inverted? then d.wrapped else NewInverted(d)
  }

  /** Inverting a constructed distribution gives a constructed one. */
  lemma InvertConstructed(d: Distribution)
    requires Constructed(d)
    ensures Constructed(Invert(d))
  {
  }

  /** Whatever d is, the inverted distribution yields the reflection of what d
      yields. */
  lemma {:induction false} InvertReflects(d: Distribution, v: Long)
    requires Constructed(d)
    ensures Outcome(Invert(d), v) == Reflect(MinValue(d), MaxValue(d), Outcome(d, v))
  {
    if d.Inverted? {
      InvertedBoundsSwap(d.wrapped);
      ReflectInvolution(d.min, d.max, Outcome(d.wrapped, v));
      ReflectSymmetric(d.min, d.max, Outcome(d, v));
    }
  }

  /** invert undoes itself exactly when d is not an inversion of an inversion
      (that one gives the inner distribution back). */
  lemma InvertTwice(d: Distribution)
    requires Constructed(d)
    ensures Invert(Invert(d)) == d <==> !(d.Inverted? && d.wrapped.Inverted?)
  {
    if d.Inverted? && d.wrapped.Inverted? {
      assert Invert(Invert(d)) == d.wrapped.wrapped;
      assert d.wrapped.wrapped < d;
    }
  }

  /** The outcome of a double inversion is the outcome of the original. */
  lemma {:induction false} InvertTwiceOutcome(d: Distribution, v: Long)
    requires Constructed(d)
    ensures Outcome(Invert(Invert(d)), v) == Outcome(d, v)
  {
    InvertConstructed(d);
    InvertReflects(Invert(d), v);
    InvertReflects(d, v);
    InvertBounds(d);
    ReflectSymmetric(MinValue(d), MaxValue(d), Outcome(Invert(d), v));
    ReflectInvolution(MinValue(d), MaxValue(d), Outcome(d, v));
  }

  /** Inverting swaps the reported bounds, whether it wraps or unwraps. */
  lemma {:induction false} InvertBounds(d: Distribution)
    requires Constructed(d)
    ensures MinValue(Invert(d)) == MaxValue(d) && MaxValue(Invert(d)) == MinValue(d)
  {
    if d.Inverted? {
      InvertedBoundsSwap(d.wrapped);
    } else {
      InvertedBoundsSwap(d);
    }
  }
}
