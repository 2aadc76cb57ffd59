/**
 * The hash-based structural embedding, in exact real arithmetic. The hash and
 * the square root are parameters: any fixed hash will do, and the square root
 * only has to be one.
 */
module StructuralEmbedding {
  import opened Options
  import opened Products
  import Sorting

  datatype Features = Features(tags: seq<string>, types: seq<string>, namedGraph: Option<string>)

  type Vector = seq<real>

  ghost predicate IsSquareRoot(sqrt: real -> real) {
    forall x: real :: x >= 0.0 ==> sqrt(x) >= 0.0 && Times(sqrt(x), sqrt(x)) == x
  }

  function SquaredNorm(v: Vector): real {
    if v == [] then 0.0 else SquaredNorm(v[..|v| - 1]) + Times(v[|v| - 1], v[|v| - 1])
  }

  // ----- what each bucket holds -----

  function Bucket(hash: string -> nat, dimension: nat, feature: string): nat
    requires dimension > 0
  {
    hash(feature) % dimension
  }

  /** How many of the features fall into bucket `k`. */
  function Hits(hash: string -> nat, dimension: nat, features: seq<string>, k: nat): nat
    requires dimension > 0
  {
    if features == [] then 0
    else
      Hits(hash, dimension, features[..|features| - 1], k)
      + (if Bucket(hash, dimension, features[|features| - 1]) == k then 1 else 0)
  }

  /** `n` times `weight`. */
  function Share(weight: real, n: nat): real {
    if n == 0 then 0.0 else Share(weight, n - 1) + weight
  }

  function GraphFeature(graph: Option<string>): seq<string> {
    if graph.Some? then [graph.value] else []
  }

  /** The activation of bucket `k` before normalisation. */
  function Activation(hash: string -> nat, dimension: nat, f: Features, k: nat): real
    requires dimension > 0
  {
    (if k == 0 then 0.01 else 0.0)
    + Share(0.15, Hits(hash, dimension, f.tags, k))
    + Share(0.25, Hits(hash, dimension, f.types, k))
    + Share(0.20, Hits(hash, dimension, GraphFeature(f.namedGraph), k))
  }

  function Raw(hash: string -> nat, dimension: nat, f: Features): Vector
    requires dimension > 0
  {
    seq(dimension, k requires 0 <= k < dimension => Activation(hash, dimension, f, k))
  }

  function Scaled(v: Vector, scale: real): Vector {
    seq(|v|, k requires 0 <= k < |v| => Times(v[k], scale))
  }

  const EPSILON := 0.000000000001

  function ScaleFor(norm: real): real
    requires norm >= 0.0
  {
    0.99 / (norm + EPSILON)
  }

  function Embedding(hash: string -> nat, sqrt: real -> real, dimension: nat, f: Features): Vector
    requires dimension > 0
  {
    var raw := Raw(hash, dimension, f);
    var norm := sqrt(SquaredNorm(raw));
    if norm >= 1.0 - EPSILON then Scaled(raw, ScaleFor(norm)) else raw
  }

  // ----- the service -----

  class FallbackStructuralEmbeddingService {
    const dimension: nat
    const hash: string -> nat
    const sqrt: real -> real

    constructor (dimension: nat, hash: string -> nat, sqrt: real -> real)
      ensures this.dimension == dimension && this.hash == hash && this.sqrt == sqrt
    {
      this.dimension, this.hash, this.sqrt := dimension, hash, sqrt;
    }

    /** Adds `weight` to the bucket of every feature. */
    method Accumulate(v: array<real>, features: seq<string>, weight: real)
      requires dimension > 0 && v.Length == dimension
      modifies v
      ensures forall k :: 0 <= k < dimension ==>
        v[k] == old(v[k]) + Share(weight, Hits(hash, dimension, features, k))
    {
      for i := 0 to |features|
        invariant forall k :: 0 <= k < dimension ==>
          v[k] == old(v[k]) + Share(weight, Hits(hash, dimension, features[..i], k))
      {
        assert features[..i + 1][..i] == features[..i];
        var idx := Bucket(hash, dimension, features[i]);
        v[idx] := v[idx] + weight;
      }
      assert features[..|features|] == features;
    }

    /** The activations before normalisation. */
    method Activate(f: Features) returns (v: array<real>)
      requires dimension > 0
      ensures fresh(v) && v[..] == Raw(hash, dimension, f)
    {
      hide Hits, Share;
      v := new real[dimension](_ => 0.0);
      v[0] := 0.01;
      Accumulate(v, f.tags, 0.15);
      Accumulate(v, f.types, 0.25);
      Accumulate(v, GraphFeature(f.namedGraph), 0.20);
    }

    method SumOfSquares(v: array<real>) returns (sum: real)
      ensures sum == SquaredNorm(v[..])
    {
      sum := 0.0;
      for k := 0 to v.Length
        invariant sum == SquaredNorm(v[..k])
      {
        assert v[..k + 1][..k] == v[..k];
        sum := sum + Times(v[k], v[k]);
      }
      assert v[..v.Length] == v[..];
    }

    method Rescale(v: array<real>, scale: real)
      modifies v
      ensures v[..] == Scaled(old(v[..]), scale)
    {
      hide Times;
      for k := 0 to v.Length
        invariant forall j :: 0 <= j < k ==> v[j] == Times(old(v[j]), scale)
        invariant forall j :: k <= j < v.Length ==> v[j] == old(v[j])
      {
        v[k] := Times(v[k], scale);
      }
    }

    method EmbedStructural(f: Features) returns (v: array<real>)
      requires dimension > 0 && IsSquareRoot(sqrt)
      ensures fresh(v) && v[..] == Embedding(hash, sqrt, dimension, f)
    {
      hide Raw, Times, ScaleFor, Scaled;
      v := Activate(f);
      SquaredNormNonNegative(v[..]);
      var sqNorm := SumOfSquares(v);
      var norm := sqrt(sqNorm);
      if norm >= 1.0 - EPSILON {
        Rescale(v, ScaleFor(norm));
      }
    }
  }

  // ----- inside the unit ball -----

  lemma {:induction false} SquaredNormNonNegative(v: Vector)
    ensures SquaredNorm(v) >= 0.0
  {
    hide Times;
    if v != [] {
      SquareNonNegative(v[|v| - 1]);
      SquaredNormNonNegative(v[..|v| - 1]);
    }
  }

  /** Scaling a vector scales its squared norm by the square. */
  lemma {:induction false} ScaledNorm(v: Vector, scale: real)
    ensures SquaredNorm(Scaled(v, scale)) == Times(SquaredNorm(v), Times(scale, scale))
  {
    hide Times;
    TimesDistributes(0.0, 0.0, Times(scale, scale));
    if v != [] {
      var init, last := v[..|v| - 1], v[|v| - 1];
      ScaledNorm(init, scale);
      assert Scaled(v, scale)[..|v| - 1] == Scaled(init, scale);
      SquareOfProduct(last, scale);
      TimesDistributes(SquaredNorm(init), Times(last, last), Times(scale, scale));
    }
  }

  lemma QuotientBelow(norm: real)
    requires norm >= 0.0
    ensures 0.0 <= Times(norm, ScaleFor(norm)) < 1.0
  {
    hide Times;
    var d := norm + EPSILON;
    var q := ScaleFor(norm);
    QuotientTimes(0.99, d);
    assert q == 0.99 / d;
    TimesStrict(q, norm, d);
    TimesAssociative(q, norm, 1.0);
    TimesAssociative(q, d, 1.0);
    assert Times(q, d) == 0.99;
  }

  lemma ScaledSquareBelow(norm: real)
    requires norm >= 0.0
    ensures Times(Times(norm, norm), Times(ScaleFor(norm), ScaleFor(norm))) < 1.0
  {
    hide Times;
    QuotientBelow(norm);
    SquareOfProduct(norm, ScaleFor(norm));
    ProductBelow(Times(norm, ScaleFor(norm)), Times(norm, ScaleFor(norm)));
  }

  /** For all features, every hash and every dimension: the embedding lies strictly inside the unit ball. */
  lemma InsideUnitBall(hash: string -> nat, sqrt: real -> real, dimension: nat, f: Features)
    requires dimension > 0 && IsSquareRoot(sqrt)
    ensures SquaredNorm(Embedding(hash, sqrt, dimension, f)) < 1.0
  {
    hide Times, ScaleFor, SquaredNorm, Raw;
    var raw := Raw(hash, dimension, f);
    SquaredNormNonNegative(raw);
    var norm := sqrt(SquaredNorm(raw));
    if norm >= 1.0 - EPSILON {
      ScaledNorm(raw, ScaleFor(norm));
      ScaledSquareBelow(norm);
    } else {
      ProductBelow(norm, norm);
    }
  }

  // ----- the order of the features does not matter -----

  lemma {:induction false} HitsTake(hash: string -> nat, dimension: nat, features: seq<string>, i: nat, k: nat)
    requires dimension > 0 && i < |features|
    ensures Hits(hash, dimension, features, k)
            == Hits(hash, dimension, features[..i] + features[i + 1..], k)
               + (if Bucket(hash, dimension, features[i]) == k then 1 else 0)
    decreases |features|
  {
    hide Bucket;
    var n := |features| - 1;
    var init, last := features[..n], features[n];
    if i == n {
      assert features[..i] + features[i + 1..] == init;
    } else {
      HitsTake(hash, dimension, init, i, k);
      var rest := init[..i] + init[i + 1..];
      assert features[..i] + features[i + 1..] == rest + [last];
      assert (rest + [last])[..|rest|] == rest;
    }
  }

  lemma {:induction false} HitsRearranged(hash: string -> nat, dimension: nat, x: seq<string>, y: seq<string>, k: nat)
    requires dimension > 0 && multiset(x) == multiset(y)
    ensures Hits(hash, dimension, x, k) == Hits(hash, dimension, y, k)
    decreases |x|
  {
    hide Bucket;
    if x != [] {
      var init, last := x[..|x| - 1], x[|x| - 1];
      assert x == init + [last];
      var i := Sorting.TakeOut(init, last, y);
      HitsTake(hash, dimension, y, i, k);
      HitsRearranged(hash, dimension, init, y[..i] + y[i + 1..], k);
    } else {
      assert |multiset(y)| == |y|;
    }
  }

  /** Rearranging tags or types changes nothing. */
  lemma OrderIrrelevant(hash: string -> nat, sqrt: real -> real, dimension: nat, f: Features, g: Features)
    requires dimension > 0
    requires multiset(f.tags) == multiset(g.tags) && multiset(f.types) == multiset(g.types)
    requires f.namedGraph == g.namedGraph
    ensures Embedding(hash, sqrt, dimension, f) == Embedding(hash, sqrt, dimension, g)
  {
    hide Hits;
    var x, y := Raw(hash, dimension, f), Raw(hash, dimension, g);
    forall k | 0 <= k < dimension
      ensures x[k] == y[k]
    {
      HitsRearranged(hash, dimension, f.tags, g.tags, k);
      HitsRearranged(hash, dimension, f.types, g.types, k);
    }
    assert x == y;
  }

  // ----- what each feature adds -----

  /** Without features there is the base value in the first bucket alone. */
  lemma NoFeatures(hash: string -> nat, dimension: nat, k: nat)
    requires k < dimension
    ensures Raw(hash, dimension, Features([], [], None))[k] == if k == 0 then 0.01 else 0.0
  {
  }

  lemma HitsLast(hash: string -> nat, dimension: nat, features: seq<string>, last: string, k: nat)
    requires dimension > 0
    ensures Hits(hash, dimension, features + [last], k)
            == Hits(hash, dimension, features, k) + (if hash(last) % dimension == k then 1 else 0)
  {
    assert (features + [last])[..|features|] == features;
  }

  /** One more tag, type or graph adds 0.15, 0.25 or 0.20 to its own bucket and nothing to any other. */
  lemma FeatureAdds(hash: string -> nat, dimension: nat, f: Features, feature: string, k: nat)
    requires k < dimension
    ensures Raw(hash, dimension, f.(tags := f.tags + [feature]))[k]
            == Raw(hash, dimension, f)[k] + (if hash(feature) % dimension == k then 0.15 else 0.0)
    ensures Raw(hash, dimension, f.(types := f.types + [feature]))[k]
            == Raw(hash, dimension, f)[k] + (if hash(feature) % dimension == k then 0.25 else 0.0)
    ensures f.namedGraph.None? ==>
      Raw(hash, dimension, f.(namedGraph := Some(feature)))[k]
      == Raw(hash, dimension, f)[k] + (if hash(feature) % dimension == k then 0.20 else 0.0)
  {
    hide Hits;
    HitsLast(hash, dimension, f.tags, feature, k);
    HitsLast(hash, dimension, f.types, feature, k);
    HitsLast(hash, dimension, [], feature, k);
    assert [] + [feature] == [feature];
    NoHits(hash, dimension, k);
  }

  lemma NoHits(hash: string -> nat, dimension: nat, k: nat)
    requires dimension > 0
    ensures Hits(hash, dimension, [], k) == 0
  {
  }

  /** A raw vector well inside the ball stays as it is; any other is shortened in its direction, to just under 0.99. */
  lemma ScaledExactlyWhen(hash: string -> nat, sqrt: real -> real, dimension: nat, f: Features, k: nat)
    requires k < dimension && IsSquareRoot(sqrt)
    ensures var raw, norm := Raw(hash, dimension, f), sqrt(SquaredNorm(Raw(hash, dimension, f)));
            var v := Embedding(hash, sqrt, dimension, f);
            && |v| == dimension
            && (norm < 0.999999999999 ==> v == raw)
            && (norm >= 0.999999999999 ==> Times(v[k], norm + 0.000000000001) == Times(raw[k], 0.99))
  {
    hide Raw, SquaredNorm;
    var raw := Raw(hash, dimension, f);
    RawLength(hash, dimension, f);
    var norm := sqrt(SquaredNorm(raw));
    if norm >= 0.999999999999 {
      hide Times;
      QuotientTimes(0.99, norm + 0.000000000001);
      TimesAssociative(raw[k], ScaleFor(norm), norm + 0.000000000001);
    }
  }

  lemma RawLength(hash: string -> nat, dimension: nat, f: Features)
    requires dimension > 0
    ensures |Raw(hash, dimension, f)| == dimension
  {
  }
}
