/**
 The halo-type classifier. Halos are grouped into bins of the primary
 property; within each occupied bin they are rank-ordered by the secondary
 property and the lowest round(n·(1 - F1)) of them become type 0, where n is
 the bin's occupancy and F1 the type-1 fraction at the bin midpoint. Every
 halo starts as type 1.

 The bin of each halo and the type-1 fraction of each bin are inputs. The
 rank order of a bin is an input too: it lists the catalog positions of the
 bin's members in ascending order of the secondary property. Any such order
 is accepted, so ties are broken in no particular way, as with an unstable
 argsort.
 */
module Classifier {
  import opened Numerics
  import opened Destruction

  /** Catalog positions of the halos in bin b. */
  function BinMembers(bins: seq<nat>, b: nat): set<nat>
  {
    set i | 0 <= i < |bins| && bins[i] == b
  }

  /** The positions of bin b's type-0 halos. */
  function Type0Members(t: seq<HaloType>, bins: seq<nat>, b: nat): set<nat>
    requires |t| == |bins|
  {
    set i | 0 <= i < |bins| && bins[i] == b && t[i] == Type0
  }

  /** The elements of a sequence are pairwise distinct. */
  predicate Distinct(xs: seq<nat>)
  {
    forall a, a' :: 0 <= a < a' < |xs| ==> xs[a] != xs[a']
  }

  /** `order` lists every member of bin b exactly once, in ascending order of
      the secondary property: the bin's argsort read as catalog positions. */
  predicate IsRankOrder(order: seq<nat>, bins: seq<nat>, s: seq<real>, b: nat)
    requires |s| == |bins|
  {
    && (forall a :: 0 <= a < |order| ==> order[a] < |bins| && bins[order[a]] == b)
    && Distinct(order)
    && (forall i :: 0 <= i < |bins| && bins[i] == b ==> i in order)
    && (forall a, a' :: 0 <= a < a' < |order| ==> s[order[a]] <= s[order[a']])
  }

  /** The number of type-0 halos in a bin of n halos with type-1 fraction
      f1: `len(sort[0:int(round(n*(1 - f1)))])`. */
  function SplitCount(n: nat, f1: real): (k: nat)
    ensures k <= n
    ensures IsFraction(f1) ==> k == Round(n as real * (1.0 - f1))
  {
    SplitWithinBin(n, f1);
    SliceStop(Round(n as real * (1.0 - f1)), n)
  }

  /** For a genuine fraction the rounded split lies in [0, n]. */
  lemma SplitWithinBin(n: nat, f1: real)
    ensures IsFraction(f1) ==> 0 <= Round(n as real * (1.0 - f1)) <= n
  {
    if IsFraction(f1) {
      assert 0.0 <= n as real * (1.0 - f1) <= n as real * 1.0;
      RoundWithin(n as real * (1.0 - f1), n);
    }
  }

  /** Sets the halos at the first k positions of `order` to type 0. */
  function MarkLowest(t: seq<HaloType>, order: seq<nat>, k: nat): (r: seq<HaloType>)
    requires k <= |order|
    requires forall a :: 0 <= a < |order| ==> order[a] < |t|
    ensures |r| == |t|
    ensures forall i :: 0 <= i < |t| && i in order[..k] ==> r[i] == Type0
    ensures forall i :: 0 <= i < |t| && i !in order[..k] ==> r[i] == t[i]
  {
    if k == 0 then t
    else
      var r := MarkLowest(t, order, k - 1);
      assert order[..k] == order[..k - 1] + [order[k - 1]];
      r[order[k - 1] := Type0]
  }

  /** Processing bin b changes no halo outside bin b. */
  lemma MarkLowestIsLocal(t: seq<HaloType>, bins: seq<nat>, s: seq<real>, order: seq<nat>, b: nat, k: nat)
    requires |t| == |bins| == |s| && k <= |order|
    requires IsRankOrder(order, bins, s, b)
    ensures forall i :: 0 <= i < |t| && bins[i] != b ==> MarkLowest(t, order, k)[i] == t[i]
  {
    forall i | 0 <= i < |t| && bins[i] != b
      ensures MarkLowest(t, order, k)[i] == t[i]
    {
    }
  }

  /** The halos a bin turns into type 0: the first SplitCount entries of its
      rank order. */
  function Lowest(orders: seq<seq<nat>>, f1: seq<real>, b: nat): seq<nat>
    requires |orders| == |f1| && b < |orders|
  {
    orders[b][..SplitCount(|orders[b]|, f1[b])]
  }

  /** `halo_type_calculator`: start every halo at type 1 and, for each
      occupied bin in any order, make the lowest-ranked halos type 0. */
  method HaloTypeCalculator(bins: seq<nat>, s: seq<real>, f1: seq<real>, orders: seq<seq<nat>>)
    returns (t: seq<HaloType>)
    requires |s| == |bins| && |orders| == |f1|
    requires forall i :: 0 <= i < |bins| ==> bins[i] < |f1|
    requires forall b :: 0 <= b < |orders| ==> IsRankOrder(orders[b], bins, s, b)
    ensures |t| == |bins|
    ensures forall i :: 0 <= i < |t| ==> (t[i] == Type0 <==> i in Lowest(orders, f1, bins[i]))
    ensures forall b :: 0 <= b < |f1| ==>
              |Type0Members(t, bins, b)| == SplitCount(|BinMembers(bins, b)|, f1[b])
    ensures forall b :: 0 <= b < |f1| && IsFraction(f1[b]) ==>
              |Type0Members(t, bins, b)| == Round(|BinMembers(bins, b)| as real * (1.0 - f1[b]))
    ensures forall i, j :: 0 <= i < |t| && 0 <= j < |t| && bins[i] == bins[j] && t[i] == Type0 && t[j] == Type1
              ==> s[i] <= s[j]
  {
    t := seq(|bins|, _ => Type1);
    var todo := set i | 0 <= i < |bins| :: bins[i];
    while todo != {}
      invariant |t| == |bins|
      invariant forall b :: b in todo ==> b < |orders|
      invariant forall i :: 0 <= i < |t| ==>
                  (t[i] == Type0 <==> bins[i] !in todo && i in Lowest(orders, f1, bins[i]))
      decreases todo
    {
      var b :| b in todo;
      var order := orders[b];
      var t' := MarkLowest(t, order, SplitCount(|order|, f1[b]));
      MarkLowestIsLocal(t, bins, s, order, b, SplitCount(|order|, f1[b]));
      t := t';
      todo := todo - {b};
    }
    forall b | 0 <= b < |f1|
      ensures |Type0Members(t, bins, b)| == SplitCount(|BinMembers(bins, b)|, f1[b])
    {
      Type0Count(t, bins, s, f1, orders, b);
    }
    forall i, j | 0 <= i < |t| && 0 <= j < |t| && bins[i] == bins[j] && t[i] == Type0 && t[j] == Type1
      ensures s[i] <= s[j]
    {
      Type0BelowType1(t, bins, s, f1, orders, i, j);
    }
  }

  /** The set of elements of a sequence. */
  function Elems(xs: seq<nat>): set<nat>
  {
    set x | x in xs
  }

  /** A sequence of distinct elements has as many elements as its set. */
  lemma {:induction false} DistinctCard(xs: seq<nat>)
    requires Distinct(xs)
    ensures |Elems(xs)| == |xs|
  {
    if |xs| > 0 {
      var init := xs[..|xs| - 1];
      assert Distinct(init);
      DistinctCard(init);
      var last := xs[|xs| - 1];
      assert last !in init;
      assert xs == init + [last];
      assert Elems(xs) == Elems(init) + {last};
    } else {
      assert Elems(xs) == {};
    }
  }

  /** A bin's rank order has one entry per member, so its length is the
      bin's occupancy. */
  lemma RankOrderLength(order: seq<nat>, bins: seq<nat>, s: seq<real>, b: nat)
    requires |s| == |bins| && IsRankOrder(order, bins, s, b)
    ensures |order| == |BinMembers(bins, b)|
  {
    assert Elems(order) == BinMembers(bins, b);
    DistinctCard(order);
  }

  /** Bin b of a classified catalog holds exactly SplitCount type-0 halos. */
  lemma Type0Count(t: seq<HaloType>, bins: seq<nat>, s: seq<real>, f1: seq<real>, orders: seq<seq<nat>>, b: nat)
    requires |s| == |bins| == |t| && |orders| == |f1| && b < |f1|
    requires forall i :: 0 <= i < |bins| ==> bins[i] < |f1|
    requires IsRankOrder(orders[b], bins, s, b)
    requires forall i :: 0 <= i < |t| ==> (t[i] == Type0 <==> i in Lowest(orders, f1, bins[i]))
    ensures |Type0Members(t, bins, b)| == SplitCount(|BinMembers(bins, b)|, f1[b])
  {
    var low := Lowest(orders, f1, b);
    assert Type0Members(t, bins, b) == Elems(low) by {
      forall x | x in low
        ensures x in Type0Members(t, bins, b)
      {
        var a :| 0 <= a < |low| && low[a] == x;
        assert orders[b][a] == x;
      }
    }
    assert Distinct(low);
    DistinctCard(low);
    RankOrderLength(orders[b], bins, s, b);
  }

  /** Within a bin, every type-0 halo's secondary property is at most every
      type-1 halo's. */
  lemma Type0BelowType1(t: seq<HaloType>, bins: seq<nat>, s: seq<real>, f1: seq<real>, orders: seq<seq<nat>>,
                        i: nat, j: nat)
    requires |s| == |bins| == |t| && |orders| == |f1|
    requires forall i :: 0 <= i < |bins| ==> bins[i] < |f1|
    requires forall b :: 0 <= b < |orders| ==> IsRankOrder(orders[b], bins, s, b)
    requires forall i :: 0 <= i < |t| ==> (t[i] == Type0 <==> i in Lowest(orders, f1, bins[i]))
    requires i < |t| && j < |t| && bins[i] == bins[j] && t[i] == Type0 && t[j] == Type1
    ensures s[i] <= s[j]
  {
    var order := orders[bins[i]];
    var k := SplitCount(|order|, f1[bins[i]]);
    var a :| 0 <= a < k && order[a] == i;
    var a' :| 0 <= a' < |order| && order[a'] == j;
  }
}
