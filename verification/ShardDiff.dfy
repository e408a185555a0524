/** What the walk lists: which blocks, in which order, and how often. */
module ShardDiff {
  import opened Counting
  import opened ShardIds
  import opened ShardWalk

  /** `a` is `b` or an ancestor of `b`. */
  ghost predicate Below(parents: Parents, a: Block, b: Block)
    requires Decreasing(parents)
    decreases b.seqNo
  {
    a == b || exists p :: p in parents(b) && Below(parents, a, p)
  }

  ghost predicate BelowAny(parents: Parents, a: Block, bs: seq<Block>)
    requires Decreasing(parents)
  {
    exists b :: b in bs && Below(parents, a, b)
  }

  lemma {:induction false} BelowIsLower(parents: Parents, a: Block, b: Block)
    requires Decreasing(parents) && Below(parents, a, b)
    ensures a == b || a.seqNo < b.seqNo
    decreases b.seqNo
  {
    if a != b {
      var p :| p in parents(b) && Below(parents, a, p);
      BelowIsLower(parents, a, p);
    }
  }

  lemma {:induction false} BelowTransitive(parents: Parents, a: Block, b: Block, c: Block)
    requires Decreasing(parents) && Below(parents, a, b) && Below(parents, b, c)
    ensures Below(parents, a, c)
    decreases c.seqNo
  {
    if b != c {
      var p :| p in parents(c) && Below(parents, b, p);
      BelowTransitive(parents, a, b, p);
    }
  }

  // -------------------------------------------------------------------- hypotheses on the graph

  ghost predicate DistinctShards(tops: seq<Block>) {
    forall i, j :: 0 <= i < j < |tops| ==> !SameShard(tops[i], tops[j])
  }

  ghost predicate Antichain(parents: Parents, tops: seq<Block>)
    requires Decreasing(parents)
  {
    forall a, b :: a in tops && b in tops && Below(parents, a, b) ==> a == b
  }

  /** Every way down from `b` meets a block of `tops`. */
  ghost predicate Covered(parents: Parents, tops: seq<Block>, b: Block)
    requires Decreasing(parents)
    decreases b.seqNo
  {
    b in tops || (parents(b) != [] && forall p :: p in parents(b) ==> Covered(parents, tops, p))
  }

  /** With one block per shard, the map of last blocks recognises exactly the tops. */
  lemma {:induction false} TopsAreRecognised(prev: seq<Block>, b: Block)
    requires DistinctShards(prev)
    ensures AtTop(LastOf(prev), b) <==> b in prev
    ensures GetShardId(b) in LastOf(prev) ==> exists i :: 0 <= i < |prev| && SameShard(prev[i], b)
    decreases |prev|
  {
    if prev != [] {
      var n := |prev| - 1;
      TopsAreRecognised(prev[..n], b);
      ShardIdIdentifies(prev[n], b);
      assert prev == prev[..n] + [prev[n]];
      if b in prev[..n] {
        var i :| 0 <= i < n && prev[i] == b;
        assert !SameShard(prev[i], prev[n]);
      }
    }
  }

  // ------------------------------------------------------------------------- which blocks

  lemma {:induction false} Origin(parents: Parents, last: LastSeqNos, bs: seq<Block>, a: Block) returns (b: Block)
    requires Decreasing(parents) && a in DiffAll(parents, last, bs)
    ensures b in bs && a in Diff(parents, last, b)
    decreases |bs|
  {
    var n := |bs| - 1;
    if a in Diff(parents, last, bs[n]) {
      b := bs[n];
    } else {
      b := Origin(parents, last, bs[..n], a);
    }
  }

  lemma InDiffAll(parents: Parents, last: LastSeqNos, bs: seq<Block>, a: Block)
    requires Decreasing(parents)
    ensures a in DiffAll(parents, last, bs) <==> exists b :: b in bs && a in Diff(parents, last, b)
  {
    if a in DiffAll(parents, last, bs) {
      var b := Origin(parents, last, bs, a);
    } else if b :| b in bs && a in Diff(parents, last, b) {
      var i :| 0 <= i < |bs| && bs[i] == b;
      DiffAllContains(parents, last, bs, i);
      assert false;
    }
  }

  lemma {:induction false} DiffIsBelow(parents: Parents, tops: seq<Block>, b: Block, a: Block)
    requires Decreasing(parents) && DistinctShards(tops)
    requires a in Diff(parents, LastOf(tops), b)
    ensures Below(parents, a, b) && a !in tops
    ensures Covered(parents, tops, b) ==> Covered(parents, tops, a)
    decreases b.seqNo
  {
    TopsAreRecognised(tops, b);
    if a != b {
      InDiffAll(parents, LastOf(tops), parents(b), a);
      var p :| p in parents(b) && a in Diff(parents, LastOf(tops), p);
      DiffIsBelow(parents, tops, p, a);
    }
  }

  lemma {:induction false} DiffIsComplete(parents: Parents, tops: seq<Block>, b: Block, a: Block)
    requires Decreasing(parents) && DistinctShards(tops)
    requires Below(parents, a, b) && !BelowAny(parents, a, tops)
    ensures a in Diff(parents, LastOf(tops), b)
    decreases b.seqNo
  {
    TopsAreRecognised(tops, b);
    if a != b {
      var p :| p in parents(b) && Below(parents, a, p);
      DiffIsComplete(parents, tops, p, a);
      InDiffAll(parents, LastOf(tops), parents(b), a);
    }
  }

  lemma {:induction false} CoveredReachesTop(parents: Parents, tops: seq<Block>, b: Block) returns (q: Block)
    requires Decreasing(parents) && Covered(parents, tops, b)
    ensures q in tops && Below(parents, q, b)
    decreases b.seqNo
  {
    if b in tops {
      return b;
    }
    var p := parents(b)[0];
    q := CoveredReachesTop(parents, tops, p);
  }

  /** The walk lists exactly the blocks at or below the current tops and not at or below the previous ones. */
  lemma UnseenExactly(parents: Parents, prev: seq<Block>, cur: seq<Block>, a: Block)
    requires Decreasing(parents) && DistinctShards(prev) && Antichain(parents, prev)
    requires forall b :: b in cur ==> Covered(parents, prev, b)
    ensures a in DiffAll(parents, LastOf(prev), cur) <==> BelowAny(parents, a, cur) && !BelowAny(parents, a, prev)
  {
    InDiffAll(parents, LastOf(prev), cur, a);
    if a in DiffAll(parents, LastOf(prev), cur) {
      var b :| b in cur && a in Diff(parents, LastOf(prev), b);
      DiffIsBelow(parents, prev, b, a);
      if BelowAny(parents, a, prev) {
        var t :| t in prev && Below(parents, a, t);
        var q := CoveredReachesTop(parents, prev, a);
        BelowTransitive(parents, q, a, t);
        BelowIsLower(parents, a, t);
        BelowIsLower(parents, q, a);
        assert false;
      }
    } else if BelowAny(parents, a, cur) && !BelowAny(parents, a, prev) {
      var b :| b in cur && Below(parents, a, b);
      DiffIsComplete(parents, prev, b, a);
      assert false;
    }
  }

  // ------------------------------------------------------------------------- in which order

  /** Every unseen parent of a listed block is listed before it. */
  ghost predicate ParentsFirst(parents: Parents, last: LastSeqNos, list: seq<Block>) {
    forall i, p :: 0 <= i < |list| && p in parents(list[i]) && !AtTop(last, p) ==> p in list[..i]
  }

  lemma ParentsFirstConcat(parents: Parents, last: LastSeqNos, a: seq<Block>, b: seq<Block>)
    requires ParentsFirst(parents, last, a) && ParentsFirst(parents, last, b)
    ensures ParentsFirst(parents, last, a + b)
  {
    forall i, p | 0 <= i < |a + b| && p in parents((a + b)[i]) && !AtTop(last, p)
      ensures p in (a + b)[..i]
    {
      if i < |a| {
        assert (a + b)[..i] == a[..i];
      } else {
        assert p in b[..i - |a|];
        assert (a + b)[..i] == a + b[..i - |a|];
      }
    }
  }

  lemma {:induction false} DiffOrder(parents: Parents, last: LastSeqNos, b: Block)
    requires Decreasing(parents)
    ensures ParentsFirst(parents, last, Diff(parents, last, b))
    decreases b.seqNo, |parents(b)| + 1
  {
    if !AtTop(last, b) {
      HeightIsLeast(parents(b), b.seqNo);
      DiffAllOrder(parents, last, parents(b));
      var above := DiffAll(parents, last, parents(b));
      forall i, p | 0 <= i < |above + [b]| && p in parents((above + [b])[i]) && !AtTop(last, p)
        ensures p in (above + [b])[..i]
      {
        if i < |above| {
          assert (above + [b])[..i] == above[..i];
        } else {
          assert (above + [b])[..i] == above;
          assert p in Diff(parents, last, p);
          InDiffAll(parents, last, parents(b), p);
        }
      }
    }
  }

  lemma {:induction false} DiffAllOrder(parents: Parents, last: LastSeqNos, bs: seq<Block>)
    requires Decreasing(parents)
    ensures ParentsFirst(parents, last, DiffAll(parents, last, bs))
    decreases Height(bs), |bs|
  {
    if bs != [] {
      var n := |bs| - 1;
      HeightIsLeast(bs[..n], Height(bs));
      DiffAllOrder(parents, last, bs[..n]);
      DiffOrder(parents, last, bs[n]);
      ParentsFirstConcat(parents, last, DiffAll(parents, last, bs[..n]), Diff(parents, last, bs[n]));
    }
  }

  // ---------------------------------------------------------------------------- how often

  /** How many parent links of the listed blocks lead to `x`. */
  ghost function Links(parents: Parents, list: seq<Block>, x: Block): nat {
    if list == [] then 0 else Links(parents, list[..|list| - 1], x) + Count(parents(list[|list| - 1]), x)
  }

  lemma {:induction false} LinksConcat(parents: Parents, a: seq<Block>, b: seq<Block>, x: Block)
    ensures Links(parents, a + b, x) == Links(parents, a, x) + Links(parents, b, x)
    decreases |b|
  {
    if b == [] {
      assert a + b == a;
    } else {
      assert (a + b)[..|a + b| - 1] == a + b[..|b| - 1];
      LinksConcat(parents, a, b[..|b| - 1], x);
    }
  }

  lemma {:induction false} FlowDiff(parents: Parents, last: LastSeqNos, b: Block, x: Block)
    requires Decreasing(parents)
    ensures Count(Diff(parents, last, b), x)
         == if AtTop(last, x) then 0 else (if b == x then 1 else 0) + Links(parents, Diff(parents, last, b), x)
    decreases b.seqNo, |parents(b)| + 1
  {
    if !AtTop(last, b) {
      HeightIsLeast(parents(b), b.seqNo);
      FlowDiffAll(parents, last, parents(b), x);
      var above := DiffAll(parents, last, parents(b));
      assert (above + [b])[..|above|] == above;
    }
  }

  lemma {:induction false} FlowDiffAll(parents: Parents, last: LastSeqNos, bs: seq<Block>, x: Block)
    requires Decreasing(parents)
    ensures Count(DiffAll(parents, last, bs), x)
         == if AtTop(last, x) then 0 else Count(bs, x) + Links(parents, DiffAll(parents, last, bs), x)
    decreases Height(bs), |bs|
  {
    if bs != [] {
      var n := |bs| - 1;
      HeightIsLeast(bs[..n], Height(bs));
      FlowDiffAll(parents, last, bs[..n], x);
      FlowDiff(parents, last, bs[n], x);
      var rest, one := DiffAll(parents, last, bs[..n]), Diff(parents, last, bs[n]);
      CountOfBoth(rest, one, x);
      LinksConcat(parents, rest, one, x);
    }
  }

  /**
   Conservation: an unseen block is listed once for every time it is a current top plus once for
   every parent link that leads to it from an occurrence of a listed block; a previous top never is.
   */
  lemma MultiplicityFlow(parents: Parents, prev: seq<Block>, cur: seq<Block>, x: Block)
    requires Decreasing(parents) && DistinctShards(prev)
    ensures var list := DiffAll(parents, LastOf(prev), cur);
            Count(list, x) == if x in prev then 0 else Count(cur, x) + Links(parents, list, x)
  {
    TopsAreRecognised(prev, x);
    FlowDiffAll(parents, LastOf(prev), cur, x);
  }

  // ------------------------------------------------------------------- the ways to a block

  /**
   A way down from one of `bs` to `x` that meets no block of `prev`: its first entry says at which of `bs`
   it starts, each further one at which of the parents it goes on.
   */
  ghost predicate IsWay(parents: Parents, prev: seq<Block>, bs: seq<Block>, way: seq<nat>, x: Block)
    decreases |way|
  {
    && way != [] && way[0] < |bs| && bs[way[0]] !in prev
    && if |way| == 1 then bs[way[0]] == x else IsWay(parents, prev, parents(bs[way[0]]), way[1..], x)
  }

  /** The ways from `bs` to `x`. */
  ghost function Ways(parents: Parents, prev: seq<Block>, bs: seq<Block>, x: Block): set<seq<nat>>
    requires Decreasing(parents)
    decreases Height(bs), |bs|
  {
    if bs == [] then {}
    else
      var n := |bs| - 1;
      HeightIsLeast(bs[..n], Height(bs));
      Ways(parents, prev, bs[..n], x) + Starting(n, WaysOn(parents, prev, bs[n], x))
  }

  /** What follows the start at `b`: nothing, if that is `x`, or a way from its parents. */
  ghost function WaysOn(parents: Parents, prev: seq<Block>, b: Block, x: Block): set<seq<nat>>
    requires Decreasing(parents)
    decreases b.seqNo, |parents(b)| + 1
  {
    if b in prev then {}
    else
      HeightIsLeast(parents(b), b.seqNo);
      (if b == x then {[]} else {}) + Ways(parents, prev, parents(b), x)
  }

  function Starting(n: nat, rest: set<seq<nat>>): set<seq<nat>> {
    set way | way in rest :: [n] + way
  }

  lemma InStarting(n: nat, rest: set<seq<nat>>, way: seq<nat>)
    ensures way in Starting(n, rest) <==> way != [] && way[0] == n && way[1..] in rest
  {
    assert way != [] && way[0] == n ==> way == [n] + way[1..];
    assert forall w :: w in rest ==> ([n] + w)[1..] == w;
  }

  lemma {:induction false} StartingSize(n: nat, rest: set<seq<nat>>)
    ensures |Starting(n, rest)| == |rest|
    decreases |rest|
  {
    if rest == {} {
      assert Starting(n, rest) == {};
    } else {
      var w :| w in rest;
      StartingSize(n, rest - {w});
      forall way
        ensures way in Starting(n, rest) <==> way in Starting(n, rest - {w}) || way == [n] + w
      {
        InStarting(n, rest, way);
        InStarting(n, rest - {w}, way);
        assert way != [] && way[0] == n && way[1..] == w ==> way == [n] + w;
      }
      InStarting(n, rest - {w}, [n] + w);
      assert Starting(n, rest) == Starting(n, rest - {w}) + {[n] + w};
    }
  }

  lemma {:induction false} WaysExactly(parents: Parents, prev: seq<Block>, bs: seq<Block>, way: seq<nat>, x: Block)
    requires Decreasing(parents)
    ensures way in Ways(parents, prev, bs, x) <==> IsWay(parents, prev, bs, way, x)
    decreases Height(bs), |bs|
  {
    if bs != [] {
      var n := |bs| - 1;
      HeightIsLeast(bs[..n], Height(bs));
      WaysExactly(parents, prev, bs[..n], way, x);
      InStarting(n, WaysOn(parents, prev, bs[n], x), way);
      if way != [] && way[0] == n {
        HeightIsLeast(parents(bs[n]), bs[n].seqNo);
        WaysExactly(parents, prev, parents(bs[n]), way[1..], x);
      }
    }
  }

  lemma {:induction false} CountWays(parents: Parents, prev: seq<Block>, bs: seq<Block>, x: Block)
    requires Decreasing(parents) && DistinctShards(prev)
    ensures Count(DiffAll(parents, LastOf(prev), bs), x) == |Ways(parents, prev, bs, x)|
    decreases Height(bs), |bs|
  {
    if bs != [] {
      var n := |bs| - 1;
      HeightIsLeast(bs[..n], Height(bs));
      CountWays(parents, prev, bs[..n], x);
      CountWaysOn(parents, prev, bs[n], x);
      CountOfBoth(DiffAll(parents, LastOf(prev), bs[..n]), Diff(parents, LastOf(prev), bs[n]), x);
      var on := WaysOn(parents, prev, bs[n], x);
      StartingSize(n, on);
      forall way | way in Ways(parents, prev, bs[..n], x)
        ensures way !in Starting(n, on)
      {
        WaysExactly(parents, prev, bs[..n], way, x);
        InStarting(n, on, way);
      }
    }
  }

  lemma {:induction false} CountWaysOn(parents: Parents, prev: seq<Block>, b: Block, x: Block)
    requires Decreasing(parents) && DistinctShards(prev)
    ensures Count(Diff(parents, LastOf(prev), b), x) == |WaysOn(parents, prev, b, x)|
    decreases b.seqNo, |parents(b)| + 1
  {
    TopsAreRecognised(prev, b);
    if b !in prev {
      HeightIsLeast(parents(b), b.seqNo);
      CountWays(parents, prev, parents(b), x);
      var above := DiffAll(parents, LastOf(prev), parents(b));
      assert (above + [b])[..|above|] == above;
      WaysExactly(parents, prev, parents(b), [], x);
    }
  }

  /** A block is listed as often as there are ways to it from the current tops that meet no previous one. */
  lemma MultiplicityIsWays(parents: Parents, prev: seq<Block>, cur: seq<Block>, x: Block, ways: set<seq<nat>>)
    requires Decreasing(parents) && DistinctShards(prev)
    requires forall way :: way in ways <==> IsWay(parents, prev, cur, way, x)
    ensures Count(DiffAll(parents, LastOf(prev), cur), x) == |ways|
  {
    forall way
      ensures way in ways <==> way in Ways(parents, prev, cur, x)
    {
      WaysExactly(parents, prev, cur, way, x);
    }
    assert ways == Ways(parents, prev, cur, x);
    CountWays(parents, prev, cur, x);
  }

  /** Without any further hypothesis: listed is what some way reaches without meeting a previous top. */
  lemma ListedExactly(parents: Parents, prev: seq<Block>, cur: seq<Block>, x: Block)
    requires Decreasing(parents) && DistinctShards(prev)
    ensures x in DiffAll(parents, LastOf(prev), cur) <==> exists way :: IsWay(parents, prev, cur, way, x)
  {
    CountMember(DiffAll(parents, LastOf(prev), cur), x);
    CountWays(parents, prev, cur, x);
    var ways := Ways(parents, prev, cur, x);
    if ways != {} {
      var way :| way in ways;
      WaysExactly(parents, prev, cur, way, x);
    } else {
      forall way
        ensures !IsWay(parents, prev, cur, way, x)
      {
        WaysExactly(parents, prev, cur, way, x);
      }
    }
  }

  // --------------------------------------------------------------- exactly when nothing repeats

  ghost predicate NoRepeats(list: seq<Block>) {
    forall x :: Count(list, x) <= 1
  }

  lemma ManyHasTwo<T>(s: set<T>) returns (a: T, b: T)
    requires |s| > 1
    ensures a in s && b in s && a != b
  {
    a :| a in s;
    assert |s - {a}| > 0;
    b :| b in s - {a};
  }

  lemma TwoIsMany<T>(s: set<T>, a: T, b: T)
    requires a in s && b in s && a != b
    ensures |s| > 1
  {
    assert |s - {a}| == |s| - 1 && b in s - {a};
  }

  /** The list has no repeats if and only if no block is reached in two ways from the current tops. */
  lemma NoRepeatsIffOneWay(parents: Parents, prev: seq<Block>, cur: seq<Block>)
    requires Decreasing(parents) && DistinctShards(prev)
    ensures NoRepeats(DiffAll(parents, LastOf(prev), cur))
       <==> forall x, v, w :: IsWay(parents, prev, cur, v, x) && IsWay(parents, prev, cur, w, x) ==> v == w
  {
    if NoRepeats(DiffAll(parents, LastOf(prev), cur)) {
      forall x, v, w | IsWay(parents, prev, cur, v, x) && IsWay(parents, prev, cur, w, x)
        ensures v == w
      {
        WaysExactly(parents, prev, cur, v, x);
        WaysExactly(parents, prev, cur, w, x);
        CountWays(parents, prev, cur, x);
        if v != w { TwoIsMany(Ways(parents, prev, cur, x), v, w); }
      }
    } else {
      var x :| Count(DiffAll(parents, LastOf(prev), cur), x) > 1;
      CountWays(parents, prev, cur, x);
      var v, w := ManyHasTwo(Ways(parents, prev, cur, x));
      WaysExactly(parents, prev, cur, v, x);
      WaysExactly(parents, prev, cur, w, x);
    }
  }

  /** A block the walk is there to list. */
  ghost predicate Unseen(parents: Parents, prev: seq<Block>, cur: seq<Block>, c: Block)
    requires Decreasing(parents)
  {
    BelowAny(parents, c, cur) && !BelowAny(parents, c, prev)
  }

  /** Each unseen block is reached in one way only: as one current top, or from one unseen child by one link. */
  ghost predicate SingleEntry(parents: Parents, prev: seq<Block>, cur: seq<Block>)
    requires Decreasing(parents)
  {
    forall x :: x !in prev ==>
      && Count(cur, x) <= 1
      && (forall c :: Unseen(parents, prev, cur, c) && x in parents(c) ==> x !in cur && Count(parents(c), x) == 1)
      && (forall c, d :: Unseen(parents, prev, cur, c) && Unseen(parents, prev, cur, d) && x in parents(c) && x in parents(d) ==> c == d)
  }

  /** The same on the blocks of a list. */
  ghost predicate SingleEntryIn(parents: Parents, prev: seq<Block>, cur: seq<Block>, list: seq<Block>) {
    forall x :: x !in prev ==>
      && Count(cur, x) <= 1
      && (forall c :: c in list && x in parents(c) ==> x !in cur && Count(parents(c), x) == 1)
      && (forall c, d :: c in list && d in list && x in parents(c) && x in parents(d) ==> c == d)
  }

  lemma {:induction false} LinksAtLeast(parents: Parents, list: seq<Block>, c: Block, x: Block)
    requires c in list
    ensures Links(parents, list, x) >= Count(parents(c), x)
    decreases |list|
  {
    var n := |list| - 1;
    assert list == list[..n] + [list[n]];
    if list[n] != c { LinksAtLeast(parents, list[..n], c, x); }
  }

  lemma {:induction false} LinksOfTwo(parents: Parents, list: seq<Block>, c: Block, d: Block, x: Block)
    requires c in list && d in list && c != d
    ensures Links(parents, list, x) >= Count(parents(c), x) + Count(parents(d), x)
    decreases |list|
  {
    var n := |list| - 1;
    assert list == list[..n] + [list[n]];
    if list[n] == c {
      LinksAtLeast(parents, list[..n], d, x);
    } else if list[n] == d {
      LinksAtLeast(parents, list[..n], c, x);
    } else {
      LinksOfTwo(parents, list[..n], c, d, x);
    }
  }

  lemma {:induction false} LinksFromNone(parents: Parents, list: seq<Block>, x: Block)
    requires forall c :: c in list ==> x !in parents(c)
    ensures Links(parents, list, x) == 0
    decreases |list|
  {
    if list != [] {
      LinksFromNone(parents, list[..|list| - 1], x);
      CountMember(parents(list[|list| - 1]), x);
    }
  }

  lemma {:induction false} LinksFromOne(parents: Parents, list: seq<Block>, c: Block, x: Block)
    requires Count(parents(c), x) == 1
    requires forall d :: d in list && x in parents(d) ==> d == c
    ensures Links(parents, list, x) == Count(list, c)
    decreases |list|
  {
    if list != [] {
      LinksFromOne(parents, list[..|list| - 1], c, x);
      CountMember(parents(list[|list| - 1]), x);
    }
  }

  /** Under single entry the bound of a child carries over to its parents. */
  lemma {:induction false} SingleEntryBound(parents: Parents, prev: seq<Block>, cur: seq<Block>, x: Block, top: nat)
    requires Decreasing(parents) && DistinctShards(prev)
    requires SingleEntryIn(parents, prev, cur, DiffAll(parents, LastOf(prev), cur))
    requires forall b :: b in DiffAll(parents, LastOf(prev), cur) ==> b.seqNo <= top
    ensures Count(DiffAll(parents, LastOf(prev), cur), x) <= 1
    decreases top - x.seqNo
  {
    var list := DiffAll(parents, LastOf(prev), cur);
    MultiplicityFlow(parents, prev, cur, x);
    if x !in prev {
      CountMember(cur, x);
      if c :| c in list && x in parents(c) {
        LinksFromOne(parents, list, c, x);
        SingleEntryBound(parents, prev, cur, c, top);
      } else {
        LinksFromNone(parents, list, x);
      }
    }
  }

  lemma NoRepeatsGivesSingleEntry(parents: Parents, prev: seq<Block>, cur: seq<Block>)
    requires Decreasing(parents) && DistinctShards(prev)
    requires NoRepeats(DiffAll(parents, LastOf(prev), cur))
    ensures SingleEntryIn(parents, prev, cur, DiffAll(parents, LastOf(prev), cur))
  {
    var list := DiffAll(parents, LastOf(prev), cur);
    forall x | x !in prev
      ensures Count(cur, x) <= 1
      ensures forall c :: c in list && x in parents(c) ==> x !in cur && Count(parents(c), x) == 1
      ensures forall c, d :: c in list && d in list && x in parents(c) && x in parents(d) ==> c == d
    {
      MultiplicityFlow(parents, prev, cur, x);
      CountMember(cur, x);
      forall c | c in list && x in parents(c)
        ensures x !in cur && Count(parents(c), x) == 1
        ensures forall d :: d in list && x in parents(d) ==> c == d
      {
        CountMember(parents(c), x);
        LinksAtLeast(parents, list, c, x);
        forall d | d in list && x in parents(d)
          ensures c == d
        {
          CountMember(parents(d), x);
          if c != d { LinksOfTwo(parents, list, c, d, x); }
        }
      }
    }
  }

  /** The list has no repeats if and only if every unseen block is reached from one place only. */
  lemma NoRepeatsExactly(parents: Parents, prev: seq<Block>, cur: seq<Block>)
    requires Decreasing(parents) && DistinctShards(prev) && Antichain(parents, prev)
    requires forall b :: b in cur ==> Covered(parents, prev, b)
    ensures NoRepeats(DiffAll(parents, LastOf(prev), cur)) <==> SingleEntry(parents, prev, cur)
  {
    var list := DiffAll(parents, LastOf(prev), cur);
    forall c
      ensures c in list <==> Unseen(parents, prev, cur, c)
    {
      UnseenExactly(parents, prev, cur, c);
    }
    assert SingleEntry(parents, prev, cur) <==> SingleEntryIn(parents, prev, cur, list);
    if NoRepeats(list) {
      NoRepeatsGivesSingleEntry(parents, prev, cur);
    } else if SingleEntryIn(parents, prev, cur, list) {
      var x :| Count(list, x) > 1;
      SingleEntryBound(parents, prev, cur, x, Height(list));
      assert false;
    }
  }

  const ROOT := Block(0, 0x8000, 1)
  const PARENT := Block(0, 0x8000, 2)
  const LEFT := Block(0, 0x4000, 3)
  const RIGHT := Block(0, 0xC000, 3)
  const MERGED := Block(0, 0x8000, 4)

  lemma DiffOfTwo(parents: Parents, last: LastSeqNos, a: Block, b: Block)
    requires Decreasing(parents)
    ensures DiffAll(parents, last, [a]) == Diff(parents, last, a)
    ensures DiffAll(parents, last, [a, b]) == Diff(parents, last, a) + Diff(parents, last, b)
  {
    assert [a][..0] == [] && [a, b][..1] == [a];
    assert DiffAll(parents, last, []) == [];
  }

  /** A block with one unseen parent that follows a top. */
  lemma DiffOfSecond(parents: Parents, b: Block)
    requires Decreasing(parents) && parents(b) == [PARENT] && parents(PARENT) == [ROOT] && b != ROOT
    ensures Diff(parents, LastOf([ROOT]), b) == [PARENT, b]
  {
    var last := LastOf([ROOT]);
    TopsAreRecognised([ROOT], ROOT);
    TopsAreRecognised([ROOT], PARENT);
    TopsAreRecognised([ROOT], b);
    DiffOfTwo(parents, last, ROOT, ROOT);
    assert Diff(parents, last, PARENT) == [PARENT];
    DiffOfTwo(parents, last, PARENT, PARENT);
  }

  /** A shard that splits right after an unseen block: the block is listed twice. */
  lemma SplitRepeatsItsParent(parents: Parents)
    requires Decreasing(parents)
    requires parents(LEFT) == [PARENT] && parents(RIGHT) == [PARENT] && parents(PARENT) == [ROOT]
    ensures DiffAll(parents, LastOf([ROOT]), [LEFT, RIGHT]) == [PARENT, LEFT, PARENT, RIGHT]
  {
    DiffOfSecond(parents, LEFT);
    DiffOfSecond(parents, RIGHT);
    DiffOfTwo(parents, LastOf([ROOT]), LEFT, RIGHT);
  }

  /** The same when its halves have merged again, so that there is one current shard. */
  lemma MergeRepeatsToo(parents: Parents)
    requires Decreasing(parents) && parents(MERGED) == [LEFT, RIGHT]
    requires parents(LEFT) == [PARENT] && parents(RIGHT) == [PARENT] && parents(PARENT) == [ROOT]
    ensures DiffAll(parents, LastOf([ROOT]), [MERGED]) == [PARENT, LEFT, PARENT, RIGHT, MERGED]
  {
    SplitRepeatsItsParent(parents);
    TopsAreRecognised([ROOT], MERGED);
    DiffOfTwo(parents, LastOf([ROOT]), MERGED, MERGED);
  }
}
