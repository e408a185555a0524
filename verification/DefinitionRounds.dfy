/**
 Registering definitions in rounds, seen through their dependencies only: names, what each one
 needs, and the order in which every round meets the names that are left.
 */
module DefinitionRounds {
  import opened Counting

  /** A round at a depth beyond this one is the last. */
  const MAX_DEPTH := 16

  ghost predicate IsOrder<N(!new)>(order: seq<N>, names: set<N>) {
    (forall n :: n in order <==> n in names) && Distinct(order)
  }

  datatype Progress<N> = Progress(have: set<N>, left: set<N>)

  /** One round: a name is registered when everything it needs is registered, else it is put off. */
  ghost function Pass<N(!new)>(have: set<N>, needs: map<N, set<N>>, order: seq<N>): Progress<N>
    requires forall n :: n in order ==> n in needs
  {
    if order == [] then Progress(have, {})
    else
      var n := order[|order| - 1];
      var p := Pass(have, needs, order[..|order| - 1]);
      if needs[n] <= p.have then Progress(p.have + {n}, p.left) else Progress(p.have, p.left + {n})
  }

  function Restrict<N, V>(m: map<N, V>, names: set<N>): map<N, V> {
    map n | n in m && n in names :: m[n]
  }

  /** Of the names `met`, those in `done` are done and the others are kept in `part`. */
  ghost predicate Splits<N(!new), V>(m: map<N, V>, met: seq<N>, part: map<N, V>, done: set<N>) {
    && (forall n :: n in met <==> n in done || n in part)
    && done !! part.Keys && part == Restrict(m, part.Keys)
  }

  lemma SplitsOn<N(!new), V>(m: map<N, V>, met: seq<N>, part: map<N, V>, done: set<N>, n: N)
    requires Splits(m, met, part, done) && n in m && n !in met
    ensures part[n := m[n]].Keys == part.Keys + {n}
    ensures Splits(m, met + [n], part[n := m[n]], done)
    ensures Splits(m, met + [n], part, done + {n})
  {
    assert forall x :: x in met + [n] <==> x in met || x == n;
    assert part[n := m[n]] == Restrict(m, part[n := m[n]].Keys);
  }

  lemma RestrictNone<N, V>(m: map<N, V>, d: map<N, V>)
    ensures m + Restrict(d, {}) == m
  {
  }

  lemma RestrictTwice<N, V>(m: map<N, V>, d: map<N, V>, rest: set<N>, left: set<N>)
    requires left <= rest <= d.Keys
    ensures m + Restrict(d, d.Keys - rest) + Restrict(d, rest) == m + d
    ensures m + Restrict(d, d.Keys - rest) + Restrict(Restrict(d, rest), rest - left) == m + Restrict(d, d.Keys - left)
  {
  }

  /** Rounds follow until nothing is left or the depth is exceeded; `left` remains. */
  ghost predicate Ends<N(!new)>(have: set<N>, needs: map<N, set<N>>, depth: nat, schedule: seq<seq<N>>, left: set<N>)
    decreases |schedule|, 1
  {
    schedule != [] && IsOrder(schedule[0], needs.Keys) && EndsAfter(needs, Pass(have, needs, schedule[0]), depth, schedule[1..], left)
  }

  /** What follows a round that made progress `p`. */
  ghost predicate EndsAfter<N(!new)>(needs: map<N, set<N>>, p: Progress<N>, depth: nat, rest: seq<seq<N>>, left: set<N>)
    decreases |rest|, 2
  {
    if p.left == {} || depth > MAX_DEPTH then left == p.left
    else Ends(p.have, Restrict(needs, p.left), depth + 1, rest, left)
  }

  /** The names that need at most `k` layers of names below them, themselves included. */
  ghost function Layer<N(!new)>(have: set<N>, needs: map<N, set<N>>, k: nat): set<N> {
    if k == 0 then {} else set n | n in needs && needs[n] <= have + Layer(have, needs, k - 1)
  }

  lemma {:induction false} LayersGrow<N(!new)>(have: set<N>, needs: map<N, set<N>>, j: nat, k: nat)
    requires j <= k
    ensures Layer(have, needs, j) <= Layer(have, needs, k) <= needs.Keys
    decreases k
  {
    if j > 0 {
      LayersGrow(have, needs, j - 1, k - 1);
    }
  }

  lemma PassStep<N(!new)>(have: set<N>, needs: map<N, set<N>>, order: seq<N>, n: N)
    requires n in needs && forall m :: m in order ==> m in needs
    ensures forall m :: m in order + [n] ==> m in needs
    ensures var p := Pass(have, needs, order);
            Pass(have, needs, order + [n]) ==
              if needs[n] <= p.have then Progress(p.have + {n}, p.left) else Progress(p.have, p.left + {n})
  {
    assert (order + [n])[..|order|] == order;
  }

  /** What a round registers and what it leaves. */
  lemma {:induction false} PassOutcome<N(!new)>(have: set<N>, needs: map<N, set<N>>, order: seq<N>)
    requires Distinct(order) && forall n :: n in order ==> n in needs
    ensures var p := Pass(have, needs, order);
            && (forall n :: n in p.left ==> n in order && !(needs[n] <= have))
            && (forall n :: n in p.have <==> n in have || (n in order && n !in p.left))
    decreases |order|
  {
    if order != [] {
      var init, n := order[..|order| - 1], order[|order| - 1];
      assert forall m :: m in order <==> m in init || m == n;
      PassOutcome(have, needs, init);
      PassOutcomeStep(have, needs, init, n);
      assert order == init + [n];
    }
  }

  lemma PassOutcomeStep<N(!new)>(have: set<N>, needs: map<N, set<N>>, init: seq<N>, n: N)
    requires n !in init && n in needs && forall m :: m in init ==> m in needs
    requires var p := Pass(have, needs, init);
             && (forall m :: m in p.left ==> m in init)
             && (forall m :: m in p.have <==> m in have || (m in init && m !in p.left))
    ensures forall m :: m in init + [n] ==> m in needs
    ensures var p, q := Pass(have, needs, init), Pass(have, needs, init + [n]);
            && have <= p.have && (needs[n] <= have ==> n !in q.left)
            && (forall m :: m in q.left ==> m in p.left || m == n)
            && (forall m :: m in q.have <==> m in have || ((m in init || m == n) && m !in q.left))
            && (forall m :: m in p.left ==> m in q.left)
  {
    PassStep(have, needs, init, n);
  }

  /** The names a round over `order` registers. */
  ghost function DoneBy<N(!new)>(have: set<N>, needs: map<N, set<N>>, order: seq<N>): set<N>
    requires forall n :: n in order ==> n in needs
  {
    set n | n in order && n !in Pass(have, needs, order).left
  }

  lemma DoneByStep<N(!new)>(have: set<N>, needs: map<N, set<N>>, init: seq<N>, n: N)
    requires Distinct(init) && n !in init && n in needs && forall m :: m in init ==> m in needs
    ensures forall m :: m in init + [n] ==> m in needs
    ensures n !in DoneBy(have, needs, init)
    ensures DoneBy(have, needs, init + [n])
         == if needs[n] <= Pass(have, needs, init).have then DoneBy(have, needs, init) + {n} else DoneBy(have, needs, init)
  {
    PassStep(have, needs, init, n);
    PassOutcome(have, needs, init);
  }

  /** How far a round gets at least. */
  ghost predicate Advances<N(!new)>(have: set<N>, needs: map<N, set<N>>, p: Progress<N>) {
    && p.left <= needs.Keys && p.have == have + (needs.Keys - p.left)
    && (forall n :: n in p.left ==> !(needs[n] <= have))
  }

  lemma AfterPass<N(!new)>(have: set<N>, needs: map<N, set<N>>, order: seq<N>)
    requires IsOrder(order, needs.Keys)
    ensures var p := Pass(have, needs, order);
            Advances(have, needs, p) && Restrict(needs, p.left).Keys == p.left
  {
    PassOutcome(have, needs, order);
    var p := Pass(have, needs, order);
    assert p.have == have + (needs.Keys - p.left);
  }

  // ----------------------------------------------------------------- enough layers in reach

  lemma InLayer<N(!new)>(have: set<N>, needs: map<N, set<N>>, k: nat, n: N)
    ensures n in Layer(have, needs, k + 1) <==> n in needs && needs[n] <= have + Layer(have, needs, k)
  {
  }

  lemma NotInNoLayer<N(!new)>(have: set<N>, needs: map<N, set<N>>, n: N)
    ensures n !in Layer(have, needs, 0)
  {
  }

  lemma InLayerOfOne<N(!new)>(have: set<N>, needs: map<N, set<N>>, k: nat, n: N, m: N)
    requires n in needs && needs[n] == {m} && m !in have
    ensures n in Layer(have, needs, k + 1) <==> m in Layer(have, needs, k)
  {
    InLayer(have, needs, k, n);
  }

  /** Every layer moves down by one at least. */
  lemma {:induction false} LayersDescend<N(!new)>(have: set<N>, needs: map<N, set<N>>, p: Progress<N>, k: nat, n: N)
    requires Advances(have, needs, p) && n in Layer(have, needs, k + 1) && n in p.left
    ensures n in Layer(p.have, Restrict(needs, p.left), k)
    decreases k
  {
    assert k == 0 ==> Layer(have, needs, k) == {};
    InLayer(have, needs, k, n);
    if k > 0 {
      var rest := Restrict(needs, p.left);
      forall m | m in needs[n]
        ensures m in p.have + Layer(p.have, rest, k - 1)
      {
        if m !in p.have {
          LayersGrow(have, needs, k, k);
          LayersDescend(have, needs, p, k - 1, m);
        }
      }
      InLayer(p.have, rest, k - 1, n);
    }
  }

  /** If `k + 1` layers are all there is, a round leaves `k` at most. */
  lemma OneLayerLess<N(!new)>(have: set<N>, needs: map<N, set<N>>, p: Progress<N>, k: nat)
    requires Advances(have, needs, p) && Layer(have, needs, k + 1) == needs.Keys
    ensures Layer(p.have, Restrict(needs, p.left), k) == p.left
  {
    var rest := Restrict(needs, p.left);
    forall n | n in p.left
      ensures n in Layer(p.have, rest, k)
    {
      LayersDescend(have, needs, p, k, n);
    }
    LayersGrow(p.have, rest, k, k);
    assert rest.Keys == p.left;
  }

  lemma {:induction false} ShallowSucceeds<N(!new)>(have: set<N>, needs: map<N, set<N>>, depth: nat, schedule: seq<seq<N>>, left: set<N>)
    requires depth <= MAX_DEPTH + 1
    requires Layer(have, needs, MAX_DEPTH + 2 - depth) == needs.Keys
    requires Ends(have, needs, depth, schedule, left)
    ensures left == {}
    decreases |schedule|, 1
  {
    var p := Pass(have, needs, schedule[0]);
    AfterPass(have, needs, schedule[0]);
    OneLayerLess(have, needs, p, MAX_DEPTH + 1 - depth);
    ShallowAfter(needs, p, depth, schedule[1..], left);
  }

  lemma {:induction false} ShallowAfter<N(!new)>(needs: map<N, set<N>>, p: Progress<N>, depth: nat, rest: seq<seq<N>>, left: set<N>)
    requires p.left <= needs.Keys && depth <= MAX_DEPTH + 1
    requires Layer(p.have, Restrict(needs, p.left), MAX_DEPTH + 1 - depth) == p.left
    requires EndsAfter(needs, p, depth, rest, left)
    ensures left == {}
    decreases |rest|, 2
  {
    if p.left != {} {
      assert depth <= MAX_DEPTH by {
        assert Layer(p.have, Restrict(needs, p.left), 0) == {};
      }
      ShallowSucceeds(p.have, Restrict(needs, p.left), depth + 1, rest, left);
    }
  }

  // --------------------------------------------------------------- the least lucky orders

  lemma {:induction false} OrderOf<N(!new)>(names: set<N>) returns (order: seq<N>)
    ensures IsOrder(order, names)
    decreases |names|
  {
    order := [];
    if names != {} {
      var n :| n in names;
      var rest := OrderOf(names - {n});
      order := rest + [n];
      assert order[..|rest|] == rest;
    }
  }

  /** Names that cannot be registered yet are all put off; then names whose needs are met are all registered. */
  lemma {:induction false} UnmetThenMet<N(!new)>(have: set<N>, needs: map<N, set<N>>, unmet: seq<N>, met: seq<N>)
    requires forall n :: n in unmet ==> n in needs && !(needs[n] <= have)
    requires forall n :: n in met ==> n in needs && needs[n] <= have
    ensures forall n :: n in unmet + met ==> n in needs
    ensures Pass(have, needs, unmet + met) == Progress(have + (set n | n in met), set n | n in unmet)
    decreases |met|, |unmet|
  {
    if met != [] {
      var init, n := met[..|met| - 1], met[|met| - 1];
      assert met == init + [n] && unmet + met == unmet + init + [n];
      UnmetThenMet(have, needs, unmet, init);
      PassStep(have, needs, unmet + init, n);
    } else if unmet != [] {
      var init, n := unmet[..|unmet| - 1], unmet[|unmet| - 1];
      assert unmet == init + [n] && unmet + met == init + met + [n];
      UnmetThenMet(have, needs, init, met);
      PassStep(have, needs, init + met, n);
    }
  }

  /** A round that meets the unmet names first registers the first layer and no more. */
  lemma UnluckyPass<N(!new)>(have: set<N>, needs: map<N, set<N>>) returns (order: seq<N>)
    ensures IsOrder(order, needs.Keys)
    ensures Pass(have, needs, order) == Progress(have + Layer(have, needs, 1), needs.Keys - Layer(have, needs, 1))
  {
    var met := Layer(have, needs, 1);
    assert Layer(have, needs, 0) == {};
    var first := OrderOf(needs.Keys - met);
    var second := OrderOf(met);
    order := first + second;
    DistinctConcat(first, second);
    UnmetThenMet(have, needs, first, second);
    assert (set n | n in second) == met;
    assert (set n | n in first) == needs.Keys - met;
  }

  /** What remains after such a round has exactly the remaining layers. */
  lemma {:induction false} LayersAfterUnlucky<N(!new)>(have: set<N>, needs: map<N, set<N>>, k: nat)
    ensures var met := Layer(have, needs, 1);
            Layer(have + met, Restrict(needs, needs.Keys - met), k) == Layer(have, needs, k + 1) - met
    decreases k
  {
    var met := Layer(have, needs, 1);
    if k > 0 {
      LayersAfterUnlucky(have, needs, k - 1);
      LayersGrow(have, needs, 1, k);
      assert have + met + Layer(have + met, Restrict(needs, needs.Keys - met), k - 1) == have + Layer(have, needs, k);
    }
  }

  /** If the layers up to `k + 1` are not all, neither are the layers up to `k` after such a round. */
  lemma StillDeep<N(!new)>(have: set<N>, needs: map<N, set<N>>, k: nat)
    requires Layer(have, needs, k + 1) != needs.Keys
    ensures var met := Layer(have, needs, 1);
            var rest := Restrict(needs, needs.Keys - met);
            && needs.Keys - met != {} && rest.Keys == needs.Keys - met
            && Layer(have + met, rest, k) != rest.Keys
  {
    var met := Layer(have, needs, 1);
    LayersGrow(have, needs, 1, k + 1);
    LayersAfterUnlucky(have, needs, k);
    var n :| n in needs && n !in Layer(have, needs, k + 1);
    assert n in needs.Keys - met;
  }

  lemma UnluckyRound<N(!new)>(have: set<N>, needs: map<N, set<N>>, k: nat) returns (order: seq<N>, p: Progress<N>)
    requires Layer(have, needs, k + 1) != needs.Keys
    ensures IsOrder(order, needs.Keys) && p == Pass(have, needs, order)
    ensures p.left != {}
    ensures Layer(p.have, Restrict(needs, p.left), k) != Restrict(needs, p.left).Keys
  {
    order := UnluckyPass(have, needs);
    StillDeep(have, needs, k);
    p := Pass(have, needs, order);
  }

  lemma FirstRound<N(!new)>(have: set<N>, needs: map<N, set<N>>, depth: nat, order: seq<N>, rest: seq<seq<N>>, left: set<N>)
    requires IsOrder(order, needs.Keys) && EndsAfter(needs, Pass(have, needs, order), depth, rest, left)
    ensures Ends(have, needs, depth, [order] + rest, left)
  {
    assert ([order] + rest)[1..] == rest;
  }

  lemma {:induction false} DeepFails<N(!new)>(have: set<N>, needs: map<N, set<N>>, depth: nat) returns (schedule: seq<seq<N>>, left: set<N>)
    requires depth <= MAX_DEPTH + 1
    requires Layer(have, needs, MAX_DEPTH + 2 - depth) != needs.Keys
    ensures Ends(have, needs, depth, schedule, left) && left != {}
    decreases MAX_DEPTH + 2 - depth, 1
  {
    var order, p := UnluckyRound(have, needs, MAX_DEPTH + 1 - depth);
    var rest;
    rest, left := DeepAfter(needs, p, depth);
    schedule := [order] + rest;
    FirstRound(have, needs, depth, order, rest, left);
  }

  lemma {:induction false} DeepAfter<N(!new)>(needs: map<N, set<N>>, p: Progress<N>, depth: nat) returns (rest: seq<seq<N>>, left: set<N>)
    requires depth <= MAX_DEPTH + 1 && p.left != {}
    requires Layer(p.have, Restrict(needs, p.left), MAX_DEPTH + 1 - depth) != Restrict(needs, p.left).Keys
    ensures EndsAfter(needs, p, depth, rest, left) && left != {}
    decreases MAX_DEPTH + 2 - depth, 0
  {
    if depth > MAX_DEPTH {
      rest, left := [], p.left;
    } else {
      rest, left := DeepFails(p.have, Restrict(needs, p.left), depth + 1);
    }
  }

  ghost predicate EveryOrderSucceeds<N(!new)>(have: set<N>, needs: map<N, set<N>>) {
    forall schedule, left :: Ends(have, needs, 0, schedule, left) ==> left == {}
  }

  /** Every order succeeds if and only if no name needs more than eighteen layers, its own included. */
  lemma EveryOrderExactly<N(!new)>(have: set<N>, needs: map<N, set<N>>)
    ensures EveryOrderSucceeds(have, needs) <==> Layer(have, needs, 18) == needs.Keys
  {
    if Layer(have, needs, 18) == needs.Keys {
      forall schedule, left | Ends(have, needs, 0, schedule, left)
        ensures left == {}
      {
        ShallowSucceeds(have, needs, 0, schedule, left);
      }
    } else {
      var schedule, left := DeepFails(have, needs, 0);
    }
  }

  // -------------------------------------------------------------------- no order at all

  /** `n` needs one of `names`, or something that nobody defines. */
  ghost predicate Blocked<N(!new)>(have: set<N>, needs: map<N, set<N>>, names: set<N>, n: N)
    requires n in needs
  {
    exists m :: m in needs[n] && m !in have && (m in names || m !in needs)
  }

  /** A set whose members are all blocked, by members or for ever. */
  ghost predicate Stuck<N(!new)>(have: set<N>, needs: map<N, set<N>>, names: set<N>) {
    names != {} && names <= needs.Keys && forall n :: n in names ==> Blocked(have, needs, names, n)
  }

  lemma NotInStuck<N(!new)>(have: set<N>, needs: map<N, set<N>>, names: set<N>, n: N)
    requires Stuck(have, needs, names) && n in needs && forall m :: m in needs[n] ==> m in needs && m !in names
    ensures n !in names
  {
    assert n in names ==> Blocked(have, needs, names, n);
  }

  lemma {:induction false} StuckIsPutOff<N(!new)>(have: set<N>, needs: map<N, set<N>>, order: seq<N>, names: set<N>)
    requires Stuck(have, needs, names) && Distinct(order) && forall n :: n in order ==> n in needs
    ensures forall n :: n in names && n in order ==> n in Pass(have, needs, order).left
    decreases |order|
  {
    if order != [] {
      var init, n := order[..|order| - 1], order[|order| - 1];
      assert order == init + [n];
      StuckIsPutOff(have, needs, init, names);
      PassOutcome(have, needs, init);
      PassOutcomeStep(have, needs, init, n);
      if n in names {
        var m :| m in needs[n] && m !in have && (m in names || m !in needs);
        assert m !in Pass(have, needs, init).have;
      }
    }
  }

  lemma StuckStays<N(!new)>(have: set<N>, needs: map<N, set<N>>, p: Progress<N>, names: set<N>)
    requires Stuck(have, needs, names) && names <= p.left && Advances(have, needs, p)
    ensures Stuck(p.have, Restrict(needs, p.left), names)
  {
    var rest := Restrict(needs, p.left);
    forall n | n in names
      ensures Blocked(p.have, rest, names, n)
    {
      assert Blocked(have, needs, names, n);
      var m :| m in needs[n] && m !in have && (m in names || m !in needs);
      assert m in rest[n] && m !in p.have && (m in names || m !in rest);
    }
  }

  /** Names on a cycle, or in need of a missing name, are left over in every order. */
  lemma {:induction false} StuckFails<N(!new)>(have: set<N>, needs: map<N, set<N>>, names: set<N>, depth: nat, schedule: seq<seq<N>>, left: set<N>)
    requires Stuck(have, needs, names) && Ends(have, needs, depth, schedule, left)
    ensures names <= left
    decreases |schedule|, 1
  {
    var p := Pass(have, needs, schedule[0]);
    AfterPass(have, needs, schedule[0]);
    StuckIsPutOff(have, needs, schedule[0], names);
    StuckStays(have, needs, p, names);
    StuckAfter(needs, p, names, depth, schedule[1..], left);
  }

  lemma {:induction false} StuckAfter<N(!new)>(needs: map<N, set<N>>, p: Progress<N>, names: set<N>, depth: nat, rest: seq<seq<N>>, left: set<N>)
    requires names <= p.left <= needs.Keys && Stuck(p.have, Restrict(needs, p.left), names)
    requires EndsAfter(needs, p, depth, rest, left)
    ensures names <= left
    decreases |rest|, 2
  {
    if depth <= MAX_DEPTH {
      StuckFails(p.have, Restrict(needs, p.left), names, depth + 1, rest, left);
    }
  }

  lemma {:induction false} SubsetSize<N(!new)>(a: set<N>, b: set<N>)
    requires a <= b
    ensures |a| <= |b|
    decreases |a|
  {
    if a != {} {
      var x :| x in a;
      SubsetSize(a - {x}, b - {x});
    }
  }

  /** Without a stuck set, the layers reach every name. */
  lemma {:induction false} NothingStuck<N(!new)>(have: set<N>, needs: map<N, set<N>>, k: nat) returns (top: nat)
    requires forall names :: !Stuck(have, needs, names)
    ensures Layer(have, needs, top) == needs.Keys
    decreases |needs.Keys - Layer(have, needs, k)|
  {
    LayersGrow(have, needs, k, k + 1);
    var rest := needs.Keys - Layer(have, needs, k);
    if rest == {} {
      forall n | n in needs
        ensures n in Layer(have, needs, k)
      {
        assert n !in rest;
      }
      return k;
    }
    assert !Stuck(have, needs, rest);
    var n :| n in rest && !Blocked(have, needs, rest, n);
    assert needs[n] <= have + Layer(have, needs, k) by {
      forall m | m in needs[n]
        ensures m in have + Layer(have, needs, k)
      {
      }
    }
    assert n in Layer(have, needs, k + 1);
    SubsetSize(needs.Keys - Layer(have, needs, k + 1), rest - {n});
    top := NothingStuck(have, needs, k + 1);
  }

  /** A round in the order of the layers registers them all. */
  lemma {:induction false} LuckyPass<N(!new)>(have: set<N>, needs: map<N, set<N>>, k: nat) returns (order: seq<N>)
    ensures IsOrder(order, Layer(have, needs, k))
    ensures Layer(have, needs, k) <= needs.Keys
    ensures Pass(have, needs, order) == Progress(have + Layer(have, needs, k), {})
    decreases k
  {
    LayersGrow(have, needs, k, k);
    if k == 0 {
      return [];
    }
    var below := LuckyPass(have, needs, k - 1);
    LayersGrow(have, needs, k - 1, k);
    var more := OrderOf(Layer(have, needs, k) - Layer(have, needs, k - 1));
    order := below + more;
    DistinctConcat(below, more);
    LuckyExtension(have, needs, k, below, more);
  }

  lemma {:induction false} LuckyExtension<N(!new)>(have: set<N>, needs: map<N, set<N>>, k: nat, below: seq<N>, more: seq<N>)
    requires k > 0 && forall n :: n in below ==> n in needs
    requires forall n :: n in more ==> n in Layer(have, needs, k)
    requires Pass(have, needs, below) == Progress(have + Layer(have, needs, k - 1), {})
    ensures forall n :: n in below + more ==> n in needs
    ensures Pass(have, needs, below + more) == Progress(have + Layer(have, needs, k - 1) + (set n | n in more), {})
    decreases |more|
  {
    var base := have + Layer(have, needs, k - 1);
    if more == [] {
      assert below + more == below;
      assert base + (set n | n in more) == base;
    } else {
      var init, n := more[..|more| - 1], more[|more| - 1];
      assert more == init + [n] && below + more == below + init + [n];
      assert n in more && n in Layer(have, needs, k);
      InLayer(have, needs, k - 1, n);
      LuckyExtension(have, needs, k, below, init);
      assert base + (set m | m in init) + {n} == base + (set m | m in more);
      PassStep(have, needs, below + init, n);
    }
  }

  ghost predicate SomeOrderSucceeds<N(!new)>(have: set<N>, needs: map<N, set<N>>) {
    exists schedule :: Ends(have, needs, 0, schedule, {})
  }

  /** Some order succeeds if and only if nothing is stuck: no cycle, and no missing name. */
  lemma SomeOrderExactly<N(!new)>(have: set<N>, needs: map<N, set<N>>)
    ensures SomeOrderSucceeds(have, needs) <==> forall names :: !Stuck(have, needs, names)
  {
    if names :| Stuck(have, needs, names) {
      forall schedule
        ensures !Ends(have, needs, 0, schedule, {})
      {
        if Ends(have, needs, 0, schedule, {}) {
          StuckFails(have, needs, names, 0, schedule, {});
        }
      }
    } else {
      var top := NothingStuck(have, needs, 0);
      var order := LuckyPass(have, needs, top);
      assert Ends(have, needs, 0, [order], {});
    }
  }
}
