/** Chains of definitions: acyclic, and nevertheless not always registered once they are long. */
module TlbChain {
  import opened TlbTypes
  import opened TlbCompile
  import opened TlbRegistry
  import opened TlbAgain
  import opened TlbSchedule
  import opened DefinitionRounds
  import opened Graphs

  /** Names that are not built-in formats. */
  function NthName(i: nat): string {
    seq(i + 1, _ => 'x')
  }

  /** The first definition needs none, every other one its predecessor. */
  function NthField(i: nat): Field {
    if i == 0 then Field("leaf", "## 8", "uint8", false, []) else LoopField(NthName(i - 1))
  }

  function ChainOf(n: nat): Registry {
    if n == 0 then map[] else ChainOf(n - 1)[NthName(n - 1) := [NthField(n - 1)]]
  }

  lemma NthNameIsFree(i: nat)
    ensures NthName(i) != "" && NthName(i) != STRUCT && NthName(i) !in TypeNameMap()
  {
    assert NthName(i)[0] == 'x';
  }

  lemma {:induction false} ChainAt(n: nat, i: nat)
    requires i < n
    ensures NthName(i) in ChainOf(n) && ChainOf(n)[NthName(i)] == [NthField(i)]
  {
    if i < n - 1 {
      ChainAt(n - 1, i);
      assert |NthName(i)| < |NthName(n - 1)|;
    }
  }

  lemma {:induction false} ChainHasNoMore(n: nat, name: string) returns (i: nat)
    requires name in ChainOf(n)
    ensures i < n && name == NthName(i) && |name| == i + 1
  {
    if name == NthName(n - 1) {
      i := n - 1;
    } else {
      i := ChainHasNoMore(n - 1, name);
    }
  }

  lemma NthNeeds(n: nat, i: nat)
    requires i < n
    ensures NthName(i) in Needs(ChainOf(n))
    ensures Needs(ChainOf(n))[NthName(i)] == if i == 0 then {} else {NthName(i - 1)}
  {
    ChainAt(n, i);
    DepsOfOne(NthField(i));
    if i > 0 { NthNameIsFree(i - 1); }
  }

  lemma ChainIsReady(nm: Naming, n: nat)
    ensures Ready(nm, map[], ChainOf(n))
  {
    assert Ranks(CallsOf(map[]), _ => 0);
    forall name | name in ChainOf(n)
      ensures Sane(nm, ChainOf(n)[name]) && ChainOf(n)[name] != []
    {
      var i := ChainHasNoMore(n, name);
      ChainAt(n, i);
      if i > 0 { NthNameIsFree(i - 1); }
    }
  }

  /** The `i`th definition is in the layers from `i + 1` on. */
  lemma {:induction false} NthLayer(n: nat, k: nat, i: nat)
    requires i < n
    ensures NthName(i) in Layer({}, Needs(ChainOf(n)), k) <==> i < k
    decreases k
  {
    NthNeeds(n, i);
    if k == 0 {
      NotInNoLayer({}, Needs(ChainOf(n)), NthName(i));
    } else if i == 0 {
      InLayer({}, Needs(ChainOf(n)), k - 1, NthName(i));
    } else {
      InLayerOfOne({}, Needs(ChainOf(n)), k - 1, NthName(i), NthName(i - 1));
      NthLayer(n, k - 1, i - 1);
    }
  }

  lemma LayersOfChain(n: nat, k: nat)
    ensures Layer({}, Needs(ChainOf(n)), k) == ChainOf(n).Keys <==> n <= k
  {
    LayersGrow({}, Needs(ChainOf(n)), k, k);
    if n <= k {
      forall name | name in ChainOf(n)
        ensures name in Layer({}, Needs(ChainOf(n)), k)
      {
        var i := ChainHasNoMore(n, name);
        NthLayer(n, k, i);
      }
    } else {
      ChainAt(n, n - 1);
      NthLayer(n, k, n - 1);
    }
  }

  lemma {:induction false} NotStuckAt(n: nat, names: set<string>, i: nat)
    requires i < n && Stuck({}, Needs(ChainOf(n)), names)
    ensures NthName(i) !in names
  {
    NthNeeds(n, i);
    if i > 0 {
      NthNeeds(n, i - 1);
      NotStuckAt(n, names, i - 1);
    }
    NotInStuck({}, Needs(ChainOf(n)), names, NthName(i));
  }

  lemma ChainIsNotStuck(n: nat, names: set<string>)
    ensures !Stuck({}, Needs(ChainOf(n)), names)
  {
    if Stuck({}, Needs(ChainOf(n)), names) {
      var name :| name in names;
      var i := ChainHasNoMore(n, name);
      NotStuckAt(n, names, i);
    }
  }

  lemma {:induction false} ChainSize(n: nat)
    ensures |ChainOf(n)| == n
  {
    if n > 0 {
      ChainSize(n - 1);
      assert NthName(n - 1) !in ChainOf(n - 1) by {
        if NthName(n - 1) in ChainOf(n - 1) {
          var i := ChainHasNoMore(n - 1, NthName(n - 1));
        }
      }
    }
  }

  lemma ChainIsAcyclic(n: nat)
    ensures Acyclic(CallsOf(ChainOf(n)))
  {
    forall name, m | name in CallsOf(ChainOf(n)) && m in CallsOf(ChainOf(n))[name]
      ensures |m| < |name|
    {
      var i := ChainHasNoMore(n, name);
      ChainAt(n, i);
      DepsOfOne(NthField(i));
      CallsAreDeps([NthField(i)]);
      if i > 0 { NthNameIsFree(i - 1); }
    }
    assert Ranks(CallsOf(ChainOf(n)), (name: string) => |name|);
  }

  /**
   A chain of definitions without a cycle, each needing the one before, is registered in every order if
   and only if there are at most eighteen of them; some order always registers it.
   */
  lemma ChainAlwaysRegistersExactly(nm: Naming, n: nat)
    ensures |ChainOf(n)| == n && Acyclic(CallsOf(ChainOf(n))) && Ready(nm, map[], ChainOf(n))
    ensures AlwaysRegisters(nm, map[], ChainOf(n)) <==> n <= 18
    ensures !AlwaysFails(nm, map[], ChainOf(n))
  {
    ChainSize(n);
    ChainIsAcyclic(n);
    ChainIsReady(nm, n);
    var none: Registry, defs := map[], ChainOf(n);
    assert none.Keys == {};
    LayersOfChain(n, 18);
    RegistrationAlwaysSucceedsExactly(nm, none, defs);
    forall names
      ensures !Stuck(none.Keys, Needs(defs), names)
    {
      ChainIsNotStuck(n, names);
    }
    RegistrationAlwaysFailsExactly(nm, none, defs);
  }
}
