/** Which sets of definitions get registered: in every iteration order, and in some. */
module TlbSchedule {
  import opened Counting
  import opened TlbTypes
  import opened TlbCompile
  import opened TlbRegistry
  import opened TlbAgain
  import opened TlbRegister
  import opened DefinitionRounds

  /** A grounded registry of sane definitions, and non-empty, sane definitions to add that do not lead back to themselves. */
  ghost predicate Ready(nm: Naming, reg: Registry, defs: Registry) {
    && Grounded(reg) && SaneRegistry(nm, reg) && Harmless(reg, defs)
    && (forall n :: n in defs ==> Sane(nm, defs[n]) && defs[n] != [])
  }

  function Needs(defs: Registry): (needs: map<string, set<string>>)
    ensures needs.Keys == defs.Keys
  {
    map n | n in defs :: Deps(defs[n])
  }

  /** A round on definitions is a round on their names; `done` are those it registered. */
  ghost predicate Mirrors(nm: Naming, reg: Registry, defs: Registry, r: RoundResult, p: Progress<string>, done: set<string>) {
    && r.Done? && r.left == p.left && r.reg.Keys == p.have
    && done <= defs.Keys && r.reg == After(reg, defs, done)
    && Grounded(r.reg) && SaneRegistry(nm, r.reg)
  }

  lemma MirrorsAdd(nm: Naming, reg: Registry, defs: Registry, r: RoundResult, p: Progress<string>, done: set<string>, n: string)
    requires Ready(nm, reg, defs) && n in defs && n !in done && Deps(defs[n]) <= p.have
    requires Mirrors(nm, reg, defs, r, p, done)
    ensures Mirrors(nm, reg, defs, Done(r.reg[n := defs[n]], r.left), Progress(p.have + {n}, p.left), done + {n})
  {
    HarmlessOne(reg, defs, done, n);
    KeepsGrounded(r.reg, n, defs[n]);
    AfterOneMore(reg, defs, done, n);
    assert SaneRegistry(nm, r.reg[n := defs[n]]);
  }

  lemma MirrorsStep(nm: Naming, reg: Registry, defs: Registry, order: seq<string>, done: set<string>, n: string)
    requires Ready(nm, reg, defs) && n in defs && n !in done && forall m :: m in order ==> m in defs
    requires Mirrors(nm, reg, defs, Round(nm, reg, defs, order), Pass(reg.Keys, Needs(defs), order), done)
    ensures forall m :: m in order + [n] ==> m in defs
    ensures Mirrors(nm, reg, defs, Round(nm, reg, defs, order + [n]), Pass(reg.Keys, Needs(defs), order + [n]),
                    if Deps(defs[n]) <= Pass(reg.Keys, Needs(defs), order).have then done + {n} else done)
  {
    var r, p := Round(nm, reg, defs, order), Pass(reg.Keys, Needs(defs), order);
    RoundStep(nm, reg, defs, order, n);
    PassStep(reg.Keys, Needs(defs), order, n);
    if Deps(defs[n]) <= p.have {
      MirrorsAdd(nm, reg, defs, r, p, done, n);
      assert Meaning(nm, r.reg, defs[n]).Type? && Meaning(nm, r.reg, defs[n]).ty != StructOf([]) by {
        SaneMeaning(nm, r.reg, defs[n]);
      }
    } else {
      assert Meaning(nm, r.reg, defs[n]).Missing? by {
        SaneMeaning(nm, r.reg, defs[n]);
      }
    }
  }

  lemma {:induction false} RoundIsPass(nm: Naming, reg: Registry, defs: Registry, order: seq<string>)
    requires Ready(nm, reg, defs) && Distinct(order) && forall n :: n in order ==> n in defs
    ensures Mirrors(nm, reg, defs, Round(nm, reg, defs, order), Pass(reg.Keys, Needs(defs), order), DoneBy(reg.Keys, Needs(defs), order))
    decreases |order|
  {
    if order == [] {
      RestrictNone(reg, defs);
    } else {
      var init, n := order[..|order| - 1], order[|order| - 1];
      assert order == init + [n];
      RoundIsPass(nm, reg, defs, init);
      DoneByStep(reg.Keys, Needs(defs), init, n);
      MirrorsStep(nm, reg, defs, init, DoneBy(reg.Keys, Needs(defs), init), n);
    }
  }

  /** What registering ends with when `left` cannot be registered. */
  function Ending(reg: Registry, defs: Registry, left: set<string>): RegisterResult {
    if left == {} then Registered(reg + defs) else Unresolved(left, After(reg, defs, defs.Keys - left))
  }

  lemma RestNeeds(defs: Registry, left: set<string>)
    ensures Needs(Restrict(defs, left)) == Restrict(Needs(defs), left)
  {
  }

  lemma RestEnds(reg: Registry, defs: Registry, rest: set<string>, left: set<string>)
    requires left <= rest <= defs.Keys
    ensures Ending(After(reg, defs, defs.Keys - rest), Restrict(defs, rest), left) == Ending(reg, defs, left)
  {
    assert Restrict(defs, rest).Keys == rest;
    RestrictTwice(reg, defs, rest, left);
  }

  /** After a round the rest is ready again, and needs what it needed. */
  ghost predicate Corresponds(nm: Naming, defs: Registry, r: RoundResult, p: Progress<string>) {
    && r.Done? && r.left == p.left <= defs.Keys && r.reg.Keys == p.have
    && Ready(nm, r.reg, Restrict(defs, r.left))
    && Needs(Restrict(defs, r.left)) == Restrict(Needs(defs), r.left)
  }

  lemma RoundCorresponds(nm: Naming, reg: Registry, defs: Registry, order: seq<string>)
    requires Ready(nm, reg, defs) && IsOrder(order, defs.Keys)
    ensures var r := Round(nm, reg, defs, order);
            Corresponds(nm, defs, r, Pass(reg.Keys, Needs(defs), order)) && r.reg == After(reg, defs, defs.Keys - r.left)
  {
    RoundIsPass(nm, reg, defs, order);
    AfterPass(reg.Keys, Needs(defs), order);
    var left := Round(nm, reg, defs, order).left;
    assert DoneBy(reg.Keys, Needs(defs), order) == defs.Keys - left;
    HarmlessRest(reg, defs, left);
    RestNeeds(defs, left);
  }

  lemma NothingMoreEnds(reg: Registry, defs: Registry, left: set<string>)
    requires left <= defs.Keys
    ensures Ending(reg, Restrict(defs, left), left) == if left == {} then Registered(reg) else Unresolved(left, reg)
  {
    assert Restrict(defs, left).Keys == left;
    assert left == {} ==> reg + Restrict(defs, left) == reg;
    RestrictNone(reg, Restrict(defs, left));
  }

  lemma {:induction false} LeftShrinks(have: set<string>, needs: map<string, set<string>>, depth: nat, schedule: seq<seq<string>>, left: set<string>)
    requires Ends(have, needs, depth, schedule, left)
    ensures left <= Pass(have, needs, schedule[0]).left
    decreases |schedule|
  {
    var p := Pass(have, needs, schedule[0]);
    AfterPass(have, needs, schedule[0]);
    if p.left != {} && depth <= MAX_DEPTH {
      var rest := Restrict(needs, p.left);
      LeftShrinks(p.have, rest, depth + 1, schedule[1..], left);
      AfterPass(p.have, rest, schedule[1]);
    }
  }

  /** A schedule that ends on names ends the same way on definitions. */
  lemma {:induction false} EndsMeansRegisters(nm: Naming, reg: Registry, defs: Registry, depth: nat, schedule: seq<seq<string>>, left: set<string>)
    requires Ready(nm, reg, defs) && Ends(reg.Keys, Needs(defs), depth, schedule, left)
    ensures Registers(nm, reg, defs, depth, schedule, Ending(reg, defs, left))
    decreases |schedule|, 1
  {
    var r, p := Round(nm, reg, defs, schedule[0]), Pass(reg.Keys, Needs(defs), schedule[0]);
    RoundCorresponds(nm, reg, defs, schedule[0]);
    LeftShrinks(reg.Keys, Needs(defs), depth, schedule, left);
    RestEnds(reg, defs, r.left, left);
    EndsMeansRegistersAfter(nm, defs, r, p, depth, schedule[1..], left);
  }

  lemma {:induction false} EndsMeansRegistersAfter(nm: Naming, defs: Registry, r: RoundResult, p: Progress<string>,
                                                   depth: nat, rest: seq<seq<string>>, left: set<string>)
    requires Corresponds(nm, defs, r, p) && EndsAfter(Needs(defs), p, depth, rest, left)
    ensures RegistersAfter(nm, defs, r, depth, rest, Ending(r.reg, Restrict(defs, r.left), left))
    decreases |rest|, 2
  {
    if r.left == {} || depth > MAX_DEPTH {
      NothingMoreEnds(r.reg, defs, left);
    } else {
      EndsMeansRegisters(nm, r.reg, Restrict(defs, r.left), depth + 1, rest, left);
    }
  }

  /** And the other way round. */
  lemma {:induction false} RegistersMeansEnds(nm: Naming, reg: Registry, defs: Registry, depth: nat, schedule: seq<seq<string>>, result: RegisterResult)
    returns (left: set<string>)
    requires Ready(nm, reg, defs) && Registers(nm, reg, defs, depth, schedule, result)
    ensures Ends(reg.Keys, Needs(defs), depth, schedule, left)
    ensures result == Ending(reg, defs, left)
    decreases |schedule|, 1
  {
    var r, p := Round(nm, reg, defs, schedule[0]), Pass(reg.Keys, Needs(defs), schedule[0]);
    RoundCorresponds(nm, reg, defs, schedule[0]);
    left := RegistersAfterMeansEnds(nm, defs, r, p, depth, schedule[1..], result);
    LeftShrinks(reg.Keys, Needs(defs), depth, schedule, left);
    RestEnds(reg, defs, r.left, left);
  }

  lemma {:induction false} RegistersAfterMeansEnds(nm: Naming, defs: Registry, r: RoundResult, p: Progress<string>,
                                                   depth: nat, rest: seq<seq<string>>, result: RegisterResult)
    returns (left: set<string>)
    requires Corresponds(nm, defs, r, p) && RegistersAfter(nm, defs, r, depth, rest, result)
    ensures EndsAfter(Needs(defs), p, depth, rest, left) && result == Ending(r.reg, Restrict(defs, r.left), left)
    decreases |rest|, 2
  {
    if r.left == {} || depth > MAX_DEPTH {
      left := r.left;
      NothingMoreEnds(r.reg, defs, left);
    } else {
      left := RegistersMeansEnds(nm, r.reg, Restrict(defs, r.left), depth + 1, rest, result);
    }
  }

  ghost predicate AlwaysRegisters(nm: Naming, reg: Registry, defs: Registry) {
    forall schedule, result :: Registers(nm, reg, defs, 0, schedule, result) ==> result == Registered(reg + defs)
  }

  ghost predicate AlwaysFails(nm: Naming, reg: Registry, defs: Registry) {
    forall schedule, result :: Registers(nm, reg, defs, 0, schedule, result) ==> result.Unresolved?
  }

  lemma AlwaysRegistersIffNames(nm: Naming, reg: Registry, defs: Registry)
    requires Ready(nm, reg, defs)
    ensures AlwaysRegisters(nm, reg, defs) <==> EveryOrderSucceeds(reg.Keys, Needs(defs))
  {
    if EveryOrderSucceeds(reg.Keys, Needs(defs)) {
      forall schedule, result | Registers(nm, reg, defs, 0, schedule, result)
        ensures result == Registered(reg + defs)
      {
        var left := RegistersMeansEnds(nm, reg, defs, 0, schedule, result);
        assert left == {};
      }
    } else {
      var schedule, left :| Ends(reg.Keys, Needs(defs), 0, schedule, left) && left != {};
      EndsMeansRegisters(nm, reg, defs, 0, schedule, left);
      assert Ending(reg, defs, left).Unresolved?;
    }
  }

  lemma AlwaysFailsIffNames(nm: Naming, reg: Registry, defs: Registry)
    requires Ready(nm, reg, defs)
    ensures AlwaysFails(nm, reg, defs) <==> !SomeOrderSucceeds(reg.Keys, Needs(defs))
  {
    if SomeOrderSucceeds(reg.Keys, Needs(defs)) {
      var schedule :| Ends(reg.Keys, Needs(defs), 0, schedule, {});
      EndsMeansRegisters(nm, reg, defs, 0, schedule, {});
      assert Ending(reg, defs, {}).Registered?;
    } else {
      forall schedule, result | Registers(nm, reg, defs, 0, schedule, result)
        ensures result.Unresolved?
      {
        var left := RegistersMeansEnds(nm, reg, defs, 0, schedule, result);
        assert left != {};
      }
    }
  }

  /**
   Registering ready definitions succeeds whatever orders the maps are iterated in if and only if
   no definition needs more than eighteen layers of definitions, its own included.
   */
  lemma RegistrationAlwaysSucceedsExactly(nm: Naming, reg: Registry, defs: Registry)
    requires Ready(nm, reg, defs)
    ensures AlwaysRegisters(nm, reg, defs) <==> Layer(reg.Keys, Needs(defs), 18) == defs.Keys
  {
    AlwaysRegistersIffNames(nm, reg, defs);
    EveryOrderExactly(reg.Keys, Needs(defs));
  }

  /**
   Registering ready definitions ends with an error whatever the orders if and only if some of them
   are on a cycle, or need a name that nobody defines, or need such definitions.
   */
  lemma RegistrationAlwaysFailsExactly(nm: Naming, reg: Registry, defs: Registry)
    requires Ready(nm, reg, defs)
    ensures AlwaysFails(nm, reg, defs) <==> exists names :: Stuck(reg.Keys, Needs(defs), names)
  {
    AlwaysFailsIffNames(nm, reg, defs);
    SomeOrderExactly(reg.Keys, Needs(defs));
  }
}
