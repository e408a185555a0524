/** Registering a name again: when compiling still terminates afterwards. */
module TlbAgain {
  import opened TlbTypes
  import opened TlbSettings
  import opened TlbCompile
  import opened TlbMeaning
  import opened TlbRegistry
  import opened DefinitionRounds
  import opened Graphs

  // ------------------------------------------------------- grounded means that all terminates

  ghost predicate AllTerminate(nm: Naming, reg: Registry) {
    forall n :: n in reg ==> !Meaning(nm, reg, reg[n]).Diverges?
  }

  /** What compiles with some fuel goes into definitions that compile with less. */
  lemma {:induction false} CallsCompile(nm: Naming, reg: Registry, fuel: nat, schema: Schema, m: string)
    requires CompileFields(nm, reg, fuel, schema, false).Compiled? && m in Calls(schema)
    ensures fuel > 0 && m in reg && CompileFields(nm, reg, fuel - 1, reg[m], false).Compiled?
    decreases fuel, schema, 0
  {
    var n := |schema| - 1;
    if m in Calls(schema[..n]) {
      CallsCompile(nm, reg, fuel, schema[..n], m);
    } else if EffectiveFormat(schema[n]) == STRUCT {
      CallsCompile(nm, reg, fuel, schema[n].fields, m);
    }
  }

  /** The least fuel for which a schema compiles. */
  ghost function LeastFuel(nm: Naming, reg: Registry, fuel: nat, schema: Schema): (least: nat)
    requires CompileFields(nm, reg, fuel, schema, false).Compiled?
    ensures CompileFields(nm, reg, least, schema, false).Compiled?
    ensures forall k: nat :: CompileFields(nm, reg, k, schema, false).Compiled? ==> least <= k
  {
    if fuel > 0 && CompileFields(nm, reg, fuel - 1, schema, false).Compiled? then LeastFuel(nm, reg, fuel - 1, schema)
    else
      assert forall k: nat :: k < fuel ==> !CompileFields(nm, reg, k, schema, false).Compiled? by {
        forall k: nat | k < fuel
          ensures !CompileFields(nm, reg, k, schema, false).Compiled?
        {
          if CompileFields(nm, reg, k, schema, false).Compiled? { MoreFuel(nm, reg, k, fuel - 1, schema, false); }
        }
      }
      fuel
  }

  lemma SaneCompiles(nm: Naming, reg: Registry, n: string) returns (fuel: nat)
    requires Closed(reg) && SaneRegistry(nm, reg) && AllTerminate(nm, reg) && n in reg
    ensures CompileFields(nm, reg, fuel, reg[n], false).Compiled?
  {
    assert !Meaning(nm, reg, reg[n]).Diverges?;
    fuel :| Compile(nm, reg, fuel, reg[n], false) != Diverges;
    SaneFieldsOutcome(nm, reg, fuel, reg[n]);
  }

  ghost predicate CompilesWith(nm: Naming, reg: Registry, n: string, fuel: nat)
    requires n in reg
  {
    CompileFields(nm, reg, fuel, reg[n], false).Compiled?
  }

  /** The least fuel for a definition that compiles. */
  ghost function FuelRank(nm: Naming, reg: Registry, n: string): nat {
    if fuel: nat :| n in reg && CompilesWith(nm, reg, n, fuel) then LeastFuel(nm, reg, fuel, reg[n]) else 0
  }

  lemma FuelFalls(nm: Naming, reg: Registry, n: string, m: string)
    requires n in reg && (exists fuel: nat :: CompilesWith(nm, reg, n, fuel)) && m in Calls(reg[n])
    ensures FuelRank(nm, reg, m) < FuelRank(nm, reg, n)
  {
    var fuel: nat :| CompilesWith(nm, reg, n, fuel) && FuelRank(nm, reg, n) == LeastFuel(nm, reg, fuel, reg[n]);
    CallsCompile(nm, reg, FuelRank(nm, reg, n), reg[n], m);
    assert CompilesWith(nm, reg, m, FuelRank(nm, reg, n) - 1);
  }

  lemma FuelRanks(nm: Naming, reg: Registry)
    requires forall n :: n in reg ==> exists fuel: nat :: CompilesWith(nm, reg, n, fuel)
    ensures Acyclic(CallsOf(reg))
  {
    var rank := (n: string) => FuelRank(nm, reg, n);
    forall n, m | n in CallsOf(reg) && m in CallsOf(reg)[n]
      ensures rank(m) < rank(n)
    {
      FuelFalls(nm, reg, n, m);
    }
    assert Ranks(CallsOf(reg), rank);
  }

  /** In a closed registry of sane definitions, all compile if and only if the registry is grounded. */
  lemma GroundedExactly(nm: Naming, reg: Registry)
    requires Closed(reg) && SaneRegistry(nm, reg)
    ensures Grounded(reg) <==> AllTerminate(nm, reg)
  {
    if Grounded(reg) {
      forall n | n in reg
        ensures !Meaning(nm, reg, reg[n]).Diverges?
      {
        var _ := MeaningTerminates(nm, reg, reg[n]);
      }
    } else if AllTerminate(nm, reg) {
      forall n | n in reg
        ensures exists fuel: nat :: CompilesWith(nm, reg, n, fuel)
      {
        var fuel := SaneCompiles(nm, reg, n);
        assert CompilesWith(nm, reg, n, fuel);
      }
      FuelRanks(nm, reg);
    }
  }

  // ---------------------------------------------------------------- registering one definition

  /**
   Registering `n`, again or for the first time, keeps the registry grounded if and only if its needs
   are registered and compiling the new definition does not lead back to `n`.
   */
  lemma RegisteringKeepsGroundedExactly(reg: Registry, n: string, schema: Schema)
    requires Grounded(reg)
    ensures Grounded(reg[n := schema]) <==> Deps(schema) <= reg.Keys + {n} && !Leads(CallsOf(reg), Calls(schema), n)
  {
    var again := reg[n := schema];
    assert again.Keys == reg.Keys + {n} && again[n] == schema;
    assert forall m :: m in reg && m != n ==> again[m] == reg[m];
    assert CallsOf(again) == CallsOf(reg)[n := Calls(schema)];
    AcyclicAgainExactly(CallsOf(reg), n, Calls(schema));
  }

  /** A definition whose needs are registered, under a new name, keeps the registry grounded. */
  lemma FreshKeepsGrounded(reg: Registry, n: string, schema: Schema)
    requires Grounded(reg) && n !in reg && Deps(schema) <= reg.Keys
    ensures Grounded(reg[n := schema])
  {
    forall m | m in reg
      ensures Calls(reg[m]) <= reg.Keys
    {
      CallsAreDeps(reg[m]);
    }
    CallsAreDeps(schema);
    OutsideIsNotLedTo(CallsOf(reg), Calls(schema), n);
    RegisteringKeepsGroundedExactly(reg, n, schema);
  }

  /** What compiles keeps the registry grounded, unless its name is registered and it leads back to it. */
  lemma KeepsGrounded(reg: Registry, n: string, schema: Schema)
    requires Grounded(reg) && Deps(schema) <= reg.Keys && (n in reg ==> !Leads(CallsOf(reg), Calls(schema), n))
    ensures Grounded(reg[n := schema])
  {
    if n in reg {
      RegisteringKeepsGroundedExactly(reg, n, schema);
    } else {
      FreshKeepsGrounded(reg, n, schema);
    }
  }

  /**
   After a sane definition is registered, again or for the first time, every definition still
   compiles if and only if compiling the new one does not lead back to its own name.
   */
  lemma ReRegistrationExactly(nm: Naming, reg: Registry, n: string, schema: Schema)
    requires Grounded(reg) && SaneRegistry(nm, reg) && Sane(nm, schema) && Deps(schema) <= reg.Keys + {n}
    ensures AllTerminate(nm, reg[n := schema]) <==> !Leads(CallsOf(reg), Calls(schema), n)
  {
    var again := reg[n := schema];
    assert Closed(again) && SaneRegistry(nm, again);
    GroundedExactly(nm, again);
    RegisteringKeepsGroundedExactly(reg, n, schema);
  }

  // ------------------------------------------------------------------- a set of definitions

  /** The links of the old and of the new definitions. */
  function BothCalls(reg: Registry, defs: Registry): Graph<string> {
    map n | n in reg.Keys + defs.Keys :: (if n in reg then Calls(reg[n]) else {}) + (if n in defs then Calls(defs[n]) else {})
  }

  /** No new definition of a registered name leads back to it, through old and new definitions. */
  ghost predicate Harmless(reg: Registry, defs: Registry) {
    forall n :: n in defs && n in reg ==> !Leads(BothCalls(reg, defs), Calls(defs[n]), n)
  }

  /** The registry after the definitions `done` were registered. */
  function After(reg: Registry, defs: Registry, done: set<string>): Registry {
    reg + Restrict(defs, done)
  }

  /** What a mixture of old and new definitions leads to, old and new together lead to. */
  lemma HarmlessMixture(reg: Registry, defs: Registry, done: set<string>, n: string)
    requires Harmless(reg, defs) && n in defs && n in reg
    ensures !Leads(CallsOf(After(reg, defs, done)), Calls(defs[n]), n)
  {
    assert Extends(BothCalls(reg, defs), CallsOf(After(reg, defs, done)));
    LeadsInMore(BothCalls(reg, defs), CallsOf(After(reg, defs, done)), Calls(defs[n]), n);
  }

  lemma HarmlessOne(reg: Registry, defs: Registry, done: set<string>, n: string)
    requires Harmless(reg, defs) && n in defs && n !in done
    ensures n in After(reg, defs, done) ==> !Leads(CallsOf(After(reg, defs, done)), Calls(defs[n]), n)
  {
    if n in reg {
      HarmlessMixture(reg, defs, done, n);
    }
  }

  lemma AfterOneMore(reg: Registry, defs: Registry, done: set<string>, n: string)
    requires n in defs
    ensures After(reg, defs, done)[n := defs[n]] == After(reg, defs, done + {n})
  {
  }

  /** What is left after some of the definitions were registered is harmless again. */
  lemma HarmlessRest(reg: Registry, defs: Registry, left: set<string>)
    requires Harmless(reg, defs)
    ensures Harmless(After(reg, defs, defs.Keys - left), Restrict(defs, left))
  {
    var now, rest := After(reg, defs, defs.Keys - left), Restrict(defs, left);
    assert Extends(BothCalls(reg, defs), BothCalls(now, rest));
    forall n | n in rest && n in now
      ensures !Leads(BothCalls(now, rest), Calls(rest[n]), n)
    {
      LeadsInMore(BothCalls(reg, defs), BothCalls(now, rest), Calls(rest[n]), n);
    }
  }

  // ------------------------------------------------------------------------- an example

  function LoopField(format: string): Field {
    Field("next", "^", format, false, [])
  }

  /** Two definitions that name each other: compiling either never returns. */
  lemma {:induction false} MutualDefinitionsDiverge(nm: Naming, reg: Registry, a: string, b: string, fuel: nat)
    requires a in reg && b in reg && reg[a] == [LoopField(b)] && reg[b] == [LoopField(a)]
    requires a !in TypeNameMap() && b !in TypeNameMap() && a != "" && b != "" && a != STRUCT && b != STRUCT
    ensures CompileFields(nm, reg, fuel, reg[a], false) == Failed(Diverges)
    decreases fuel
  {
    OneField(nm, reg, fuel, LoopField(b));
    if fuel > 0 {
      MutualDefinitionsDiverge(nm, reg, b, a, fuel - 1);
    }
  }

  lemma DepsOfOne(f: Field)
    ensures Deps([f]) == FieldDeps(f) && Calls([f]) == FieldCalls(f)
  {
    assert [f][..0] == [];
    assert Deps([]) == {} && Calls([]) == {};
  }

  lemma ChainIsGrounded(a: string, b: string, leaf: Field)
    requires a != b && a !in TypeNameMap() && a != "" && a != STRUCT && FieldDeps(leaf) == {}
    ensures Grounded(map[a := [leaf], b := [LoopField(a)]])
  {
    DepsOfOne(leaf);
    DepsOfOne(LoopField(a));
    var none: Registry, first: Registry := map[], map[a := [leaf]];
    assert Ranks(CallsOf(none), _ => 0);
    FreshKeepsGrounded(none, a, [leaf]);
    assert none[a := [leaf]] == first;
    FreshKeepsGrounded(first, b, [LoopField(a)]);
    assert first[b := [LoopField(a)]] == map[a := [leaf], b := [LoopField(a)]];
  }

  /** Re-registering a name can destroy groundedness although the new definition compiles. */
  lemma ReRegistrationCanLoop(nm: Naming, a: string, b: string, leaf: Field)
    requires a != b && a !in TypeNameMap() && b !in TypeNameMap() && a != "" && b != "" && a != STRUCT && b != STRUCT
    requires leaf == Field("leaf", "## 8", "uint8", false, [])
    ensures var reg: Registry := map[a := [leaf], b := [LoopField(a)]];
            && Grounded(reg)
            && Meaning(nm, reg, [LoopField(b)]).Type?
            && Meaning(nm, reg[a := [LoopField(b)]], [LoopField(b)]).Diverges?
  {
    var reg: Registry := map[a := [leaf], b := [LoopField(a)]];
    ChainIsGrounded(a, b, leaf);
    OneField(nm, reg, 0, leaf);
    OneField(nm, reg, 1, LoopField(a));
    OneField(nm, reg, 2, LoopField(b));
    MeaningIs(nm, reg, 2, [LoopField(b)]);
    var again := reg[a := [LoopField(b)]];
    forall fuel: nat
      ensures Compile(nm, again, fuel, [LoopField(b)], false) == Diverges
    {
      MutualDefinitionsDiverge(nm, again, a, b, fuel);
    }
  }
}
