/** Registries of definitions: when compiling terminates, and when it finds what it needs. */
module TlbRegistry {
  import opened TlbTypes
  import opened TlbSettings
  import opened TlbCompile
  import opened Graphs

  // ------------------------------------------------------------------- meaning without fuel

  /** Enough fuel is enough: more does not change the outcome. */
  lemma {:induction false} MoreFuel(nm: Naming, reg: Registry, fuel: nat, more: nat, schema: Schema, skip: bool)
    requires fuel <= more && CompileFields(nm, reg, fuel, schema, skip) != Failed(Diverges)
    ensures CompileFields(nm, reg, more, schema, skip) == CompileFields(nm, reg, fuel, schema, skip)
    decreases fuel, schema, 0
  {
    if schema != [] {
      var n := |schema| - 1;
      MoreFuel(nm, reg, fuel, more, schema[..n], skip);
      var before := CompileFields(nm, reg, fuel, schema[..n], skip);
      if before.Compiled? && !(skip && schema[n].optional) {
        MoreFuelForType(nm, reg, fuel, more, schema[n], skip);
      }
    }
  }

  lemma {:induction false} MoreFuelForType(nm: Naming, reg: Registry, fuel: nat, more: nat, f: Field, skip: bool)
    requires fuel <= more && CompileType(nm, reg, fuel, f, skip) != Diverges
    ensures CompileType(nm, reg, more, f, skip) == CompileType(nm, reg, fuel, f, skip)
    decreases fuel, f, 1
  {
    var format := EffectiveFormat(f);
    if format == STRUCT {
      MoreFuel(nm, reg, fuel, more, f.fields, skip);
    } else if BuiltinType(format).None? && format != "" && format in reg {
      MoreFuel(nm, reg, fuel - 1, more - 1, reg[format], false);
    }
  }

  /** What compiling gives: the outcome for any fuel that suffices; it diverges if none does. */
  ghost function Meaning(nm: Naming, reg: Registry, schema: Schema): Outcome {
    if fuel: nat :| Compile(nm, reg, fuel, schema, false) != Diverges then Compile(nm, reg, fuel, schema, false) else Diverges
  }

  lemma MeaningIs(nm: Naming, reg: Registry, fuel: nat, schema: Schema)
    requires Compile(nm, reg, fuel, schema, false) != Diverges
    ensures Meaning(nm, reg, schema) == Compile(nm, reg, fuel, schema, false)
  {
    var other: nat :| Compile(nm, reg, other, schema, false) != Diverges && Meaning(nm, reg, schema) == Compile(nm, reg, other, schema, false);
    assert Compile(nm, reg, other, schema, false) == MakeStruct(CompileFields(nm, reg, other, schema, false));
    if other <= fuel {
      MoreFuel(nm, reg, other, fuel, schema, false);
    } else {
      MoreFuel(nm, reg, fuel, other, schema, false);
    }
  }

  // ----------------------------------------------------------------------- dependencies

  /** The definitions a schema looks up. */
  function Deps(schema: Schema): set<string>
    decreases schema, 0
  {
    if schema == [] then {} else Deps(schema[..|schema| - 1]) + FieldDeps(schema[|schema| - 1])
  }

  function FieldDeps(f: Field): set<string>
    decreases f, 1
  {
    var format := EffectiveFormat(f);
    if format == STRUCT then Deps(f.fields)
    else if BuiltinType(format).Some? then {}
    else if format == "" then UnionNames(f.tlbType)
    else {format}
  }

  /** The definitions that compiling a schema goes into: those it looks up, except the members of unions. */
  function Calls(schema: Schema): set<string>
    decreases schema, 0
  {
    if schema == [] then {} else Calls(schema[..|schema| - 1]) + FieldCalls(schema[|schema| - 1])
  }

  function FieldCalls(f: Field): set<string>
    decreases f, 1
  {
    var format := EffectiveFormat(f);
    if format == STRUCT then Calls(f.fields)
    else if BuiltinType(format).Some? || format == "" then {}
    else {format}
  }

  lemma {:induction false} CallsAreDeps(schema: Schema)
    ensures Calls(schema) <= Deps(schema)
    decreases schema, 0
  {
    if schema != [] {
      CallsAreDeps(schema[..|schema| - 1]);
      FieldCallsAreDeps(schema[|schema| - 1]);
    }
  }

  lemma {:induction false} FieldCallsAreDeps(f: Field)
    ensures FieldCalls(f) <= FieldDeps(f)
    decreases f, 1
  {
    if EffectiveFormat(f) == STRUCT {
      CallsAreDeps(f.fields);
    }
  }

  /** Every definition only needs registered definitions. */
  ghost predicate Closed(reg: Registry) {
    forall n :: n in reg ==> Deps(reg[n]) <= reg.Keys
  }

  /** What compiling each definition goes into. */
  function CallsOf(reg: Registry): Graph<string> {
    map n | n in reg :: Calls(reg[n])
  }

  /** And compiling it only goes into definitions of smaller rank. */
  ghost predicate GroundedBy(reg: Registry, rank: string -> nat) {
    Closed(reg) && Ranks(CallsOf(reg), rank)
  }

  ghost predicate Grounded(reg: Registry) {
    Closed(reg) && Acyclic(CallsOf(reg))
  }

  // ------------------------------------------------- what is wrong with a schema by itself

  /** Nothing is wrong with the schema but, perhaps, missing definitions. */
  ghost predicate Sane(nm: Naming, schema: Schema)
    decreases schema, 0
  {
    && (forall i, j :: 0 <= i < j < |schema| ==> nm.camel(schema[i].name) != nm.camel(schema[j].name))
    && (forall i :: 0 <= i < |schema| ==> SaneField(nm, schema[i]))
  }

  ghost predicate SaneField(nm: Naming, f: Field)
    decreases f, 1
  {
    var format := EffectiveFormat(f);
    if format == STRUCT then Sane(nm, f.fields) else format == "" ==> SaneTag(f.tlbType)
  }

  ghost predicate SaneRegistry(nm: Naming, reg: Registry) {
    forall n :: n in reg ==> Sane(nm, reg[n])
  }

  /** The ranks of what compiling a schema goes into, where registered, stay below `fuel`. */
  ghost predicate Within(reg: Registry, rank: string -> nat, calls: set<string>, fuel: nat) {
    forall m :: m in calls && m in reg ==> rank(m) < fuel
  }

  /** In a grounded registry compiling terminates. */
  lemma {:induction false} Terminates(nm: Naming, reg: Registry, rank: string -> nat, fuel: nat, schema: Schema, skip: bool)
    requires GroundedBy(reg, rank) && Within(reg, rank, Calls(schema), fuel)
    ensures CompileFields(nm, reg, fuel, schema, skip) != Failed(Diverges)
    decreases fuel, schema, 0
  {
    if schema != [] {
      Terminates(nm, reg, rank, fuel, schema[..|schema| - 1], skip);
      TypeTerminates(nm, reg, rank, fuel, schema[|schema| - 1], skip);
    }
  }

  lemma {:induction false} TypeTerminates(nm: Naming, reg: Registry, rank: string -> nat, fuel: nat, f: Field, skip: bool)
    requires GroundedBy(reg, rank) && Within(reg, rank, FieldCalls(f), fuel)
    ensures CompileType(nm, reg, fuel, f, skip) != Diverges
    decreases fuel, f, 1
  {
    var format := EffectiveFormat(f);
    if format == STRUCT {
      Terminates(nm, reg, rank, fuel, f.fields, skip);
    } else if BuiltinType(format).None? {
      if format == "" {
        SettingsDependOnUnionNames(reg.Keys, f.tlbType);
      } else if format in reg {
        assert format in FieldCalls(f);
        assert CallsOf(reg)[format] == Calls(reg[format]);
        Terminates(nm, reg, rank, fuel - 1, reg[format], false);
      }
    }
  }

  /** One field per schema field, under its camel case name. */
  lemma {:induction false} FieldNames(nm: Naming, reg: Registry, fuel: nat, schema: Schema)
    requires CompileFields(nm, reg, fuel, schema, false).Compiled?
    ensures var fields := CompileFields(nm, reg, fuel, schema, false).fields;
            |fields| == |schema| && forall i :: 0 <= i < |schema| ==> fields[i].name == nm.camel(schema[i].name)
    decreases |schema|
  {
    if schema != [] {
      FieldNames(nm, reg, fuel, schema[..|schema| - 1]);
    }
  }

  /** A sane schema compiles, or reports a missing definition that is indeed missing, unless it diverges. */
  lemma {:induction false} SaneFieldsOutcome(nm: Naming, reg: Registry, fuel: nat, schema: Schema)
    requires Closed(reg) && SaneRegistry(nm, reg) && Sane(nm, schema)
    ensures var r := CompileFields(nm, reg, fuel, schema, false);
            || r == Failed(Diverges)
            || (if Deps(schema) <= reg.Keys then r.Compiled?
                else r.Failed? && r.outcome.Missing? && r.outcome.name in Deps(schema) - reg.Keys)
    decreases fuel, schema, 0
  {
    if schema != [] {
      SaneFieldsOutcome(nm, reg, fuel, schema[..|schema| - 1]);
      SaneTypeOutcome(nm, reg, fuel, schema[|schema| - 1]);
    }
  }

  lemma {:induction false} SaneTypeOutcome(nm: Naming, reg: Registry, fuel: nat, f: Field)
    requires Closed(reg) && SaneRegistry(nm, reg) && SaneField(nm, f)
    ensures var r := CompileType(nm, reg, fuel, f, false);
            || r == Diverges
            || (if FieldDeps(f) <= reg.Keys then r.Type?
                else r.Missing? && r.name in FieldDeps(f) - reg.Keys)
    decreases fuel, f, 1
  {
    var format := EffectiveFormat(f);
    NotFormats();
    if format == STRUCT {
      SaneFieldsOutcome(nm, reg, fuel, f.fields);
      SaneIsNoPanic(nm, reg, fuel, f.fields);
    } else if BuiltinType(format).None? {
      if format == "" {
        SettingsDependOnUnionNames(reg.Keys, f.tlbType);
      } else if format in reg && fuel > 0 {
        SaneFieldsOutcome(nm, reg, fuel - 1, reg[format]);
        SaneIsNoPanic(nm, reg, fuel - 1, reg[format]);
      }
    }
  }

  lemma SaneIsNoPanic(nm: Naming, reg: Registry, fuel: nat, schema: Schema)
    requires Sane(nm, schema)
    ensures CompileFields(nm, reg, fuel, schema, false).Compiled? ==> DistinctNames(CompileFields(nm, reg, fuel, schema, false).fields)
  {
    if CompileFields(nm, reg, fuel, schema, false).Compiled? { FieldNames(nm, reg, fuel, schema); }
  }

  /**
   In a grounded registry of sane definitions a sane schema compiles exactly when everything it
   needs is registered, and otherwise a missing definition is reported that is indeed missing.
   */
  lemma SaneMeaning(nm: Naming, reg: Registry, schema: Schema)
    requires Grounded(reg) && SaneRegistry(nm, reg) && Sane(nm, schema)
    ensures var r := Meaning(nm, reg, schema);
            if Deps(schema) <= reg.Keys then r.Type? && r.ty.StructOf? && |r.ty.fields| == |schema|
            else r.Missing? && r.name in Deps(schema) - reg.Keys
  {
    var fuel := MeaningTerminates(nm, reg, schema);
    SaneFieldsOutcome(nm, reg, fuel, schema);
    if Deps(schema) <= reg.Keys { FieldNames(nm, reg, fuel, schema); }
  }

  lemma MeaningTerminates(nm: Naming, reg: Registry, schema: Schema) returns (fuel: nat)
    requires Grounded(reg)
    ensures Compile(nm, reg, fuel, schema, false) != Diverges
    ensures CompileFields(nm, reg, fuel, schema, false) != Failed(Diverges)
    ensures Meaning(nm, reg, schema) == Compile(nm, reg, fuel, schema, false)
  {
    var rank :| Ranks(CallsOf(reg), rank);
    fuel := RankBound(rank, reg.Keys);
    Terminates(nm, reg, rank, fuel, schema, false);
    MeaningIs(nm, reg, fuel, schema);
  }

  /** What compiles needs nothing unregistered, so registering it under a fresh name is safe. */
  lemma {:induction false} CompiledHasDeps(nm: Naming, reg: Registry, fuel: nat, schema: Schema)
    requires CompileFields(nm, reg, fuel, schema, false).Compiled?
    ensures Deps(schema) <= reg.Keys
    decreases fuel, schema, 0
  {
    if schema != [] {
      CompiledHasDeps(nm, reg, fuel, schema[..|schema| - 1]);
      TypedHasDeps(nm, reg, fuel, schema[|schema| - 1]);
    }
  }

  lemma {:induction false} TypedHasDeps(nm: Naming, reg: Registry, fuel: nat, f: Field)
    requires CompileType(nm, reg, fuel, f, false).Type?
    ensures FieldDeps(f) <= reg.Keys
    decreases fuel, f, 1
  {
    var format := EffectiveFormat(f);
    if format == STRUCT {
      CompiledHasDeps(nm, reg, fuel, f.fields);
    } else if BuiltinType(format).None? && format == "" {
      TypedTagHasNames(reg.Keys, f.tlbType);
    }
  }

  lemma {:induction false} TypedTagHasNames(names: set<string>, text: string)
    requires ParseSettings(names, text).Type?
    ensures UnionNames(text) <= names
    decreases |text|
  {
    var tag := TrimSpace(text);
    if IsUnion(tag) {
      FirstMissingFinds(names, UnionMembers(tag));
    } else if Nested(tag).Some? {
      TypedTagHasNames(names, Nested(tag).value);
    }
  }
}
