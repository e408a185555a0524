/** What a schema compiles to, field by field: the type of each field, and the struct they make up. */
module TlbMeaning {
  import opened TlbTypes
  import opened TlbSettings
  import opened TlbCompile
  import opened TlbRegistry

  // ------------------------------------------------------------------------- one field

  /** The struct field that a field of a schema becomes, given its type. */
  function Named(nm: Naming, f: Field, t: Ty): StructField {
    StructField(nm.camel(f.name), f.tlbType, nm.snake(f.name), t)
  }

  /** The outcome for a schema of one field, given that for the field. */
  function Alone(nm: Naming, f: Field, o: Outcome): Outcome {
    match o
    case Type(t) => Type(StructOf([Named(nm, f, t)]))
    case _ => o
  }

  lemma OneField(nm: Naming, reg: Registry, fuel: nat, f: Field)
    ensures CompileFields(nm, reg, fuel, [f], false) ==
              match CompileType(nm, reg, fuel, f, false)
              case Type(t) => Compiled([Named(nm, f, t)])
              case other => Failed(other)
  {
    assert [f][..0] == [];
    assert CompileFields(nm, reg, fuel, [], false) == Compiled([]);
  }

  lemma OneFieldOnly(nm: Naming, reg: Registry, fuel: nat, f: Field)
    ensures Compile(nm, reg, fuel, [f], false) == Alone(nm, f, CompileType(nm, reg, fuel, f, false))
  {
    OneField(nm, reg, fuel, f);
    match CompileType(nm, reg, fuel, f, false)
    case Type(t) => assert DistinctNames([Named(nm, f, t)]);
    case _ =>
  }

  /** Fuel that suffices for two schemas. */
  lemma FuelForBoth(nm: Naming, reg: Registry, a: Schema, b: Schema) returns (fuel: nat)
    requires Grounded(reg)
    ensures CompileFields(nm, reg, fuel, a, false) != Failed(Diverges) && CompileFields(nm, reg, fuel, b, false) != Failed(Diverges)
    ensures Meaning(nm, reg, a) == Compile(nm, reg, fuel, a, false) != Diverges
    ensures Meaning(nm, reg, b) == Compile(nm, reg, fuel, b, false) != Diverges
  {
    var x := MeaningTerminates(nm, reg, a);
    var y := MeaningTerminates(nm, reg, b);
    fuel := if x < y then y else x;
    MoreFuel(nm, reg, x, fuel, a, false);
    MoreFuel(nm, reg, y, fuel, b, false);
  }

  /** A field with sub-fields, under the struct format or none, is a pointer to what these compile to. */
  lemma SubFieldsField(nm: Naming, reg: Registry, f: Field)
    requires Grounded(reg) && (f.format == STRUCT || (f.format == "" && f.fields != []))
    ensures Meaning(nm, reg, [f]) == Alone(nm, f, match Meaning(nm, reg, f.fields)
                                                  case Type(t) => Type(PointerTo(t))
                                                  case other => other)
  {
    var fuel := FuelForBoth(nm, reg, [f], f.fields);
    OneFieldOnly(nm, reg, fuel, f);
  }

  /** A built-in format alone decides. */
  lemma BuiltinField(nm: Naming, reg: Registry, f: Field)
    requires Grounded(reg) && f.format in TypeNameMap()
    ensures Meaning(nm, reg, [f]) == Alone(nm, f, Type(TypeNameMap()[f.format]))
  {
    NotFormats();
    var fuel := MeaningTerminates(nm, reg, [f]);
    OneFieldOnly(nm, reg, fuel, f);
  }

  /** Without format and sub-fields the tag decides; a tag that gives neither a type nor an error is an error. */
  lemma DefaultField(nm: Naming, reg: Registry, f: Field)
    requires Grounded(reg) && f.format == "" && f.fields == []
    ensures Meaning(nm, reg, [f]) == Alone(nm, f, match ParseSettings(reg.Keys, f.tlbType)
                                                  case NoType => Invalid
                                                  case other => other)
  {
    NotFormats();
    var fuel := MeaningTerminates(nm, reg, [f]);
    OneFieldOnly(nm, reg, fuel, f);
  }

  /** Any other format names a definition: the type is a pointer to what that compiles to, or a map of such pointers under a dict tag. */
  lemma DefinitionField(nm: Naming, reg: Registry, f: Field)
    requires Grounded(reg) && f.format !in TypeNameMap() && f.format != "" && f.format != STRUCT
    ensures f.format !in reg ==> Meaning(nm, reg, [f]) == Missing(f.format)
    ensures f.format in reg ==>
              Meaning(nm, reg, [f]) == Alone(nm, f, match Meaning(nm, reg, reg[f.format])
                                                    case Type(t) => Type(if "dict" <= f.tlbType then MapOf(PointerTo(t)) else PointerTo(t))
                                                    case other => other)
  {
    if f.format in reg {
      var fuel := FuelForBoth(nm, reg, [f], reg[f.format]);
      MoreFuel(nm, reg, fuel, fuel + 1, [f], false);
      OneFieldOnly(nm, reg, fuel + 1, f);
      assert Compile(nm, reg, fuel + 1, [f], false) == Compile(nm, reg, fuel, [f], false);
    } else {
      OneFieldOnly(nm, reg, 0, f);
      MeaningIs(nm, reg, 0, [f]);
    }
  }

  // ------------------------------------------------------------------------- all fields

  /** The first schema that fails decides; otherwise the fields of both follow each other. */
  lemma {:induction false} FieldsOfBoth(nm: Naming, reg: Registry, fuel: nat, a: Schema, b: Schema)
    ensures CompileFields(nm, reg, fuel, a + b, false) ==
              var x, y := CompileFields(nm, reg, fuel, a, false), CompileFields(nm, reg, fuel, b, false);
              if x.Failed? then x else if y.Failed? then y else Compiled(x.fields + y.fields)
    decreases |b|
  {
    if b == [] {
      assert a + b == a;
    } else {
      assert (a + b)[..|a + b| - 1] == a + b[..|b| - 1];
      FieldsOfBoth(nm, reg, fuel, a, b[..|b| - 1]);
    }
  }

  /**
   The struct of a schema has the fields of its parts, in order; a field that fails on its own makes the
   schema fail; two fields of one name stop the program.
   */
  lemma MeaningOfBoth(nm: Naming, reg: Registry, a: Schema, b: Schema, x: seq<StructField>, y: seq<StructField>)
    requires Grounded(reg)
    requires Meaning(nm, reg, a) == Type(StructOf(x)) && Meaning(nm, reg, b) == Type(StructOf(y))
    ensures Meaning(nm, reg, a + b) == if DistinctNames(x + y) then Type(StructOf(x + y)) else Panic
  {
    var fuel := FuelForBoth(nm, reg, a, b);
    FieldsOfBoth(nm, reg, fuel, a, b);
    MeaningIs(nm, reg, fuel, a + b);
  }

  lemma FirstFailureDecides(nm: Naming, reg: Registry, a: Schema, f: Field, b: Schema, x: seq<StructField>)
    requires Grounded(reg)
    requires Meaning(nm, reg, a) == Type(StructOf(x)) && !Meaning(nm, reg, [f]).Type?
    ensures Meaning(nm, reg, a + [f] + b) == Meaning(nm, reg, [f])
  {
    var fuel := FuelForBoth(nm, reg, a, [f]);
    OneFieldOnly(nm, reg, fuel, f);
    assert [f][..0] == [];
    FieldsOfBoth(nm, reg, fuel, a, [f]);
    FieldsOfBoth(nm, reg, fuel, a + [f], b);
    MeaningIs(nm, reg, fuel, a + [f] + b);
  }

  // ------------------------------------------------------------------------- optional fields

  /** A schema without its optional fields, at any depth; a struct stays one even if it loses all its fields. */
  function WithoutOptional(schema: Schema): Schema
    decreases schema, 0
  {
    if schema == [] then []
    else
      var f := schema[|schema| - 1];
      WithoutOptional(schema[..|schema| - 1]) + if f.optional then [] else [Required(f)]
  }

  function Required(f: Field): Field
    decreases f, 1
  {
    f.(format := if f.fields != [] && f.format == "" then STRUCT else f.format, fields := WithoutOptional(f.fields))
  }

  /** What a field adds to the fields before it, given the outcome for it. */
  function Extended(nm: Naming, before: Fields, f: Field, skip: bool, o: Outcome): Fields {
    if before.Failed? || (skip && f.optional) then before
    else
      match o
      case Type(t) => Compiled(before.fields + [Named(nm, f, t)])
      case other => Failed(other)
  }

  lemma OneMoreField(nm: Naming, reg: Registry, fuel: nat, init: Schema, f: Field, skip: bool)
    ensures CompileFields(nm, reg, fuel, init + [f], skip) ==
              Extended(nm, CompileFields(nm, reg, fuel, init, skip), f, skip, CompileType(nm, reg, fuel, f, skip))
  {
    assert (init + [f])[..|init|] == init;
  }

  lemma OneMoreRequired(init: Schema, f: Field)
    ensures WithoutOptional(init + [f]) == WithoutOptional(init) + if f.optional then [] else [Required(f)]
  {
    assert (init + [f])[..|init|] == init;
  }

  /** Skipping optional fields compiles the schema without them; definitions are compiled whole. */
  lemma {:induction false} SkippingExactly(nm: Naming, reg: Registry, fuel: nat, schema: Schema)
    ensures CompileFields(nm, reg, fuel, schema, true) == CompileFields(nm, reg, fuel, WithoutOptional(schema), false)
    decreases schema, 0
  {
    if schema != [] {
      var init, f := schema[..|schema| - 1], schema[|schema| - 1];
      assert schema == init + [f];
      SkippingExactly(nm, reg, fuel, init);
      SkippingInField(nm, reg, fuel, f);
      OneMoreField(nm, reg, fuel, init, f, true);
      OneMoreRequired(init, f);
      OneMoreField(nm, reg, fuel, WithoutOptional(init), Required(f), false);
      assert f.optional ==> WithoutOptional(schema) == WithoutOptional(init);
    }
  }

  lemma {:induction false} SkippingInField(nm: Naming, reg: Registry, fuel: nat, f: Field)
    ensures CompileType(nm, reg, fuel, f, true) == CompileType(nm, reg, fuel, Required(f), false)
    decreases f, 1
  {
    SameFormat(f);
    if EffectiveFormat(f) == STRUCT {
      SkippingExactly(nm, reg, fuel, f.fields);
    } else {
      FormatDecides(nm, reg, fuel, f, Required(f));
    }
  }

  lemma SameFormat(f: Field)
    ensures EffectiveFormat(Required(f)) == EffectiveFormat(f)
  {
    assert f.fields == [] ==> WithoutOptional(f.fields) == [];
  }

  lemma FormatDecides(nm: Naming, reg: Registry, fuel: nat, f: Field, g: Field)
    requires EffectiveFormat(f) == EffectiveFormat(g) != STRUCT && f.tlbType == g.tlbType
    ensures CompileType(nm, reg, fuel, f, true) == CompileType(nm, reg, fuel, g, false)
  {
  }
}
