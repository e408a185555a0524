/** Compiling a schema to a struct type, and describing a struct type as a schema. */
module TlbCompile {
  import opened Counting
  import opened Wrappers
  import opened TlbTypes
  import opened TlbSettings

  datatype Field = Field(name: string, tlbType: string, format: string, optional: bool, fields: Schema)

  type Schema = seq<Field>

  /** The definitions that schemas can name as formats and inside unions. */
  type Registry = map<string, Schema>

  /** The library's conversions between snake and camel case. */
  datatype Naming = Naming(camel: string -> string, snake: string -> string)

  ghost predicate Stable(nm: Naming) {
    && (forall s :: nm.snake(nm.camel(s)) == nm.snake(s))
    && (forall s :: nm.camel(nm.snake(s)) == nm.camel(s))
    && (forall s :: nm.snake(nm.snake(s)) == nm.snake(s))
  }

  function BuiltinType(format: string): Option<Ty> {
    if format in TypeNameMap() then Some(TypeNameMap()[format]) else None
  }

  /** The format the compiler works with: a field with sub-fields and no format is a struct. */
  function EffectiveFormat(f: Field): string {
    if |f.fields| > 0 && f.format == "" then STRUCT else f.format
  }

  type Failure = o: Outcome | !o.Type? witness Invalid

  datatype Fields = Compiled(fields: seq<StructField>) | Failed(outcome: Failure)

  predicate DistinctNames(fields: seq<StructField>) {
    forall i, j :: 0 <= i < j < |fields| ==> fields[i].name != fields[j].name
  }

  /** Building a struct type panics on two fields of one name. */
  function MakeStruct(r: Fields): Outcome {
    match r
    case Failed(o) => o
    case Compiled(fields) => if DistinctNames(fields) then Type(StructOf(fields)) else Panic
  }

  function Pointer(o: Outcome): Outcome {
    match o
    case Type(t) => Type(PointerTo(t))
    case _ => o
  }

  /** A definition compiles to a pointer, or to a map of pointers under a dict tag. */
  function UseDefinition(o: Outcome, tag: string): Outcome {
    match o
    case Type(t) => if HasPrefix(tag, "dict") then Type(MapOf(PointerTo(t))) else Type(PointerTo(t))
    case _ => o
  }

  /** No type without an error counts as an error here. */
  function DefaultType(o: Outcome): Outcome {
    if o.NoType? then Invalid else o
  }

  /**
   The meaning of compiling `schema`.  `fuel` bounds how deep definitions are followed inside
   definitions; Diverges says that the bound was met.
   */
  function CompileFields(nm: Naming, reg: Registry, fuel: nat, schema: Schema, skip: bool): Fields
    decreases fuel, schema, 0
  {
    if schema == [] then Compiled([])
    else
      var before := CompileFields(nm, reg, fuel, schema[..|schema| - 1], skip);
      var f := schema[|schema| - 1];
      if before.Failed? || (skip && f.optional) then before
      else
        match CompileType(nm, reg, fuel, f, skip)
        case Type(t) => Compiled(before.fields + [StructField(nm.camel(f.name), f.tlbType, nm.snake(f.name), t)])
        case other => Failed(other)
  }

  /** The type of one field: a struct, a built-in format, the default of its tag, or a definition. */
  function CompileType(nm: Naming, reg: Registry, fuel: nat, f: Field, skip: bool): Outcome
    decreases fuel, f, 1
  {
    var format := EffectiveFormat(f);
    if format == STRUCT then Pointer(MakeStruct(CompileFields(nm, reg, fuel, f.fields, skip)))
    else if BuiltinType(format).Some? then Type(BuiltinType(format).value)
    else if format == "" then DefaultType(ParseSettings(reg.Keys, f.tlbType))
    else if format !in reg then Missing(format)
    else if fuel == 0 then Diverges
    else UseDefinition(MakeStruct(CompileFields(nm, reg, fuel - 1, reg[format], false)), f.tlbType)
  }

  function Compile(nm: Naming, reg: Registry, fuel: nat, schema: Schema, skip: bool): Outcome {
    MakeStruct(CompileFields(nm, reg, fuel, schema, skip))
  }

  /** `fields` come before those of the schema, as the operation tag does. */
  function CompileAfter(nm: Naming, reg: Registry, fuel: nat, fields: seq<StructField>, schema: Schema, skip: bool): Outcome {
    match CompileFields(nm, reg, fuel, schema, skip)
    case Failed(o) => o
    case Compiled(more) => MakeStruct(Compiled(fields + more))
  }

  lemma AfterNothing(nm: Naming, reg: Registry, fuel: nat, schema: Schema, skip: bool)
    ensures CompileAfter(nm, reg, fuel, [], schema, skip) == Compile(nm, reg, fuel, schema, skip)
  {
    var r := CompileFields(nm, reg, fuel, schema, skip);
    assert r.Compiled? ==> [] + r.fields == r.fields;
  }

  // ------------------------------------------------------------------------- decompiling

  predicate Bracketed(tag: string) {
    HasPrefix(tag, "[") && HasSuffix(tag, "]")
  }

  function DescribeFields(nm: Naming, fields: seq<StructField>): Option<Schema>
    decreases fields, 0
  {
    if fields == [] then Some([])
    else
      match (DescribeFields(nm, fields[..|fields| - 1]), DescribeField(nm, fields[|fields| - 1]))
      case (Some(before), Some(f)) => Some(before + [f])
      case (_, _) => None
  }

  function DescribeField(nm: Naming, f: StructField): Option<Field>
    decreases f, 1
  {
    var name := nm.snake(f.name);
    if FormatOf(f.ty).Some? then Some(Field(name, f.tag, FormatOf(f.ty).value, false, []))
    else if f.ty.PointerTo? && f.ty.elem.StructOf? then
      match DescribeFields(nm, f.ty.elem.fields)
      case Some(sub) => Some(Field(name, f.tag, STRUCT, false, sub))
      case None => None
    else if f.ty.StructOf? then
      match DescribeFields(nm, f.ty.fields)
      case Some(sub) => Some(Field(name, f.tag, STRUCT, false, sub))
      case None => None
    else if Bracketed(f.tag) then Some(Field(name, f.tag, "", false, []))
    else None
  }

  function Describe(nm: Naming, t: Ty): Option<Schema>
    requires t.StructOf?
  {
    DescribeFields(nm, t.fields)
  }

  /** As the description of an operation: its leading tag field is left out. */
  function DescribeOperation(nm: Naming, t: Ty): Option<Schema>
    requires t.StructOf?
  {
    if t.fields != [] && t.fields[0].ty == Magic then DescribeFields(nm, t.fields[1..]) else DescribeFields(nm, t.fields)
  }

  // ------------------------------------------------------- the compiler as the program runs it

  /** `filled` is `schema` after the compiler has written struct formats into some of its fields. */
  ghost predicate Refills(schema: Schema, filled: Schema)
    decreases schema, 0
  {
    |schema| == |filled| && forall i :: 0 <= i < |schema| ==> RefillsField(schema[i], filled[i])
  }

  ghost predicate RefillsField(f: Field, g: Field)
    decreases f, 1
  {
    && f.name == g.name && f.tlbType == g.tlbType && f.optional == g.optional
    && (g.format == f.format || (f.format == "" && f.fields != [] && g.format == STRUCT))
    && Refills(f.fields, g.fields)
  }

  /** `filled` is `schema` after all of it was compiled: every struct that is compiled has its format. */
  ghost predicate FillsIn(schema: Schema, filled: Schema, skip: bool)
    decreases schema, 0
  {
    |schema| == |filled| && forall i :: 0 <= i < |schema| ==> FillsInField(schema[i], filled[i], skip)
  }

  ghost predicate FillsInField(f: Field, g: Field, skip: bool)
    decreases f, 1
  {
    if skip && f.optional then g == f
    else
      && g == f.(format := g.format, fields := g.fields)
      && g.format == (if f.format == "" && f.fields != [] then STRUCT else f.format)
      && (if g.format == STRUCT then FillsIn(f.fields, g.fields, skip) else g.fields == f.fields)
  }

  lemma OneMoreFilled(schema: Schema, filled: Schema, skip: bool, i: nat, g: Field)
    requires i < |schema| == |filled| && FillsIn(schema[..i], filled[..i], skip) && FillsInField(schema[i], g, skip)
    ensures FillsIn(schema[..i + 1], filled[i := g][..i + 1], skip)
  {
    assert forall j :: 0 <= j < i ==> filled[i := g][..i + 1][j] == filled[..i][j] && schema[..i + 1][j] == schema[..i][j];
  }

  lemma RefillsUpdated(schema: Schema, filled: Schema, i: nat, g: Field)
    requires Refills(schema, filled) && i < |schema| && RefillsField(schema[i], g)
    ensures Refills(schema, filled[i := g])
  {
  }

  lemma {:induction false} RefillsReflexive(schema: Schema)
    ensures Refills(schema, schema)
    decreases schema
  {
    forall i | 0 <= i < |schema|
      ensures RefillsField(schema[i], schema[i])
    {
      RefillsReflexive(schema[i].fields);
    }
  }

  /** The loop over the fields; struct formats are written into `filled` as the loop meets them. */
  method ParseDesc(nm: Naming, reg: Registry, ghost fuel: nat, fields: seq<StructField>, schema: Schema, skip: bool)
    returns (r: Outcome, filled: Schema)
    requires CompileFields(nm, reg, fuel, schema, skip) != Failed(Diverges)
    ensures r == CompileAfter(nm, reg, fuel, fields, schema, skip)
    ensures Refills(schema, filled)
    ensures CompileFields(nm, reg, fuel, schema, skip).Compiled? ==> FillsIn(schema, filled, skip)
    decreases fuel, schema, 2
  {
    filled := schema;
    RefillsReflexive(schema);
    var out := [];
    for i := 0 to |schema|
      invariant CompileFields(nm, reg, fuel, schema[..i], skip) == Compiled(out)
      invariant Refills(schema, filled) && FillsIn(schema[..i], filled[..i], skip)
    {
      var sf, failed, g := ParseNth(nm, reg, fuel, schema, skip, i);
      RefillsUpdated(schema, filled, i, g);
      if failed.Some? {
        filled := filled[i := g];
        return failed.value, filled;
      }
      OneMoreFilled(schema, filled, skip, i, g);
      filled := filled[i := g];
      out := out + sf;
    }
    AllOf(schema);
    AllOf(filled);
    r := if DistinctNames(fields + out) then Type(StructOf(fields + out)) else Panic;
  }

  /** The body of the loop for the `i`th field, which adds one field, or none if it is skipped. */
  method ParseNth(nm: Naming, reg: Registry, ghost fuel: nat, schema: Schema, skip: bool, i: nat)
    returns (sf: seq<StructField>, failed: Option<Failure>, filled: Field)
    requires CompileFields(nm, reg, fuel, schema, skip) != Failed(Diverges)
    requires i < |schema| && CompileFields(nm, reg, fuel, schema[..i], skip).Compiled?
    ensures if failed.Some? then CompileFields(nm, reg, fuel, schema, skip) == Failed(failed.value)
            else CompileFields(nm, reg, fuel, schema[..i + 1], skip) ==
                 Compiled(CompileFields(nm, reg, fuel, schema[..i], skip).fields + sf)
    ensures RefillsField(schema[i], filled) && (failed.None? ==> FillsInField(schema[i], filled, skip))
    decreases fuel, schema, 1
  {
    FieldsStep(nm, reg, fuel, schema, skip, i);
    sf, failed := [], None;
    if skip && schema[i].optional {
      RefillsReflexive(schema[i].fields);
      return sf, failed, schema[i];
    }
    var t;
    t, filled := ParseField(nm, reg, fuel, schema[i], skip);
    if t.Type? {
      sf := [StructField(nm.camel(schema[i].name), schema[i].tlbType, nm.snake(schema[i].name), t.ty)];
    } else {
      failed := Some(t);
    }
  }

  /** The type of one field, and the field with its format filled in. */
  method ParseField(nm: Naming, reg: Registry, ghost fuel: nat, f: Field, skip: bool) returns (t: Outcome, filled: Field)
    requires CompileType(nm, reg, fuel, f, skip) != Diverges
    ensures t == CompileType(nm, reg, fuel, f, skip)
    ensures RefillsField(f, filled) && (t.Type? && !(skip && f.optional) ==> FillsInField(f, filled, skip))
    decreases fuel, f, 2
  {
    filled := f;
    RefillsReflexive(f.fields);
    if |f.fields| > 0 && f.format == "" {
      filled := filled.(format := STRUCT);
    }
    if filled.format != STRUCT {
      t := MapFormatTo(nm, reg, fuel, f, filled.format, skip);
      return;
    }
    AfterNothing(nm, reg, fuel, f.fields, skip);
    var sub;
    t, sub := ParseDesc(nm, reg, fuel, [], f.fields, skip);
    filled := filled.(fields := sub);
    if t.Type? {
      t := Type(PointerTo(t.ty));
    }
  }

  lemma FieldsStep(nm: Naming, reg: Registry, fuel: nat, schema: Schema, skip: bool, i: nat)
    requires i < |schema| && CompileFields(nm, reg, fuel, schema[..i], skip).Compiled?
    ensures skip && schema[i].optional ==>
              CompileFields(nm, reg, fuel, schema[..i + 1], skip) == CompileFields(nm, reg, fuel, schema[..i], skip)
    ensures var t := CompileType(nm, reg, fuel, schema[i], skip);
            !(skip && schema[i].optional) ==>
              if t.Type? then
                CompileFields(nm, reg, fuel, schema[..i + 1], skip)
                == Compiled(CompileFields(nm, reg, fuel, schema[..i], skip).fields
                            + [StructField(nm.camel(schema[i].name), schema[i].tlbType, nm.snake(schema[i].name), t.ty)])
              else
                CompileFields(nm, reg, fuel, schema, skip) == Failed(t)
  {
    var upTo := schema[..i + 1];
    assert upTo[|upTo| - 1] == schema[i] && upTo[..|upTo| - 1] == schema[..i];
    PrefixFails(nm, reg, fuel, schema, skip, i + 1);
  }

  method MapFormatTo(nm: Naming, reg: Registry, ghost fuel: nat, f: Field, format: string, ghost skip: bool) returns (r: Outcome)
    requires format == EffectiveFormat(f) != STRUCT && CompileType(nm, reg, fuel, f, skip) != Diverges
    ensures r == CompileType(nm, reg, fuel, f, skip)
    decreases fuel, f, 0
  {
    if BuiltinType(format).Some? {
      return Type(BuiltinType(format).value);
    }
    if format == "" {
      var t := ParseSettings(reg.Keys, f.tlbType);
      return if t.NoType? then Invalid else t;
    }
    if format !in reg {
      return Missing(format);
    }
    AfterNothing(nm, reg, fuel - 1, reg[format], false);
    var t, _ := ParseDesc(nm, reg, fuel - 1, [], reg[format], false);
    if !t.Type? {
      return t;
    }
    r := if HasPrefix(f.tlbType, "dict") then Type(MapOf(PointerTo(t.ty))) else Type(PointerTo(t.ty));
  }

  /** The first field that fails decides. */
  lemma {:induction false} PrefixFails(nm: Naming, reg: Registry, fuel: nat, schema: Schema, skip: bool, i: nat)
    requires i <= |schema|
    ensures CompileFields(nm, reg, fuel, schema[..i], skip).Failed? ==>
              CompileFields(nm, reg, fuel, schema, skip) == CompileFields(nm, reg, fuel, schema[..i], skip)
    decreases |schema|
  {
    if i < |schema| {
      assert schema[..|schema| - 1][..i] == schema[..i];
      PrefixFails(nm, reg, fuel, schema[..|schema| - 1], skip, i);
    } else {
      assert schema[..i] == schema;
    }
  }
}
