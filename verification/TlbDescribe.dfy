/** Which struct types have a schema, and what the schema keeps of a type that was written by hand. */
module TlbDescribe {
  import opened Wrappers
  import opened TlbTypes
  import opened TlbSettings
  import opened TlbCompile
  import opened TlbRoundTrip

  // ------------------------------------------------------------------ describing, as the program runs it

  lemma DescribeOneMore(nm: Naming, fields: seq<StructField>, f: StructField)
    ensures DescribeFields(nm, fields + [f]) ==
              if DescribeFields(nm, fields).Some? && DescribeField(nm, f).Some?
              then Some(DescribeFields(nm, fields).value + [DescribeField(nm, f).value]) else None
  {
    var more := fields + [f];
    assert more[..|more| - 1] == fields && more[|more| - 1] == f;
  }

  lemma {:induction false} DescribeStops(nm: Naming, fields: seq<StructField>, i: nat)
    requires i <= |fields| && DescribeFields(nm, fields[..i]).None?
    ensures DescribeFields(nm, fields).None?
    decreases |fields|
  {
    if i < |fields| {
      assert fields[..|fields| - 1][..i] == fields[..i];
      DescribeStops(nm, fields[..|fields| - 1], i);
    } else {
      assert fields[..i] == fields;
    }
  }

  lemma DescribeNth(nm: Naming, fields: seq<StructField>, i: nat)
    requires i < |fields| && DescribeFields(nm, fields[..i]).Some?
    ensures var g := DescribeField(nm, fields[i]);
            if g.Some? then DescribeFields(nm, fields[..i + 1]) == Some(DescribeFields(nm, fields[..i]).value + [g.value])
            else DescribeFields(nm, fields).None?
  {
    DescribeOneMore(nm, fields[..i], fields[i]);
    assert fields[..i + 1] == fields[..i] + [fields[i]];
    if DescribeField(nm, fields[i]).None? {
      DescribeStops(nm, fields, i + 1);
    }
  }

  /** The loop over the fields; of an operation the leading tag is left out. */
  method MakeDesc(nm: Naming, fields: seq<StructField>, skipMagic: bool) returns (r: Option<Schema>)
    ensures r == if skipMagic then DescribeOperation(nm, StructOf(fields)) else DescribeFields(nm, fields)
    decreases fields, 1
  {
    var ret := [];
    ghost var first := if skipMagic && fields != [] && fields[0].ty == Magic then 1 else 0;
    ghost var described := fields[first..];
    for i := 0 to |fields|
      invariant if i < first then ret == [] else DescribeFields(nm, described[..i - first]) == Some(ret)
    {
      if skipMagic && i == 0 && fields[i].ty == Magic {
        continue;
      }
      var schema := MakeFieldDesc(nm, fields[i]);
      DescribeNth(nm, described, i - first);
      if schema.None? {
        return None;
      }
      ret := ret + [schema.value];
    }
    assert described[..|fields| - first] == described;
    assert fields[0..] == fields;
    r := Some(ret);
  }

  /** The body of the loop for one field. */
  method MakeFieldDesc(nm: Naming, f: StructField) returns (r: Option<Field>)
    ensures r == DescribeField(nm, f)
    decreases f, 0
  {
    var schema := Field(nm.snake(f.name), f.tag, "", false, []);
    if FormatOf(f.ty).Some? {
      return Some(schema.(format := FormatOf(f.ty).value));
    }
    if (f.ty.PointerTo? && f.ty.elem.StructOf?) || f.ty.StructOf? {
      var sub := MakeDesc(nm, if f.ty.StructOf? then f.ty.fields else f.ty.elem.fields, false);
      return if sub.Some? then Some(schema.(format := STRUCT, fields := sub.value)) else None;
    }
    r := if Bracketed(f.tag) then Some(schema) else None;
  }

  // ------------------------------------------------------------------ what can be described

  /** Every field, at any depth, has a type with a format, is a struct or points to one, or is tagged as a union. */
  predicate Describable(fields: seq<StructField>)
    decreases fields, 0
  {
    forall i :: 0 <= i < |fields| ==> DescribableField(fields[i])
  }

  predicate DescribableField(f: StructField)
    decreases f, 1
  {
    if f.ty.StructOf? then Describable(f.ty.fields)
    else if f.ty.PointerTo? && f.ty.elem.StructOf? then Describable(f.ty.elem.fields)
    else FormatOf(f.ty).Some? || Bracketed(f.tag)
  }

  lemma {:induction false} DescribedExactly(nm: Naming, fields: seq<StructField>)
    ensures DescribeFields(nm, fields).Some? <==> Describable(fields)
    decreases fields, 0
  {
    if fields != [] {
      var init, f := fields[..|fields| - 1], fields[|fields| - 1];
      assert fields == init + [f];
      DescribedExactly(nm, init);
      FieldDescribedExactly(nm, f);
    }
  }

  lemma {:induction false} FieldDescribedExactly(nm: Naming, f: StructField)
    ensures DescribeField(nm, f).Some? <==> DescribableField(f)
    decreases f, 1
  {
    if f.ty.StructOf? {
      DescribedExactly(nm, f.ty.fields);
    } else if f.ty.PointerTo? && f.ty.elem.StructOf? {
      DescribedExactly(nm, f.ty.elem.fields);
    }
  }

  /** No map, and no union below another word of its tag, at any depth. */
  predicate NoMaps(fields: seq<StructField>)
    decreases fields, 0
  {
    forall i :: 0 <= i < |fields| ==> NoMapsField(fields[i])
  }

  predicate NoMapsField(f: StructField)
    decreases f, 1
  {
    && !f.ty.MapOf? && (f.ty == Interface ==> Bracketed(f.tag))
    && (f.ty.PointerTo? && f.ty.elem.StructOf? ==> NoMaps(f.ty.elem.fields))
  }

  lemma LaidCases(nm: Naming, names: set<string>, f: StructField)
    requires LaidField(nm, names, f)
    ensures f.ty.PointerTo? ==> f.ty.elem.StructOf? && Laid(nm, names, f.ty.elem.fields)
    ensures !f.ty.PointerTo? ==> FormatOf(f.ty).Some? || f.ty == Interface || (f.ty.MapOf? && !Bracketed(f.tag))
  {
    assert LaidType(nm, names, f);
    assert f.ty.PointerTo? ==> FormatOf(f.ty).None?;
  }

  lemma {:induction false} LaidDescribable(nm: Naming, names: set<string>, fields: seq<StructField>)
    requires Laid(nm, names, fields)
    ensures Describable(fields) <==> NoMaps(fields)
    decreases fields
  {
    forall i | 0 <= i < |fields|
      ensures DescribableField(fields[i]) <==> NoMapsField(fields[i])
    {
      LaidCases(nm, names, fields[i]);
      if fields[i].ty.PointerTo? {
        LaidDescribable(nm, names, fields[i].ty.elem.fields);
      }
    }
  }

  /** What a schema compiles to has a description if and only if it holds neither. */
  lemma CompiledDescribedExactly(nm: Naming, reg: Registry, fuel: nat, schema: Schema, skip: bool)
    requires Stable(nm) && Compile(nm, reg, fuel, schema, skip).Type?
    ensures var t := Compile(nm, reg, fuel, schema, skip).ty;
            Describe(nm, t).Some? <==> NoMaps(t.fields)
  {
    var t := Compile(nm, reg, fuel, schema, skip).ty;
    CompiledIsLaid(nm, reg, fuel, schema, skip);
    LaidDescribable(nm, reg.Keys, t.fields);
    DescribedExactly(nm, t.fields);
  }

  // ------------------------------------------------------------------ types written by hand

  /** The layout that a description keeps: JSON names in snake case, and pointers for the structs inside. */
  function Normal(nm: Naming, fields: seq<StructField>): seq<StructField>
    decreases fields, 0
  {
    if fields == [] then [] else Normal(nm, fields[..|fields| - 1]) + [NormalField(nm, fields[|fields| - 1])]
  }

  function NormalField(nm: Naming, f: StructField): StructField
    decreases f, 1
  {
    StructField(f.name, f.tag, nm.snake(f.name),
                if f.ty.StructOf? then PointerTo(StructOf(Normal(nm, f.ty.fields)))
                else if f.ty.PointerTo? && f.ty.elem.StructOf? then PointerTo(StructOf(Normal(nm, f.ty.elem.fields)))
                else f.ty)
  }

  /** Struct types with exported names, and formats, structs and unions of registered definitions inside. */
  ghost predicate Written(nm: Naming, names: set<string>, fields: seq<StructField>)
    decreases fields, 0
  {
    DistinctNames(fields) && forall i :: 0 <= i < |fields| ==> WrittenField(nm, names, fields[i])
  }

  ghost predicate WrittenField(nm: Naming, names: set<string>, f: StructField)
    decreases f, 1
  {
    && nm.camel(nm.snake(f.name)) == f.name
    && (if f.ty.StructOf? then Written(nm, names, f.ty.fields)
        else if f.ty.PointerTo? && f.ty.elem.StructOf? then Written(nm, names, f.ty.elem.fields)
        else FormatOf(f.ty).Some? || (f.ty == Interface && Bracketed(f.tag) && ParseSettings(names, f.tag) == Type(Interface)))
  }

  lemma {:induction false} NormalNames(nm: Naming, fields: seq<StructField>)
    ensures |Normal(nm, fields)| == |fields|
    ensures forall i :: 0 <= i < |fields| ==> Normal(nm, fields)[i].name == fields[i].name
  {
    if fields != [] {
      NormalNames(nm, fields[..|fields| - 1]);
    }
  }

  /** The description of a struct type compiles to its layout, in any registry with the definitions it names. */
  lemma {:induction false} DescriptionKeepsLayout(nm: Naming, names: set<string>, fields: seq<StructField>, reg: Registry, fuel: nat, skip: bool)
    requires Stable(nm) && Written(nm, names, fields) && names <= reg.Keys
    ensures DescribeFields(nm, fields).Some?
    ensures CompileFields(nm, reg, fuel, DescribeFields(nm, fields).value, skip) == Compiled(Normal(nm, fields))
    decreases fields, 0
  {
    if fields != [] {
      var init, f := fields[..|fields| - 1], fields[|fields| - 1];
      assert fields == init + [f];
      DescriptionKeepsLayout(nm, names, init, reg, fuel, skip);
      FieldKeepsLayout(nm, names, f, reg, fuel, skip);
      OneFieldMore(nm, reg, fuel, DescribeFields(nm, init).value, DescribeField(nm, f).value, skip);
    }
  }

  lemma StructFieldCompiles(nm: Naming, reg: Registry, fuel: nat, g: Field, skip: bool, fields: seq<StructField>)
    requires g.format == STRUCT && CompileFields(nm, reg, fuel, g.fields, skip) == Compiled(fields) && DistinctNames(fields)
    ensures CompileType(nm, reg, fuel, g, skip) == Type(PointerTo(StructOf(fields)))
  {
  }

  ghost predicate KeepsLayout(nm: Naming, f: StructField, g: Field, t: Outcome) {
    t == Type(NormalField(nm, f).ty) && g.tlbType == f.tag && g.name == nm.snake(f.name) && !g.optional
  }

  lemma InnerDescription(nm: Naming, f: StructField, fields: seq<StructField>, sub: Schema)
    requires f.ty == StructOf(fields) || f.ty == PointerTo(StructOf(fields))
    requires DescribeFields(nm, fields) == Some(sub)
    ensures DescribeField(nm, f) == Some(Field(nm.snake(f.name), f.tag, STRUCT, false, sub))
    ensures NormalField(nm, f).ty == PointerTo(StructOf(Normal(nm, fields)))
  {
  }

  /** A struct inside, or a pointer to one. */
  lemma {:induction false} InnerKeepsLayout(nm: Naming, names: set<string>, f: StructField, fields: seq<StructField>, reg: Registry, fuel: nat, skip: bool)
    requires f.ty == StructOf(fields) || f.ty == PointerTo(StructOf(fields))
    requires Stable(nm) && Written(nm, names, fields) && names <= reg.Keys
    ensures DescribeField(nm, f).Some?
    ensures KeepsLayout(nm, f, DescribeField(nm, f).value, CompileType(nm, reg, fuel, DescribeField(nm, f).value, skip))
    decreases fields, 1
  {
    DescriptionKeepsLayout(nm, names, fields, reg, fuel, skip);
    NormalNames(nm, fields);
    InnerDescription(nm, f, fields, DescribeFields(nm, fields).value);
    StructFieldCompiles(nm, reg, fuel, DescribeField(nm, f).value, skip, Normal(nm, fields));
  }

  lemma {:induction false} FieldKeepsLayout(nm: Naming, names: set<string>, f: StructField, reg: Registry, fuel: nat, skip: bool)
    requires Stable(nm) && WrittenField(nm, names, f) && names <= reg.Keys
    ensures DescribeField(nm, f).Some?
    ensures KeepsLayout(nm, f, DescribeField(nm, f).value, CompileType(nm, reg, fuel, DescribeField(nm, f).value, skip))
    decreases f, 1
  {
    if f.ty.StructOf? {
      InnerKeepsLayout(nm, names, f, f.ty.fields, reg, fuel, skip);
    } else if f.ty.PointerTo? && f.ty.elem.StructOf? {
      InnerKeepsLayout(nm, names, f, f.ty.elem.fields, reg, fuel, skip);
    } else {
      LeafKeepsLayout(nm, names, f, reg, fuel, skip);
    }
  }

  lemma LeafKeepsLayout(nm: Naming, names: set<string>, f: StructField, reg: Registry, fuel: nat, skip: bool)
    requires WrittenField(nm, names, f) && names <= reg.Keys && !f.ty.StructOf? && !(f.ty.PointerTo? && f.ty.elem.StructOf?)
    ensures DescribeField(nm, f).Some?
    ensures KeepsLayout(nm, f, DescribeField(nm, f).value, CompileType(nm, reg, fuel, DescribeField(nm, f).value, skip))
  {
    NotFormats();
    if FormatOf(f.ty).Some? {
      FormatsInvert(f.ty, FormatOf(f.ty).value);
    } else {
      SettingsGrow(names, reg.Keys, f.tag);
    }
  }

  /** The fields of an operation after its tag, if it starts with one. */
  function Body(fields: seq<StructField>): seq<StructField> {
    if fields != [] && fields[0].ty == Magic then fields[1..] else fields
  }

  /** The description of an operation leaves out its leading tag, if there is one, and nothing else. */
  lemma OperationKeepsLayout(nm: Naming, names: set<string>, op: StructField, fields: seq<StructField>, reg: Registry, fuel: nat, skip: bool)
    requires Stable(nm) && Written(nm, names, fields) && names <= reg.Keys
    ensures DescribeOperation(nm, StructOf(fields)).Some?
    ensures CompileAfter(nm, reg, fuel, [op], DescribeOperation(nm, StructOf(fields)).value, skip)
         == MakeStruct(Compiled([op] + Normal(nm, Body(fields))))
  {
    DescriptionKeepsLayout(nm, names, Body(fields), reg, fuel, skip);
  }
}
