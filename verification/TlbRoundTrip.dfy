/** Describing a compiled schema gives its normal form: definitions inlined, default formats filled in. */
module TlbRoundTrip {
  import opened Wrappers
  import opened TlbTypes
  import opened TlbSettings
  import opened TlbCompile

  /** What the compiler lays out: names that survive a change of case, and only types it can produce. */
  ghost predicate Laid(nm: Naming, names: set<string>, fields: seq<StructField>)
    decreases fields, 0
  {
    forall i :: 0 <= i < |fields| ==> LaidField(nm, names, fields[i])
  }

  ghost predicate LaidField(nm: Naming, names: set<string>, f: StructField)
    decreases f, 1
  {
    && nm.camel(nm.snake(f.name)) == f.name && nm.snake(nm.snake(f.name)) == f.json
    && LaidType(nm, names, f)
  }

  ghost predicate LaidType(nm: Naming, names: set<string>, f: StructField)
    decreases f, 0
  {
    || FormatOf(f.ty).Some?
    || (f.ty.PointerTo? && f.ty.elem.StructOf? && DistinctNames(f.ty.elem.fields) && Laid(nm, names, f.ty.elem.fields))
    || (f.ty == Interface && ParseSettings(names, f.tag) == Type(Interface))
    || (f.ty.MapOf? && !Bracketed(f.tag))
  }

  lemma {:induction false} TrimRightKeepsBracket(s: string)
    requires HasPrefix(s, "[")
    ensures HasPrefix(TrimRight(s), "[")
    decreases |s|
  {
    if IsBlank(s[|s| - 1]) {
      assert |s| > 1;
      TrimRightKeepsBracket(s[..|s| - 1]);
    }
  }

  /** A tag that starts with a bracket is a union or an error. */
  lemma BracketMeansUnion(names: set<string>, tag: string)
    requires HasPrefix(tag, "[")
    ensures !ParseSettings(names, tag).NoType?
    ensures ParseSettings(names, tag).Type? ==> ParseSettings(names, tag) == Type(Interface)
  {
    assert tag[0] == '[';
    TrimRightKeepsBracket(tag);
    var t := TrimSpace(tag);
    assert t[0] == '[';
    assert Head(t, ' ')[0] == '[';
  }

  /** The types that tags stand for. */
  lemma {:induction false} SettingsTypes(names: set<string>, text: string)
    requires ParseSettings(names, text).Type?
    ensures var t := ParseSettings(names, text).ty; FormatOf(t).Some? || t == Interface || t.MapOf?
    decreases |text|
  {
    var tag := TrimSpace(text);
    if !IsUnion(tag) && Nested(tag).Some? {
      SettingsTypes(names, Nested(tag).value);
    }
  }

  /** Registering more definitions does not change a tag that already has a type. */
  lemma {:induction false} SettingsGrow(names: set<string>, more: set<string>, text: string)
    requires names <= more && ParseSettings(names, text).Type?
    ensures ParseSettings(more, text) == ParseSettings(names, text)
    decreases |text|
  {
    var tag := TrimSpace(text);
    if IsUnion(tag) {
      FirstMissingFinds(names, UnionMembers(tag));
      FirstMissingFinds(more, UnionMembers(tag));
    } else if Nested(tag).Some? {
      SettingsGrow(names, more, Nested(tag).value);
    }
  }

  lemma BuiltinHasFormat(format: string)
    requires BuiltinType(format).Some?
    ensures FormatOf(BuiltinType(format).value).Some?
  {
    FormatsInvert(TypeNameMap()[format], format);
  }

  lemma NamesReturn(nm: Naming, x: string)
    requires Stable(nm)
    ensures nm.camel(nm.snake(nm.camel(x))) == nm.camel(x) && nm.snake(nm.snake(nm.camel(x))) == nm.snake(x)
  {
    assert nm.snake(nm.camel(x)) == nm.snake(x);
    assert nm.camel(nm.snake(x)) == nm.camel(x);
  }

  lemma {:induction false} CompiledIsLaid(nm: Naming, reg: Registry, fuel: nat, schema: Schema, skip: bool)
    requires Stable(nm) && CompileFields(nm, reg, fuel, schema, skip).Compiled?
    ensures Laid(nm, reg.Keys, CompileFields(nm, reg, fuel, schema, skip).fields)
    decreases fuel, schema, 0
  {
    if schema != [] {
      var f := schema[|schema| - 1];
      CompiledIsLaid(nm, reg, fuel, schema[..|schema| - 1], skip);
      if !(skip && f.optional) {
        TypeIsLaid(nm, reg, fuel, f, skip);
        NamesReturn(nm, f.name);
        var sf := StructField(nm.camel(f.name), f.tlbType, nm.snake(f.name), CompileType(nm, reg, fuel, f, skip).ty);
        assert LaidField(nm, reg.Keys, sf);
      }
    }
  }

  lemma {:induction false} TypeIsLaid(nm: Naming, reg: Registry, fuel: nat, f: Field, skip: bool)
    requires Stable(nm) && CompileType(nm, reg, fuel, f, skip).Type?
    ensures LaidType(nm, reg.Keys, StructField(nm.camel(f.name), f.tlbType, nm.snake(f.name), CompileType(nm, reg, fuel, f, skip).ty))
    decreases fuel, f, 1
  {
    var format := EffectiveFormat(f);
    if format == STRUCT {
      CompiledIsLaid(nm, reg, fuel, f.fields, skip);
    } else if BuiltinType(format).Some? {
      BuiltinHasFormat(format);
    } else if format == "" {
      SettingsTypes(reg.Keys, f.tlbType);
      if HasPrefix(f.tlbType, "[") { BracketMeansUnion(reg.Keys, f.tlbType); }
    } else {
      CompiledIsLaid(nm, reg, fuel - 1, reg[format], false);
      assert HasPrefix(f.tlbType, "dict") ==> f.tlbType[0] == 'd';
    }
  }

  /** The description of a laid-out struct compiles back to it, whatever definitions say and whatever is skipped. */
  lemma {:induction false} DescriptionCompiles(nm: Naming, names: set<string>, fields: seq<StructField>, reg: Registry, fuel: nat, skip: bool)
    requires Laid(nm, names, fields) && names <= reg.Keys && DescribeFields(nm, fields).Some?
    ensures CompileFields(nm, reg, fuel, DescribeFields(nm, fields).value, skip) == Compiled(fields)
    decreases fields, 0
  {
    if fields != [] {
      var init, f := fields[..|fields| - 1], fields[|fields| - 1];
      assert fields == init + [f];
      DescriptionCompiles(nm, names, init, reg, fuel, skip);
      FieldDescriptionCompiles(nm, names, f, reg, fuel, skip);
      var before, g := DescribeFields(nm, init).value, DescribeField(nm, f).value;
      OneFieldMore(nm, reg, fuel, before, g, skip);
    }
  }

  lemma OneFieldMore(nm: Naming, reg: Registry, fuel: nat, schema: Schema, g: Field, skip: bool)
    requires CompileFields(nm, reg, fuel, schema, skip).Compiled? && CompileType(nm, reg, fuel, g, skip).Type? && !g.optional
    ensures CompileFields(nm, reg, fuel, schema + [g], skip)
         == Compiled(CompileFields(nm, reg, fuel, schema, skip).fields
                     + [StructField(nm.camel(g.name), g.tlbType, nm.snake(g.name), CompileType(nm, reg, fuel, g, skip).ty)])
  {
    var longer := schema + [g];
    assert longer[..|longer| - 1] == schema && longer[|longer| - 1] == g;
  }

  lemma {:induction false} FieldDescriptionCompiles(nm: Naming, names: set<string>, f: StructField, reg: Registry, fuel: nat, skip: bool)
    requires LaidField(nm, names, f) && names <= reg.Keys && DescribeField(nm, f).Some?
    ensures var g := DescribeField(nm, f).value;
            CompileType(nm, reg, fuel, g, skip) == Type(f.ty) && g.tlbType == f.tag && g.name == nm.snake(f.name) && !g.optional
    decreases f, 1
  {
    NotFormats();
    if FormatOf(f.ty).Some? {
      FormatsInvert(f.ty, FormatOf(f.ty).value);
    } else if f.ty.PointerTo? {
      DescriptionCompiles(nm, names, f.ty.elem.fields, reg, fuel, skip);
    } else if f.ty == Interface {
      SettingsGrow(names, reg.Keys, f.tag);
    }
  }

  /** Compile, describe, compile again: the same type; describe once more: the same schema. */
  lemma NormalForm(nm: Naming, reg: Registry, fuel: nat, schema: Schema, skip: bool, reg': Registry, fuel': nat, skip': bool)
    requires Stable(nm) && reg.Keys <= reg'.Keys
    requires Compile(nm, reg, fuel, schema, skip).Type?
    requires Describe(nm, Compile(nm, reg, fuel, schema, skip).ty).Some?
    ensures var n := Describe(nm, Compile(nm, reg, fuel, schema, skip).ty).value;
            && Compile(nm, reg', fuel', n, skip') == Compile(nm, reg, fuel, schema, skip)
            && Describe(nm, Compile(nm, reg', fuel', n, skip').ty) == Some(n)
  {
    var t := Compile(nm, reg, fuel, schema, skip).ty;
    CompiledIsLaid(nm, reg, fuel, schema, skip);
    DescriptionCompiles(nm, reg.Keys, t.fields, reg', fuel', skip');
  }

  /** The same for operations, whose types start with the operation tag. */
  lemma OperationNormalForm(nm: Naming, reg: Registry, fuel: nat, op: StructField, body: Schema, skip: bool, reg': Registry, fuel': nat, skip': bool)
    requires Stable(nm) && reg.Keys <= reg'.Keys && op.ty == Magic
    requires CompileAfter(nm, reg, fuel, [op], body, skip).Type?
    requires DescribeOperation(nm, CompileAfter(nm, reg, fuel, [op], body, skip).ty).Some?
    ensures var n := DescribeOperation(nm, CompileAfter(nm, reg, fuel, [op], body, skip).ty).value;
            CompileAfter(nm, reg', fuel', [op], n, skip') == CompileAfter(nm, reg, fuel, [op], body, skip)
  {
    var fields := CompileFields(nm, reg, fuel, body, skip).fields;
    assert ([op] + fields)[1..] == fields;
    CompiledIsLaid(nm, reg, fuel, body, skip);
    DescriptionCompiles(nm, reg.Keys, fields, reg', fuel', skip');
  }

  // --------------------------------------------------- the struct formats written in place

  /** Definitions whose struct formats were filled in by earlier compilations. */
  ghost predicate RefillsRegistry(reg: Registry, filled: Registry) {
    reg.Keys == filled.Keys && forall n :: n in reg ==> Refills(reg[n], filled[n])
  }

  /** Writing struct formats into schemas and definitions in place never changes an outcome. */
  lemma {:induction false} FillingChangesNothing(nm: Naming, reg: Registry, filledReg: Registry, fuel: nat, schema: Schema, filled: Schema, skip: bool)
    requires RefillsRegistry(reg, filledReg) && Refills(schema, filled)
    ensures CompileFields(nm, reg, fuel, schema, skip) == CompileFields(nm, filledReg, fuel, filled, skip)
    decreases fuel, schema, 0
  {
    if schema != [] {
      var n := |schema| - 1;
      assert Refills(schema[..n], filled[..n]);
      FillingChangesNothing(nm, reg, filledReg, fuel, schema[..n], filled[..n], skip);
      FillingChangesNoType(nm, reg, filledReg, fuel, schema[n], filled[n], skip);
    }
  }

  lemma {:induction false} FillingChangesNoType(nm: Naming, reg: Registry, filledReg: Registry, fuel: nat, f: Field, g: Field, skip: bool)
    requires RefillsRegistry(reg, filledReg) && RefillsField(f, g)
    ensures CompileType(nm, reg, fuel, f, skip) == CompileType(nm, filledReg, fuel, g, skip)
    decreases fuel, f, 1
  {
    var format := EffectiveFormat(f);
    assert EffectiveFormat(g) == format;
    if format == STRUCT {
      FillingChangesNothing(nm, reg, filledReg, fuel, f.fields, g.fields, skip);
    } else if format in reg && BuiltinType(format).None? && format != "" && fuel > 0 {
      FillingChangesNothing(nm, reg, filledReg, fuel - 1, reg[format], filledReg[format], false);
    }
  }
}
