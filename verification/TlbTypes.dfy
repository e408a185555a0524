/** The types a schema compiles to, and the formats that name some of them. */
module TlbTypes {
  import opened Wrappers

  datatype Ty =
    | Bool
    | Int8 | Int16 | Int32 | Int64
    | Uint8 | Uint16 | Uint32 | Uint64
    | Bytes
    | BigInt
    | Cell
    | Dictionary
    | Magic
    | Coins
    | Address
    | StringSnake
    | TelemintText
    | DedustAsset
    | Interface
    | MapOf(value: Ty)  // keys are strings
    | PointerTo(elem: Ty)
    | StructOf(fields: seq<StructField>)

  /** `json` is the name in the json tag, `tag` the text of the tlb tag. */
  datatype StructField = StructField(name: string, tag: string, json: string, ty: Ty)

  const STRUCT := "struct"

  function TypeNameMap(): map<string, Ty> { map[
    "bool" := Bool,
    "int8" := Int8, "int16" := Int16, "int32" := Int32, "int64" := Int64,
    "uint8" := Uint8, "uint16" := Uint16, "uint32" := Uint32, "uint64" := Uint64,
    "bytes" := Bytes,
    "bigInt" := BigInt,
    "cell" := Cell,
    "dict" := Dictionary,
    "tag" := Magic,
    "coins" := Coins,
    "addr" := Address,
    "string" := StringSnake,
    "telemintText" := TelemintText,
    "dedustAsset" := DedustAsset
  ] }

  function FormatOf(t: Ty): Option<string> {
    match t
    case Bool => Some("bool")
    case Int8 => Some("int8")
    case Int16 => Some("int16")
    case Int32 => Some("int32")
    case Int64 => Some("int64")
    case Uint8 => Some("uint8")
    case Uint16 => Some("uint16")
    case Uint32 => Some("uint32")
    case Uint64 => Some("uint64")
    case Bytes => Some("bytes")
    case BigInt => Some("bigInt")
    case Cell => Some("cell")
    case Dictionary => Some("dict")
    case Magic => Some("tag")
    case Coins => Some("coins")
    case Address => Some("addr")
    case StringSnake => Some("string")
    case TelemintText => Some("telemintText")
    case DedustAsset => Some("dedustAsset")
    case _ => None
  }

  predicate IsNumber(t: Ty) {
    t.Bool? || t.Int8? || t.Int16? || t.Int32? || t.Int64? || t.Uint8? || t.Uint16? || t.Uint32? || t.Uint64?
  }

  lemma NumberIsListed(t: Ty)
    requires IsNumber(t)
    ensures FormatOf(t).Some? && FormatOf(t).value in TypeNameMap() && TypeNameMap()[FormatOf(t).value] == t
  {
  }

  lemma OtherIsListed(t: Ty)
    requires !IsNumber(t)
    ensures FormatOf(t).Some? ==> FormatOf(t).value in TypeNameMap() && TypeNameMap()[FormatOf(t).value] == t
  {
  }

  lemma FormatIsListed(t: Ty)
    ensures FormatOf(t).Some? ==> FormatOf(t).value in TypeNameMap() && TypeNameMap()[FormatOf(t).value] == t
  {
    if IsNumber(t) {
      NumberIsListed(t);
    } else {
      OtherIsListed(t);
    }
  }

  lemma ListedHasFormat(n: string)
    ensures n in TypeNameMap() ==> FormatOf(TypeNameMap()[n]) == Some(n)
  {
  }

  /** The two directions are inverse to each other. */
  lemma FormatsInvert(t: Ty, n: string)
    ensures FormatOf(t) == Some(n) <==> n in TypeNameMap() && TypeNameMap()[n] == t
  {
    FormatIsListed(t);
    ListedHasFormat(n);
  }

  lemma NotFormats()
    ensures "" !in TypeNameMap() && STRUCT !in TypeNameMap()
  {
  }

  ghost predicate Injective(names: map<string, Ty>) {
    forall m, n :: m in names && n in names && names[m] == names[n] ==> m == n
  }

  /** Adds the inverse of `names` to `rmap`, in whatever order the map is iterated. */
  method InvertInto(names: map<string, Ty>, start: map<Ty, string>) returns (rmap: map<Ty, string>)
    requires Injective(names)
    ensures forall n :: n in names ==> names[n] in rmap && rmap[names[n]] == n
    ensures forall t :: t in rmap ==> (rmap[t] in names && names[rmap[t]] == t) || (t in start && rmap[t] == start[t])
  {
    rmap := start;
    var todo := names.Keys;
    while todo != {}
      invariant todo <= names.Keys
      invariant forall n :: n in names && n !in todo ==> names[n] in rmap && rmap[names[n]] == n
      invariant forall t :: t in rmap ==> (rmap[t] in names && names[rmap[t]] == t) || (t in start && rmap[t] == start[t])
      decreases |todo|
    {
      var n :| n in todo;
      rmap := rmap[names[n] := n];
      todo := todo - {n};
    }
  }

  /** The reverse map is `FormatOf`. */
  method InitTypeNameRMap() returns (rmap: map<Ty, string>)
    ensures forall t, n :: t in rmap && rmap[t] == n <==> FormatOf(t) == Some(n)
  {
    forall m, n | m in TypeNameMap() && n in TypeNameMap() && TypeNameMap()[m] == TypeNameMap()[n]
      ensures m == n
    {
      FormatsInvert(TypeNameMap()[m], m);
      FormatsInvert(TypeNameMap()[n], n);
    }
    rmap := InvertInto(TypeNameMap(), map[Bytes := "bytes"]);
    forall t, n
      ensures t in rmap && rmap[t] == n <==> FormatOf(t) == Some(n)
    {
      FormatsInvert(t, n);
      FormatsInvert(Bytes, "bytes");
      if t in rmap { FormatsInvert(t, rmap[t]); }
    }
  }
}
