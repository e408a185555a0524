/** The tlb tag of a field, and the type it stands for when the field names no format. */
module TlbSettings {
  import opened TlbTypes
  import opened Wrappers

  /** The outcome of compiling a tag, a format or a schema. */
  datatype Outcome =
    | Type(ty: Ty)
    | NoType               // neither a type nor an error
    | Missing(name: string) // "cannot find definition for ..."
    | Invalid              // any other error
    | Panic                // the program panics
    | Diverges             // the recursion never returns

  predicate IsBlank(c: char) {
    c == ' ' || c == '\t' || c == '\n' || c == '\U{0B}' || c == '\U{0C}' || c == '\r'
  }

  function TrimLeft(s: string): (r: string)
    ensures |r| <= |s|
  {
    if s != "" && IsBlank(s[0]) then TrimLeft(s[1..]) else s
  }

  function TrimRight(s: string): (r: string)
    ensures |r| <= |s|
  {
    if s != "" && IsBlank(s[|s| - 1]) then TrimRight(s[..|s| - 1]) else s
  }

  function TrimSpace(s: string): (r: string)
    ensures |r| <= |s|
  {
    TrimRight(TrimLeft(s))
  }

  function HasPrefix(s: string, prefix: string): bool {
    prefix <= s
  }

  function HasSuffix(s: string, suffix: string): bool {
    |suffix| <= |s| && s[|s| - |suffix|..] == suffix
  }

  /** The text before the first separator. */
  function Head(s: string, sep: char): (r: string)
    ensures |r| <= |s|
  {
    if s == "" || s[0] == sep then "" else [s[0]] + Head(s[1..], sep)
  }

  /** The text after the first separator, if there is one. */
  function Tail(s: string, sep: char): (r: Option<string>)
    ensures r.Some? ==> |r.value| < |s|
  {
    if s == "" then None else if s[0] == sep then Some(s[1..]) else Tail(s[1..], sep)
  }

  function Split(s: string, sep: char): (r: seq<string>)
    ensures |r| > 0
    decreases |s|
  {
    match Tail(s, sep)
    case None => [Head(s, sep)]
    case Some(rest) => [Head(s, sep)] + Split(rest, sep)
  }

  /** Decimal digits that fit 64 bits. */
  function ParseUint(s: string): Option<nat> {
    if s == "" || exists i :: 0 <= i < |s| && !('0' <= s[i] <= '9') then None
    else if DigitsValue(s) < 0x1_0000_0000_0000_0000 then Some(DigitsValue(s)) else None
  }

  function DigitsValue(s: string): nat
    requires forall i :: 0 <= i < |s| ==> '0' <= s[i] <= '9'
  {
    if s == "" then 0 else 10 * DigitsValue(s[..|s| - 1]) + (s[|s| - 1] - '0') as int
  }

  /** Whether the first word of a trimmed tag is in brackets. */
  predicate IsUnion(tag: string) {
    HasPrefix(Head(tag, ' '), "[") && HasSuffix(Head(tag, ' '), "]")
  }

  /** The names between the brackets. */
  function UnionMembers(tag: string): seq<string> {
    if |tag| < 2 then [""] else Split(tag[1..|tag| - 1], ',')
  }

  function FirstMissing(names: set<string>, members: seq<string>): Option<string> {
    if members == [] then None
    else if members[0] in names then FirstMissing(names, members[1..])
    else Some(members[0])
  }

  function ParseSettingsInt(arg: Option<string>): Outcome {
    match arg
    case None => Panic
    case Some(rest) =>
      match ParseUint(Head(rest, ' '))
      case None => Invalid
      case Some(num) =>
        if num <= 8 then Type(Uint8)
        else if num <= 16 then Type(Uint16)
        else if num <= 32 then Type(Uint32)
        else if num <= 64 then Type(Uint64)
        else if num <= 256 then Type(BigInt)
        else Invalid
  }

  /** What follows the third word, given the text after the first. */
  function AfterThird(rest: string): (r: Option<string>)
    ensures r.Some? ==> |r.value| < |rest|
  {
    match Tail(rest, ' ')
    case None => None
    case Some(rest2) => Tail(rest2, ' ')
  }

  function MapTo(value: Outcome): Outcome {
    match value
    case Type(t) => Type(MapOf(t))
    case NoType => Panic
    case _ => value
  }

  /** The rest of a trimmed tag that is parsed as a tag again: behind ^ or . or as the values of a dict. */
  function Nested(tag: string): (r: Option<string>)
    ensures r.Some? ==> |r.value| < |tag|
  {
    var word, rest := Head(tag, ' '), Tail(tag, ' ');
    if rest.None? then None
    else if word == "^" || word == "." then rest
    else if word == "dict" then
      match DictArgs(rest.value)
      case None => None
      case Some(args) => if ParseUint(Head(args, ' ')).None? then None else AfterThird(args)
    else None
  }

  /** The words of a dict tag from the key size on. */
  function DictArgs(rest: string): (r: Option<string>)
    ensures r.Some? ==> |r.value| <= |rest|
  {
    if Head(rest, ' ') == "inline" then Tail(rest, ' ') else Some(rest)
  }

  /** A dict tag without nested values. */
  function ParseSettingsDict(rest: Option<string>): Outcome {
    if rest.None? || DictArgs(rest.value).None? then Panic
    else if ParseUint(Head(DictArgs(rest.value).value, ' ')).None? then Invalid
    else Type(Dictionary)
  }

  /** A tag that is neither a union nor nested. */
  function ParseWord(word: string, rest: Option<string>): Outcome {
    if word == "maybe" then Type(Cell)
    else if word == "either" then
      if rest.None? || Tail(rest.value, ' ').None? then Invalid else Type(Cell)
    else if word == "##" then ParseSettingsInt(rest)
    else if word == "addr" then Type(Address)
    else if word == "bool" then Type(Bool)
    else if word == "bits" then Type(Bytes)
    else if word == "^" || word == "." then Type(Cell)
    else if word == "dict" then ParseSettingsDict(rest)
    else Invalid
  }

  /** `names` are the registered definitions. */
  function ParseSettings(names: set<string>, text: string): Outcome
    decreases |text|
  {
    var tag := TrimSpace(text);
    if tag == "-" then NoType
    else if IsUnion(tag) then
      match FirstMissing(names, UnionMembers(tag))
      case None => Type(Interface)
      case Some(n) => Missing(n)
    else
      match Nested(tag)
      case None => ParseWord(Head(tag, ' '), Tail(tag, ' '))
      case Some(inner) =>
        var value := ParseSettings(names, inner);
        if Head(tag, ' ') == "dict" then MapTo(value) else value
  }

  /** The union members a tag looks up. */
  function UnionNames(text: string): set<string>
    decreases |text|
  {
    var tag := TrimSpace(text);
    if tag == "-" then {}
    else if IsUnion(tag) then set n | n in UnionMembers(tag)
    else
      match Nested(tag)
      case None => {}
      case Some(inner) => UnionNames(inner)
  }

  /** The tag is good apart from union members that are not registered. */
  predicate SaneTag(text: string) {
    ParseSettings(UnionNames(text), text).Type?
  }

  lemma {:induction false} FirstMissingFinds(names: set<string>, members: seq<string>)
    ensures match FirstMissing(names, members)
            case None => forall m :: m in members ==> m in names
            case Some(n) => n in members && n !in names
  {
    if members != [] && members[0] in names {
      FirstMissingFinds(names, members[1..]);
      assert forall m :: m in members ==> m == members[0] || m in members[1..];
    }
  }

  lemma WordNeedsNoNames(word: string, rest: Option<string>)
    ensures !ParseWord(word, rest).Missing? && !ParseWord(word, rest).Diverges?
  {
  }

  /** Only registered union members matter, and a missing one is reported. */
  lemma {:induction false} SettingsDependOnUnionNames(names: set<string>, text: string)
    ensures UnionNames(text) <= names ==> ParseSettings(names, text) == ParseSettings(UnionNames(text), text)
    ensures SaneTag(text) && !(UnionNames(text) <= names) ==> ParseSettings(names, text).Missing?
    ensures ParseSettings(names, text).Missing? ==> ParseSettings(names, text).name in UnionNames(text) - names
    ensures !ParseSettings(names, text).Diverges?
    decreases |text|
  {
    var tag := TrimSpace(text);
    if tag != "-" {
      if IsUnion(tag) {
        FirstMissingFinds(names, UnionMembers(tag));
        FirstMissingFinds(UnionNames(text), UnionMembers(tag));
      } else if Nested(tag).Some? {
        SettingsDependOnUnionNames(names, Nested(tag).value);
      } else {
        WordNeedsNoNames(Head(tag, ' '), Tail(tag, ' '));
      }
    }
  }
}
