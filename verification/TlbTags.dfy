/** What each tag stands for, read off its words. */
module TlbTags {
  import opened ShardIds
  import opened TlbSettings
  import opened TlbTypes
  import opened Wrappers

  /** The words of a tag, as the program splits it. */
  function Words(text: string): (ws: seq<string>)
    ensures |ws| > 0
  {
    Split(TrimSpace(text), ' ')
  }

  function Join(ws: seq<string>): string
    requires |ws| > 0
  {
    if |ws| == 1 then ws[0] else ws[0] + " " + Join(ws[1..])
  }

  lemma {:induction false} JoinOfSplit(s: string)
    ensures Join(Split(s, ' ')) == s
    decreases |s|
  {
    HeadAndTail(s);
    match Tail(s, ' ')
    case None =>
    case Some(rest) => JoinOfSplit(rest);
  }

  lemma {:induction false} HeadAndTail(s: string)
    ensures match Tail(s, ' ')
            case None => s == Head(s, ' ')
            case Some(rest) => s == Head(s, ' ') + " " + rest
  {
    if s != "" && s[0] != ' ' {
      HeadAndTail(s[1..]);
      assert s == [s[0]] + s[1..];
    }
  }

  /** The words a tag is parsed by. */
  lemma WordsOf(s: string)
    ensures var ws := Split(s, ' ');
            && Head(s, ' ') == ws[0]
            && (Tail(s, ' ').None? <==> |ws| == 1)
            && (Tail(s, ' ').Some? ==> Split(Tail(s, ' ').value, ' ') == ws[1..] && Tail(s, ' ').value == Join(ws[1..]))
  {
    if Tail(s, ' ').Some? {
      JoinOfSplit(Tail(s, ' ').value);
    }
  }

  predicate AllBlank(s: string) {
    forall i :: 0 <= i < |s| ==> IsBlank(s[i])
  }

  /** Trimming takes away all blanks at both ends, and nothing else. */
  lemma TrimmedExactly(s: string) returns (left: string, right: string)
    ensures s == left + TrimSpace(s) + right && AllBlank(left) && AllBlank(right)
    ensures TrimSpace(s) != "" ==> !IsBlank(TrimSpace(s)[0]) && !IsBlank(TrimSpace(s)[|TrimSpace(s)| - 1])
  {
    left := TrimmedLeft(s);
    right := TrimmedRight(TrimLeft(s));
  }

  lemma {:induction false} TrimmedLeft(s: string) returns (left: string)
    ensures s == left + TrimLeft(s) && AllBlank(left) && (TrimLeft(s) != "" ==> !IsBlank(TrimLeft(s)[0]))
  {
    left := "";
    if s != "" && IsBlank(s[0]) {
      var rest := TrimmedLeft(s[1..]);
      left := [s[0]] + rest;
    }
  }

  lemma {:induction false} TrimmedRight(s: string) returns (right: string)
    ensures s == TrimRight(s) + right && AllBlank(right)
    ensures TrimRight(s) != "" ==> !IsBlank(TrimRight(s)[|TrimRight(s)| - 1]) && TrimRight(s)[0] == s[0]
  {
    right := "";
    if s != "" && IsBlank(s[|s| - 1]) {
      var rest := TrimmedRight(s[..|s| - 1]);
      right := rest + [s[|s| - 1]];
    }
  }

  // ------------------------------------------------------------------------- integers

  /** How many bits an unsigned integer type holds; a big integer is used for up to 256. */
  function Bits(t: Ty): nat {
    match t
    case Uint8 => 8
    case Uint16 => 16
    case Uint32 => 32
    case Uint64 => 64
    case BigInt => 256
    case _ => 0
  }

  /** How many bits a signed integer type holds. */
  function SignedBits(t: Ty): nat {
    match t
    case Int8 => 8
    case Int16 => 16
    case Int32 => 32
    case Int64 => 64
    case _ => 0
  }

  lemma TwoDigits(n: nat)
    requires 10 <= n < 100
    ensures Digits(n) == [Digit(n / 10), Digit(n % 10)]
  {
    assert Digits(n / 10) == [Digit(n / 10)];
  }

  lemma Widths()
    ensures Digits(8) == "8" && Digits(16) == "16" && Digits(32) == "32" && Digits(64) == "64"
  {
    TwoDigits(16);
    TwoDigits(32);
    TwoDigits(64);
  }

  lemma UnsignedFormats(t: Ty)
    requires 0 < Bits(t) <= 64
    ensures FormatOf(t) == Some("uint" + Digits(Bits(t)))
  {
    Widths();
    assert "uint" + "8" == "uint8" && "uint" + "16" == "uint16" && "uint" + "32" == "uint32" && "uint" + "64" == "uint64";
  }

  lemma SignedFormats(t: Ty)
    requires SignedBits(t) > 0
    ensures FormatOf(t) == Some("int" + Digits(SignedBits(t)))
  {
    Widths();
    assert "int" + "8" == "int8" && "int" + "16" == "int16" && "int" + "32" == "int32" && "int" + "64" == "int64";
  }

  /** The formats of the fixed integer types end in their number of bits. */
  lemma IntegerFormats(t: Ty)
    ensures 0 < Bits(t) <= 64 ==> FormatOf(t) == Some("uint" + Digits(Bits(t)))
    ensures SignedBits(t) > 0 ==> FormatOf(t) == Some("int" + Digits(SignedBits(t)))
  {
    if 0 < Bits(t) <= 64 {
      UnsignedFormats(t);
    }
    if SignedBits(t) > 0 {
      SignedFormats(t);
    }
  }

  /** `t` is the narrowest unsigned type that holds `n` bits. */
  ghost predicate IsNarrowest(t: Ty, n: nat) {
    Bits(t) > 0 && n <= Bits(t) && forall u :: Bits(u) > 0 && n <= Bits(u) ==> Bits(t) <= Bits(u)
  }

  /** `## N` stands for the narrowest type of `N` bits, and for an error above 256. */
  lemma IntegerTag(names: set<string>, text: string)
    requires Words(text)[0] == "##"
    ensures var ws := Words(text);
            match ParseSettings(names, text)
            case Type(t) => |ws| > 1 && ParseUint(ws[1]).Some? && IsNarrowest(t, ParseUint(ws[1]).value)
            case Panic => |ws| == 1
            case Invalid => |ws| > 1 && (ParseUint(ws[1]).None? || ParseUint(ws[1]).value > 256)
            case _ => false
  {
    var tag := TrimSpace(text);
    WordsOf(tag);
    if Tail(tag, ' ').Some? {
      WordsOf(Tail(tag, ' ').value);
    }
  }

  lemma NarrowestIsUnique(t: Ty, u: Ty, n: nat)
    requires IsNarrowest(t, n) && IsNarrowest(u, n)
    ensures t == u
  {
  }

  lemma {:induction false} DigitsAreRead(n: nat)
    ensures forall i :: 0 <= i < |Digits(n)| ==> '0' <= Digits(n)[i] <= '9'
    ensures DigitsValue(Digits(n)) == n
  {
    NonEmptyDigits(n);
    if n >= 10 {
      DigitsAreRead(n / 10);
      assert Digits(n)[..|Digits(n)| - 1] == Digits(n / 10);
      assert Digits(n)[|Digits(n)| - 1] == Digit(n % 10);
    } else {
      assert Digits(n)[..0] == "" && DigitsValue("") == 0;
    }
  }

  /** Numbers are read back from their decimal text, up to 64 bits. */
  lemma ReadExactly(n: nat)
    ensures ParseUint(Digits(n)) == if n < 0x1_0000_0000_0000_0000 then Some(n) else None
  {
    DigitsAreRead(n);
    NonEmptyDigits(n);
  }

  lemma {:induction false} OneWord(s: string)
    requires forall i :: 0 <= i < |s| ==> s[i] != ' '
    ensures Head(s, ' ') == s && Tail(s, ' ') == None
  {
    if s != "" {
      OneWord(s[1..]);
      assert s == [s[0]] + s[1..];
    }
  }

  lemma {:induction false} FirstWord(word: string, rest: string)
    requires forall i :: 0 <= i < |word| ==> word[i] != ' '
    ensures Head(word + " " + rest, ' ') == word && Tail(word + " " + rest, ' ') == Some(rest)
  {
    var s := word + " " + rest;
    if word == "" {
      assert s[1..] == rest;
    } else {
      assert s[1..] == word[1..] + " " + rest;
      FirstWord(word[1..], rest);
      assert word == [word[0]] + word[1..];
    }
  }

  lemma WordsOfInteger(digits: string)
    requires digits != "" && forall i :: 0 <= i < |digits| ==> '0' <= digits[i] <= '9'
    ensures Words("## " + digits) == ["##", digits]
  {
    var tag := "## " + digits;
    assert tag[0] == '#' && tag[|tag| - 1] == digits[|digits| - 1];
    assert TrimLeft(tag) == tag && TrimRight(tag) == tag;
    assert tag == "##" + " " + digits;
    FirstWord("##", digits);
    OneWord(digits);
    assert Split(digits, ' ') == [digits];
  }

  /** The text of a number of bits up to 256 gives the narrowest type for it, a larger one gives an error. */
  lemma DecimalTag(names: set<string>, n: nat)
    ensures match ParseSettings(names, "## " + Digits(n))
            case Type(t) => IsNarrowest(t, n)
            case Invalid => n > 256
            case _ => false
  {
    DigitsAreRead(n);
    NonEmptyDigits(n);
    WordsOfInteger(Digits(n));
    IntegerTag(names, "## " + Digits(n));
  }

  // ------------------------------------------------------------------------- other words

  /** Whether the first word of a tag is in brackets, which makes it a union. */
  predicate InBrackets(word: string) {
    HasPrefix(word, "[") && HasSuffix(word, "]")
  }

  /** One turn of the parser on a tag that is no union. */
  lemma NotNested(names: set<string>, text: string)
    requires !InBrackets(Head(TrimSpace(text), ' ')) && TrimSpace(text) != "-"
    ensures var tag := TrimSpace(text);
            match Nested(tag)
            case None => ParseSettings(names, text) == ParseWord(Head(tag, ' '), Tail(tag, ' '))
            case Some(inner) =>
              var value := ParseSettings(names, inner);
              ParseSettings(names, text) == if Head(tag, ' ') == "dict" then MapTo(value) else value
  {
  }

  lemma PlainTag(names: set<string>, text: string)
    ensures Words(text)[0] == "addr" ==> ParseSettings(names, text) == Type(Address)
    ensures Words(text)[0] == "bool" ==> ParseSettings(names, text) == Type(Bool)
    ensures Words(text)[0] == "bits" ==> ParseSettings(names, text) == Type(Bytes)
    ensures Words(text)[0] == "maybe" ==> ParseSettings(names, text) == Type(Cell)
    ensures TrimSpace(text) == "-" ==> ParseSettings(names, text) == NoType
  {
    WordsOf(TrimSpace(text));
  }

  /** `either` needs two words after it. */
  lemma EitherTag(names: set<string>, text: string)
    requires Words(text)[0] == "either"
    ensures ParseSettings(names, text) == if |Words(text)| >= 3 then Type(Cell) else Invalid
  {
    var tag := TrimSpace(text);
    WordsOf(tag);
    if Tail(tag, ' ').Some? {
      WordsOf(Tail(tag, ' ').value);
    }
  }

  lemma ReferenceWord(tag: string)
    requires Head(tag, ' ') == "^" || Head(tag, ' ') == "."
    ensures tag != "-" && !InBrackets(Head(tag, ' '))
    ensures Nested(tag) == Tail(tag, ' ') && ParseWord(Head(tag, ' '), None) == Type(Cell)
  {
    OneWord("-");
  }

  /** `^` and `.` alone stand for a cell, and before other words for what these stand for. */
  lemma ReferenceTag(names: set<string>, text: string)
    requires Words(text)[0] == "^" || Words(text)[0] == "."
    ensures var ws := Words(text);
            ParseSettings(names, text) == if |ws| == 1 then Type(Cell) else ParseSettings(names, Join(ws[1..]))
  {
    WordsOf(TrimSpace(text));
    ReferenceWord(TrimSpace(text));
    NotNested(names, text);
  }

  /** The words of a dict tag from the one before the size of its keys on. */
  function Sized(ws: seq<string>): (r: seq<string>)
    requires |ws| > 1
    ensures |r| > 0
  {
    if ws[1] == "inline" then ws[1..] else ws
  }

  /**
   `dict` needs a size.  Without a fourth word it stands for a dictionary, with one for a map of what the
   words from there on stand for.
   */
  lemma DictTag(names: set<string>, text: string)
    requires Words(text)[0] == "dict"
    ensures var ws, r := Words(text), ParseSettings(names, text);
            if |ws| == 1 || |Sized(ws)| == 1 then r == Panic
            else if ParseUint(Sized(ws)[1]).None? then r == Invalid
            else if |Sized(ws)| < 4 then r == Type(Dictionary)
            else
              match ParseSettings(names, Join(Sized(ws)[3..]))
              case Type(t) => r == Type(MapOf(t))
              case NoType => r == Panic
              case other => r == other
  {
    var tag := TrimSpace(text);
    WordsOf(tag);
    if Tail(tag, ' ').Some? {
      SizedWords(Tail(tag, ' ').value, Words(text));
    }
    NotNested(names, text);
  }

  /** The words of a dict tag, as the model takes them from the text after the first one. */
  lemma SizedWords(rest: string, ws: seq<string>)
    requires |ws| > 1 && Split(rest, ' ') == ws[1..]
    ensures DictArgs(rest).None? <==> |Sized(ws)| == 1
    ensures DictArgs(rest).Some? ==>
              var args := DictArgs(rest).value;
              && Head(args, ' ') == Sized(ws)[1]
              && (AfterThird(args).None? <==> |Sized(ws)| < 4)
              && (AfterThird(args).Some? ==> AfterThird(args).value == Join(Sized(ws)[3..]))
  {
    WordsOf(rest);
    if DictArgs(rest).Some? {
      var args := DictArgs(rest).value;
      assert Split(args, ' ') == Sized(ws)[1..];
      WordsOf(args);
      if Tail(args, ' ').Some? {
        WordsOf(Tail(args, ' ').value);
      }
    }
  }

  ghost predicate IsFirstMissing(names: set<string>, members: seq<string>, n: string) {
    exists i :: 0 <= i < |members| && members[i] == n && n !in names && forall j :: 0 <= j < i ==> members[j] in names
  }

  /** A union stands for an interface if all its members are registered; else the first one that is not is reported. */
  lemma UnionTag(names: set<string>, text: string)
    requires InBrackets(Words(text)[0])
    ensures var tag := TrimSpace(text);
            |tag| >= 2 &&
            var members := Split(tag[1..|tag| - 1], ',');
            match ParseSettings(names, text)
            case Type(t) => t == Interface && forall m :: m in members ==> m in names
            case Missing(n) => IsFirstMissing(names, members, n)
            case _ => false
  {
    var tag := TrimSpace(text);
    WordsOf(tag);
    BracketsAreTwo(Head(tag, ' '));
    assert |tag| >= |Head(tag, ' ')| >= 2;
    FirstMissingIsFirst(names, Split(tag[1..|tag| - 1], ','));
  }

  lemma BracketsAreTwo(word: string)
    requires InBrackets(word)
    ensures |word| >= 2
  {
    assert word[0] == '[' && word[|word| - 1] == ']';
  }

  lemma {:induction false} FirstMissingIsFirst(names: set<string>, members: seq<string>)
    ensures match FirstMissing(names, members)
            case None => forall m :: m in members ==> m in names
            case Some(n) => IsFirstMissing(names, members, n)
  {
    if members != [] && members[0] in names {
      FirstMissingIsFirst(names, members[1..]);
      match FirstMissing(names, members[1..])
      case None => assert forall m :: m in members ==> m == members[0] || m in members[1..];
      case Some(n) =>
        var i :| 0 <= i < |members[1..]| && members[1..][i] == n && n !in names && forall j :: 0 <= j < i ==> members[1..][j] in names;
        forall j | 0 <= j < i + 1
          ensures members[j] in names
        {
          assert j > 0 ==> members[j] == members[1..][j - 1];
        }
        assert members[i + 1] == n;
    }
  }

  const KNOWN := {"##", "addr", "bool", "bits", "maybe", "either", "^", ".", "dict"}

  /** Any other first word is an error. */
  lemma OtherTag(names: set<string>, text: string)
    requires Words(text)[0] !in KNOWN && !InBrackets(Words(text)[0]) && TrimSpace(text) != "-"
    ensures ParseSettings(names, text) == Invalid
  {
    WordsOf(TrimSpace(text));
  }
}
