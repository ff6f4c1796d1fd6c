/**
 The command language of the enhanced prompt: how one typed line is split
 into an operator token and an argument, how a token selects an operator,
 and the scheme completion applied to addresses.
 */
module Command {
  import opened Wrappers
  import opened JsString

  /** `prependProtocol`: anything not starting with `http` gets `https://` in front. */
  function PrependProtocol(uri: string): (r: string)
    ensures StartsWith(r, "http")
    ensures r == uri <==> StartsWith(uri, "http")
    ensures !StartsWith(uri, "http") ==> r == "https://" + uri
  {
    if StartsWith(uri, "http") then uri else "https://" + uri
  }

  /** Completing an address twice is the same as completing it once. */
  lemma PrependProtocolIdempotent(uri: string)
    ensures PrependProtocol(PrependProtocol(uri)) == PrependProtocol(uri)
  {
  }

  /** The pair `getOptAndArg` returns: `[opt, arg]`. */
  datatype Parsed = Parsed(opt: string, arg: string)

  /** The front split is kept when its first word has length 1 or starts with `!`. */
  predicate LeadsWithOperator(word: string)
  {
    Utf16Length(word) == 1 || StartsWith(word, "!")
  }

  /** `getOptAndArg`: the front split at the first space, else the back split at the last space, inverted. */
  function GetOptAndArg(line: string): (r: Parsed)
    ensures ' ' !in line ==> r == Parsed(line, "")
    ensures ' ' in line ==> ' ' !in r.opt && |r.opt| + 1 + |r.arg| == |line|
  {
    var space := IndexOf(line, ' ');
    var part1 := Substring(line, 0, space);
    var part2 := SubstringFrom(line, space + 1);
    if LeadsWithOperator(part1) then
      Parsed(part1, part2)
    else
      var back := LastIndexOf(line, ' ');
      Parsed(SubstringFrom(line, back + 1), Substring(line, 0, back))
  }

  /** `i` is the position of the first space of `line`. */
  predicate FirstSpace(line: string, i: int)
  {
    0 <= i < |line| && line[i] == ' ' && ' ' !in line[..i]
  }

  /** `j` is the position of the last space of `line`. */
  predicate LastSpace(line: string, j: int)
  {
    0 <= j < |line| && line[j] == ' ' && ' ' !in line[j + 1..]
  }

  lemma IndexOfIsFirstSpace(line: string, i: int)
    requires FirstSpace(line, i)
    ensures IndexOf(line, ' ') == i
  {
  }

  lemma LastIndexOfIsLastSpace(line: string, j: int)
    requires LastSpace(line, j)
    ensures LastIndexOf(line, ' ') == j
  {
  }

  /** A short or `!`-prefixed first word is the operator, the rest of the line the argument. */
  lemma FrontSplit(line: string, i: int)
    requires FirstSpace(line, i) && LeadsWithOperator(line[..i])
    ensures GetOptAndArg(line) == Parsed(line[..i], line[i + 1..])
    ensures line == GetOptAndArg(line).opt + " " + GetOptAndArg(line).arg
  {
    IndexOfIsFirstSpace(line, i);
    assert line == line[..i] + " " + line[i + 1..];
  }

  /** Otherwise the last word is the operator and everything before the last space the argument. */
  lemma BackSplit(line: string, i: int, j: int)
    requires FirstSpace(line, i) && !LeadsWithOperator(line[..i])
    requires LastSpace(line, j)
    ensures GetOptAndArg(line) == Parsed(line[j + 1..], line[..j])
    ensures line == GetOptAndArg(line).arg + " " + GetOptAndArg(line).opt
  {
    IndexOfIsFirstSpace(line, i);
    LastIndexOfIsLastSpace(line, j);
    assert Substring(line, 0, i) == line[..i];
    assert SubstringFrom(line, j + 1) == line[j + 1..];
    assert Substring(line, 0, j) == line[..j];
    assert line == line[..j] + " " + line[j + 1..];
  }

  /** Rejoining the two parts with one space, in the order they stood, gives the line back. */
  lemma Rejoin(line: string)
    requires ' ' in line
    ensures var r := GetOptAndArg(line);
            line == r.opt + " " + r.arg || line == r.arg + " " + r.opt
  {
    var i := IndexOf(line, ' ');
    var j := LastIndexOf(line, ' ');
    if LeadsWithOperator(line[..i]) {
      FrontSplit(line, i);
    } else {
      BackSplit(line, i, j);
    }
  }

  /** `"n 1.2.3"` splits at the front. */
  lemma ShortOperatorFirst()
    ensures GetOptAndArg("n 1.2.3") == Parsed("n", "1.2.3")
  {
    var line := "n 1.2.3";
    assert line[..1] == "n" && line[2..] == "1.2.3";
    assert FirstSpace(line, 1);
    FrontSplit(line, 1);
  }

  /** `"!nightly 1.2.3"` splits at the front. */
  lemma BangOperatorFirst()
    ensures GetOptAndArg("!nightly 1.2.3") == Parsed("!nightly", "1.2.3")
  {
    var line := "!nightly 1.2.3";
    assert line[..8] == "!nightly" && line[9..] == "1.2.3";
    assert FirstSpace(line, 8);
    FrontSplit(line, 8);
  }

  /** `"go to the store"` splits at the back, its last word becoming the operator. */
  lemma OperatorLast()
    ensures GetOptAndArg("go to the store") == Parsed("store", "go to the")
  {
    var line := "go to the store";
    assert line[..2] == "go" && !LeadsWithOperator(line[..2]);
    assert line[..9] == "go to the" && line[10..] == "store";
    assert FirstSpace(line, 2) && LastSpace(line, 9);
    BackSplit(line, 2, 9);
  }

  /**
   `matchesOperator`: a `!` token matches when the rest of it is a prefix of the
   name; any other token must be one UTF-16 unit equal to the name's first letter.
   */
  predicate MatchesOperator(token: string, name: string)
    ensures MatchesOperator(token, name) <==>
              || (|token| >= 1 && token[0] == '!' && token[1..] <= name)
              || (|token| == 1 && token[0] != '!' && token[0] as int < 0x1_0000
                  && |name| >= 1 && name[0] == token[0])
  {
    if StartsWith(token, "!") then StartsWith(name, SubstringFrom(token, 1))
    else if Utf16Length(token) != 1 then false
    else
      assert token == [token[0]];
      assert |name| >= 1 ==> Substring(name, 0, 1) == [name[0]];
      Substring(name, 0, 1) == token
  }

  /** A lone `!` matches every operator name. */
  lemma BangMatchesEverything(name: string)
    ensures MatchesOperator("!", name)
  {
    assert SubstringFrom("!", 1) == "";
  }

  /** The operators, in the order the dispatcher tries them. */
  datatype Operator = Nightly | Search | Delete | Bookmarkless | Local

  function Name(o: Operator): string
  {
    match o
    case Nightly => "nightly"
    case Search => "search"
    case Delete => "delete"
    case Bookmarkless => "bookmarkless"
    case Local => "local"
  }

  const Priority: seq<Operator> := [Nightly, Search, Delete, Bookmarkless, Local]

  /** The `if ... else if` chain of `runEnhancedPrompt`: the first operator the token matches. */
  function Select(token: string): (r: Option<Operator>)
    ensures r.Some? ==> MatchesOperator(token, Name(r.value))
    ensures r == None <==> forall o: Operator :: !MatchesOperator(token, Name(o))
  {
    if MatchesOperator(token, "nightly") then Some(Nightly)
    else if MatchesOperator(token, "search") then Some(Search)
    else if MatchesOperator(token, "delete") then Some(Delete)
    else if MatchesOperator(token, "bookmarkless") then Some(Bookmarkless)
    else if MatchesOperator(token, "local") then Some(Local)
    else None
  }

  /** The selected operator is the first in priority order that matches; none is selected only when none matches. */
  lemma SelectFirstMatch(token: string)
    ensures Select(token).Some? ==>
              exists k :: 0 <= k < |Priority| && Select(token) == Some(Priority[k])
                          && MatchesOperator(token, Name(Priority[k]))
                          && forall j :: 0 <= j < k ==> !MatchesOperator(token, Name(Priority[j]))
    ensures Select(token) == None <==>
              forall k :: 0 <= k < |Priority| ==> !MatchesOperator(token, Name(Priority[k]))
  {
    if Select(token).Some? {
      var k := match Select(token).value
        case Nightly => 0 case Search => 1 case Delete => 2 case Bookmarkless => 3 case Local => 4;
      assert Select(token) == Some(Priority[k]);
    }
  }

  /** A lone `!` selects `nightly`, the first operator. */
  lemma BangSelectsNightly()
    ensures Select("!") == Some(Nightly)
  {
    BangMatchesEverything("nightly");
  }

  /** The shorthands the script stores, `!n` and `!l`, select `nightly` and `local`. */
  lemma StoredShorthandsSelect()
    ensures Select("!n") == Some(Nightly)
    ensures Select("!l") == Some(Local)
  {
    assert MatchesOperator("!n", "nightly");
    assert !MatchesOperator("!l", "nightly") && !MatchesOperator("!l", "search");
    assert !MatchesOperator("!l", "delete") && !MatchesOperator("!l", "bookmarkless");
    assert MatchesOperator("!l", "local");
  }

  /** One-letter shortcuts and `!` prefixes select their operator; a two-letter word without `!` selects nothing. */
  lemma ShortcutExamples()
    ensures Select("n") == Some(Nightly)
    ensures Select("s") == Some(Search)
    ensures Select("d") == Some(Delete)
    ensures Select("b") == Some(Bookmarkless)
    ensures Select("l") == Some(Local)
    ensures Select("!night") == Some(Nightly)
    ensures Select("!loc") == Some(Local)
    ensures !MatchesOperator("s", "nightly")
    ensures Select("ni") == None
  {
    assert MatchesOperator("n", "nightly");
    assert !MatchesOperator("s", "nightly") && MatchesOperator("s", "search");
    assert !MatchesOperator("d", "nightly") && !MatchesOperator("d", "search");
    assert MatchesOperator("d", "delete");
    assert !MatchesOperator("b", "nightly") && !MatchesOperator("b", "search");
    assert !MatchesOperator("b", "delete") && MatchesOperator("b", "bookmarkless");
    assert !MatchesOperator("l", "nightly") && !MatchesOperator("l", "search");
    assert !MatchesOperator("l", "delete") && !MatchesOperator("l", "bookmarkless");
    assert MatchesOperator("l", "local");
    assert MatchesOperator("!night", "nightly");
    assert !MatchesOperator("!loc", "nightly") && !MatchesOperator("!loc", "search");
    assert !MatchesOperator("!loc", "delete") && !MatchesOperator("!loc", "bookmarkless");
    assert MatchesOperator("!loc", "local");
    assert !MatchesOperator("ni", "nightly") && !MatchesOperator("ni", "search");
    assert !MatchesOperator("ni", "delete") && !MatchesOperator("ni", "bookmarkless");
    assert !MatchesOperator("ni", "local");
  }
}
