/**
 One invocation of the script: the menu line the user picked or typed is
 resolved through the suggestion map, then either navigated to directly or
 parsed as an operator command. The outcome is at most one navigation
 (`_SURF_GO`) and at most one write to the table.

 The window property reads and the menu program are inputs here: the
 current page address `currentUrl` and the raw text `menuOutput` the menu
 printed. Query results are inputs related to the table by `IsQueryResult`.
 */
module Dispatcher {
  import opened Wrappers
  import opened JsString
  import opened Store
  import opened Suggestions
  import opened Command

  /** What is written to `_SURF_GO`, if anything. */
  datatype Effect = Navigate(url: string) | Stay

  /** The effect of one invocation together with the table it leaves. */
  datatype Outcome = Outcome(effect: Effect, table: Table)

  /** `promptDmenu`: a picked line that is a key of the shown map stands for its value; any other line for itself. */
  function Resolve<K>(values: map<K, string>, key: K, line: string): (r: string)
    ensures key in values ==> r == values[key]
    ensures key !in values ==> r == line
    ensures r == line || r in values.Values
  {
    if key in values then values[key] else line
  }

  const NightlyHost: string := "https://nightly.test.k8s.elo.dev/nightly-"
  const AdministrationPath: string := "/plugin/de.elo.ix.plugin.proxy/administration/"
  const SearchQuery: string := "https://search.elspeth.xyz/search?q="
  const LocalHost: string := "http://elo-"
  const LocalPath: string := ".localhost/repository/plugin/de.elo.ix.plugin.proxy/administration/"

  /** The nightly test system for a version; only the first `.` of the version becomes `-`. */
  function NightlyUrl(arg: string): (url: string)
    ensures StartsWith(url, NightlyHost)
    ensures |url| == |NightlyHost| + |arg| + |AdministrationPath|
    ensures '.' !in arg ==> url == NightlyHost + arg + AdministrationPath
    ensures url[|NightlyHost|..|NightlyHost| + |arg|] == ReplaceFirst(arg, '.', '-')
    ensures url[|NightlyHost| + |arg|..] == AdministrationPath
  {
    var version := ReplaceFirst(arg, '.', '-');
    assert (NightlyHost + version + AdministrationPath)[|NightlyHost|..|NightlyHost| + |version|] == version;
    NightlyHost + version + AdministrationPath
  }

  /** The local development system for a version, with the same single `.` replacement. */
  function LocalUrl(arg: string): (url: string)
    ensures StartsWith(url, LocalHost)
    ensures |url| == |LocalHost| + |arg| + |LocalPath|
    ensures '.' !in arg ==> url == LocalHost + arg + LocalPath
    ensures url[|LocalHost|..|LocalHost| + |arg|] == ReplaceFirst(arg, '.', '-')
    ensures url[|LocalHost| + |arg|..] == LocalPath
  {
    var version := ReplaceFirst(arg, '.', '-');
    assert (LocalHost + version + LocalPath)[|LocalHost|..|LocalHost| + |version|] == version;
    LocalHost + version + LocalPath
  }

  /** No existing row is altered or removed. */
  ghost predicate RowsKept(t: Table, u: Table)
  {
    forall k :: k in t ==> k in u && u[k] == t[k]
  }

  /** What the matched operator does with the (resolved) argument. */
  function Apply(op: Operator, arg: string, t: Table): (r: Outcome)
    ensures r.effect.Navigate? <==> op != Delete
    ensures r.effect.Navigate? ==> StartsWith(r.effect.url, "http")
    ensures op != Delete ==> RowsKept(t, r.table)
  {
    match op
    case Nightly => Outcome(Navigate(NightlyUrl(arg)), SaveNewRow(t, "!n " + arg, false, None))
    case Search => Outcome(Navigate(SearchQuery + arg), t)
    case Delete => Outcome(Stay, RemoveRow(t, arg))
    case Bookmarkless => Outcome(Navigate(PrependProtocol(arg)), t)
    case Local => Outcome(Navigate(LocalUrl(arg)), SaveNewRow(t, "!l " + arg, false, None))
  }

  /** The decision of `runEnhancedPrompt` once the picked line `result` is resolved and trimmed. */
  function Decide(result: string, values: map<string, string>, t: Table): (r: Outcome)
    ensures r.effect.Navigate? ==> StartsWith(r.effect.url, "http")
    ensures r.effect == Stay ==> ' ' in result
  {
    if ' ' !in result then
      var uri := PrependProtocol(result);
      Outcome(Navigate(uri), SaveNewRow(t, uri, false, None))
    else
      var p := GetOptAndArg(result);
      Dispatch(p.opt, Resolve(values, p.arg, p.arg), t)
  }

  /** The operator chain: the first operator the token matches acts on the argument; no match does nothing. */
  function Dispatch(token: string, arg: string, t: Table): (r: Outcome)
    ensures Select(token) != Some(Delete) ==> RowsKept(t, r.table)
    ensures r.effect == Stay <==> Select(token) == None || Select(token) == Some(Delete)
  {
    match Select(token)
    case None => Outcome(Stay, t)
    case Some(op) => Apply(op, arg, t)
  }

  /** The map the enhanced prompt shows: `readBoth` plus an entry for the current page. */
  function EnhancedValues(data: seq<Entry>, currentUrl: string): (m: map<string, string>)
    ensures "Current: " + currentUrl in m && m["Current: " + currentUrl] == currentUrl
    ensures forall k :: k in m <==> k == "Current: " + currentUrl || k in Index(data, BothKey)
    ensures forall k :: k in Index(data, BothKey) && k != "Current: " + currentUrl ==>
                          m[k] == Index(data, BothKey)[k]
  {
    Index(data, BothKey)["Current: " + currentUrl := currentUrl]
  }

  /** `runEnhancedPrompt` as a whole: show the map, resolve the picked line, trim it, decide. */
  function EnhancedPrompt(data: seq<Entry>, currentUrl: string, menuOutput: string, t: Table): (r: Outcome)
    ensures r.effect.Navigate? ==> StartsWith(r.effect.url, "http")
  {
    var values := EnhancedValues(data, currentUrl);
    var picked := Trim(menuOutput);
    var result := Trim(Resolve(values, picked, picked));
    Decide(result, values, t)
  }

  /** The top-level `switch` on the request kind. */
  function Handle(request: string, currentUrl: string, menuOutput: string,
                  bookmarkData: seq<Entry>, allData: seq<Entry>, t: Table): (r: Outcome)
    ensures request != "_SURF_BMARK" && request != "_SURF_URI" ==> r.table == t
    ensures request == "_SURF_URI" && r.effect.Navigate? ==> StartsWith(r.effect.url, "http")
  {
    var picked := Trim(menuOutput);
    if request == "_SURF_BMARK" then
      var name := Resolve(map[BookmarkIcon := "''"], picked, picked);
      Outcome(Stay, SaveRow(t, currentUrl, true, Some(name)))
    else if request == "_SURF_URI_RAW" then
      Outcome(Navigate(Resolve(map[currentUrl := currentUrl], picked, picked)), t)
    else if request == "_SURF_URI" then
      EnhancedPrompt(allData, currentUrl, menuOutput, t)
    else if request == "_SURF_URI_BMARK" then
      var values := Index(bookmarkData, NameKey)[Some("Current: " + currentUrl) := currentUrl];
      Outcome(Navigate(Resolve(values, Some(picked), picked)), t)
    else
      Outcome(Stay, t)
  }

  // ---------------------------------------------------------------------------
  // Properties of the decision

  /**
   A line without a space is an address: it is completed with `https://` when it
   does not start with `http`, inserted unless already present, and navigated to.
   */
  lemma DirectValue(result: string, values: map<string, string>, t: Table)
    requires ' ' !in result
    ensures var o := Decide(result, values, t);
            && o.effect.Navigate?
            && StartsWith(o.effect.url, "http")
            && (StartsWith(result, "http") ==> o.effect.url == result)
            && (!StartsWith(result, "http") ==> o.effect.url == "https://" + result)
            && o.table == SaveNewRow(t, o.effect.url, false, None)
  {
  }

  /** The outcome of a command line: the parsed operator applied to the argument after label lookup. */
  lemma CommandLine(result: string, values: map<string, string>, t: Table)
    requires ' ' in result
    ensures var p := GetOptAndArg(result);
            var arg := if p.arg in values then values[p.arg] else p.arg;
            var o := Decide(result, values, t);
            && (Select(p.opt) == None ==> o == Outcome(Stay, t))
            && (Select(p.opt) == Some(Delete) ==> o == Outcome(Stay, RemoveRow(t, arg)))
            && (Select(p.opt) == Some(Search) ==> o == Outcome(Navigate(SearchQuery + arg), t))
            && (Select(p.opt) == Some(Bookmarkless) ==> o == Outcome(Navigate(PrependProtocol(arg)), t))
            && (Select(p.opt) == Some(Nightly) ==>
                  o == Outcome(Navigate(NightlyUrl(arg)), SaveNewRow(t, "!n " + arg, false, None)))
            && (Select(p.opt) == Some(Local) ==>
                  o == Outcome(Navigate(LocalUrl(arg)), SaveNewRow(t, "!l " + arg, false, None)))
  {
  }

  /**
   Every invocation writes at most one row, and only `delete` removes anything:
   some key `v` is the only one whose row may differ, and no key disappears
   unless the line selected `delete`.
   */
  lemma AtMostOneRowChanges(result: string, values: map<string, string>, t: Table)
    ensures exists v :: AgreeExcept(Decide(result, values, t).table, t, v)
    ensures (' ' !in result || Select(GetOptAndArg(result).opt) != Some(Delete)) ==>
              forall k :: k in t ==> k in Decide(result, values, t).table
                                     && Decide(result, values, t).table[k] == t[k]
  {
    if ' ' !in result {
      assert AgreeExcept(Decide(result, values, t).table, t, PrependProtocol(result));
    } else {
      var p := GetOptAndArg(result);
      var arg := Resolve(values, p.arg, p.arg);
      match Select(p.opt)
      case None =>
        assert AgreeExcept(Decide(result, values, t).table, t, arg);
      case Some(op) =>
        var v := match op
          case Nightly => "!n " + arg
          case Local => "!l " + arg
          case _ => arg;
        assert AgreeExcept(Decide(result, values, t).table, t, v);
    }
  }

  /** Nothing but an explicit `delete` can take away or alter a bookmark. */
  lemma BookmarksSurvive(result: string, values: map<string, string>, t: Table, k: string)
    requires k in t && t[k].bookmarked
    requires ' ' !in result || Select(GetOptAndArg(result).opt) != Some(Delete)
    ensures k in Decide(result, values, t).table
    ensures Decide(result, values, t).table[k] == t[k]
  {
    AtMostOneRowChanges(result, values, t);
  }

  /**
   The shorthand a `nightly` command stores, picked again later, parses as the
   same `nightly` command and reproduces the navigation without a second row.
   */
  lemma NightlyShorthandReplays(arg: string, values: map<string, string>, t: Table)
    requires arg !in values || values[arg] == arg
    ensures Decide("!n " + arg, values, t).effect == Navigate(NightlyUrl(arg))
    ensures "!n " + arg in Decide("!n " + arg, values, t).table
    ensures "!n " + arg in t ==> Decide("!n " + arg, values, t).table == t
  {
    var line := "!n " + arg;
    assert GetOptAndArg(line) == Parsed("!n", arg) by {
      assert line[..2] == "!n" && line[3..] == arg;
      assert FirstSpace(line, 2);
      FrontSplit(line, 2);
    }
    assert Select("!n") == Some(Nightly) by { StoredShorthandsSelect(); }
    assert Resolve(values, arg, arg) == arg;
    assert Decide(line, values, t) == Apply(Nightly, arg, t);
  }

  /** Likewise for the `local` shorthand. */
  lemma LocalShorthandReplays(arg: string, values: map<string, string>, t: Table)
    requires arg !in values || values[arg] == arg
    ensures Decide("!l " + arg, values, t).effect == Navigate(LocalUrl(arg))
    ensures "!l " + arg in Decide("!l " + arg, values, t).table
    ensures "!l " + arg in t ==> Decide("!l " + arg, values, t).table == t
  {
    var line := "!l " + arg;
    assert GetOptAndArg(line) == Parsed("!l", arg) by {
      assert line[..2] == "!l" && line[3..] == arg;
      assert FirstSpace(line, 2);
      FrontSplit(line, 2);
    }
    assert Select("!l") == Some(Local) by { StoredShorthandsSelect(); }
    assert Resolve(values, arg, arg) == arg;
    assert Decide(line, values, t) == Apply(Local, arg, t);
  }

  /** The one-letter shortcut `n` runs `nightly` on the rest of the line. */
  lemma NightlyShortcut(arg: string, values: map<string, string>, t: Table)
    requires arg !in values
    ensures Decide("n " + arg, values, t)
            == Outcome(Navigate(NightlyUrl(arg)), SaveNewRow(t, "!n " + arg, false, None))
  {
    var line := "n " + arg;
    assert line[..1] == "n";
    assert FirstSpace(line, 1);
    FrontSplit(line, 1);
    assert line[2..] == arg;
    assert Select("n") == Some(Nightly) by { ShortcutExamples(); }
  }

  /** `"n 1.2.3"` opens the nightly system `1-2.3` (only the first dot is replaced) and stores `!n 1.2.3`. */
  lemma NightlyExample(version: string, values: map<string, string>, t: Table)
    requires version == "1.2.3" && version !in values
    ensures Decide("n " + version, values, t) ==
            Outcome(Navigate(NightlyHost + "1-2.3" + AdministrationPath),
                    SaveNewRow(t, "!n " + version, false, None))
  {
    NightlyShortcut(version, values, t);
    ReplaceFirstExample();
  }

  /** `"example.com"` opens `https://example.com` and records it unbookmarked and unlabelled. */
  lemma AddressExample(values: map<string, string>, t: Table)
    requires "https://example.com" !in t
    ensures Decide("example.com", values, t) ==
            Outcome(Navigate("https://example.com"), t["https://example.com" := Row(false, None)])
  {
    var line := "example.com";
    assert line[0] != 'h';
    assert !StartsWith(line, "http");
    assert PrependProtocol(line) == "https://example.com";
    assert forall i :: 0 <= i < |line| ==> line[i] != ' ';
    assert ' ' !in line;
  }

  /**
   `"delete example.com"` is not a delete: its first word is neither one letter
   nor `!`-prefixed, so the back split makes `example.com` the operator token,
   which matches nothing, and the invocation has no effect.
   */
  lemma SpelledOutDeleteIsNoOp(line: string, values: map<string, string>, t: Table)
    requires line == "delete example.com"
    ensures Decide(line, values, t) == Outcome(Stay, t)
  {
    assert FirstSpace(line, 6) && LastSpace(line, 6);
    assert line[..6] == "delete";
    assert line[0] != '!' && |line[..6]| != 1;
    assert !LeadsWithOperator(line[..6]);
    BackSplit(line, 6, 6);
    assert line[7..] == "example.com";

    CommandLine(line, values, t);
  }

  /** A typed line that is not one of the shown labels is decided as it was typed. */
  lemma EnhancedPromptTyped(data: seq<Entry>, currentUrl: string, line: string, t: Table)
    requires Trim(line) == line && line !in EnhancedValues(data, currentUrl)
    ensures EnhancedPrompt(data, currentUrl, line, t) == Decide(line, EnhancedValues(data, currentUrl), t)
  {
  }

  /** A picked label is decided as the value it stands for, trimmed. */
  lemma EnhancedPromptPicked(data: seq<Entry>, currentUrl: string, line: string, t: Table)
    requires Trim(line) == line && line in EnhancedValues(data, currentUrl)
    ensures var values := EnhancedValues(data, currentUrl);
            EnhancedPrompt(data, currentUrl, line, t) == Decide(Trim(values[line]), values, t)
  {
  }

  /** The one-letter shortcut `d` removes the row the rest of the line stands for. */
  lemma DeleteShortcut(shown: string, values: map<string, string>, t: Table)
    requires shown in values
    ensures Decide("d " + shown, values, t) == Outcome(Stay, RemoveRow(t, values[shown]))
  {
    var line := "d " + shown;
    assert line[..1] == "d";
    assert FirstSpace(line, 1);
    FrontSplit(line, 1);
    assert line[2..] == shown;
    assert Select("d") == Some(Delete) by { ShortcutExamples(); }
  }

  /**
   `"d <label>"` deletes the stored row the label stands for: the label resolves
   through `readBoth`'s map to a value that is a key of the table, and exactly
   that row goes.
   */
  lemma DeleteByLabel(data: seq<Entry>, currentUrl: string, t: Table, shown: string)
    requires IsQueryResult(t, AllRows, data)
    requires shown in Index(data, BothKey) && shown != "Current: " + currentUrl
    ensures var v := Index(data, BothKey)[shown];
            && v in t
            && Decide("d " + shown, EnhancedValues(data, currentUrl), t) == Outcome(Stay, RemoveRow(t, v))
            && |RemoveRow(t, v)| == |t| - 1
  {
    var values := EnhancedValues(data, currentUrl);
    DeleteShortcut(shown, values, t);
    IndexValuesStored(t, AllRows, data, BothKey, shown);
    var v := Index(data, BothKey)[shown];
    assert values[shown] == v;
    assert RemoveRow(t, v).Keys == t.Keys - {v};
  }

  /**
   `"<label> d"` deletes too: a first word longer than one character and not
   `!`-prefixed sends the line to the back split, which makes the trailing `d`
   the operator and the label its argument.
   */
  lemma TrailingDelete(shown: string, values: map<string, string>, t: Table)
    requires ' ' !in shown && !LeadsWithOperator(shown)
    ensures Decide(shown + " d", values, t) == Outcome(Stay, RemoveRow(t, Resolve(values, shown, shown)))
  {
    var line := shown + " d";
    var i := |shown|;
    assert line[..i] == shown && line[i + 1..] == "d";
    assert FirstSpace(line, i) && LastSpace(line, i);
    BackSplit(line, i, i);
    assert Select("d") == Some(Delete) by { ShortcutExamples(); }
  }

  /** Picking a label that stands for an address navigates to that address and records it. */
  lemma PickedAddress(data: seq<Entry>, currentUrl: string, line: string, t: Table)
    requires Trim(line) == line && line in EnhancedValues(data, currentUrl)
    requires var v := EnhancedValues(data, currentUrl)[line]; Trim(v) == v && ' ' !in v
    ensures var uri := PrependProtocol(EnhancedValues(data, currentUrl)[line]);
            EnhancedPrompt(data, currentUrl, line, t) == Outcome(Navigate(uri), SaveNewRow(t, uri, false, None))
  {
    var values := EnhancedValues(data, currentUrl);
    EnhancedPromptPicked(data, currentUrl, line, t);
    DirectValue(values[line], values, t);
  }

  // ---------------------------------------------------------------------------
  // Properties of the other request kinds

  /** The raw prompt navigates to exactly the trimmed line, the current page included. */
  lemma RawPromptNavigatesToLine(currentUrl: string, menuOutput: string, bookmarkData: seq<Entry>,
                                 allData: seq<Entry>, t: Table)
    ensures Handle("_SURF_URI_RAW", currentUrl, menuOutput, bookmarkData, allData, t)
            == Outcome(Navigate(Trim(menuOutput)), t)
  {
    var picked := Trim(menuOutput);
    assert Resolve(map[currentUrl := currentUrl], picked, picked) == picked;
  }

  /** Bookmarking stores the current page flagged, under the typed name (the icon entry stands for `''`). */
  lemma BookmarkSavesCurrentPage(currentUrl: string, menuOutput: string, bookmarkData: seq<Entry>,
                                 allData: seq<Entry>, t: Table)
    ensures var o := Handle("_SURF_BMARK", currentUrl, menuOutput, bookmarkData, allData, t);
            && o.effect == Stay
            && currentUrl in o.table && o.table[currentUrl].bookmarked
            && o.table[currentUrl].name ==
               Some(if Trim(menuOutput) == BookmarkIcon then "''" else Trim(menuOutput))
            && o.table == SaveRow(t, currentUrl, true, o.table[currentUrl].name)
  {
  }

  /** Browsing bookmarks never writes the table and always navigates. */
  lemma BrowseBookmarksReadOnly(currentUrl: string, menuOutput: string, bookmarkData: seq<Entry>,
                                allData: seq<Entry>, t: Table)
    ensures var o := Handle("_SURF_URI_BMARK", currentUrl, menuOutput, bookmarkData, allData, t);
            o.effect.Navigate? && o.table == t
  {
  }

  /** An unknown request kind does nothing. */
  lemma UnknownRequestIgnored(request: string, currentUrl: string, menuOutput: string,
                              bookmarkData: seq<Entry>, allData: seq<Entry>, t: Table)
    requires request !in {"_SURF_BMARK", "_SURF_URI_RAW", "_SURF_URI", "_SURF_URI_BMARK"}
    ensures Handle(request, currentUrl, menuOutput, bookmarkData, allData, t) == Outcome(Stay, t)
  {
  }

  // ---------------------------------------------------------------------------
  // The script's steps, in order, on the table object

  /** `promptDmenu` after the menu returned: trim the line and look it up. */
  method PromptDmenu<K>(values: map<K, string>, key: string -> K, menuOutput: string) returns (value: string)
    ensures value == Resolve(values, key(Trim(menuOutput)), Trim(menuOutput))
  {
    value := Trim(menuOutput);
    if key(value) in values {
      value := values[key(value)];
    }
  }

  /** The tail of `runEnhancedPrompt` once the picked line is resolved and trimmed. */
  method RunDecision(h: History, result: string, values: map<string, string>) returns (effect: Effect)
    modifies h
    ensures Outcome(effect, h.rows) == Decide(result, values, old(h.rows))
  {
    if ' ' !in result {
      var uri := PrependProtocol(result);
      h.SaveNew(uri, false, None);
      effect := Navigate(uri);
      return;
    }
    var p := GetOptAndArg(result);
    var opt, arg := p.opt, p.arg;
    if arg in values {
      arg := values[arg];
    }
    assert arg == Resolve(values, p.arg, p.arg);
    effect := RunOperator(h, opt, arg);
  }

  /** The `if ... else if` chain of `runEnhancedPrompt` on the table object. */
  method RunOperator(h: History, opt: string, arg: string) returns (effect: Effect)
    modifies h
    ensures Outcome(effect, h.rows) == Dispatch(opt, arg, old(h.rows))
  {
    if MatchesOperator(opt, "nightly") {
      assert Select(opt) == Some(Nightly);
      var uri := NightlyUrl(arg);
      h.SaveNew("!n " + arg, false, None);
      effect := Navigate(uri);
    } else if MatchesOperator(opt, "search") {
      assert Select(opt) == Some(Search);
      effect := Navigate(SearchQuery + arg);
    } else if MatchesOperator(opt, "delete") {
      assert Select(opt) == Some(Delete);
      h.Remove(arg);
      effect := Stay;
    } else if MatchesOperator(opt, "bookmarkless") {
      assert Select(opt) == Some(Bookmarkless);
      effect := Navigate(PrependProtocol(arg));
    } else if MatchesOperator(opt, "local") {
      assert Select(opt) == Some(Local);
      var uri := LocalUrl(arg);
      h.SaveNew("!l " + arg, false, None);
      effect := Navigate(uri);
    } else {
      assert Select(opt) == None;
      effect := Stay;
    }
  }

  /** `runEnhancedPrompt`: show `readBoth` plus the current page, resolve the picked line, act on it. */
  method RunEnhancedPrompt(h: History, data: seq<Entry>, currentUrl: string, menuOutput: string)
    returns (effect: Effect)
    requires IsQueryResult(h.rows, AllRows, data)
    modifies h
    ensures Outcome(effect, h.rows) == EnhancedPrompt(data, currentUrl, menuOutput, old(h.rows))
  {
    var values := ReadBoth(data);
    values := values["Current: " + currentUrl := currentUrl];
    assert values == EnhancedValues(data, currentUrl);
    var picked := PromptDmenu(values, s => s, menuOutput);
    var result := Trim(picked);
    effect := RunDecision(h, result, values);
  }

  /** The script's entry point: one request, one menu interaction, at most one write and one navigation. */
  method Invoke(h: History, request: string, currentUrl: string, menuOutput: string,
                bookmarkData: seq<Entry>, allData: seq<Entry>)
    returns (effect: Effect)
    requires IsQueryResult(h.rows, BookmarkedIs(true), bookmarkData)
    requires IsQueryResult(h.rows, AllRows, allData)
    modifies h
    ensures Outcome(effect, h.rows)
            == Handle(request, currentUrl, menuOutput, bookmarkData, allData, old(h.rows))
  {
    if request == "_SURF_BMARK" {
      var name := PromptDmenu(map[BookmarkIcon := "''"], s => s, menuOutput);
      h.Save(currentUrl, true, Some(name));
      effect := Stay;
    } else if request == "_SURF_URI_RAW" {
      var uri := PromptDmenu(map[currentUrl := currentUrl], s => s, menuOutput);
      effect := Navigate(uri);
    } else if request == "_SURF_URI" {
      effect := RunEnhancedPrompt(h, allData, currentUrl, menuOutput);
    } else if request == "_SURF_URI_BMARK" {
      var values := ReadBookmarks(bookmarkData);
      values := values[Some("Current: " + currentUrl) := currentUrl];
      var uri := PromptDmenu(values, s => Some(s), menuOutput);
      effect := Navigate(uri);
    } else {
      effect := Stay;
    }
  }
}
