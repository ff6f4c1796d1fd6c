/**
 The suggestion maps shown in the menu: label -> value, filled row by row in
 the order the query returns the rows (ascending `value`), so that a later
 row overwrites an earlier one with the same label.
 */
module Suggestions {
  import opened Wrappers
  import opened Store
  import opened JsString

  /** U+1F4C4, written `"📄"` (two UTF-16 code units) in the script. */
  const BookmarkIcon: string := "\U{1F4C4}"

  /** JavaScript truthiness of `bookmark_name`: neither null nor the empty string. */
  predicate Labelled(e: Entry)
  {
    e.name.Some? && e.name.value != ""
  }

  /** The key `readHistory` and `readBookmarks` use: the raw `bookmark_name`, null included. */
  function NameKey(e: Entry): Option<string>
  {
    e.name
  }

  /** The key `readBoth` uses: the label, decorated when bookmarked, or the value itself. */
  function BothKey(e: Entry): (k: string)
    ensures !Labelled(e) ==> k == e.value
    ensures Labelled(e) && !e.bookmarked ==> k == e.name.value
    ensures Labelled(e) && e.bookmarked ==>
              StartsWith(k, BookmarkIcon + " ") && k[|BookmarkIcon| + 1..] == e.name.value
  {
    if Labelled(e) then
      if e.bookmarked then BookmarkIcon + " " + e.name.value else e.name.value
    else e.value
  }

  /** The map `out.set(key(row), row.value)` leaves after visiting `data` in order. */
  function Index<K(==)>(data: seq<Entry>, key: Entry -> K): (m: map<K, string>)
    ensures |m| <= |data|
  {
    if data == [] then map[]
    else
      var last := data[|data| - 1];
      Index(data[..|data| - 1], key)[key(last) := last.value]
  }

  /** A label is in the map exactly when some row has it. */
  lemma {:induction false} IndexKeys<K>(data: seq<Entry>, key: Entry -> K, k: K)
    ensures k in Index(data, key) <==> exists i :: 0 <= i < |data| && key(data[i]) == k
  {
    if data != [] {
      var init := data[..|data| - 1];
      IndexKeys(init, key, k);
      if exists i :: 0 <= i < |data| && key(data[i]) == k {
        var i :| 0 <= i < |data| && key(data[i]) == k;
        if i < |data| - 1 {
          assert init[i] == data[i];
        }
      }
      if exists i :: 0 <= i < |init| && key(init[i]) == k {
        var i :| 0 <= i < |init| && key(init[i]) == k;
        assert data[i] == init[i];
      }
    }
  }

  /** A row that no later row collides with keeps its own value under its label. */
  lemma {:induction false} IndexLastWins<K>(data: seq<Entry>, key: Entry -> K, i: int)
    requires 0 <= i < |data|
    requires forall j :: i < j < |data| ==> key(data[j]) != key(data[i])
    ensures key(data[i]) in Index(data, key)
    ensures Index(data, key)[key(data[i])] == data[i].value
  {
    if i < |data| - 1 {
      var init := data[..|data| - 1];
      assert init[i] == data[i];
      forall j | i < j < |init|
        ensures key(init[j]) != key(init[i])
      {
        assert init[j] == data[j];
      }
      IndexLastWins(init, key, i);
    }
  }

  /** Every entry of the map was set by the last row carrying its label. */
  lemma {:induction false} IndexEntryFrom<K>(data: seq<Entry>, key: Entry -> K, k: K)
    requires k in Index(data, key)
    ensures exists i :: 0 <= i < |data| && key(data[i]) == k
                        && Index(data, key)[k] == data[i].value
                        && forall j :: i < j < |data| ==> key(data[j]) != k
  {
    var last := |data| - 1;
    if key(data[last]) != k {
      var init := data[..last];
      IndexEntryFrom(init, key, k);
      var i :| 0 <= i < |init| && key(init[i]) == k && Index(init, key)[k] == init[i].value
               && forall j :: i < j < |init| ==> key(init[j]) != k;
      assert data[i] == init[i];
      forall j | i < j < |data|
        ensures key(data[j]) != k
      {
        if j < last {
          assert data[j] == init[j];
        }
      }
    }
  }

  /** Rows arrive by ascending value, so on a label collision the greatest value wins. */
  lemma GreatestValueWins<K>(data: seq<Entry>, key: Entry -> K, i: int)
    requires Ascending(data)
    requires 0 <= i < |data|
    ensures key(data[i]) in Index(data, key)
    ensures var v := Index(data, key)[key(data[i])];
            v == data[i].value || Less(data[i].value, v)
  {
    IndexKeys(data, key, key(data[i]));
    IndexEntryFrom(data, key, key(data[i]));
  }

  /** Every value in the map is a row's value, hence a key of the table the rows came from. */
  lemma IndexValuesStored<K>(t: Table, w: Where, data: seq<Entry>, key: Entry -> K, k: K)
    requires IsQueryResult(t, w, data)
    requires k in Index(data, key)
    ensures Index(data, key)[k] in t
  {
    IndexEntryFrom(data, key, k);
  }

  /** Where each row of `readBoth` lands: decorated label, bare label, or its own value. */
  lemma {:induction false} ReadBothPlacement(data: seq<Entry>, i: int)
    requires 0 <= i < |data|
    ensures var m := Index(data, BothKey);
            && (Labelled(data[i]) && data[i].bookmarked ==>
                  BookmarkIcon + " " + data[i].name.value in m)
            && (Labelled(data[i]) && !data[i].bookmarked ==> data[i].name.value in m)
            && (!Labelled(data[i]) ==> data[i].value in m)
  {
    IndexKeys(data, BothKey, BothKey(data[i]));
  }

  /** An unlabelled row that no later row collides with is suggested under its own value. */
  lemma ReadBothSelfMaps(data: seq<Entry>, i: int)
    requires 0 <= i < |data| && !Labelled(data[i])
    requires forall j :: i < j < |data| ==> BothKey(data[j]) != data[i].value
    ensures data[i].value in Index(data, BothKey)
    ensures Index(data, BothKey)[data[i].value] == data[i].value
  {
    IndexLastWins(data, BothKey, i);
  }

  /** A label shown by `readBookmarks` is exactly some row's `bookmark_name`: it is never decorated. */
  lemma ReadBookmarksUndecorated(data: seq<Entry>, k: Option<string>)
    ensures k in Index(data, NameKey) <==> exists i :: 0 <= i < |data| && data[i].name == k
  {
    IndexKeys(data, NameKey, k);
  }

  /** The position of the last row carrying key `k`, whose value the map holds. */
  lemma LastRowFor<K>(data: seq<Entry>, key: Entry -> K, k: K) returns (last: int)
    requires k in Index(data, key)
    ensures 0 <= last < |data| && key(data[last]) == k && Index(data, key)[k] == data[last].value
    ensures forall l :: last < l < |data| ==> key(data[l]) != k
  {
    IndexEntryFrom(data, key, k);
    last :| 0 <= last < |data| && key(data[last]) == k && Index(data, key)[k] == data[last].value
            && forall l :: last < l < |data| ==> key(data[l]) != k;
  }

  /** Of two rows sharing a key, the earlier (smaller) value is lost. */
  lemma CollisionLosesEarlier<K>(data: seq<Entry>, key: Entry -> K, i: int, j: int)
    requires Ascending(data)
    requires 0 <= i < j < |data| && key(data[i]) == key(data[j])
    ensures key(data[i]) in Index(data, key)
    ensures Index(data, key)[key(data[i])] != data[i].value
  {
    IndexKeys(data, key, key(data[i]));
    var last := LastRowFor(data, key, key(data[i]));
    assert j <= last;
    AscendingDistinct(data, i, last);
  }

  /** All unlabelled rows of `readHistory` collapse onto the single null key, the greatest value winning. */
  lemma ReadHistoryNullCollapse(data: seq<Entry>, i: int, j: int)
    requires Ascending(data)
    requires 0 <= i < j < |data| && data[i].name == None && data[j].name == None
    ensures None in Index(data, NameKey)
    ensures Index(data, NameKey)[None] != data[i].value
  {
    CollisionLosesEarlier(data, NameKey, i, j);
  }

  /**
   `readHistory`: label -> value keyed by the raw `bookmark_name`. Its `data` is
   the result of the query `WHERE bookmarked = 0 ORDER BY value`, i.e. the
   unbookmarked rows (`IsQueryResult(t, BookmarkedIs(false), data)`).
   */
  method ReadHistory(data: seq<Entry>) returns (out: map<Option<string>, string>)
    ensures out == Index(data, NameKey)
  {
    out := map[];
    for i := 0 to |data|
      invariant out == Index(data[..i], NameKey)
    {
      assert data[..i + 1][..i] == data[..i];
      out := out[data[i].name := data[i].value];
    }
    assert data[..|data|] == data;
  }

  /**
   `readBookmarks`: the same fold, over the result of `WHERE bookmarked = 1
   ORDER BY value`, i.e. the bookmarked rows (`IsQueryResult(t, BookmarkedIs(true), data)`).
   */
  method ReadBookmarks(data: seq<Entry>) returns (out: map<Option<string>, string>)
    ensures out == Index(data, NameKey)
  {
    out := map[];
    for i := 0 to |data|
      invariant out == Index(data[..i], NameKey)
    {
      assert data[..i + 1][..i] == data[..i];
      out := out[data[i].name := data[i].value];
    }
    assert data[..|data|] == data;
  }

  /** `readBoth`: all rows, labels of bookmarked rows decorated, unlabelled rows self-mapped. */
  method ReadBoth(data: seq<Entry>) returns (out: map<string, string>)
    ensures out == Index(data, BothKey)
  {
    out := map[];
    for i := 0 to |data|
      invariant out == Index(data[..i], BothKey)
    {
      assert data[..i + 1][..i] == data[..i];
      var row := data[i];
      if row.name.Some? && row.name.value != "" {
        var shown := row.name.value;
        if row.bookmarked {
          shown := BookmarkIcon + " " + shown;
        }
        out := out[shown := row.value];
      } else {
        out := out[row.value := row.value];
      }
    }
    assert data[..|data|] == data;
  }
}
