/**
 The `history` table: one row per `value` (its primary key) holding the
 bookmark flag and the optional `bookmark_name`. The database engine is not
 modelled; the table is a map from `value` to the rest of its row, and a
 query result is a sequence of entries related to that map by
 `IsQueryResult`.
 */
module Store {
  import opened Wrappers

  /** The columns of a row other than its key `value`. */
  datatype Row = Row(bookmarked: bool, name: Option<string>)

  /** One row as a query returns it. */
  datatype Entry = Entry(value: string, bookmarked: bool, name: Option<string>)

  type Table = map<string, Row>

  /** `t` and `u` hold the same rows under every key but `v`. */
  ghost predicate AgreeExcept(t: Table, u: Table, v: string)
  {
    forall k :: k != v ==> (k in t <==> k in u) && (k in t ==> t[k] == u[k])
  }

  /** `INSERT OR REPLACE`: the row for `value` becomes exactly the given one. */
  function SaveRow(t: Table, value: string, bookmarked: bool, name: Option<string>): (r: Table)
    ensures value in r && r[value] == Row(bookmarked, name)
    ensures AgreeExcept(r, t, value)
  {
    t[value := Row(bookmarked, name)]
  }

  /** `INSERT` whose primary-key conflict is caught and ignored: a present row is never touched. */
  function SaveNewRow(t: Table, value: string, bookmarked: bool, name: Option<string>): (r: Table)
    ensures value in t ==> r == t
    ensures value !in t ==> value in r && r[value] == Row(bookmarked, name)
    ensures AgreeExcept(r, t, value)
  {
    if value in t then t else t[value := Row(bookmarked, name)]
  }

  /** `DELETE ... WHERE value = :value`: only that key goes, and nothing happens when it is absent. */
  function RemoveRow(t: Table, value: string): (r: Table)
    ensures value !in r
    ensures value !in t ==> r == t
    ensures AgreeExcept(r, t, value)
  {
    t - {value}
  }

  /** Saving the same row twice is the same as saving it once. */
  lemma SaveIdempotent(t: Table, value: string, bookmarked: bool, name: Option<string>)
    ensures SaveRow(SaveRow(t, value, bookmarked, name), value, bookmarked, name)
            == SaveRow(t, value, bookmarked, name)
  {
  }

  /** The later of two saves of one value wins outright: nothing of the earlier row survives. */
  lemma SaveOverwrites(t: Table, value: string, b1: bool, n1: Option<string>, b2: bool, n2: Option<string>)
    ensures SaveRow(SaveRow(t, value, b1, n1), value, b2, n2) == SaveRow(t, value, b2, n2)
  {
  }

  /** A second insert-if-absent of the same value is a no-op: the first write's flag and label stay. */
  lemma SaveNewFirstWins(t: Table, value: string, b1: bool, n1: Option<string>, b2: bool, n2: Option<string>)
    ensures var t1 := SaveNewRow(t, value, b1, n1);
            SaveNewRow(t1, value, b2, n2) == t1
  {
  }

  /** Insert-if-absent never clears the bookmark flag or label of an existing row. */
  lemma SaveNewKeepsBookmark(t: Table, value: string, name: Option<string>)
    requires value in t && t[value].bookmarked
    ensures SaveNewRow(t, value, false, name)[value] == t[value]
  {
  }

  /** Lexicographic order of code points, which is SQLite's BINARY order on UTF-8 text. */
  predicate Less(a: string, b: string)
  {
    if a == [] then b != []
    else if b == [] then false
    else a[0] < b[0] || (a[0] == b[0] && Less(a[1..], b[1..]))
  }

  lemma {:induction false} LessIrreflexive(a: string)
    ensures !Less(a, a)
  {
    if a != [] {
      LessIrreflexive(a[1..]);
    }
  }

  /** Rows arrive by ascending `value` (`ORDER BY value` on a primary key). */
  predicate Ascending(data: seq<Entry>)
  {
    forall i, j :: 0 <= i < j < |data| ==> Less(data[i].value, data[j].value)
  }

  /** Rows in ascending order have pairwise distinct values. */
  lemma AscendingDistinct(data: seq<Entry>, i: int, j: int)
    requires Ascending(data) && 0 <= i < j < |data|
    ensures data[i].value != data[j].value
  {
    LessIrreflexive(data[i].value);
  }

  /** Which rows a query selects. */
  datatype Where = AllRows | BookmarkedIs(flag: bool)

  predicate Selects(w: Where, row: Row)
  {
    match w
    case AllRows => true
    case BookmarkedIs(flag) => row.bookmarked == flag
  }

  /** `data` is what `SELECT ... FROM history WHERE w ORDER BY value` returns for table `t`. */
  ghost predicate IsQueryResult(t: Table, w: Where, data: seq<Entry>)
  {
    && Ascending(data)
    && (forall i :: 0 <= i < |data| ==>
          data[i].value in t && t[data[i].value] == Row(data[i].bookmarked, data[i].name)
          && Selects(w, t[data[i].value]))
    && (forall v :: v in t && Selects(w, t[v]) ==> exists i :: 0 <= i < |data| && data[i].value == v)
  }

  /** Every row a query returns has a key of its own: no two entries share a `value`. */
  lemma QueryValuesDistinct(t: Table, w: Where, data: seq<Entry>, i: int, j: int)
    requires IsQueryResult(t, w, data)
    requires 0 <= i < |data| && 0 <= j < |data| && i != j
    ensures data[i].value != data[j].value
  {
    if i < j {
      AscendingDistinct(data, i, j);
    } else {
      AscendingDistinct(data, j, i);
    }
  }

  /** The persistent table: the three writes the resolver performs on it. */
  class History {
    var rows: Table

    constructor (initial: Table)
      ensures rows == initial
    {
      rows := initial;
    }

    method Save(value: string, bookmarked: bool, name: Option<string>)
      modifies this
      ensures rows == SaveRow(old(rows), value, bookmarked, name)
    {
      rows := rows[value := Row(bookmarked, name)];
    }

    method SaveNew(value: string, bookmarked: bool, name: Option<string>)
      modifies this
      ensures rows == SaveNewRow(old(rows), value, bookmarked, name)
    {
      if value !in rows {
        rows := rows[value := Row(bookmarked, name)];
      }
    }

    method Remove(value: string)
      modifies this
      ensures rows == RemoveRow(old(rows), value)
    {
      rows := rows - {value};
    }
  }
}
