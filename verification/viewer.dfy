/** The desktop viewer's data logic (viewer.py): the category list of the
    sidebar, the filtered and ordered link list, deleting a link, the map pin
    of a card and the map button of its note dialog, and the sidebar's
    navigation. The viewer reads its own SQLite file; `Unreadable` stands for
    a connection or query that raised. */
module Viewer {
  import opened Common
  import opened Text

  /** A coordinate cell of the SQLite file as `float(...)` sees it: a value it
      converts, or one it rejects. NULL is the surrounding `None`. */
  datatype Stored = Num(v: real) | NotNum

  type Row = Link<Stored>

  /** What reading the links table gave. */
  datatype Db = Unreadable | Rows(rows: seq<Row>)

  const All := "All"
  const Inbox := "Inbox"

  /** `MAP_RELEVANT_CATEGORIES`: the only categories whose links get map UI. */
  const MapCategories: seq<string> := ["Travel", "Food", "Recipe", "Restaurant", "Event", "Hiking", "Inbox"]

  // ---------------------------------------------------------------------------
  // Python's string order
  // ---------------------------------------------------------------------------

  /** `a < b` on Python strings: code point by code point, a proper prefix first. */
  predicate LexLess(a: string, b: string) {
    if a == [] then b != []
    else b != [] && (a[0] < b[0] || (a[0] == b[0] && LexLess(a[1..], b[1..])))
  }

  lemma {:induction false} LexIrreflexive(a: string)
    ensures !LexLess(a, a)
  {
    if a != [] { LexIrreflexive(a[1..]); }
  }

  lemma {:induction false} LexTransitive(a: string, b: string, c: string)
    requires LexLess(a, b) && LexLess(b, c)
    ensures LexLess(a, c)
  {
    if a != [] && a[0] == b[0] && b[0] == c[0] {
      LexTransitive(a[1..], b[1..], c[1..]);
    }
  }

  lemma {:induction false} LexTotal(a: string, b: string)
    requires a != b
    ensures LexLess(a, b) || LexLess(b, a)
  {
    if a != [] && b != [] && a[0] == b[0] {
      LexTotal(a[1..], b[1..]);
    }
  }

  /** Strictly increasing in Python's order: sorted, with no repeats. */
  predicate StrictlySorted(s: seq<string>) {
    forall i, j | 0 <= i < j < |s| :: LexLess(s[i], s[j])
  }

  // ---------------------------------------------------------------------------
  // get_categories
  // ---------------------------------------------------------------------------

  /** A category the sidebar lists: not NULL or empty, not `"Inbox"`, not `"All"`. */
  predicate Listed(c: string) {
    c != [] && c != Inbox && c != All
  }

  /** Inserting `x` into a strictly sorted list of distinct strings. */
  function InsertSorted(x: string, s: seq<string>): (r: seq<string>)
    requires StrictlySorted(s)
    ensures StrictlySorted(r)
    ensures forall y :: y in r <==> y in s || y == x
    decreases |s|
  {
    if s == [] then [x]
    else if x == s[0] then s
    else if LexLess(x, s[0]) then
      assert forall j | 0 <= j < |s| :: LexLess(x, s[j]) by {
        forall j | 0 <= j < |s| ensures LexLess(x, s[j]) {
          if j > 0 { LexTransitive(x, s[0], s[j]); }
        }
      }
      [x] + s
    else
      LexTotal(x, s[0]);
      var rest := InsertSorted(x, s[1..]);
      assert forall y | y in rest :: LexLess(s[0], y) by {
        forall y | y in rest ensures LexLess(s[0], y) {
          if y != x { var j :| 1 <= j < |s| && s[j] == y; }
        }
      }
      [s[0]] + rest
  }

  /** `sorted(set(cats))`: the distinct values in increasing order. */
  function SortDistinct(cats: seq<string>): (r: seq<string>)
    ensures StrictlySorted(r)
    ensures forall y :: y in r <==> y in cats
  {
    if cats == [] then [] else InsertSorted(cats[|cats| - 1], SortDistinct(cats[..|cats| - 1]))
  }

  /** `get_categories()`: the distinct listed categories of the rows, in
      increasing order; `[]` when the database cannot be read. */
  function Categories(db: Db): (r: seq<string>)
    ensures StrictlySorted(r)
    ensures db.Unreadable? ==> r == []
    ensures db.Rows? ==> forall c :: c in r <==> Listed(c) && exists i | 0 <= i < |db.rows| :: db.rows[i].category == c
  {
    match db
    case Unreadable => []
    case Rows(rows) =>
      var cats := seq(|rows|, i requires 0 <= i < |rows| => rows[i].category);
      var listed := Filter(cats, Listed);
      forall c ensures c in listed <==> Listed(c) && exists i | 0 <= i < |rows| :: rows[i].category == c {
        if c in listed {
          var k :| 0 <= k < |listed| && listed[k] == c;
          var i :| 0 <= i < |cats| && cats[i] == c;
        }
        if Listed(c) && exists i | 0 <= i < |rows| :: rows[i].category == c {
          var i :| 0 <= i < |rows| && rows[i].category == c;
          assert cats[i] == c;
        }
      }
      SortDistinct(listed)
  }

  // ---------------------------------------------------------------------------
  // get_links
  // ---------------------------------------------------------------------------

  /** The WHERE clause of `get_links`: the category test only when a category
      other than `"All"` is selected, the search only for a non-empty query,
      matching title or summary with SQLite's ASCII-case-insensitive `LIKE`. */
  predicate Shown(row: Row, category: string, search: string) {
    && (category != All ==> row.category == category)
    && (search != [] ==> ContainsFolded(row.title, search) || ContainsFolded(row.summary, search))
  }

  /** Ids never increase along the sequence (`ORDER BY id DESC`). */
  predicate ByIdDesc(rows: seq<Row>) {
    forall i, j | 0 <= i < j < |rows| :: rows[i].id >= rows[j].id
  }

  /** A row no older than the head of an id-descending list can go in front. */
  lemma ConsByIdDesc(x: Row, s: seq<Row>)
    requires ByIdDesc(s)
    requires s == [] || x.id >= s[0].id
    ensures ByIdDesc([x] + s)
  {
    var r := [x] + s;
    forall i, j | 0 <= i < j < |r| ensures r[i].id >= r[j].id {
      assert r[j] == s[j - 1];
      if i == 0 {
        if j > 1 { assert s[0].id >= s[j - 1].id; }
      } else {
        assert r[i] == s[i - 1];
      }
    }
  }

  /** The tail of an id-descending list is id-descending. */
  lemma TailByIdDesc(s: seq<Row>)
    requires ByIdDesc(s) && s != []
    ensures ByIdDesc(s[1..])
  {
    forall i, j | 0 <= i < j < |s| - 1 ensures s[1..][i].id >= s[1..][j].id {
      assert s[1..][i] == s[i + 1] && s[1..][j] == s[j + 1];
    }
  }

  /** Placing one row into a list ordered by id, newest first. */
  function InsertById(x: Row, s: seq<Row>): (r: seq<Row>)
    requires ByIdDesc(s)
    ensures ByIdDesc(r)
    ensures multiset(r) == multiset(s) + multiset{x}
    ensures |r| == |s| + 1
    ensures r[0] == x || (s != [] && r[0] == s[0])
  {
    if s == [] || x.id >= s[0].id then
      ConsByIdDesc(x, s);
      [x] + s
    else
      TailByIdDesc(s);
      var rest := InsertById(x, s[1..]);
      assert |s| > 1 ==> s[1..][0] == s[1] && s[0].id >= s[1].id;
      ConsByIdDesc(s[0], rest);
      assert s == [s[0]] + s[1..];
      [s[0]] + rest
  }

  /** `ORDER BY id DESC`: the same rows, newest id first. */
  function SortByIdDesc(rows: seq<Row>): (r: seq<Row>)
    ensures ByIdDesc(r)
    ensures multiset(r) == multiset(rows)
  {
    if rows == [] then []
    else
      assert rows == rows[..|rows| - 1] + [rows[|rows| - 1]];
      InsertById(rows[|rows| - 1], SortByIdDesc(rows[..|rows| - 1]))
  }

  /** `get_links(category, search_query)`: exactly the rows the filters let
      through, each once, ordered by id, newest first; `[]` when the database
      cannot be read. */
  function Links(db: Db, category: string, search: string): (r: seq<Row>)
    ensures db.Unreadable? ==> r == []
    ensures ByIdDesc(r)
    ensures db.Rows? ==> multiset(r) == multiset(Filter(db.rows, (row: Row) => Shown(row, category, search)))
    ensures forall i | 0 <= i < |r| :: Shown(r[i], category, search)
  {
    match db
    case Unreadable => []
    case Rows(rows) =>
      var f := Filter(rows, (row: Row) => Shown(row, category, search));
      var r := SortByIdDesc(f);
      forall i | 0 <= i < |r| ensures Shown(r[i], category, search) {
        assert r[i] in multiset(f);
      }
      r
  }

  /** Under `"All"` with an empty search, every row is listed. */
  lemma AllUnfiltered(rows: seq<Row>)
    ensures multiset(Links(Rows(rows), All, "")) == multiset(rows)
  {
    var keep := (row: Row) => Shown(row, All, "");
    assert Filter(rows, keep) == rows by {
      FilterAllKept(rows, keep);
    }
  }

  /** Filtering with a test every element passes keeps the sequence. */
  lemma {:induction false} FilterAllKept<T>(s: seq<T>, keep: T -> bool)
    requires forall i | 0 <= i < |s| :: keep(s[i])
    ensures Filter(s, keep) == s
  {
    if s != [] {
      FilterAllKept(s[1..], keep);
    }
  }

  /** A row of another category never shows under a selected category, and a
      row that matches neither title nor summary never shows for a search. */
  lemma LinksExclude(db: Db, category: string, search: string, row: Row)
    requires (category != All && row.category != category)
          || (search != [] && !ContainsFolded(row.title, search) && !ContainsFolded(row.summary, search))
    ensures row !in Links(db, category, search)
  {
  }

  // ---------------------------------------------------------------------------
  // delete_link_db
  // ---------------------------------------------------------------------------

  /** `DELETE FROM links WHERE id=?`: every row with that id goes, every other
      row stays, in order. */
  function Delete(rows: seq<Row>, id: int): (r: seq<Row>)
    ensures forall i | 0 <= i < |r| :: r[i].id != id && r[i] in rows
    ensures forall i | 0 <= i < |rows| && rows[i].id != id :: rows[i] in r
    ensures |r| == |rows| - |Filter(rows, (row: Row) => row.id == id)|
  {
    if rows == [] then []
    else (if rows[0].id == id then [] else [rows[0]]) + Delete(rows[1..], id)
  }

  /** With unique ids, deleting removes exactly one row when the id exists,
      and nothing otherwise. */
  lemma DeleteOne(rows: seq<Row>, k: nat)
    requires k < |rows|
    requires forall i, j | 0 <= i < j < |rows| :: rows[i].id != rows[j].id
    ensures |Delete(rows, rows[k].id)| == |rows| - 1
  {
    var id := rows[k].id;
    FilterOneMatch(rows, k);
  }

  /** With unique ids, exactly one row carries the id of row `k`. */
  lemma {:induction false} FilterOneMatch(rows: seq<Row>, k: nat)
    requires k < |rows|
    requires forall i, j | 0 <= i < j < |rows| :: rows[i].id != rows[j].id
    ensures |Filter(rows, (row: Row) => row.id == rows[k].id)| == 1
  {
    var id := rows[k].id;
    var keep := (row: Row) => row.id == id;
    if k == 0 {
      NoneMatch(rows[1..], id);
    } else {
      FilterOneMatch(rows[1..], k - 1);
      assert rows[1..][k - 1] == rows[k];
    }
  }

  /** No row of `rows` carries `id`, so the filter for it is empty. */
  lemma {:induction false} NoneMatch(rows: seq<Row>, id: int)
    requires forall i | 0 <= i < |rows| :: rows[i].id != id
    ensures Filter(rows, (row: Row) => row.id == id) == []
  {
    if rows != [] { NoneMatch(rows[1..], id); }
  }

  // ---------------------------------------------------------------------------
  // The card's map pin and the dialog's map button
  // ---------------------------------------------------------------------------

  /** `float(x) if x is not None else None`, failing on a value `float` rejects. */
  predicate Converts(x: Option<Stored>) {
    x.None? || x.value.Num?
  }

  function ToFloat(x: Option<Stored>): Option<real>
    requires Converts(x)
  {
    if x.None? then None else Some(x.value.v)
  }

  /** The card's coordinates after the guarded conversion: a rejected value
      in either column makes both `None`. */
  function CardCoords(row: Row): (p: (Option<real>, Option<real>))
    ensures !(Converts(row.lat) && Converts(row.lon)) ==> p == (None, None)
    ensures Converts(row.lat) && Converts(row.lon) ==>
      (p.0.Some? <==> row.lat.Some?) && (p.1.Some? <==> row.lon.Some?)
    ensures Converts(row.lat) && Converts(row.lon) ==>
      (row.lat.Some? ==> p.0 == Some(row.lat.value.v)) && (row.lon.Some? ==> p.1 == Some(row.lon.value.v))
  {
    if Converts(row.lat) && Converts(row.lon) then (ToFloat(row.lat), ToFloat(row.lon)) else (None, None)
  }

  /** `category in MAP_RELEVANT_CATEGORIES` */
  predicate MapRelevant(category: string) {
    category in MapCategories
  }

  /** The card's pin: both converted coordinates are not `None` (zero counts)
      and the category is map-relevant. */
  function ShowMapPin(row: Row): (b: bool)
    ensures b <==> Converts(row.lat) && Converts(row.lon) && row.lat.Some? && row.lon.Some? && MapRelevant(row.category)
  {
    var p := CardCoords(row);
    p.0.Some? && p.1.Some? && MapRelevant(row.category)
  }

  /** The dialog's map button: both coordinates truthy (zero does not count)
      and the category is map-relevant. */
  function ShowDialogMap(lat: Option<real>, lon: Option<real>, category: string): (b: bool)
    ensures b <==> lat.Some? && lat.value != 0.0 && lon.Some? && lon.value != 0.0 && category in MapCategories
  {
    Truthy(lat) && Truthy(lon) && MapRelevant(category)
  }

  /** The note dialog of a card is opened with the card's converted
      coordinates; where it offers the map, the card shows the pin. */
  lemma DialogMapHasPin(row: Row)
    requires ShowDialogMap(CardCoords(row).0, CardCoords(row).1, row.category)
    ensures ShowMapPin(row)
  {
  }

  /** The two tests differ: a travel link at latitude zero has a pin on its
      card but no map button in its dialog. */
  lemma PinWithoutDialogMap(row: Row)
    requires row.category == "Travel" && row.lat == Some(Num(0.0)) && row.lon == Some(Num(10.0))
    ensures ShowMapPin(row)
    ensures !ShowDialogMap(CardCoords(row).0, CardCoords(row).1, row.category)
  {
    assert MapCategories[0] == "Travel";
  }

  // ---------------------------------------------------------------------------
  // Navigation
  // ---------------------------------------------------------------------------

  /** `on_nav_change`: destination 0 is `"All"`, destination `i > 0` is the
      `(i-1)`-th listed category, and a destination past the list leaves the
      selection as it was. */
  function OnNav(index: nat, cats: seq<string>, current: string): (c: string)
    ensures index == 0 ==> c == All
    ensures 0 < index <= |cats| ==> c == cats[index - 1]
    ensures index > |cats| ==> c == current
  {
    if index == 0 then All
    else if index - 1 < |cats| then cats[index - 1]
    else current
  }

  /** Navigation always lands on `"All"`, a listed category of the database,
      or the previous selection. */
  lemma NavLandsOnCategory(index: nat, db: Db, current: string)
    ensures var c := OnNav(index, Categories(db), current);
      c == All || c == current || (db.Rows? && Listed(c) && exists i | 0 <= i < |db.rows| :: db.rows[i].category == c)
  {
    var cats := Categories(db);
    if 0 < index <= |cats| {
      assert cats[index - 1] in cats;
    }
  }
}
