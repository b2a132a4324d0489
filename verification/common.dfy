/** Values shared by every stage of the ingestion pipeline: optional values,
    coordinate pairs, Python's truthiness for the value kinds the source tests
    with a bare `if x:`, and the row shape of the `links` table. */
module Common {

  /** Python's `None` or a value. */
  datatype Option<+T> = None | Some(value: T)

  /** A latitude/longitude pair. Coordinates are exact reals: the IEEE
      rounding of `float(...)` is not part of the model. */
  datatype LatLon = LatLon(lat: real, lon: real)

  /** `if x:` on an optional number: `None` and zero are falsy. */
  predicate Truthy(x: Option<real>) {
    x.Some? && x.value != 0.0
  }

  /** `if s:` on an optional string: `None` and `""` are falsy. */
  predicate Present(s: Option<string>) {
    s.Some? && s.value != ""
  }

  /** Both coordinates of a pair truthy, as in `if lat and lon:`. */
  predicate BothTruthy(p: LatLon) {
    p.lat != 0.0 && p.lon != 0.0
  }

  /** One row of the `links` table. `C` is how a coordinate is stored: the
      Postgres store holds numbers, the viewer's SQLite file holds whatever
      was written there. NULL text columns are modelled as `""`. */
  datatype Link<C> = Link(
    id: int,
    url: string,
    title: string,
    image: string,
    summary: string,
    category: string,
    userId: int,
    lat: Option<C>,
    lon: Option<C>)

  /** Row ids strictly increase in storage order, as a SERIAL column fed by
      single appends guarantees. */
  predicate IdsIncreasing<C>(rows: seq<Link<C>>) {
    forall i, j | 0 <= i < j < |rows| :: rows[i].id < rows[j].id
  }

  /** Row ids strictly decrease along the sequence (`ORDER BY id DESC`). */
  predicate IdsDecreasing<C>(rows: seq<Link<C>>) {
    forall i, j | 0 <= i < j < |rows| :: rows[i].id > rows[j].id
  }

  // ---------------------------------------------------------------------------
  // Sequence operations shared by the queries
  // ---------------------------------------------------------------------------

  /** Python's `s[:n]` (and SQL's `LIMIT n`): the first `n` elements, or all of them. */
  function Take<T>(s: seq<T>, n: nat): (r: seq<T>)
    ensures |r| == (if |s| <= n then |s| else n)
    ensures r == s[..|r|]
  {
    if |s| <= n then s else s[..n]
  }

  /** The elements of `s` that satisfy `keep`, in their order in `s`. */
  function Filter<T>(s: seq<T>, keep: T -> bool): (r: seq<T>)
    ensures |r| <= |s|
    ensures forall i | 0 <= i < |r| :: r[i] in s && keep(r[i])
    ensures forall i | 0 <= i < |s| && keep(s[i]) :: s[i] in r
  {
    if s == [] then []
    else (if keep(s[0]) then [s[0]] else []) + Filter(s[1..], keep)
  }

  /** `s` back to front. */
  function Reverse<T>(s: seq<T>): (r: seq<T>)
    ensures |r| == |s|
    ensures forall i | 0 <= i < |s| :: r[i] == s[|s| - 1 - i]
  {
    if s == [] then [] else Reverse(s[1..]) + [s[0]]
  }

  /** Filtering keeps the storage order, so it keeps ids increasing. */
  lemma {:induction false} FilterIncreasing<C>(rows: seq<Link<C>>, keep: Link<C> -> bool)
    requires IdsIncreasing(rows)
    ensures IdsIncreasing(Filter(rows, keep))
  {
    if rows != [] {
      var tail := rows[1..];
      FilterIncreasing(tail, keep);
      var f := Filter(tail, keep);
      forall j | 0 <= j < |f| ensures rows[0].id < f[j].id {
        assert f[j] in tail;
      }
    }
  }

  /** Reading increasing ids back to front gives decreasing ids. */
  lemma ReverseDecreasing<C>(rows: seq<Link<C>>)
    requires IdsIncreasing(rows)
    ensures IdsDecreasing(Reverse(rows))
  {
  }

  /** A prefix of a sequence with decreasing ids has decreasing ids. */
  lemma TakeDecreasing<C>(rows: seq<Link<C>>, n: nat)
    requires IdsDecreasing(rows)
    ensures IdsDecreasing(Take(rows, n))
  {
  }
}
