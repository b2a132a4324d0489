/** The geocoding waterfall (geo.py): Ola Maps first, then OpenStreetMap's
    Nominatim over a short list of ever coarser queries. Both providers are
    parameters: what they answer for a query string. Every function also
    returns the queries it sent, so "not consulted" is a statement about the
    result. */
module Geo {
  import opened Common
  import opened Text

  /** One entry of Ola's `geocodingResults`: `geometry.location.lat` and
      `.lng`, each absent (`None`) or a number. */
  datatype OlaEntry = OlaEntry(lat: Option<real>, lng: Option<real>)

  /** What the Ola request did: it raised (network, JSON, shape), or it gave a
      body whose `geocodingResults` list is absent or present. */
  datatype OlaReply =
    | OlaRaised
    | OlaBody(results: Option<seq<OlaEntry>>)

  /** What one Nominatim `geocode` call did: raised, found nothing, or found a place. */
  datatype OsmReply =
    | OsmRaised
    | OsmMiss
    | OsmHit(lat: real, lon: real)

  /** A provider's answer, `(lat, lon)` or `(None, None)`, and the queries sent to it. */
  datatype Lookup = Lookup(coords: Option<LatLon>, queries: seq<string>)

  // ---------------------------------------------------------------------------
  // Ola Maps
  // ---------------------------------------------------------------------------

  /** `get_coordinates_ola`: nothing is asked without an API key; otherwise
      one query, and the first result's pair is returned only when both of
      its values are truthy. */
  function Ola(hasKey: bool, name: string, ola: string -> OlaReply): (r: Lookup)
    ensures !hasKey ==> r == Lookup(None, [])
    ensures hasKey ==> r.queries == [name]
    ensures r.coords.Some? <==>
      && hasKey
      && ola(name).OlaBody? && ola(name).results.Some? && |ola(name).results.value| > 0
      && Truthy(ola(name).results.value[0].lat) && Truthy(ola(name).results.value[0].lng)
    ensures r.coords.Some? ==>
      && r.coords.value.lat == ola(name).results.value[0].lat.value
      && r.coords.value.lon == ola(name).results.value[0].lng.value
      && BothTruthy(r.coords.value)
  {
    if !hasKey then Lookup(None, [])
    else
      var coords :=
        match ola(name)
        case OlaRaised => None
        case OlaBody(results) =>
          if results.Some? && |results.value| > 0 then
            var first := results.value[0];
            if Truthy(first.lat) && Truthy(first.lng) then Some(LatLon(first.lat.value, first.lng.value))
            else None
          else None;
      Lookup(coords, [name])
  }

  // ---------------------------------------------------------------------------
  // OpenStreetMap
  // ---------------------------------------------------------------------------

  /** `[p.strip() for p in s.split(",")]` */
  function StrippedParts(s: string): (parts: seq<string>)
    ensures |parts| == |Split(s, ',')|
    ensures forall k | 0 <= k < |parts| :: parts[k] == Strip(Split(s, ',')[k])
  {
    var pieces := Split(s, ',');
    seq(|pieces|, k requires 0 <= k < |pieces| => Strip(pieces[k]))
  }

  /** The queries `get_coordinates_osm` tries, in order: the full name, then,
      when it has a comma, its first two parts and its first part alone. */
  function OsmAttempts(name: string): (attempts: seq<string>)
  {
    if ',' in name then
      var parts := StrippedParts(name);
      (if |parts| >= 2 then [name, parts[0] + ", " + parts[1]] else [name]) + [parts[0]]
    else [name]
  }

  /** The attempt list is `[name]` without a comma, and with one it is
      `[name, "p0, p1", p0]` for the stripped comma-separated parts: the
      `len(parts) >= 2` guard always holds once there is a comma. */
  lemma OsmAttemptsShape(name: string)
    ensures |OsmAttempts(name)| == 1 || |OsmAttempts(name)| == 3
    ensures OsmAttempts(name)[0] == name
    ensures ',' !in name ==> OsmAttempts(name) == [name]
    ensures ',' in name ==>
      var p0 := Strip(name[..IndexOf(name, ',')]);
      var rest := name[IndexOf(name, ',') + 1..];
      var p1 := Strip(Split(rest, ',')[0]);
      && OsmAttempts(name) == [name, p0 + ", " + p1, p0]
      && p1 == Strip(if ',' in rest then rest[..IndexOf(rest, ',')] else rest)
  {
    if ',' in name {
      var i := IndexOf(name, ',');
      var pieces := Split(name, ',');
      assert pieces == [name[..i]] + Split(name[i + 1..], ',');
      SplitFirst(name[i + 1..], ',');
    }
  }

  /** Whether a Nominatim answer is a found place (`if location:`). */
  predicate Found(r: OsmReply) {
    r.OsmHit?
  }

  /** What the loop of `get_coordinates_osm` promises of its outcome `r` when
      it sends `attempts` in order, the first as request number `first`, and
      `osm(n, q)` is Nominatim's reply to the `n`-th request, for query `q`
      (so a query sent twice may be answered differently): the queries sent
      are a prefix of the attempts; every one before the last missed; there
      is no place exactly when every attempt missed, and then every attempt
      was sent; otherwise the place is the last query's hit. */
  predicate Tried(attempts: seq<string>, osm: (nat, string) -> OsmReply, first: nat, r: Lookup) {
    && |r.queries| <= |attempts| && r.queries == attempts[..|r.queries|]
    && (r.coords.None? <==> forall k | 0 <= k < |attempts| :: !Found(osm(first + k, attempts[k])))
    && (r.coords.None? ==> r.queries == attempts)
    && (r.coords.Some? ==>
         && |r.queries| > 0
         && var hit := osm(first + |r.queries| - 1, r.queries[|r.queries| - 1]);
            Found(hit) && r.coords.value == LatLon(hit.lat, hit.lon))
    && (forall k | 0 <= k < |r.queries| - 1 :: !Found(osm(first + k, r.queries[k])))
  }

  /** A miss on the first attempt, followed by the rest of the loop, keeps
      the promise for the whole list. */
  lemma TriedAfterMiss(attempts: seq<string>, osm: (nat, string) -> OsmReply, first: nat, rest: Lookup)
    requires attempts != [] && !Found(osm(first, attempts[0]))
    requires Tried(attempts[1..], osm, first + 1, rest)
    ensures Tried(attempts, osm, first, Lookup(rest.coords, [attempts[0]] + rest.queries))
  {
    assert forall k | 1 <= k < |attempts| :: attempts[k] == attempts[1..][k - 1] && first + k == first + 1 + (k - 1);
  }

  /** The loop of `get_coordinates_osm`: the attempts are sent in order until
      one finds a place; a raise or a miss moves on to the next. */
  function TryInOrder(attempts: seq<string>, osm: (nat, string) -> OsmReply, first: nat): (r: Lookup)
    ensures Tried(attempts, osm, first, r)
    decreases |attempts|
  {
    if attempts == [] then Lookup(None, [])
    else
      match osm(first, attempts[0])
      case OsmHit(lat, lon) => Lookup(Some(LatLon(lat, lon)), [attempts[0]])
      case _ =>
        var rest := TryInOrder(attempts[1..], osm, first + 1);
        TriedAfterMiss(attempts, osm, first, rest);
        Lookup(rest.coords, [attempts[0]] + rest.queries)
  }

  /** `location_name.lower() == "none"`: the analyzer's placeholder reaching the geocoder. */
  predicate IsNoneName(name: string) {
    LowerAll(name) == "none"
  }

  /** `get_coordinates_osm`: an empty name or `"none"` in any case is answered
      at once without a query; otherwise the attempts are tried in order. */
  function Osm(name: string, osm: (nat, string) -> OsmReply): (r: Lookup)
    ensures name == [] || IsNoneName(name) ==> r == Lookup(None, [])
    ensures name != [] && !IsNoneName(name) ==>
      && r.queries != []
      && r.queries[0] == name
      && (r.coords.Some? <==> exists k | 0 <= k < |OsmAttempts(name)| :: Found(osm(k, OsmAttempts(name)[k])))
  {
    if name == [] || IsNoneName(name) then Lookup(None, [])
    else
      OsmAttemptsShape(name);
      TryInOrder(OsmAttempts(name), osm, 0)
  }

  // ---------------------------------------------------------------------------
  // The waterfall
  // ---------------------------------------------------------------------------

  /** The outcome of `get_best_coordinates` and the queries each provider received. */
  datatype Geocode = Geocode(coords: Option<LatLon>, olaQueries: seq<string>, osmQueries: seq<string>)

  /** `get_best_coordinates`: Ola's pair when both values are truthy; else
      OSM's pair when both values are truthy; else `(None, None)`. */
  function BestCoordinates(hasKey: bool, name: string, ola: string -> OlaReply, osm: (nat, string) -> OsmReply): (r: Geocode)
    ensures r.coords.Some? ==> BothTruthy(r.coords.value)
    ensures r.olaQueries == Ola(hasKey, name, ola).queries
    ensures Ola(hasKey, name, ola).coords.Some? ==>
      r == Geocode(Ola(hasKey, name, ola).coords, [name], [])
    ensures Ola(hasKey, name, ola).coords.None? ==>
      && r.osmQueries == Osm(name, osm).queries
      && r.coords == (var o := Osm(name, osm).coords; if o.Some? && BothTruthy(o.value) then o else None)
  {
    var a := Ola(hasKey, name, ola);
    if a.coords.Some? && BothTruthy(a.coords.value) then Geocode(a.coords, a.queries, [])
    else
      var o := Osm(name, osm);
      if o.coords.Some? && BothTruthy(o.coords.value) then Geocode(o.coords, a.queries, o.queries)
      else Geocode(None, a.queries, o.queries)
  }

  /** OSM is consulted only when Ola did not give a pair, and it is consulted
      (for a usable name) whenever Ola did not. */
  lemma OsmOnlyAfterOla(hasKey: bool, name: string, ola: string -> OlaReply, osm: (nat, string) -> OsmReply)
    ensures var r := BestCoordinates(hasKey, name, ola, osm);
      && (r.osmQueries != [] ==> Ola(hasKey, name, ola).coords.None?)
      && (Ola(hasKey, name, ola).coords.None? && name != [] && !IsNoneName(name) ==> r.osmQueries != [])
  {
  }

  /** With no Ola key and a usable name, the waterfall is OSM alone: the
      result is the first place found among the attempts, when both of its
      values are truthy. */
  lemma OsmAloneWithoutKey(name: string, ola: string -> OlaReply, osm: (nat, string) -> OsmReply)
    requires name != [] && !IsNoneName(name)
    ensures var r := BestCoordinates(false, name, ola, osm);
      && r.olaQueries == []
      && r.osmQueries == TryInOrder(OsmAttempts(name), osm, 0).queries
      && (r.coords.Some? ==> exists k | 0 <= k < |OsmAttempts(name)| ::
            osm(k, OsmAttempts(name)[k]) == OsmHit(r.coords.value.lat, r.coords.value.lon))
  {
    var t := TryInOrder(OsmAttempts(name), osm, 0);
    if t.coords.Some? {
      var k := |t.queries| - 1;
      assert t.queries[k] == OsmAttempts(name)[k];
    }
  }
}
