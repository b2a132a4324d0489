/** The AI Analyzer (ai_engine.py): the remote service is an abstract outcome,
    and the free-text reply is parsed into (summary, category, location,
    coordinates) the way the source's regular expressions do it, with `\d`
    read as the ASCII digits (see README). */
module AiEngine {
  import opened Common
  import opened Text

  /** The analyzer's result tuple `(summary, category, location_str, ai_coords)`. */
  datatype Analysis = Analysis(
    summary: string,
    category: string,
    location: Option<string>,
    coords: Option<LatLon>)

  /** What the remote AI service did for one request. */
  datatype AiOutcome =
    | ModelOffline            // no model survived the start-up probe
    | UploadFailed            // the upload raised or the file ended in state FAILED
    | GenerationRaised        // generating the reply, or reading its text, raised
    | Replied(text: string)   // the model's free-text reply

  const Inbox := "Inbox"
  const OfflineSummary := "\U{26A0}\U{FE0F} AI Offline"
  const UploadFailedSummary := "\U{26A0}\U{FE0F} Video processing failed."
  const FailedSummary := "\U{26A0}\U{FE0F} Analysis Failed."

  const CategoryLabel := "CATEGORY:"
  const LocationLabel := "LOCATION_NAME:"
  const CoordinatesLabel := "COORDINATES:"
  const SummaryLabel := "SUMMARY:"

  // ---------------------------------------------------------------------------
  // re.IGNORECASE label matching
  // ---------------------------------------------------------------------------

  /** Character `c` matches pattern character `l` under `re.IGNORECASE`, for the
      upper-case ASCII letters, `:` and `_` the labels are made of. Python's
      matcher also pairs `I` with U+0130/U+0131, `S` with U+017F (long s) and
      `K` with U+212A (Kelvin sign). */
  predicate ReCharEq(c: char, l: char) {
    || c == l
    || ('A' <= l <= 'Z' && c as int == l as int + 32)
    || (l == 'I' && (c == '\U{130}' || c == '\U{131}'))
    || (l == 'S' && c == '\U{17F}')
    || (l == 'K' && c == '\U{212A}')
  }

  /** The label pattern `tag` matches case-insensitively at index `i` of `s`. */
  predicate LabelAt(s: string, i: int, tag: string) {
    0 <= i && i + |tag| <= |s| && forall k | 0 <= k < |tag| :: ReCharEq(s[i + k], tag[k])
  }

  // ---------------------------------------------------------------------------
  // LABEL:\s*(.+)
  // ---------------------------------------------------------------------------

  /** `p` is a place where the group `(.+)` of `\s*(.+)` can start when the
      scan begins at `j`: only whitespace before it, and a non-newline at `p`. */
  predicate GroupStart(s: string, j: int, p: int) {
    SpaceRun(s, j, p) && p < |s| && s[p] != '\n'
  }

  /** The last index in `[j, q)` that holds something other than a newline. */
  function LastNonNewline(s: string, j: nat, q: nat): (r: Option<nat>)
    requires j <= q <= |s|
    ensures r.Some? ==> j <= r.value < q && s[r.value] != '\n'
    ensures r.Some? ==> forall m | r.value < m < q :: s[m] == '\n'
    ensures r.None? ==> forall m | j <= m < q :: s[m] == '\n'
    decreases q - j
  {
    if q == j then None
    else if s[q - 1] != '\n' then Some(q - 1)
    else LastNonNewline(s, j, q - 1)
  }

  /** Where the group of `\s*(.+)` starts: `\s*` is greedy and gives back
      characters one at a time, so the group starts at the LAST admissible
      place; there is none exactly when no place is admissible. */
  function GroupAt(s: string, j: nat): (r: Option<nat>)
    requires j <= |s|
    ensures r.Some? ==> GroupStart(s, j, r.value)
    ensures r.Some? ==> forall q :: GroupStart(s, j, q) ==> q <= r.value
    ensures r.None? ==> forall q :: !GroupStart(s, j, q)
  {
    var k := SkipSpace(s, j);
    if k < |s| then Some(k)
    else
      var r := LastNonNewline(s, j, k);
      assert r.Some? ==> SpaceRun(s, j, r.value);
      r
  }

  /** Some admissible group start follows index `j`. */
  predicate HasGroup(s: string, j: int) {
    exists q | 0 <= q < |s| :: GroupStart(s, j, q)
  }

  /** `re.match(LABEL + r'\s*(.+)', s[i:], re.IGNORECASE)`: the captured group.
      It exists exactly when the label is there and some admissible group start
      follows it; it is one line long and never empty. */
  function MatchLabelAt(s: string, i: nat, tag: string): (r: Option<string>)
    ensures r.Some? <==> LabelAt(s, i, tag) && HasGroup(s, i + |tag|)
    ensures r.Some? ==> r.value != [] && '\n' !in r.value
    ensures r.Some? ==>
      && i + |tag| <= |s| && GroupAt(s, i + |tag|).Some?
      && var p := GroupAt(s, i + |tag|).value;
         r.value == s[p..LineEnd(s, p)]
  {
    if LabelAt(s, i, tag) then
      match GroupAt(s, i + |tag|)
      case Some(p) =>
        var g := s[p..LineEnd(s, p)];
        assert g[0] == s[p];
        Some(g)
      case None => None
    else None
  }

  /** A match: where the label starts and what the group captured. */
  datatype Hit = Hit(at: nat, group: string)

  /** No match at `from` extends "no match in `(from, to)`" to `[from, to)`. */
  lemma NoMatchBefore(s: string, tag: string, from: nat, to: nat)
    requires MatchLabelAt(s, from, tag).None?
    requires forall i | from + 1 <= i < to :: MatchLabelAt(s, i, tag).None?
    ensures forall i | from <= i < to :: MatchLabelAt(s, i, tag).None?
  {
  }

  /** The pattern cannot match past the end of the text. */
  lemma NoMatchPastEnd(s: string, tag: string, from: nat)
    requires from > |s|
    ensures forall i | from <= i :: MatchLabelAt(s, i, tag).None?
  {
    forall i | from <= i ensures MatchLabelAt(s, i, tag).None? {
      assert !LabelAt(s, i, tag);
    }
  }

  /** `re.search(LABEL + r'\s*(.+)', s[from:], re.IGNORECASE)`: the LEFTMOST
      index at which the pattern matches, anywhere in the text, mid-line included. */
  function SearchLabel(s: string, tag: string, from: nat): (r: Option<Hit>)
    ensures r.Some? ==> from <= r.value.at && MatchLabelAt(s, r.value.at, tag) == Some(r.value.group)
    ensures r.Some? ==> forall i | from <= i < r.value.at :: MatchLabelAt(s, i, tag).None?
    ensures r.None? ==> forall i | from <= i :: MatchLabelAt(s, i, tag).None?
    decreases |s| + 1 - from
  {
    if from > |s| then
      NoMatchPastEnd(s, tag, from);
      None
    else
      match MatchLabelAt(s, from, tag)
      case Some(g) => Some(Hit(from, g))
      case None =>
        var r := SearchLabel(s, tag, from + 1);
        NoMatchBefore(s, tag, from, if r.Some? then r.value.at else |s| + 1);
        r
  }

  // ---------------------------------------------------------------------------
  // Category and location
  // ---------------------------------------------------------------------------

  /** `g.strip().replace('*', '').replace('_', '').strip()` */
  function Clean(g: string): (r: string)
    ensures '*' !in r && '_' !in r
    ensures r == [] || (!IsSpace(r[0]) && !IsSpace(r[|r| - 1]))
  {
    Strip(Remove(Remove(Strip(g), '*'), '_'))
  }

  /** `s.split(' ')[0]`: the prefix of `s` up to its first space. */
  function FirstWord(s: string): (w: string)
    ensures |w| <= |s| && w == s[..|w|]
    ensures ' ' !in w
    ensures |w| == |s| || s[|w|] == ' '
  {
    SplitFirst(s, ' ');
    Split(s, ' ')[0]
  }

  /** The category: `"Inbox"` when no `CATEGORY:` line matches anywhere;
      otherwise the first space-separated word of the cleaned group, capitalized. */
  function CategoryOf(text: string): (r: string)
    ensures SearchLabel(text, CategoryLabel, 0).None? ==> r == Inbox
    ensures SearchLabel(text, CategoryLabel, 0).Some? ==>
      r == Capitalize(FirstWord(Clean(SearchLabel(text, CategoryLabel, 0).value.group)))
  {
    match SearchLabel(text, CategoryLabel, 0)
    case None => Inbox
    case Some(h) => Capitalize(FirstWord(Clean(h.group)))
  }

  /** The lower-cased value is one of the placeholders the model writes for "no place". */
  predicate IsPlaceholder(v: string) {
    var l := LowerAll(v);
    l == "none" || l == "unknown" || l == "n/a"
  }

  /** The location: the cleaned group of the first `LOCATION_NAME:` match, kept
      only when it is longer than two characters and not a placeholder. */
  function LocationOf(text: string): (r: Option<string>)
    ensures r.Some? <==>
      && SearchLabel(text, LocationLabel, 0).Some?
      && var v := Clean(SearchLabel(text, LocationLabel, 0).value.group);
         |v| > 2 && !IsPlaceholder(v)
    ensures r.Some? ==> r.value == Clean(SearchLabel(text, LocationLabel, 0).value.group)
  {
    match SearchLabel(text, LocationLabel, 0)
    case None => None
    case Some(h) =>
      var v := Clean(h.group);
      if !IsPlaceholder(v) && |v| > 2 then Some(v) else None
  }

  // ---------------------------------------------------------------------------
  // COORDINATES:\s*(-?\d+\.\d+),\s*(-?\d+\.\d+)   (case-sensitive)
  // ---------------------------------------------------------------------------

  /** `s[p..q]` is a run of ASCII digits. */
  predicate DigitRun(s: string, p: int, q: int) {
    0 <= p <= q <= |s| && forall m | p <= m < q :: IsDigit(s[m])
  }

  /** Where a numeral lies: from `start` (its minus sign, if any) to `end`,
      with the decimal point at `dot`. */
  datatype NumSpan = NumSpan(start: nat, dot: nat, end: nat)

  /** The first digit of a numeral starting at `k`: `-?` takes a minus sign
      when there is one. */
  function DigitsFrom(s: string, k: nat): nat
  {
    if k < |s| && s[k] == '-' then k + 1 else k
  }

  /** `s[n.start..n.end]` is a match of `-?\d+\.\d+` with the point at `n.dot`. */
  predicate IsNumeralAt(s: string, n: NumSpan) {
    && DigitsFrom(s, n.start) < n.dot < n.end - 1
    && n.end <= |s|
    && DigitRun(s, DigitsFrom(s, n.start), n.dot)
    && s[n.dot] == '.'
    && DigitRun(s, n.dot + 1, n.end)
  }

  /** The greedy scan of `-?\d+\.\d+` from `k`: every step is forced, and
      the last `\d+` takes every digit there is. */
  function NumeralEnd(s: string, k: nat): (r: Option<NumSpan>)
    requires k <= |s|
    ensures r.Some? ==> r.value.start == k && IsNumeralAt(s, r.value)
    ensures r.Some? ==> r.value.end == |s| || !IsDigit(s[r.value.end])
  {
    var a := DigitsFrom(s, k);
    var dot := DigitsEnd(s, a);
    if a < dot < |s| && s[dot] == '.' then
      var e := DigitsEnd(s, dot + 1);
      if e > dot + 1 then Some(NumSpan(k, dot, e)) else None
    else None
  }

  /** A numeral at `n` is found by the greedy scan from its start, with the same
      point; the scan may run on over further digits, and stops at `n.end`
      when no digit follows. */
  lemma NumeralEndFinds(s: string, n: NumSpan)
    requires IsNumeralAt(s, n)
    ensures NumeralEnd(s, n.start).Some?
    ensures NumeralEnd(s, n.start).value.dot == n.dot
    ensures NumeralEnd(s, n.start).value.end >= n.end
    ensures n.end == |s| || !IsDigit(s[n.end]) ==> NumeralEnd(s, n.start).value.end == n.end
  {
    DigitsEndIs(s, DigitsFrom(s, n.start), n.dot);
    DigitsEndIs(s, n.dot + 1, n.end);
  }

  /** Where the two numerals of a `COORDINATES:` match lie. */
  datatype CoordSpan = CoordSpan(lat: NumSpan, lon: NumSpan)

  /** The shape the pattern describes, with every position named: the label
      at `i`, whitespace, a numeral, a comma right after it, whitespace, a numeral. */
  predicate CoordShape(s: string, i: int, sp: CoordSpan) {
    && OccursAt(s, CoordinatesLabel, i)
    && SpaceRun(s, i + |CoordinatesLabel|, sp.lat.start)
    && IsNumeralAt(s, sp.lat)
    && sp.lat.end < |s| && s[sp.lat.end] == ','
    && SpaceRun(s, sp.lat.end + 1, sp.lon.start)
    && IsNumeralAt(s, sp.lon)
  }

  /** The pattern tried at index `i`. Every step of it is deterministic: `\s*`
      cannot give back a character to `-` or `\d`, and each `\d+` must stop
      where the next literal is. */
  function CoordsAt(s: string, i: nat): (r: Option<CoordSpan>)
    ensures r.Some? ==> CoordShape(s, i, r.value)
    ensures r.Some? ==> r.value.lon.end == |s| || !IsDigit(s[r.value.lon.end])
  {
    if !OccursAt(s, CoordinatesLabel, i) then None
    else
      match NumeralEnd(s, SkipSpace(s, i + |CoordinatesLabel|))
      case None => None
      case Some(lat) =>
        if lat.end < |s| && s[lat.end] == ',' then
          match NumeralEnd(s, SkipSpace(s, lat.end + 1))
          case None => None
          case Some(lon) => Some(CoordSpan(lat, lon))
        else None
  }

  /** A numeral starts with a minus sign or a digit, so not with whitespace. */
  lemma NumeralStartsSolid(s: string, n: NumSpan)
    requires IsNumeralAt(s, n)
    ensures n.start < |s| && !IsSpace(s[n.start])
  {
    assert IsDigit(s[DigitsFrom(s, n.start)]);
  }

  /** The first half of the shape is found by the greedy scan: the whitespace
      after the label ends at the first numeral, which is scanned exactly. */
  lemma LatScanned(s: string, i: nat, sp: CoordSpan)
    requires CoordShape(s, i, sp)
    ensures SkipSpace(s, i + |CoordinatesLabel|) == sp.lat.start
    ensures NumeralEnd(s, sp.lat.start) == Some(sp.lat)
  {
    NumeralStartsSolid(s, sp.lat);
    SkipSpaceIs(s, i + |CoordinatesLabel|, sp.lat.start);
    NumeralEndFinds(s, sp.lat);
  }

  /** The second half: the whitespace after the comma ends at the second
      numeral, whose scan keeps its point and may run on over further digits. */
  lemma LonScanned(s: string, i: nat, sp: CoordSpan)
    requires CoordShape(s, i, sp)
    ensures SkipSpace(s, sp.lat.end + 1) == sp.lon.start
    ensures NumeralEnd(s, sp.lon.start).Some?
    ensures NumeralEnd(s, sp.lon.start).value.dot == sp.lon.dot
    ensures NumeralEnd(s, sp.lon.start).value.end >= sp.lon.end
  {
    NumeralStartsSolid(s, sp.lon);
    SkipSpaceIs(s, sp.lat.end + 1, sp.lon.start);
    NumeralEndFinds(s, sp.lon);
  }

  /** The coordinates pattern matches at `i` whenever the shape is there: with
      the same whitespace and first numeral, and a second numeral that the
      greedy `\d+` may extend over following digits. */
  lemma CoordsAtComplete(s: string, i: nat, sp: CoordSpan)
    requires CoordShape(s, i, sp)
    ensures CoordsAt(s, i).Some?
    ensures CoordsAt(s, i).value.lat == sp.lat
    ensures CoordsAt(s, i).value.lon.start == sp.lon.start
    ensures CoordsAt(s, i).value.lon.dot == sp.lon.dot
    ensures CoordsAt(s, i).value.lon.end >= sp.lon.end
  {
    LatScanned(s, i, sp);
    LonScanned(s, i, sp);
    var lon := NumeralEnd(s, SkipSpace(s, sp.lat.end + 1)).value;
    assert CoordsAt(s, i) == Some(CoordSpan(sp.lat, lon));
  }

  /** A match of the coordinates pattern: where it starts and its numerals. */
  datatype CoordHit = CoordHit(at: nat, span: CoordSpan)

  /** `re.search` of the coordinates pattern: the LEFTMOST index where it matches. */
  function SearchCoords(s: string, from: nat): (r: Option<CoordHit>)
    ensures r.Some? ==> from <= r.value.at && CoordsAt(s, r.value.at) == Some(r.value.span)
    ensures r.Some? ==> forall i | from <= i < r.value.at :: CoordsAt(s, i).None?
    ensures r.None? ==> forall i | from <= i :: CoordsAt(s, i).None?
    decreases |s| + 1 - from
  {
    if from > |s| then
      NoCoordsPastEnd(s, from);
      None
    else
      match CoordsAt(s, from)
      case Some(sp) => Some(CoordHit(from, sp))
      case None =>
        var r := SearchCoords(s, from + 1);
        NoCoordsBefore(s, from, r);
        r
  }

  /** Past the end of the text the pattern matches nowhere. */
  lemma NoCoordsPastEnd(s: string, from: nat)
    requires from > |s|
    ensures forall i | from <= i :: CoordsAt(s, i).None?
  {
    forall i | from <= i ensures CoordsAt(s, i).None? {
      assert !OccursAt(s, CoordinatesLabel, i);
    }
  }

  /** A miss at `from` extends the miss-run of the search from `from + 1`. */
  lemma NoCoordsBefore(s: string, from: nat, r: Option<CoordHit>)
    requires CoordsAt(s, from).None?
    requires r.Some? ==> forall i | from + 1 <= i < r.value.at :: CoordsAt(s, i).None?
    requires r.None? ==> forall i | from + 1 <= i :: CoordsAt(s, i).None?
    ensures r.Some? ==> forall i | from <= i < r.value.at :: CoordsAt(s, i).None?
    ensures r.None? ==> forall i | from <= i :: CoordsAt(s, i).None?
  {
  }

  /** The value of a string of decimal digits. */
  function DigitsValue(d: string): nat
  {
    if d == [] then 0
    else 10 * DigitsValue(d[..|d| - 1]) + (if IsDigit(d[|d| - 1]) then d[|d| - 1] as int - '0' as int else 0)
  }

  function Pow10(n: nat): (r: nat)
    ensures r >= 1
  {
    if n == 0 then 1 else 10 * Pow10(n - 1)
  }

  /** `float(...)` of the numeral at `n`, as an exact real. */
  function NumeralValue(s: string, n: NumSpan): real
    requires IsNumeralAt(s, n)
  {
    var magnitude :=
      DigitsValue(s[DigitsFrom(s, n.start)..n.dot]) as real
      + DigitsValue(s[n.dot + 1..n.end]) as real / Pow10(n.end - n.dot - 1) as real;
    if DigitsFrom(s, n.start) > n.start then -magnitude else magnitude
  }

  /** `s` is one whole numeral `-?\d+\.\d+`. */
  predicate IsNumeral(x: string) {
    NumeralEnd(x, 0).Some? && NumeralEnd(x, 0).value.end == |x|
  }

  /** `float(x)` of a numeral, as an exact real. */
  function FloatOf(x: string): real
    requires IsNumeral(x)
  {
    NumeralValue(x, NumeralEnd(x, 0).value)
  }

  /** The AI-guessed coordinates: set exactly when the pattern matches
      somewhere, and then the values of the two numerals of the leftmost match. */
  function CoordsOf(text: string): (r: Option<LatLon>)
    ensures r.Some? <==> exists i :: CoordsAt(text, i).Some?
    ensures r.Some? ==>
      && SearchCoords(text, 0).Some?
      && var sp := SearchCoords(text, 0).value.span;
         r.value == LatLon(NumeralValue(text, sp.lat), NumeralValue(text, sp.lon))
  {
    match SearchCoords(text, 0)
    case None => None
    case Some(h) => Some(LatLon(NumeralValue(text, h.span.lat), NumeralValue(text, h.span.lon)))
  }

  /** The coordinates are the values of the leftmost occurrence of the shape,
      when its second numeral runs up to a non-digit: no match starts before
      it, and the greedy scan there finds exactly these two numerals. */
  lemma LeftmostCoords(text: string, i: nat, sp: CoordSpan)
    requires CoordShape(text, i, sp)
    requires sp.lon.end == |text| || !IsDigit(text[sp.lon.end])
    requires forall j, q | 0 <= j < i :: !CoordShape(text, j, q)
    ensures CoordsOf(text) == Some(LatLon(NumeralValue(text, sp.lat), NumeralValue(text, sp.lon)))
  {
    CoordsAtComplete(text, i, sp);
    var c := CoordsAt(text, i).value;
    if c.lon.end > sp.lon.end {
      assert false;
    }
    assert c == sp;
    forall j | 0 <= j < i ensures CoordsAt(text, j).None? {
      if CoordsAt(text, j).Some? {
        assert false;
      }
    }
    var h := SearchCoords(text, 0);
    assert h.Some? && h.value.at == i;
  }

  /** The AI-guessed coordinates are set exactly when the text contains the
      shape `COORDINATES:` (upper case), whitespace, numeral, comma,
      whitespace, numeral; any other shape leaves them unset. */
  lemma CoordsIffShape(text: string)
    ensures CoordsOf(text).Some? <==> exists i, sp :: CoordShape(text, i, sp)
  {
    if CoordsOf(text).Some? {
      CoordsFoundHasShape(text);
    }
    if exists i, sp :: CoordShape(text, i, sp) {
      var i, sp :| CoordShape(text, i, sp);
      ShapeFindsCoords(text, i, sp);
    }
  }

  /** A match found by the search has the shape. */
  lemma CoordsFoundHasShape(text: string)
    requires CoordsOf(text).Some?
    ensures exists i, sp :: CoordShape(text, i, sp)
  {
    var h := SearchCoords(text, 0).value;
    assert CoordShape(text, h.at, h.span);
  }

  /** The shape anywhere in the text makes the search succeed. */
  lemma ShapeFindsCoords(text: string, i: int, sp: CoordSpan)
    requires CoordShape(text, i, sp)
    ensures CoordsOf(text).Some?
  {
    CoordsAtComplete(text, i, sp);
  }

  // ---------------------------------------------------------------------------
  // Summary: re.sub of the labelled lines, then of `SUMMARY:\s*`
  // ---------------------------------------------------------------------------

  /** One of `CATEGORY:`, `LOCATION_NAME:`, `COORDINATES:` starts at `i` (any case). */
  predicate FieldLabelAt(s: string, i: int) {
    LabelAt(s, i, CategoryLabel) || LabelAt(s, i, LocationLabel) || LabelAt(s, i, CoordinatesLabel)
  }

  /** A label never starts at a newline. */
  lemma FieldLabelNotNewline(s: string, i: nat)
    requires FieldLabelAt(s, i)
    ensures s[i] != '\n'
  {
    if LabelAt(s, i, CategoryLabel) {
      assert ReCharEq(s[i + 0], CategoryLabel[0]);
    } else if LabelAt(s, i, LocationLabel) {
      assert ReCharEq(s[i + 0], LocationLabel[0]);
    } else {
      assert ReCharEq(s[i + 0], CoordinatesLabel[0]);
    }
  }

  /** The first index from `i` on where one of the three field labels starts. */
  function NextFieldLabel(s: string, i: nat): (r: Option<nat>)
    requires i <= |s|
    ensures r.Some? ==> i <= r.value < |s| && FieldLabelAt(s, r.value) && s[r.value] != '\n'
    ensures r.Some? ==> forall m | i <= m < r.value :: !FieldLabelAt(s, m)
    ensures r.None? ==> forall m | i <= m < |s| :: !FieldLabelAt(s, m)
    decreases |s| - i
  {
    if i == |s| then None
    else if FieldLabelAt(s, i) then
      FieldLabelNotNewline(s, i);
      Some(i)
    else NextFieldLabel(s, i + 1)
  }

  /** Where the match of `.*\n?` from `p` ends: past the newline that closes
      the line, or at the end of the text. */
  function LineAfter(s: string, p: nat): (e: nat)
    requires p <= |s|
    ensures p <= e <= |s|
    ensures p < |s| && s[p] != '\n' ==> e > p
  {
    var e := LineEnd(s, p);
    if e < |s| then e + 1 else e
  }

  /** `re.sub(r'(CATEGORY|LOCATION_NAME|COORDINATES):.*\n?', '', s[i:], flags=re.I)`:
      the text up to the leftmost label is kept as it is, and with no label
      left the text is kept whole; `FieldLinesCut` states what follows the kept part. */
  function DropFieldLines(s: string, i: nat): (r: string)
    requires i <= |s|
    ensures |r| <= |s| - i
    ensures NextFieldLabel(s, i).None? ==> r == s[i..]
    ensures NextFieldLabel(s, i).Some? ==>
      var j := NextFieldLabel(s, i).value;
      j - i <= |r| && r[..j - i] == s[i..j]
    decreases |s| - i
  {
    if i == |s| then []
    else if FieldLabelAt(s, i) then
      FieldLabelNotNewline(s, i);
      assert NextFieldLabel(s, i) == Some(i);
      DropFieldLines(s, LineAfter(s, i))
    else
      var rest := DropFieldLines(s, i + 1);
      assert NextFieldLabel(s, i) == NextFieldLabel(s, i + 1);
      KeepOne(s, i, NextFieldLabel(s, i + 1), rest);
      [s[i]] + rest
  }

  /** A character before the next match is kept: if `rest` is what the
      substitution keeps from `i + 1` on, `[s[i]] + rest` is what it keeps
      from `i` on. */
  lemma KeepOne(s: string, i: nat, next: Option<nat>, rest: string)
    requires i < |s| && (next.Some? ==> i < next.value <= |s|)
    requires |rest| <= |s| - (i + 1)
    requires next.None? ==> rest == s[i + 1..]
    requires next.Some? ==> next.value - (i + 1) <= |rest| && rest[..next.value - (i + 1)] == s[i + 1..next.value]
    ensures |[s[i]] + rest| <= |s| - i
    ensures next.None? ==> [s[i]] + rest == s[i..]
    ensures next.Some? ==> next.value - i <= |[s[i]] + rest| && ([s[i]] + rest)[..next.value - i] == s[i..next.value]
  {
    assert s[i..] == [s[i]] + s[i + 1..];
    if next.Some? {
      var j := next.value;
      assert s[i..j] == [s[i]] + s[i + 1..j];
      assert ([s[i]] + rest)[..j - i] == [s[i]] + rest[..j - (i + 1)];
    }
  }

  /** One kept character in front of a kept run: `s[i]` then `s[i+1..j]` is `s[i..j]`. */
  lemma ConsSlice(s: string, i: nat, j: nat, whole: string, tail: string, x: string)
    requires i < j <= |s|
    requires whole == [s[i]] + tail && tail == s[i + 1..j] + x
    ensures whole == s[i..j] + x
  {
    assert s[i..j] == [s[i]] + s[i + 1..j];
  }

  /** The match at the leftmost label (at `j`), from the label to the end of
      its line with the newline (up to `e`), is cut, and the scan resumes at `e`. */
  lemma {:induction false} FieldLinesCut(s: string, i: nat, j: nat, e: nat)
    requires i <= |s| && NextFieldLabel(s, i) == Some(j)
    requires e == LineAfter(s, j)
    ensures DropFieldLines(s, i) == s[i..j] + DropFieldLines(s, e)
    decreases |s| - i
  {
    if j > i {
      assert !FieldLabelAt(s, i);
      assert NextFieldLabel(s, i) == NextFieldLabel(s, i + 1);
      assert DropFieldLines(s, i) == [s[i]] + DropFieldLines(s, i + 1);
      FieldLinesCut(s, i + 1, j, e);
      ConsSlice(s, i, j, DropFieldLines(s, i), DropFieldLines(s, i + 1), DropFieldLines(s, e));
    } else {
      assert FieldLabelAt(s, i);
    }
  }

  /** The first index from `i` on where `SUMMARY:` starts, in any case. */
  function NextSummaryLabel(s: string, i: nat): (r: Option<nat>)
    requires i <= |s|
    ensures r.Some? ==> i <= r.value && r.value + |SummaryLabel| <= |s| && LabelAt(s, r.value, SummaryLabel)
    ensures r.Some? ==> forall m | i <= m < r.value :: !LabelAt(s, m, SummaryLabel)
    ensures r.None? ==> forall m | i <= m < |s| :: !LabelAt(s, m, SummaryLabel)
    decreases |s| - i
  {
    if i == |s| then None
    else if LabelAt(s, i, SummaryLabel) then Some(i)
    else NextSummaryLabel(s, i + 1)
  }

  /** `re.sub(r'SUMMARY:\s*', '', s[i:], flags=re.I)`: the text up to the
      leftmost label is kept as it is, and with no label left the text is
      kept whole; `SummaryLabelCut` states what follows the kept part. */
  function DropSummaryLabels(s: string, i: nat): (r: string)
    requires i <= |s|
    ensures |r| <= |s| - i
    ensures NextSummaryLabel(s, i).None? ==> r == s[i..]
    ensures NextSummaryLabel(s, i).Some? ==>
      var j := NextSummaryLabel(s, i).value;
      j - i <= |r| && r[..j - i] == s[i..j]
    decreases |s| - i
  {
    if i == |s| then []
    else if LabelAt(s, i, SummaryLabel) then
      assert NextSummaryLabel(s, i) == Some(i);
      DropSummaryLabels(s, SkipSpace(s, i + |SummaryLabel|))
    else
      var rest := DropSummaryLabels(s, i + 1);
      assert NextSummaryLabel(s, i) == NextSummaryLabel(s, i + 1);
      KeepOne(s, i, NextSummaryLabel(s, i + 1), rest);
      [s[i]] + rest
  }

  /** The match at the leftmost `SUMMARY:` (at `j`), the label and the
      whitespace after it (up to `k`), is cut, and the scan resumes at `k`. */
  lemma {:induction false} SummaryLabelCut(s: string, i: nat, j: nat, k: nat)
    requires i <= |s| && NextSummaryLabel(s, i) == Some(j)
    requires k == SkipSpace(s, j + |SummaryLabel|)
    ensures DropSummaryLabels(s, i) == s[i..j] + DropSummaryLabels(s, k)
    decreases |s| - i
  {
    if j > i {
      assert !LabelAt(s, i, SummaryLabel);
      assert NextSummaryLabel(s, i) == NextSummaryLabel(s, i + 1);
      assert DropSummaryLabels(s, i) == [s[i]] + DropSummaryLabels(s, i + 1);
      SummaryLabelCut(s, i + 1, j, k);
      ConsSlice(s, i, j, DropSummaryLabels(s, i), DropSummaryLabels(s, i + 1), DropSummaryLabels(s, k));
    } else {
      assert LabelAt(s, i, SummaryLabel);
    }
  }

  /** The summary: the reply with the three labelled lines cut and the
      `SUMMARY:` label dropped, stripped. */
  function SummaryOf(text: string): string
  {
    Strip(DropSummaryLabels(Strip(DropFieldLines(text, 0)), 0))
  }

  // ---------------------------------------------------------------------------
  // What the parsed fields look like
  // ---------------------------------------------------------------------------

  /** Every character is whitespace or one of the markdown marks `*`, `_`. */
  predicate OnlyMarkup(g: string) {
    forall k | 0 <= k < |g| :: IsSpace(g[k]) || g[k] == '*' || g[k] == '_'
  }

  /** Characters of `s` other than `c` survive `s.replace(c, '')`, and nothing else appears. */
  lemma RemoveChars(s: string, c: char)
    ensures forall k | 0 <= k < |s| && s[k] != c :: s[k] in Remove(s, c)
    ensures forall x | x in Remove(s, c) :: x in s && x != c
  {
    forall k | 0 <= k < |s| && s[k] != c ensures s[k] in Remove(s, c) {
      assert s[k] in s;
    }
  }

  /** Stripping whitespace neither adds nor removes a character that is not markup. */
  lemma StripMarkup(g: string)
    ensures OnlyMarkup(Strip(g)) <==> OnlyMarkup(g)
  {
    var x := Strip(g);
    StripCutsSpace(g);
    if OnlyMarkup(x) {
      forall k | StripFrom(g) <= k < StripTo(g) ensures IsSpace(g[k]) || g[k] == '*' || g[k] == '_' {
        assert g[k] == x[k - StripFrom(g)];
      }
    }
  }

  /** Once `*` and `_` are removed, only whitespace is left exactly when
      nothing but whitespace and marks was there. */
  lemma RemoveMarkup(x: string)
    ensures AllSpace(Remove(Remove(x, '*'), '_')) <==> OnlyMarkup(x)
  {
    var y := Remove(x, '*');
    var z := Remove(y, '_');
    RemoveChars(x, '*');
    RemoveChars(y, '_');
    if OnlyMarkup(x) {
      forall k | 0 <= k < |z| ensures IsSpace(z[k]) {
        assert z[k] in z;
        var m :| 0 <= m < |x| && x[m] == z[k];
      }
    }
    if AllSpace(z) {
      forall k | 0 <= k < |x| ensures IsSpace(x[k]) || x[k] == '*' || x[k] == '_' {
        if x[k] != '*' && x[k] != '_' {
          assert x[k] in y;
          var m :| 0 <= m < |z| && z[m] == x[k];
        }
      }
    }
  }

  /** The cleaned value is empty exactly when the captured text is nothing but
      whitespace and markdown marks. */
  lemma CleanEmptyIff(g: string)
    ensures Clean(g) == [] <==> OnlyMarkup(g)
  {
    StripEmptyIff(Remove(Remove(Strip(g), '*'), '_'));
    RemoveMarkup(Strip(g));
    StripMarkup(g);
  }

  /** `capitalize()` changes letters only, so it keeps a word free of a
      character that is no letter. */
  lemma CapitalizeAvoids(w: string, c: char)
    requires c !in w
    requires !('A' <= c <= 'Z') && !('a' <= c <= 'z') && c != 'k'
    ensures c !in Capitalize(w)
  {
    var r := Capitalize(w);
    forall k | 0 <= k < |r| ensures r[k] != c {
      assert w[k] in w;
    }
  }

  /** `capitalize()` changes case only: lower-casing undoes it. */
  lemma LowerCapitalize(w: string)
    ensures LowerAll(Capitalize(w)) == LowerAll(w)
  {
  }

  /** A matched category is one word: no space, no markdown mark, and, up to
      case, exactly the cleaned value up to its first space. It is empty
      exactly when the captured text is nothing but whitespace, `*` and `_`. */
  lemma CategoryWord(text: string)
    requires SearchLabel(text, CategoryLabel, 0).Some?
    ensures var g := SearchLabel(text, CategoryLabel, 0).value.group;
            var r := CategoryOf(text);
            var c := Clean(g);
            && ' ' !in r && '*' !in r && '_' !in r
            && |r| <= |c|
            && LowerAll(r) == LowerAll(c[..|r|])
            && (|r| == |c| || c[|r|] == ' ')
            && (r == [] <==> OnlyMarkup(g))
  {
    var g := SearchLabel(text, CategoryLabel, 0).value.group;
    var c := Clean(g);
    var w := FirstWord(c);
    CapitalizeAvoids(w, ' ');
    CapitalizeAvoids(w, '*');
    CapitalizeAvoids(w, '_');
    LowerCapitalize(w);
    CleanEmptyIff(g);
  }

  /** `strip()` only cuts, so it keeps a string free of a character. */
  lemma StripAvoids(s: string, c: char)
    requires c !in s
    ensures c !in Strip(s)
  {
    var t := Strip(s);
    forall k | 0 <= k < |t| ensures t[k] != c {
      assert t[k] == s[StripFrom(s) + k];
    }
  }

  /** A kept location is a single line longer than two characters, free of
      markdown marks and outer whitespace, and not a placeholder. */
  lemma LocationShape(text: string)
    requires LocationOf(text).Some?
    ensures var v := LocationOf(text).value;
            && |v| > 2 && !IsPlaceholder(v)
            && '*' !in v && '_' !in v && '\n' !in v
            && !IsSpace(v[0]) && !IsSpace(v[|v| - 1])
  {
    var g := SearchLabel(text, LocationLabel, 0).value.group;
    var z := Remove(Remove(Strip(g), '*'), '_');
    StripAvoids(g, '\n');
    StripAvoids(z, '\n');
  }

  /** No label of the four, in any case, anywhere in the text. */
  predicate NoLabels(s: string) {
    forall m | 0 <= m < |s| ::
      && !LabelAt(s, m, CategoryLabel) && !LabelAt(s, m, LocationLabel)
      && !LabelAt(s, m, CoordinatesLabel) && !LabelAt(s, m, SummaryLabel)
  }

  /** A label occurring verbatim matches case-insensitively too. */
  lemma OccursIsLabel(s: string, i: int, tag: string)
    requires OccursAt(s, tag, i)
    ensures LabelAt(s, i, tag)
  {
    forall k | 0 <= k < |tag| ensures ReCharEq(s[i + k], tag[k]) {
      assert s[i..i + |tag|][k] == tag[k];
    }
  }

  /** Without labels, none of the three field searches finds anything. */
  lemma NoLabelsNoFields(text: string)
    requires NoLabels(text)
    ensures SearchLabel(text, CategoryLabel, 0).None?
    ensures SearchLabel(text, LocationLabel, 0).None?
    ensures CoordsOf(text).None?
  {
    if SearchLabel(text, CategoryLabel, 0).Some? {
      assert false;
    }
    if SearchLabel(text, LocationLabel, 0).Some? {
      assert false;
    }
    if CoordsOf(text).Some? {
      var i: nat :| CoordsAt(text, i).Some?;
      OccursIsLabel(text, i, CoordinatesLabel);
      assert false;
    }
  }

  /** Without labels, the summary is the text with its outer whitespace trimmed. */
  lemma NoLabelsSummary(text: string)
    requires NoLabels(text)
    ensures SummaryOf(text) == Strip(text)
  {
    NoFieldLabelsKept(text);
    StripNoSummaryLabel(text);
    NoSummaryLabelsKept(Strip(text));
    StripIdempotent(text);
  }

  /** Without a field label the field-line substitution keeps the text. */
  lemma NoFieldLabelsKept(text: string)
    requires NoLabels(text)
    ensures DropFieldLines(text, 0) == text
  {
    assert NextFieldLabel(text, 0).None?;
    assert text[0..] == text;
  }

  /** Without `SUMMARY:` the label substitution keeps the text. */
  lemma NoSummaryLabelsKept(t: string)
    requires forall m | 0 <= m < |t| :: !LabelAt(t, m, SummaryLabel)
    ensures DropSummaryLabels(t, 0) == t
  {
    assert NextSummaryLabel(t, 0).None?;
    assert t[0..] == t;
  }

  /** A label inside a slice is a label of the whole text. */
  lemma SliceLabel(s: string, a: nat, e: nat, m: nat, tag: string)
    requires a <= e <= |s|
    ensures LabelAt(s[a..e], m, tag) ==> LabelAt(s, a + m, tag)
  {
    if LabelAt(s[a..e], m, tag) {
      forall k | 0 <= k < |tag| ensures ReCharEq(s[a + m + k], tag[k]) {
        assert s[a..e][m + k] == s[a + m + k];
      }
    }
  }

  /** Stripping a label-free text leaves no `SUMMARY:` in it. */
  lemma StripNoSummaryLabel(text: string)
    requires NoLabels(text)
    ensures forall m | 0 <= m < |Strip(text)| :: !LabelAt(Strip(text), m, SummaryLabel)
  {
    forall m | 0 <= m < |Strip(text)| ensures !LabelAt(Strip(text), m, SummaryLabel) {
      SliceLabel(text, StripFrom(text), StripTo(text), m, SummaryLabel);
    }
  }

  /** A reply that carries none of the labels is kept whole: the category is
      `"Inbox"`, there is no location and no coordinates, and the summary is
      the text with its outer whitespace trimmed. */
  lemma NoLabelsReply(text: string)
    requires NoLabels(text)
    ensures ParseReply(text) == Analysis(Strip(text), Inbox, None, None)
  {
    NoLabelsNoFields(text);
    NoLabelsSummary(text);
  }

  // ---------------------------------------------------------------------------
  // The analyzer
  // ---------------------------------------------------------------------------

  /** Parsing a reply: four independent searches over the same text. */
  function ParseReply(text: string): (a: Analysis)
    ensures a.category == CategoryOf(text)
    ensures a.location == LocationOf(text)
    ensures a.coords == CoordsOf(text)
    ensures a.summary == SummaryOf(text)
  {
    Analysis(SummaryOf(text), CategoryOf(text), LocationOf(text), CoordsOf(text))
  }

  /** `analyze_with_video_blocking`: total. Every failure of the remote service
      gives a fixed warning summary, the `"Inbox"` bucket and no location or
      coordinates; only a reply is parsed. */
  function Analyze(outcome: AiOutcome): (a: Analysis)
    ensures !outcome.Replied? ==> a.category == Inbox && a.location.None? && a.coords.None?
    ensures outcome == ModelOffline ==> a.summary == OfflineSummary
    ensures outcome == UploadFailed ==> a.summary == UploadFailedSummary
    ensures outcome == GenerationRaised ==> a.summary == FailedSummary
    ensures outcome.Replied? ==> a == ParseReply(outcome.text)
  {
    match outcome
    case ModelOffline => Analysis(OfflineSummary, Inbox, None, None)
    case UploadFailed => Analysis(UploadFailedSummary, Inbox, None, None)
    case GenerationRaised => Analysis(FailedSummary, Inbox, None, None)
    case Replied(text) => ParseReply(text)
  }
}
