/** The reply format the analyzer's prompt asks for (ai_engine.py:79-83):
    the lines `CATEGORY:`, `LOCATION_NAME:` and `COORDINATES:`, then the
    `SUMMARY:`. For every reply in that format, the parse of
    ai_engine.py:91-110 yields the fields written in it, cleaned the way
    the parser cleans them. */
module ReplyFormat {
  import opened Common
  import opened Text
  import opened AiEngine

  const CategoryLead := "CATEGORY: "
  const LocationLead := "LOCATION_NAME: "
  const CoordinatesLead := "COORDINATES: "
  const SummaryLead := "SUMMARY: "

  /** One line of the reply: its lead, its value and the newline. */
  function Line(lead: string, v: string): string {
    lead + v + "\n"
  }

  /** `"CATEGORY: c\nLOCATION_NAME: l\nCOORDINATES: x, y\nSUMMARY: t"` */
  function FormattedReply(c: string, l: string, x: string, y: string, t: string): string
  {
    Line(CategoryLead, c) + Line(LocationLead, l) + Line(CoordinatesLead, x + ", " + y) + SummaryLead + t
  }

  /** A field value the format allows on its line: non-empty, starting with a
      character other than whitespace, one line long, and carrying none of
      the four labels. */
  predicate FieldValue(v: string) {
    v != [] && !IsSpace(v[0]) && '\n' !in v && NoLabels(v)
  }

  /** Where the second, third and fourth lines start. */
  function LocationStart(c: string): nat { |CategoryLead| + |c| + 1 }
  function CoordinatesStart(c: string, l: string): nat { LocationStart(c) + |LocationLead| + |l| + 1 }
  function SummaryStart(c: string, l: string, x: string, y: string): nat { CoordinatesStart(c, l) + |CoordinatesLead| + |x| + 2 + |y| + 1 }

  // ---------------------------------------------------------------------------
  // Where the pieces of a formatted reply lie
  // ---------------------------------------------------------------------------

  /** `s[off..off + |p|]` is `p`, character by character. */
  predicate At(s: string, p: string, off: int) {
    0 <= off && off + |p| <= |s| && forall m {:trigger p[m]} | 0 <= m < |p| :: s[off + m] == p[m]
  }

  /** A placed piece is a slice of the text. */
  lemma AtSlice(s: string, p: string, off: int, i: nat, j: nat)
    requires At(s, p, off) && i <= j <= |p|
    ensures s[off + i..off + j] == p[i..j]
  {
  }

  /** The two halves of a placed concatenation are placed. */
  lemma AtSplit(s: string, a: string, b: string, off: int)
    requires At(s, a + b, off)
    ensures At(s, a, off) && At(s, b, off + |a|)
  {
    forall m | 0 <= m < |a| ensures s[off + m] == a[m] {
      assert (a + b)[m] == a[m];
    }
    forall m | 0 <= m < |b| ensures s[off + |a| + m] == b[m] {
      assert (a + b)[|a| + m] == b[m];
    }
  }

  /** Line `lead + v + "\n"` lies at `off`. */
  predicate LineAt(s: string, off: int, lead: string, v: string) {
    && At(s, lead, off) && At(s, v, off + |lead|)
    && off + |lead| + |v| < |s| && s[off + |lead| + |v|] == '\n'
  }

  /** A line between two texts lies just after the first. */
  lemma LineInside(a: string, lead: string, v: string, b: string)
    ensures LineAt(a + Line(lead, v) + b, |a|, lead, v)
  {
    var s := a + Line(lead, v) + b;
    forall m | 0 <= m < |lead| ensures s[|a| + m] == lead[m] {
    }
    forall m | 0 <= m < |v| ensures s[|a| + |lead| + m] == v[m] {
    }
    assert s[|a| + |lead| + |v|] == Line(lead, v)[|lead| + |v|];
  }

  lemma LayoutCategory(c: string, l: string, x: string, y: string, t: string)
    ensures LineAt(FormattedReply(c, l, x, y, t), 0, CategoryLead, c)
  {
    var b := Line(LocationLead, l) + Line(CoordinatesLead, x + ", " + y) + SummaryLead + t;
    assert FormattedReply(c, l, x, y, t) == [] + Line(CategoryLead, c) + b;
    LineInside([], CategoryLead, c, b);
  }

  lemma LayoutLocation(c: string, l: string, x: string, y: string, t: string)
    ensures LineAt(FormattedReply(c, l, x, y, t), LocationStart(c), LocationLead, l)
  {
    var a := Line(CategoryLead, c);
    var b := Line(CoordinatesLead, x + ", " + y) + SummaryLead + t;
    assert FormattedReply(c, l, x, y, t) == a + Line(LocationLead, l) + b;
    LineInside(a, LocationLead, l, b);
  }

  lemma LayoutCoordinates(c: string, l: string, x: string, y: string, t: string)
    ensures LineAt(FormattedReply(c, l, x, y, t), CoordinatesStart(c, l), CoordinatesLead, x + ", " + y)
  {
    var a := Line(CategoryLead, c) + Line(LocationLead, l);
    var b := SummaryLead + t;
    assert FormattedReply(c, l, x, y, t) == a + Line(CoordinatesLead, x + ", " + y) + b;
    LineInside(a, CoordinatesLead, x + ", " + y, b);
  }

  lemma LayoutSummary(c: string, l: string, x: string, y: string, t: string)
    ensures var s := FormattedReply(c, l, x, y, t);
            var d := SummaryStart(c, l, x, y);
            |s| == d + |SummaryLead| + |t| && s[d..] == SummaryLead + t
            && At(s, SummaryLead, d) && At(s, t, d + |SummaryLead|)
  {
    var p3 := Line(CategoryLead, c) + Line(LocationLead, l) + Line(CoordinatesLead, x + ", " + y);
    var s := FormattedReply(c, l, x, y, t);
    assert s == p3 + (SummaryLead + t);
    assert s[|p3|..] == SummaryLead + t;
    forall m | 0 <= m < |t| ensures s[|p3| + |SummaryLead| + m] == t[m] {
      assert s[|p3| + |SummaryLead| + m] == (SummaryLead + t)[|SummaryLead| + m];
    }
    forall m | 0 <= m < |SummaryLead| ensures s[|p3| + m] == SummaryLead[m] {
      assert s[|p3| + m] == (SummaryLead + t)[m];
    }
  }

  // ---------------------------------------------------------------------------
  // What the searches see on one line
  // ---------------------------------------------------------------------------

  /** A lead that starts with the label places the label, in its own case. */
  lemma LeadLabel(s: string, off: int, lead: string, tag: string)
    requires At(s, lead, off) && |tag| <= |lead| && lead[..|tag|] == tag
    ensures LabelAt(s, off, tag) && OccursAt(s, tag, off)
  {
    forall k | 0 <= k < |tag| ensures ReCharEq(s[off + k], tag[k]) {
      assert lead[..|tag|][k] == lead[k];
    }
    AtSlice(s, lead, off, 0, |tag|);
  }

  /** A line `tag + " " + v` matches `tag\s*(.+)` at its start, and the
      group captures exactly `v`. */
  lemma LineMatch(s: string, off: nat, lead: string, tag: string, v: string)
    requires LineAt(s, off, lead, v) && lead == tag + " "
    requires v != [] && !IsSpace(v[0]) && '\n' !in v
    ensures MatchLabelAt(s, off, tag) == Some(v)
  {
    LeadLabel(s, off, lead, tag);
    var p := off + |lead|;
    assert s[off + |tag|] == lead[|tag|];
    assert s[p + 0] == v[0];
    SkipSpaceIs(s, off + |tag|, p);
    assert GroupAt(s, off + |tag|) == Some(p);
    forall m | p <= m < p + |v| ensures s[m] != '\n' {
      assert s[p + (m - p)] == v[m - p];
    }
    LineEndIs(s, p, p + |v|);
    AtSlice(s, v, p, 0, |v|);
    assert s[p..p + |v|] == v by {
      assert s[p + 0..p + |v|] == v[0..|v|];
    }
    assert MatchLabelAt(s, off, tag) == Some(s[p..LineEnd(s, p)]);
  }

  /** `.*\n?` from the start of a line runs through its newline. */
  lemma LineAfterLine(s: string, off: nat, lead: string, v: string)
    requires LineAt(s, off, lead, v) && '\n' !in lead && '\n' !in v
    ensures LineAfter(s, off) == off + |lead| + |v| + 1
  {
    forall m | off <= m < off + |lead| + |v| ensures s[m] != '\n' {
      if m < off + |lead| {
        assert s[off + (m - off)] == lead[m - off];
      } else {
        assert s[off + |lead| + (m - off - |lead|)] == v[m - off - |lead|];
      }
    }
    LineEndIs(s, off, off + |lead| + |v|);
  }

  /** No label can start inside `lead` from index `i` on: at each index
      either the first character of the label does not match, or the second
      does not. */
  predicate LeadAvoidsFrom(lead: string, tag: string, i: nat)
    requires |tag| >= 2
    decreases |lead| - i
  {
    i >= |lead| ||
    ((!ReCharEq(lead[i], tag[0]) || (i + 1 < |lead| && !ReCharEq(lead[i + 1], tag[1])))
     && LeadAvoidsFrom(lead, tag, i + 1))
  }

  predicate LeadAvoids(lead: string, tag: string) {
    |tag| >= 2 && LeadAvoidsFrom(lead, tag, 0)
  }

  /** The leads that come before a label's own line, or after it, do not hide it. */
  lemma CategoryLeadAvoids()
    ensures LeadAvoids(CategoryLead, LocationLabel)
    ensures LeadAvoids(CategoryLead, CoordinatesLabel)
  {
  }

  lemma LocationLeadAvoids()
    ensures LeadAvoids(LocationLead, CoordinatesLabel)
  {
  }

  lemma SummaryLeadAvoids()
    ensures LeadAvoids(SummaryLead, CategoryLabel)
    ensures LeadAvoids(SummaryLead, LocationLabel)
    ensures LeadAvoids(SummaryLead, CoordinatesLabel)
  {
  }

  /** One of the four labels. */
  predicate IsLabel(tag: string) {
    tag == CategoryLabel || tag == LocationLabel || tag == CoordinatesLabel || tag == SummaryLabel
  }

  /** A newline matches no character of a label. */
  lemma NewlineNoLabel(tag: string, k: nat)
    requires IsLabel(tag) && k < |tag|
    ensures !ReCharEq('\n', tag[k])
  {
  }

  /** No label starts inside a lead that avoids it. */
  lemma {:induction false} LeadNoLabel(s: string, off: nat, lead: string, tag: string, i: nat, m: nat)
    requires At(s, lead, off) && |tag| >= 2 && LeadAvoidsFrom(lead, tag, i)
    requires off + i <= m < off + |lead|
    ensures !LabelAt(s, m, tag)
    decreases m - off - i
  {
    if m > off + i {
      LeadNoLabel(s, off, lead, tag, i + 1, m);
    } else {
      assert s[off + i] == lead[i];
      if i + 1 < |lead| {
        assert s[off + (i + 1)] == lead[i + 1];
      }
      assert s[m + 0] == s[m];
    }
  }

  /** No label lies wholly inside a value that carries none. */
  lemma InsideNoLabel(s: string, p: nat, v: string, tag: string, m: nat)
    requires At(s, v, p) && NoLabels(v) && IsLabel(tag)
    requires p <= m && m + |tag| <= p + |v|
    ensures !LabelAt(s, m, tag)
  {
    forall j | m <= j < m + |tag| ensures s[j] == v[j - p] {
      assert s[p + (j - p)] == v[j - p];
    }
    assert !LabelAt(v, m - p, tag);
  }

  /** No label runs over a newline. */
  lemma CrossNoLabel(s: string, e: nat, tag: string, m: nat)
    requires e < |s| && s[e] == '\n' && IsLabel(tag)
    requires m <= e < m + |tag|
    ensures !LabelAt(s, m, tag)
  {
    NewlineNoLabel(tag, e - m);
    assert s[m + (e - m)] == '\n';
  }

  /** No match of `tag` starts anywhere on a run `lead + v` that ends a line
      or the text, when `lead` avoids it and `v` carries no label. */
  lemma RunQuiet(s: string, off: nat, lead: string, v: string, tag: string)
    requires At(s, lead, off) && At(s, v, off + |lead|)
    requires var e := off + |lead| + |v|; e == |s| || s[e] == '\n'
    requires LeadAvoids(lead, tag) && NoLabels(v) && IsLabel(tag)
    ensures forall m | off <= m <= off + |lead| + |v| :: !LabelAt(s, m, tag)
  {
    var p := off + |lead|;
    var e := p + |v|;
    forall m | off <= m <= e ensures !LabelAt(s, m, tag) {
      if m < p {
        LeadNoLabel(s, off, lead, tag, 0, m);
      } else if m + |tag| <= e {
        InsideNoLabel(s, p, v, tag, m);
      } else if e < |s| {
        CrossNoLabel(s, e, tag, m);
      }
    }
  }

  /** The search finds the match at `j` when no label starts before it. */
  lemma SearchFinds(s: string, tag: string, j: nat, g: string)
    requires MatchLabelAt(s, j, tag) == Some(g)
    requires forall m | 0 <= m < j :: !LabelAt(s, m, tag)
    ensures SearchLabel(s, tag, 0) == Some(Hit(j, g))
  {
    var r := SearchLabel(s, tag, 0);
    if r.None? || r.value.at > j {
      assert false;
    }
    if r.value.at < j {
      assert false;
    }
  }

  /** A label that does not match case-insensitively does not occur verbatim. */
  lemma NoLabelNoOccurs(s: string, j: int, tag: string)
    requires !LabelAt(s, j, tag)
    ensures !OccursAt(s, tag, j)
  {
    if 0 <= j && j + |tag| <= |s| {
      var k :| 0 <= k < |tag| && !ReCharEq(s[j + k], tag[k]);
      assert s[j..j + |tag|][k] == s[j + k];
    }
  }

  // ---------------------------------------------------------------------------
  // Numerals
  // ---------------------------------------------------------------------------

  /** A numeral's span, moved right by `off`. */
  function ShiftSpan(n: NumSpan, off: nat): (r: NumSpan)
    ensures r.end - r.start == n.end - n.start
  {
    NumSpan(n.start + off, n.dot + off, n.end + off)
  }

  /** A numeral is made of digits, a minus sign and a point: no newline. */
  lemma NumeralNoNewline(x: string)
    requires IsNumeral(x)
    ensures '\n' !in x
  {
    var n := NumeralEnd(x, 0).value;
    var a := DigitsFrom(x, 0);
    forall i | 0 <= i < |x| ensures x[i] != '\n' {
      if i < a {
        assert x[0] == '-';
      } else if i < n.dot {
        assert IsDigit(x[i]);
      } else if i > n.dot {
        assert IsDigit(x[i]);
      }
    }
  }

  /** A numeral placed in a longer text is a numeral there, with the same value. */
  lemma NumeralShift(s: string, x: string, off: nat)
    requires IsNumeral(x) && At(s, x, off)
    ensures IsNumeralAt(s, ShiftSpan(NumeralEnd(x, 0).value, off))
    ensures NumeralValue(s, ShiftSpan(NumeralEnd(x, 0).value, off)) == FloatOf(x)
  {
    NumeralShiftAt(s, x, off);
    NumeralShiftValue(s, x, off);
  }

  /** The placed numeral has the shape, and its sign is where it was. */
  lemma NumeralShiftAt(s: string, x: string, off: nat)
    requires IsNumeral(x) && At(s, x, off)
    ensures IsNumeralAt(s, ShiftSpan(NumeralEnd(x, 0).value, off))
    ensures DigitsFrom(s, off) == off + DigitsFrom(x, 0)
  {
    var n := NumeralEnd(x, 0).value;
    var a := DigitsFrom(x, 0);
    assert s[off + 0] == x[0];
    forall m | off + a <= m < off + n.dot ensures IsDigit(s[m]) {
      assert s[off + (m - off)] == x[m - off];
    }
    forall m | off + n.dot + 1 <= m < off + n.end ensures IsDigit(s[m]) {
      assert s[off + (m - off)] == x[m - off];
    }
    assert s[off + n.dot] == x[n.dot];
  }

  /** The placed numeral reads the same digits, so it has the same value. */
  lemma NumeralShiftValue(s: string, x: string, off: nat)
    requires IsNumeral(x) && At(s, x, off)
    requires IsNumeralAt(s, ShiftSpan(NumeralEnd(x, 0).value, off))
    requires DigitsFrom(s, off) == off + DigitsFrom(x, 0)
    ensures NumeralValue(s, ShiftSpan(NumeralEnd(x, 0).value, off)) == FloatOf(x)
  {
    var n := NumeralEnd(x, 0).value;
    var m := ShiftSpan(n, off);
    assert m.start == off && m.dot == off + n.dot && m.end == off + n.end;
    var a := DigitsFrom(x, 0);
    assert DigitsFrom(s, m.start) == off + a && n.start == 0;
    AtSlice(s, x, off, a, n.dot);
    assert s[off + a..m.dot] == x[a..n.dot];
    AtSlice(s, x, off, n.dot + 1, n.end);
    assert s[m.dot + 1..m.end] == x[n.dot + 1..n.end];
    SameDigitsSameValue(s, m, x, n);
  }

  /** Two numerals with the same sign and the same digits around the point
      have the same value. */
  lemma SameDigitsSameValue(s: string, m: NumSpan, x: string, n: NumSpan)
    requires IsNumeralAt(s, m) && IsNumeralAt(x, n)
    requires DigitsFrom(s, m.start) - m.start == DigitsFrom(x, n.start) - n.start
    requires s[DigitsFrom(s, m.start)..m.dot] == x[DigitsFrom(x, n.start)..n.dot]
    requires s[m.dot + 1..m.end] == x[n.dot + 1..n.end]
    ensures NumeralValue(s, m) == NumeralValue(x, n)
  {
  }

  // ---------------------------------------------------------------------------
  // The four fields of a formatted reply
  // ---------------------------------------------------------------------------

  /** The category search matches on the first line and captures `c`. */
  lemma FormattedCategory(c: string, l: string, x: string, y: string, t: string)
    requires FieldValue(c)
    ensures var s := FormattedReply(c, l, x, y, t);
            && SearchLabel(s, CategoryLabel, 0) == Some(Hit(0, c))
            && CategoryOf(s) == Capitalize(FirstWord(Clean(c)))
  {
    var s := FormattedReply(c, l, x, y, t);
    LayoutCategory(c, l, x, y, t);
    LineMatch(s, 0, CategoryLead, CategoryLabel, c);
    SearchFinds(s, CategoryLabel, 0, c);
  }

  /** The location search passes over the first line, matches on the second
      and captures `l`. */
  lemma FormattedLocation(c: string, l: string, x: string, y: string, t: string)
    requires FieldValue(c) && FieldValue(l)
    ensures var s := FormattedReply(c, l, x, y, t);
            && SearchLabel(s, LocationLabel, 0) == Some(Hit(LocationStart(c), l))
            && LocationOf(s) == (if |Clean(l)| > 2 && !IsPlaceholder(Clean(l)) then Some(Clean(l)) else None)
  {
    var s := FormattedReply(c, l, x, y, t);
    LayoutLocation(c, l, x, y, t);
    CategoryLeadAvoids();
    FirstLineQuiet(c, l, x, y, t, LocationLabel);
    LineMatch(s, LocationStart(c), LocationLead, LocationLabel, l);
    SearchFinds(s, LocationLabel, LocationStart(c), l);
  }

  /** Where the numerals of a coordinates line `x, y` at `k` lie. */
  function CoordLineSpan(k: nat, x: string, y: string): CoordSpan
    requires IsNumeral(x) && IsNumeral(y)
  {
    var q := k + |CoordinatesLead|;
    CoordSpan(ShiftSpan(NumeralEnd(x, 0).value, q), ShiftSpan(NumeralEnd(y, 0).value, q + |x| + 2))
  }

  /** The pieces of a coordinates line `x, y` at `k`. */
  lemma CoordLinePieces(s: string, k: nat, x: string, y: string)
    requires LineAt(s, k, CoordinatesLead, x + ", " + y)
    ensures var q := k + |CoordinatesLead|;
            && OccursAt(s, CoordinatesLabel, k) && s[k + |CoordinatesLabel|] == ' '
            && At(s, x, q) && s[q + |x|] == ',' && s[q + |x| + 1] == ' '
            && At(s, y, q + |x| + 2) && q + |x| + 2 + |y| < |s| && s[q + |x| + 2 + |y|] == '\n'
  {
    var q := k + |CoordinatesLead|;
    AtSplit(s, x + ", ", y, q);
    AtSplit(s, x, ", ", q);
    assert s[q + |x| + 0] == ", "[0];
    assert s[q + |x| + 1] == ", "[1];
    assert s[k + 12] == CoordinatesLead[12];
    LeadLabel(s, k, CoordinatesLead, CoordinatesLabel);
  }

  /** A coordinates line has the shape the pattern describes. */
  lemma CoordLineShape(s: string, k: nat, x: string, y: string)
    requires IsNumeral(x) && IsNumeral(y)
    requires var q := k + |CoordinatesLead|;
             && OccursAt(s, CoordinatesLabel, k) && k + |CoordinatesLabel| < |s| && s[k + |CoordinatesLabel|] == ' '
             && q + |x| + 1 < |s| && s[q + |x|] == ',' && s[q + |x| + 1] == ' '
    requires IsNumeralAt(s, CoordLineSpan(k, x, y).lat) && IsNumeralAt(s, CoordLineSpan(k, x, y).lon)
    ensures CoordShape(s, k, CoordLineSpan(k, x, y))
  {
    var q := k + |CoordinatesLead|;
    var sp := CoordLineSpan(k, x, y);
    assert sp.lat.start == q && sp.lat.end == q + |x|;
    assert sp.lon.start == q + |x| + 2;
  }

  /** A coordinates line has the shape the pattern describes, its second
      numeral is followed by the newline, and its numerals have the values of
      `x` and `y`. */
  lemma CoordLine(s: string, k: nat, x: string, y: string)
    requires IsNumeral(x) && IsNumeral(y) && LineAt(s, k, CoordinatesLead, x + ", " + y)
    ensures var sp := CoordLineSpan(k, x, y);
            && CoordShape(s, k, sp)
            && sp.lon.end < |s| && s[sp.lon.end] == '\n'
            && NumeralValue(s, sp.lat) == FloatOf(x) && NumeralValue(s, sp.lon) == FloatOf(y)
  {
    var q := k + |CoordinatesLead|;
    CoordLinePieces(s, k, x, y);
    var sp := CoordLineSpan(k, x, y);
    NumeralShift(s, x, q);
    assert sp.lat == ShiftSpan(NumeralEnd(x, 0).value, q);
    NumeralShift(s, y, q + |x| + 2);
    assert sp.lon == ShiftSpan(NumeralEnd(y, 0).value, q + |x| + 2);
    CoordLineShape(s, k, x, y);
  }

  /** No label that the category lead avoids starts on the first line. */
  lemma FirstLineQuiet(c: string, l: string, x: string, y: string, t: string, tag: string)
    requires FieldValue(c) && LeadAvoids(CategoryLead, tag) && IsLabel(tag)
    ensures forall m | 0 <= m < LocationStart(c) :: !LabelAt(FormattedReply(c, l, x, y, t), m, tag)
  {
    LayoutCategory(c, l, x, y, t);
    RunQuiet(FormattedReply(c, l, x, y, t), 0, CategoryLead, c, tag);
  }

  /** No label that the location lead avoids starts on the second line. */
  lemma SecondLineQuiet(c: string, l: string, x: string, y: string, t: string, tag: string)
    requires FieldValue(l) && LeadAvoids(LocationLead, tag) && IsLabel(tag)
    ensures forall m | LocationStart(c) <= m < CoordinatesStart(c, l) :: !LabelAt(FormattedReply(c, l, x, y, t), m, tag)
  {
    LayoutLocation(c, l, x, y, t);
    RunQuiet(FormattedReply(c, l, x, y, t), LocationStart(c), LocationLead, l, tag);
  }

  /** Neither of the first two lines holds the coordinates shape. */
  lemma NoShapeBefore(c: string, l: string, x: string, y: string, t: string)
    requires FieldValue(c) && FieldValue(l)
    ensures forall j, sp | 0 <= j < CoordinatesStart(c, l) :: !CoordShape(FormattedReply(c, l, x, y, t), j, sp)
  {
    var s := FormattedReply(c, l, x, y, t);
    CategoryLeadAvoids();
    LocationLeadAvoids();
    FirstLineQuiet(c, l, x, y, t, CoordinatesLabel);
    SecondLineQuiet(c, l, x, y, t, CoordinatesLabel);
    forall j, sp | 0 <= j < CoordinatesStart(c, l) ensures !CoordShape(s, j, sp) {
      NoLabelNoOccurs(s, j, CoordinatesLabel);
    }
  }

  /** The coordinates search passes over the first two lines and matches on
      the third: the coordinates are the values of `x` and `y`. */
  lemma FormattedCoords(c: string, l: string, x: string, y: string, t: string)
    requires FieldValue(c) && FieldValue(l) && IsNumeral(x) && IsNumeral(y)
    ensures CoordsOf(FormattedReply(c, l, x, y, t)) == Some(LatLon(FloatOf(x), FloatOf(y)))
  {
    var s := FormattedReply(c, l, x, y, t);
    var k := CoordinatesStart(c, l);
    LayoutCoordinates(c, l, x, y, t);
    CoordLine(s, k, x, y);
    NoShapeBefore(c, l, x, y, t);
    LeftmostCoords(s, k, CoordLineSpan(k, x, y));
  }

  // ---------------------------------------------------------------------------
  // The summary of a formatted reply
  // ---------------------------------------------------------------------------

  /** A line led by a field label is one the field-line substitution cuts,
      and the cut runs to just past its newline. */
  lemma FieldLine(s: string, off: nat, lead: string, tag: string, v: string)
    requires LineAt(s, off, lead, v) && '\n' !in lead && '\n' !in v
    requires tag == CategoryLabel || tag == LocationLabel || tag == CoordinatesLabel
    requires |tag| <= |lead| && lead[..|tag|] == tag
    ensures FieldLabelAt(s, off) && LineAfter(s, off) == off + |lead| + |v| + 1
  {
    LeadLabel(s, off, lead, tag);
    LineAfterLine(s, off, lead, v);
  }

  /** The substitution at a field label drops the label's whole line. */
  lemma CutAt(s: string, off: nat, e: nat)
    requires off < |s| && FieldLabelAt(s, off) && LineAfter(s, off) == e
    ensures DropFieldLines(s, off) == DropFieldLines(s, e)
  {
  }

  /** The first line is cut whole by the field-line substitution. */
  lemma CategoryField(c: string, l: string, x: string, y: string, t: string)
    requires FieldValue(c)
    ensures var s := FormattedReply(c, l, x, y, t);
            FieldLabelAt(s, 0) && LineAfter(s, 0) == LocationStart(c)
  {
    LayoutCategory(c, l, x, y, t);
    FieldLine(FormattedReply(c, l, x, y, t), 0, CategoryLead, CategoryLabel, c);
  }

  /** The second line is cut whole by the field-line substitution. */
  lemma LocationField(c: string, l: string, x: string, y: string, t: string)
    requires FieldValue(l)
    ensures var s := FormattedReply(c, l, x, y, t);
            FieldLabelAt(s, LocationStart(c)) && LineAfter(s, LocationStart(c)) == CoordinatesStart(c, l)
  {
    LayoutLocation(c, l, x, y, t);
    FieldLine(FormattedReply(c, l, x, y, t), LocationStart(c), LocationLead, LocationLabel, l);
  }

  /** The third line is cut whole by the field-line substitution. */
  lemma CoordinatesField(c: string, l: string, x: string, y: string, t: string)
    requires IsNumeral(x) && IsNumeral(y)
    ensures var s := FormattedReply(c, l, x, y, t);
            && FieldLabelAt(s, CoordinatesStart(c, l))
            && LineAfter(s, CoordinatesStart(c, l)) == SummaryStart(c, l, x, y)
  {
    LayoutCoordinates(c, l, x, y, t);
    NumeralNoNewline(x);
    NumeralNoNewline(y);
    FieldLine(FormattedReply(c, l, x, y, t), CoordinatesStart(c, l), CoordinatesLead, CoordinatesLabel, x + ", " + y);
  }

  /** No label that the summary lead avoids starts on the summary line. */
  lemma SummaryLineQuiet(c: string, l: string, x: string, y: string, t: string, tag: string)
    requires NoLabels(t) && LeadAvoids(SummaryLead, tag) && IsLabel(tag)
    ensures var s := FormattedReply(c, l, x, y, t);
            forall m | SummaryStart(c, l, x, y) <= m < |s| :: !LabelAt(s, m, tag)
  {
    LayoutSummary(c, l, x, y, t);
    RunQuiet(FormattedReply(c, l, x, y, t), SummaryStart(c, l, x, y), SummaryLead, t, tag);
  }

  /** The summary line holds no field label, so the substitution keeps it whole. */
  lemma SummaryLineKept(c: string, l: string, x: string, y: string, t: string)
    requires NoLabels(t)
    ensures DropFieldLines(FormattedReply(c, l, x, y, t), SummaryStart(c, l, x, y)) == SummaryLead + t
  {
    var s := FormattedReply(c, l, x, y, t);
    var d := SummaryStart(c, l, x, y);
    LayoutSummary(c, l, x, y, t);
    SummaryLeadAvoids();
    SummaryLineQuiet(c, l, x, y, t, CategoryLabel);
    SummaryLineQuiet(c, l, x, y, t, LocationLabel);
    SummaryLineQuiet(c, l, x, y, t, CoordinatesLabel);
    assert NextFieldLabel(s, d).None?;
  }

  /** The field-line substitution leaves exactly the summary line. */
  lemma FormattedFieldLines(c: string, l: string, x: string, y: string, t: string)
    requires FieldValue(c) && FieldValue(l) && IsNumeral(x) && IsNumeral(y) && NoLabels(t)
    ensures DropFieldLines(FormattedReply(c, l, x, y, t), 0) == SummaryLead + t
  {
    var s := FormattedReply(c, l, x, y, t);
    CategoryField(c, l, x, y, t);
    CutAt(s, 0, LocationStart(c));
    LocationField(c, l, x, y, t);
    CutAt(s, LocationStart(c), CoordinatesStart(c, l));
    CoordinatesField(c, l, x, y, t);
    CutAt(s, CoordinatesStart(c, l), SummaryStart(c, l, x, y));
    SummaryLineKept(c, l, x, y, t);
  }

  /** A label in a prefix of a text is a label of the text. */
  lemma PrefixLabel(t: string, e: nat, m: nat, tag: string)
    requires e <= |t|
    ensures LabelAt(t[..e], m, tag) ==> LabelAt(t, m, tag)
  {
    if LabelAt(t[..e], m, tag) {
      forall k | 0 <= k < |tag| ensures ReCharEq(t[m + k], tag[k]) {
        assert t[..e][m + k] == t[m + k];
      }
    }
  }

  /** Cutting the end of a text keeps it free of labels. */
  lemma PrefixNoLabels(t: string, e: nat)
    requires NoLabels(t) && e <= |t|
    ensures NoLabels(t[..e])
  {
    forall m | 0 <= m < e ensures
      && !LabelAt(t[..e], m, CategoryLabel) && !LabelAt(t[..e], m, LocationLabel)
      && !LabelAt(t[..e], m, CoordinatesLabel) && !LabelAt(t[..e], m, SummaryLabel)
    {
      PrefixLabel(t, e, m, CategoryLabel);
      PrefixLabel(t, e, m, LocationLabel);
      PrefixLabel(t, e, m, CoordinatesLabel);
      PrefixLabel(t, e, m, SummaryLabel);
    }
  }

  /** With a blank `t`, stripping `SUMMARY: t` leaves the bare label. */
  lemma StripLedBlank(t: string)
    requires AllSpace(t)
    ensures Strip(SummaryLead + t) == SummaryLabel
  {
    var w := SummaryLead + t;
    SkipSpaceIs(w, 0, 0);
    forall m | 8 <= m < |w| ensures IsSpace(w[m]) {
      if m > 8 {
        assert w[9 + (m - 9)] == t[m - 9];
      }
    }
    TrailStartIs(w, 0, |w|, 8);
    assert w[0..8] == SummaryLabel;
  }

  /** Otherwise stripping `SUMMARY: t` cuts only the trailing whitespace of `t`. */
  lemma StripLedText(t: string)
    requires !AllSpace(t)
    ensures Strip(SummaryLead + t) == SummaryLead + t[..StripTo(t)]
  {
    var w := SummaryLead + t;
    var e := StripTo(t);
    SkipSpaceIs(w, 0, 0);
    StripEmptyIff(t);
    StripCutsSpace(t);
    assert Strip(t)[|Strip(t)| - 1] == t[e - 1];
    forall m | 9 + e <= m < |w| ensures IsSpace(w[m]) {
      assert w[9 + (m - 9)] == t[m - 9];
    }
    assert w[9 + (e - 1)] == t[e - 1];
    TrailStartIs(w, 0, |w|, 9 + e);
    assert w[0..9 + e] == SummaryLead + t[..e];
  }

  /** The label substitution on the bare label leaves nothing. */
  lemma DropLedBlank()
    ensures DropSummaryLabels(SummaryLabel, 0) == []
  {
    LabelHead(SummaryLabel, 8);
    SkipSpaceIs(SummaryLabel, 8, 8);
    SummaryLabelCut(SummaryLabel, 0, 0, 8);
  }

  /** `SUMMARY:` opens `SUMMARY: r`, and `\s*` after it runs to the first
      non-whitespace character of `r`. */
  lemma LedSkip(r: string)
    requires StripFrom(r) < |r|
    ensures NextSummaryLabel(SummaryLead + r, 0) == Some(0)
    ensures SkipSpace(SummaryLead + r, |SummaryLabel|) == |SummaryLead| + StripFrom(r)
  {
    var u := SummaryLead + r;
    LabelHead(u, |u|);
    SkipSpaceShift(SummaryLead, r, 0);
    assert u[8] == ' ';
  }

  /** No `SUMMARY:` starts inside a label-free `r` placed after the lead. */
  lemma LedQuiet(r: string, i: nat)
    requires NoLabels(r) && |SummaryLead| <= i <= |SummaryLead| + |r|
    ensures NextSummaryLabel(SummaryLead + r, i).None?
  {
    var u := SummaryLead + r;
    assert At(u, r, 9) by {
      forall m | 0 <= m < |r| ensures u[9 + m] == r[m] {
      }
    }
    forall m | i <= m < |u| ensures !LabelAt(u, m, SummaryLabel) {
      if m + |SummaryLabel| <= |u| {
        InsideNoLabel(u, 9, r, SummaryLabel, m);
      }
    }
  }

  /** On `SUMMARY: r`, with `r` label-free and not blank, the label
      substitution removes the label and the whitespace that opens `r`. */
  lemma DropLedText(r: string)
    requires NoLabels(r) && StripFrom(r) < |r|
    ensures DropSummaryLabels(SummaryLead + r, 0) == r[StripFrom(r)..]
  {
    var u := SummaryLead + r;
    var a := StripFrom(r);
    LedSkip(r);
    LedQuiet(r, 9 + a);
    LedDrop(r, a);
    HeadCut(u, 9 + a, r[a..]);
  }

  /** Past the lead, `SUMMARY: r` continues as `r`. */
  lemma LedDrop(r: string, a: nat)
    requires a <= |r|
    ensures (SummaryLead + r)[|SummaryLead| + a..] == r[a..]
  {
  }

  /** A text opening with the label, and with no label after its `\s*`,
      loses exactly the label and that whitespace. */
  lemma HeadCut(u: string, k: nat, w: string)
    requires |SummaryLabel| <= |u| && NextSummaryLabel(u, 0) == Some(0)
    requires k == SkipSpace(u, |SummaryLabel|) && NextSummaryLabel(u, k).None? && u[k..] == w
    ensures DropSummaryLabels(u, 0) == w
  {
    SummaryLabelCut(u, 0, 0, k);
    assert u[0..0] + u[k..] == u[k..];
  }

  /** The whitespace that opens `t` opens its prefix up to the end of `Strip(t)`. */
  lemma StripFromPrefix(t: string)
    requires !AllSpace(t)
    ensures StripFrom(t[..StripTo(t)]) == StripFrom(t) < StripTo(t)
    ensures t[..StripTo(t)][StripFrom(t)..] == Strip(t)
  {
    var a, e := StripFrom(t), StripTo(t);
    var r := t[..e];
    StripEmptyIff(t);
    StripCutsSpace(t);
    forall m | 0 <= m < a ensures IsSpace(r[m]) {
      assert r[m] == t[m];
    }
    assert r[a] == t[a];
    SkipSpaceIs(r, 0, a);
  }

  /** `SUMMARY: t` stripped, with `SUMMARY:\s*` removed and stripped again,
      is `t` stripped: the label goes, and so does the whitespace after it. */
  lemma SummaryTail(t: string)
    requires NoLabels(t)
    ensures Strip(DropSummaryLabels(Strip(SummaryLead + t), 0)) == Strip(t)
  {
    StripEmptyIff(t);
    if AllSpace(t) {
      StripLedBlank(t);
      DropLedBlank();
    } else {
      var r := t[..StripTo(t)];
      StripLedText(t);
      StripFromPrefix(t);
      PrefixNoLabels(t, StripTo(t));
      DropLedText(r);
      StripIdempotent(t);
    }
  }

  /** A stripped `SUMMARY: t` starts with the label, so the label substitution
      finds it at once. */
  lemma LabelHead(u: string, n: nat)
    requires 8 <= n && |u| == n && u[..8] == SummaryLabel
    ensures NextSummaryLabel(u, 0) == Some(0)
  {
    forall k | 0 <= k < 8 ensures ReCharEq(u[0 + k], SummaryLabel[k]) {
      assert u[..8][k] == u[k];
    }
  }

  /** The summary of a formatted reply is `t` stripped. */
  lemma FormattedSummary(c: string, l: string, x: string, y: string, t: string)
    requires FieldValue(c) && FieldValue(l) && IsNumeral(x) && IsNumeral(y) && NoLabels(t)
    ensures SummaryOf(FormattedReply(c, l, x, y, t)) == Strip(t)
  {
    FormattedFieldLines(c, l, x, y, t);
    SummaryTail(t);
  }

  // ---------------------------------------------------------------------------
  // The whole reply
  // ---------------------------------------------------------------------------

  /** A reply in the requested format parses into its four fields: the
      category is the first word of the cleaned category value, capitalized;
      the location is the cleaned location value unless it is too short or a
      placeholder; the coordinates are the two numerals; the summary is the
      summary text stripped. */
  lemma FormattedReplyParses(c: string, l: string, x: string, y: string, t: string)
    requires FieldValue(c) && FieldValue(l) && IsNumeral(x) && IsNumeral(y) && NoLabels(t)
    ensures ParseReply(FormattedReply(c, l, x, y, t)) == Analysis(
              Strip(t),
              Capitalize(FirstWord(Clean(c))),
              if |Clean(l)| > 2 && !IsPlaceholder(Clean(l)) then Some(Clean(l)) else None,
              Some(LatLon(FloatOf(x), FloatOf(y))))
  {
    FormattedCategory(c, l, x, y, t);
    FormattedLocation(c, l, x, y, t);
    FormattedCoords(c, l, x, y, t);
    FormattedSummary(c, l, x, y, t);
  }
}
