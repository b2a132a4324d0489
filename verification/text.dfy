/** Python string semantics the pipeline relies on: `str.isspace` / `\s`,
    `strip`, `lower`, `capitalize`, `split`, `replace`, substring tests, and SQL's ASCII case-insensitive `LIKE '%q%'`.
    Strings are sequences of Unicode code points, as Python's `str` is. */
module Text {

  // ---------------------------------------------------------------------------
  // Character classes
  // ---------------------------------------------------------------------------

  /** The characters for which Python's `str.isspace()` holds; the `\s` class of
      a `str` pattern and the default separator set of `strip()` are the same set. */
  predicate IsSpace(c: char) {
    || c == ' '
    || ('\t' <= c <= '\r')
    || ('\U{1C}' <= c <= '\U{1F}')
    || c == '\U{85}' || c == '\U{A0}' || c == '\U{1680}'
    || ('\U{2000}' <= c <= '\U{200A}')
    || c == '\U{2028}' || c == '\U{2029}' || c == '\U{202F}'
    || c == '\U{205F}' || c == '\U{3000}'
  }

  predicate AllSpace(s: string) {
    forall k | 0 <= k < |s| :: IsSpace(s[k])
  }

  predicate IsDigit(c: char) {
    '0' <= c <= '9'
  }

  predicate AllDigits(s: string) {
    forall k | 0 <= k < |s| :: IsDigit(s[k])
  }

  // ---------------------------------------------------------------------------
  // strip()
  // ---------------------------------------------------------------------------

  /** Where the trailing whitespace of `s[j..k]` begins. */
  function TrailStart(s: string, j: nat, k: nat): (b: nat)
    requires j <= k <= |s|
    ensures j <= b <= k
    ensures SpaceRun(s, b, k)
    ensures b == j || !IsSpace(s[b - 1])
    decreases k - j
  {
    if k > j && IsSpace(s[k - 1]) then TrailStart(s, j, k - 1) else k
  }

  /** Where `s.strip()` starts cutting: the first non-whitespace character. */
  function StripFrom(s: string): nat
  {
    SkipSpace(s, 0)
  }

  /** Where `s.strip()` stops: just after the last non-whitespace character. */
  function StripTo(s: string): (b: nat)
    ensures StripFrom(s) <= b <= |s|
  {
    TrailStart(s, StripFrom(s), |s|)
  }

  /** `s.strip()`: the middle of `s` once the leading and the trailing
      whitespace are cut; it neither starts nor ends with whitespace. */
  function Strip(s: string): (r: string)
    ensures r == s[StripFrom(s)..StripTo(s)]
    ensures r == [] || (!IsSpace(r[0]) && !IsSpace(r[|r| - 1]))
  {
    s[StripFrom(s)..StripTo(s)]
  }

  /** What `strip()` cuts off on either side is whitespace. */
  lemma StripCutsSpace(s: string)
    ensures SpaceRun(s, 0, StripFrom(s))
    ensures SpaceRun(s, StripTo(s), |s|)
  {
  }

  /** Stripping a string that already has no outer whitespace changes nothing. */
  lemma StripNoop(s: string)
    requires s == [] || (!IsSpace(s[0]) && !IsSpace(s[|s| - 1]))
    ensures Strip(s) == s
  {
  }

  /** `strip()` is idempotent. */
  lemma StripIdempotent(s: string)
    ensures Strip(Strip(s)) == Strip(s)
  {
    StripNoop(Strip(s));
  }

  /** `strip()` yields `""` exactly when the string is all whitespace. */
  lemma StripEmptyIff(s: string)
    ensures Strip(s) == [] <==> AllSpace(s)
  {
    if AllSpace(s) {
      SkipSpaceIs(s, 0, |s|);
    }
  }

  // ---------------------------------------------------------------------------
  // replace(c, '') for a single character
  // ---------------------------------------------------------------------------

  /** `s.replace(c, '')`: every occurrence of `c` removed, everything else kept in order. */
  function Remove(s: string, c: char): (r: string)
    ensures |r| <= |s|
    ensures c !in r
    ensures forall x :: x != c ==> (x in r <==> x in s)
    ensures c !in s ==> r == s
  {
    if s == [] then []
    else if s[0] == c then Remove(s[1..], c)
    else [s[0]] + Remove(s[1..], c)
  }

  // ---------------------------------------------------------------------------
  // Case mapping
  // ---------------------------------------------------------------------------

  /** Python's `lower()` on one character, for the characters whose lower case
      is an ASCII letter: A-Z and the Kelvin sign U+212A. Every other character
      is left unchanged (see README: non-ASCII case mapping is not modelled). */
  function Lower(c: char): char {
    if 'A' <= c <= 'Z' then (c as int + 32) as char
    else if c == '\U{212A}' then 'k'
    else c
  }

  /** Python's upper/title case on one character, for ASCII letters. */
  function Upper(c: char): char {
    if 'a' <= c <= 'z' then (c as int - 32) as char else c
  }

  /** `s.lower()` */
  function LowerAll(s: string): (r: string)
    ensures |r| == |s|
    ensures forall k | 0 <= k < |s| :: r[k] == Lower(s[k])
  {
    if s == [] then [] else [Lower(s[0])] + LowerAll(s[1..])
  }

  /** `s.capitalize()`: the first character upper-cased, the rest lower-cased. */
  function Capitalize(s: string): (r: string)
    ensures |r| == |s|
    ensures s != [] ==> r[0] == Upper(s[0])
    ensures forall k | 1 <= k < |s| :: r[k] == Lower(s[k])
  {
    if s == [] then [] else [Upper(s[0])] + LowerAll(s[1..])
  }

  /** SQL `LIKE` / `ILIKE` case folding: ASCII letters only. */
  function FoldAscii(s: string): (r: string)
    ensures |r| == |s|
    ensures forall k | 0 <= k < |s| :: r[k] == (if 'A' <= s[k] <= 'Z' then (s[k] as int + 32) as char else s[k])
  {
    if s == [] then []
    else [if 'A' <= s[0] <= 'Z' then (s[0] as int + 32) as char else s[0]] + FoldAscii(s[1..])
  }

  // ---------------------------------------------------------------------------
  // Substrings
  // ---------------------------------------------------------------------------

  /** `p` occurs in `s` starting at index `i`. */
  predicate OccursAt(s: string, p: string, i: int) {
    0 <= i && i + |p| <= |s| && s[i..i + |p|] == p
  }

  /** Python's `p in s`. */
  predicate Contains(s: string, p: string) {
    exists i | 0 <= i <= |s| - |p| :: OccursAt(s, p, i)
  }

  /** `p in s.lower()` for an ASCII lower-case word `p`. */
  predicate ContainsLower(s: string, p: string) {
    Contains(LowerAll(s), p)
  }

  /** SQL `s ILIKE '%q%'` / SQLite `s LIKE '%q%'` with `q` taken literally. */
  predicate ContainsFolded(s: string, q: string) {
    Contains(FoldAscii(s), FoldAscii(q))
  }

  // ---------------------------------------------------------------------------
  // split(sep) and its inverse
  // ---------------------------------------------------------------------------

  /** The index of the first `c` in `s`. */
  function IndexOf(s: string, c: char): (i: nat)
    requires c in s
    ensures i < |s| && s[i] == c && c !in s[..i]
  {
    if s[0] == c then 0 else 1 + IndexOf(s[1..], c)
  }

  /** The first `c` is at `m` when `c` is at `m` and nowhere before. */
  lemma IndexOfIs(s: string, c: char, m: nat)
    requires m < |s| && s[m] == c && c !in s[..m]
    ensures IndexOf(s, c) == m
  {
    if m > 0 {
      assert s[1..][..m - 1] == s[1..m];
      IndexOfIs(s[1..], c, m - 1);
    }
  }

  /** `sep.join(parts)` */
  function Join(parts: seq<string>, sep: char): string
  {
    if parts == [] then []
    else if |parts| == 1 then parts[0]
    else parts[0] + [sep] + Join(parts[1..], sep)
  }

  /** Python's `s.split(sep)` for a one-character separator: the pieces between
      separators, never an empty list, and joining them back gives `s`. */
  function Split(s: string, sep: char): (parts: seq<string>)
    ensures |parts| >= 1
    ensures forall k | 0 <= k < |parts| :: sep !in parts[k]
    ensures Join(parts, sep) == s
    ensures sep !in s <==> |parts| == 1
    decreases |s|
  {
    if sep !in s then [s]
    else
      var i := IndexOf(s, sep);
      assert s == s[..i] + [sep] + s[i + 1..];
      [s[..i]] + Split(s[i + 1..], sep)
  }

  /** The first piece of `s.split(sep)` is the text before the first separator. */
  lemma SplitFirst(s: string, sep: char)
    ensures Split(s, sep)[0] == (if sep in s then s[..IndexOf(s, sep)] else s)
  {
  }

  // ---------------------------------------------------------------------------
  // replace(p, '') for a multi-character pattern
  // ---------------------------------------------------------------------------

  /** `s.replace(p, '')`: occurrences found left to right, without overlap. */
  function RemoveAll(s: string, p: string): (r: string)
    requires p != []
    ensures |r| <= |s|
    ensures (forall i :: !OccursAt(s, p, i)) ==> r == s
    decreases |s|
  {
    if |s| < |p| then s
    else if s[..|p|] == p then
      assert OccursAt(s, p, 0);
      RemoveAll(s[|p|..], p)
    else
      var r := [s[0]] + RemoveAll(s[1..], p);
      assert (forall i :: !OccursAt(s, p, i)) ==> forall i :: !OccursAt(s[1..], p, i) by {
        forall i | OccursAt(s[1..], p, i) ensures OccursAt(s, p, i + 1) {
          assert s[i + 1..i + 1 + |p|] == s[1..][i..i + |p|];
        }
      }
      r
  }

  // ---------------------------------------------------------------------------
  // Scanning positions (the building blocks of the regular expressions)
  // ---------------------------------------------------------------------------

  /** `s[j..k]` is a (possibly empty) run of whitespace. */
  predicate SpaceRun(s: string, j: int, k: int) {
    0 <= j <= k <= |s| && forall m | j <= m < k :: IsSpace(s[m])
  }

  /** Where a greedy `\s*` starting at `j` stops. */
  function SkipSpace(s: string, j: nat): (k: nat)
    requires j <= |s|
    ensures SpaceRun(s, j, k)
    ensures k == |s| || !IsSpace(s[k])
    decreases |s| - j
  {
    if j < |s| && IsSpace(s[j]) then SkipSpace(s, j + 1) else j
  }

  /** Where a greedy `.*` starting at `p` stops: the next newline, or the end. */
  function LineEnd(s: string, p: nat): (e: nat)
    requires p <= |s|
    ensures p <= e <= |s|
    ensures forall m | p <= m < e :: s[m] != '\n'
    ensures e == |s| || s[e] == '\n'
    decreases |s| - p
  {
    if p < |s| && s[p] != '\n' then LineEnd(s, p + 1) else p
  }

  /** Where a greedy `\S+`-style run of non-whitespace starting at `p` stops. */
  function WordEnd(s: string, p: nat): (e: nat)
    requires p <= |s|
    ensures p <= e <= |s|
    ensures forall m | p <= m < e :: !IsSpace(s[m])
    ensures e == |s| || IsSpace(s[e])
    decreases |s| - p
  {
    if p < |s| && !IsSpace(s[p]) then WordEnd(s, p + 1) else p
  }

  /** Where a greedy `\d*` starting at `p` stops. */
  function DigitsEnd(s: string, p: nat): (e: nat)
    requires p <= |s|
    ensures p <= e <= |s|
    ensures forall m | p <= m < e :: IsDigit(s[m])
    ensures e == |s| || !IsDigit(s[e])
    decreases |s| - p
  {
    if p < |s| && IsDigit(s[p]) then DigitsEnd(s, p + 1) else p
  }

  /** A greedy `\s*` from `j` stops at the first non-whitespace character. */
  lemma SkipSpaceIs(s: string, j: nat, k: nat)
    requires SpaceRun(s, j, k)
    requires k == |s| || !IsSpace(s[k])
    ensures SkipSpace(s, j) == k
  {
  }

  /** `\s*` scans a text placed after `p` as it scans the text alone. */
  lemma {:induction false} SkipSpaceShift(p: string, r: string, j: nat)
    requires j <= |r|
    ensures SkipSpace(p + r, |p| + j) == |p| + SkipSpace(r, j)
    decreases |r| - j
  {
    if j < |r| {
      assert (p + r)[|p| + j] == r[j];
      if IsSpace(r[j]) {
        SkipSpaceShift(p, r, j + 1);
      }
    }
  }

  /** A greedy `.*` from `p` stops at the first newline, or at the end. */
  lemma LineEndIs(s: string, p: nat, e: nat)
    requires p <= e <= |s|
    requires forall m | p <= m < e :: s[m] != '\n'
    requires e == |s| || s[e] == '\n'
    ensures LineEnd(s, p) == e
    decreases e - p
  {
    if p < e {
      LineEndIs(s, p + 1, e);
    }
  }

  /** The trailing whitespace of `s[j..k]` begins at `b` when `s[b..k]` is
      whitespace and the character before `b` is not. */
  lemma TrailStartIs(s: string, j: nat, k: nat, b: nat)
    requires j <= b <= k <= |s|
    requires SpaceRun(s, b, k)
    requires b == j || !IsSpace(s[b - 1])
    ensures TrailStart(s, j, k) == b
    decreases k - j
  {
    if k > j && IsSpace(s[k - 1]) && b < k {
      TrailStartIs(s, j, k - 1, b);
    }
  }

  /** A greedy `\d*` from `p` runs at least over the digits that follow `p`,
      and stops exactly at the first non-digit. */
  lemma DigitsEndIs(s: string, p: nat, x: nat)
    requires p <= x <= |s|
    requires forall m | p <= m < x :: IsDigit(s[m])
    ensures DigitsEnd(s, p) >= x
    ensures x == |s| || !IsDigit(s[x]) ==> DigitsEnd(s, p) == x
  {
  }

  // ---------------------------------------------------------------------------
  // Decimal rendering
  // ---------------------------------------------------------------------------

  function DigitChar(d: nat): char
    requires d < 10
  {
    ('0' as int + d) as char
  }

  /** `str(n)` for a natural number. */
  function NatToString(n: nat): (r: string)
    ensures r != [] && AllDigits(r)
  {
    if n < 10 then [DigitChar(n)] else NatToString(n / 10) + [DigitChar(n % 10)]
  }
}
