/** Text primitives the request handlers rely on: Python's `str.strip()`,
    the `clean` helper built on it, the `x or None` blank-to-null idiom,
    ASCII case folding, substring search and first-occurrence replacement. */
module Text {
  import opened Nullable

  /** Python's `str.isspace` on one code point: exactly the characters that
      `str.strip()` with no argument removes. */
  predicate IsSpace(c: char) {
    var n := c as int;
    || (0x09 <= n <= 0x0D)
    || (0x1C <= n <= 0x20)
    || n == 0x85 || n == 0xA0 || n == 0x1680
    || (0x2000 <= n <= 0x200A)
    || n == 0x2028 || n == 0x2029 || n == 0x202F || n == 0x205F || n == 0x3000
  }

  predicate AllSpace(s: string) {
    forall i | 0 <= i < |s| :: IsSpace(s[i])
  }

  /** Every character of `s[a..b]` is whitespace. */
  predicate SpaceBetween(s: string, a: int, b: int)
    requires 0 <= a <= b <= |s|
  {
    forall i | a <= i < b :: IsSpace(s[i])
  }

  /** Neither end is whitespace: what `strip()` guarantees of its result. */
  predicate NoEdgeSpace(s: string) {
    s == [] || (!IsSpace(s[0]) && !IsSpace(s[|s| - 1]))
  }

  /** `r` is `s` with a whitespace-only prefix and a whitespace-only suffix
      cut off. Together with `NoEdgeSpace(r)` this pins `r` down uniquely
      (lemma `StripUnique`), so it serves as the reference for `Strip`. */
  ghost predicate StripsTo(s: string, r: string) {
    exists lo, hi | 0 <= lo <= hi <= |s| ::
      && s[lo..hi] == r
      && SpaceBetween(s, 0, lo)
      && SpaceBetween(s, hi, |s|)
  }

  /** The first index at or after `from` that is not whitespace (or `|s|`). */
  function SkipSpace(s: string, from: nat): (lo: nat)
    requires from <= |s|
    ensures from <= lo <= |s|
    ensures SpaceBetween(s, from, lo)
    ensures lo < |s| ==> !IsSpace(s[lo])
    decreases |s| - from
  {
    if from < |s| && IsSpace(s[from]) then SkipSpace(s, from + 1) else from
  }

  /** The end of `s[lo..stop]` once its trailing whitespace is dropped. */
  function SkipSpaceBack(s: string, lo: nat, stop: nat): (hi: nat)
    requires lo <= stop <= |s|
    ensures lo <= hi <= stop
    ensures SpaceBetween(s, hi, stop)
    ensures lo < hi ==> !IsSpace(s[hi - 1])
    decreases stop
  {
    if lo < stop && IsSpace(s[stop - 1]) then SkipSpaceBack(s, lo, stop - 1) else stop
  }

  /** Python `str.strip()`. */
  function Strip(s: string): (r: string)
    ensures StripsTo(s, r)
    ensures NoEdgeSpace(r)
  {
    var lo := SkipSpace(s, 0);
    var hi := SkipSpaceBack(s, lo, |s|);
    assert lo < |s| ==> lo < hi;
    s[lo..hi]
  }

  /** Bounds that cut a whitespace-only prefix and suffix off `s` and keep
      text with no whitespace at its ends are the ones `Strip` finds. */
  lemma StripBounds(s: string, lo: int, hi: int)
    requires 0 <= lo <= hi <= |s|
    requires SpaceBetween(s, 0, lo) && SpaceBetween(s, hi, |s|)
    requires NoEdgeSpace(s[lo..hi])
    ensures lo == hi <==> AllSpace(s)
    ensures lo < hi ==> lo == SkipSpace(s, 0) && hi == SkipSpaceBack(s, lo, |s|)
  {
    if lo < hi {
      // The kept text starts and ends with non-blanks, so neither bound can
      // sit anywhere else than where the scans stop.
      assert s[lo..hi][0] == s[lo] && s[lo..hi][hi - lo - 1] == s[hi - 1];
    }
  }

  /** Two strippings of the same text that both leave no whitespace at the
      ends agree: `StripsTo` plus `NoEdgeSpace` is a definition of `strip`. */
  lemma StripUnique(s: string, r1: string, r2: string)
    requires StripsTo(s, r1) && NoEdgeSpace(r1)
    requires StripsTo(s, r2) && NoEdgeSpace(r2)
    ensures r1 == r2
  {
    var lo1, hi1 :| 0 <= lo1 <= hi1 <= |s| && s[lo1..hi1] == r1 && SpaceBetween(s, 0, lo1) && SpaceBetween(s, hi1, |s|);
    var lo2, hi2 :| 0 <= lo2 <= hi2 <= |s| && s[lo2..hi2] == r2 && SpaceBetween(s, 0, lo2) && SpaceBetween(s, hi2, |s|);
    StripBounds(s, lo1, hi1);
    StripBounds(s, lo2, hi2);
  }

  /** Text that is already stripped is left alone. */
  lemma StripStripped(s: string)
    requires NoEdgeSpace(s)
    ensures Strip(s) == s
  {
    assert s[0..|s|] == s;
    assert StripsTo(s, s);
    StripUnique(s, Strip(s), s);
  }

  /** Stripping is idempotent. */
  lemma StripIdempotent(s: string)
    ensures Strip(Strip(s)) == Strip(s)
  {
    StripStripped(Strip(s));
  }

  /** Stripping yields the empty string exactly when the text is blank. */
  lemma StripEmptyIffBlank(s: string)
    ensures Strip(s) == "" <==> AllSpace(s)
  {
    if AllSpace(s) {
      assert s[0..0] == "";
      assert StripsTo(s, "");
      StripUnique(s, Strip(s), "");
    }
  }

  /** The handlers' `clean(s)`: `(s or "").strip()`. A missing field reads
      as the empty string. */
  function Clean(s: Option<string>): (r: string)
    ensures s.None? ==> r == ""
    ensures s.Some? ==> StripsTo(s.value, r)
    ensures NoEdgeSpace(r)
  {
    Strip(s.ValueOr(""))
  }

  /** `clean(clean(s)) == clean(s)`. */
  lemma CleanIdempotent(s: Option<string>)
    ensures Clean(Some(Clean(s))) == Clean(s)
  {
    StripStripped(Clean(s));
  }

  /** A field cleans to the empty string exactly when it is missing or
      whitespace only. */
  lemma CleanEmptyIffBlank(s: Option<string>)
    ensures Clean(s) == "" <==> (s.None? || AllSpace(s.value))
  {
    if s.Some? {
      StripEmptyIffBlank(s.value);
    }
  }

  /** Python's `x or None` on a string: the empty string becomes `None`. */
  function OrNone(s: string): (r: Option<string>)
    ensures r.None? <==> s == ""
    ensures r.Some? ==> r.value == s
  {
    if s == "" then None else Some(s)
  }

  /** An optional form field as it is stored: `clean(x) or None`. Blank input
      is stored as null, anything else as its stripped, non-empty text. */
  function OptionalField(s: Option<string>): (r: Option<string>)
    ensures r.None? <==> (s.None? || AllSpace(s.value))
    ensures r.Some? ==> s.Some? && StripsTo(s.value, r.value)
    ensures r.Some? ==> r.value != "" && NoEdgeSpace(r.value)
  {
    CleanEmptyIffBlank(s);
    OrNone(Clean(s))
  }

  /** ASCII lower-casing of one character; other characters are kept. */
  function LowerChar(c: char): char {
    if 'A' <= c <= 'Z' then (c as int + 32) as char else c
  }

  function Lower(s: string): (r: string)
    ensures |r| == |s|
    ensures forall i | 0 <= i < |s| :: r[i] == LowerChar(s[i])
  {
    seq(|s|, i requires 0 <= i < |s| => LowerChar(s[i]))
  }

  /** Lower-casing twice is lower-casing once. */
  lemma LowerIdempotent(s: string)
    ensures Lower(Lower(s)) == Lower(s)
  {
  }

  /** `pat` occurs in `s` starting at index `i`. */
  predicate OccursAt(s: string, pat: string, i: int) {
    0 <= i && i + |pat| <= |s| && s[i..i + |pat|] == pat
  }

  /** `pat` occurs somewhere in `s`. The empty pattern occurs everywhere,
      and only a pattern no longer than `s` can occur. */
  predicate Contains(s: string, pat: string)
    ensures pat == [] ==> Contains(s, pat)
    ensures Contains(s, pat) ==> |pat| <= |s|
  {
    assert pat == [] ==> OccursAt(s, pat, 0);
    exists i | 0 <= i <= |s| - |pat| :: OccursAt(s, pat, i)
  }

  /** Case-insensitive substring test, ASCII folding only. */
  predicate ContainsIgnoreCase(s: string, pat: string)
    ensures pat == [] ==> ContainsIgnoreCase(s, pat)
    ensures ContainsIgnoreCase(s, pat) ==> |pat| <= |s|
  {
    Contains(Lower(s), Lower(pat))
  }

  predicate StartsWith(s: string, prefix: string) {
    |prefix| <= |s| && s[..|prefix|] == prefix
  }

  /** `i` is where `pat` first occurs in `s`. */
  predicate FirstOccurrence(s: string, pat: string, i: int) {
    OccursAt(s, pat, i) && forall j | 0 <= j < i :: !OccursAt(s, pat, j)
  }

  /** The first index at or after `from` where `pat` occurs, if any. */
  function IndexFrom(s: string, pat: string, from: nat): (r: Option<nat>)
    ensures r.Some? ==> from <= r.value && OccursAt(s, pat, r.value)
    ensures r.Some? ==> forall j | from <= j < r.value :: !OccursAt(s, pat, j)
    ensures r.None? ==> forall j | from <= j :: !OccursAt(s, pat, j)
    decreases |s| - from
  {
    if from + |pat| > |s| then None
    else if s[from..from + |pat|] == pat then Some(from)
    else IndexFrom(s, pat, from + 1)
  }

  /** Python `s.find(pat)`, with `None` for -1. */
  function IndexOf(s: string, pat: string): (r: Option<nat>)
    ensures r.Some? ==> FirstOccurrence(s, pat, r.value)
    ensures r.None? <==> !Contains(s, pat)
  {
    IndexFrom(s, pat, 0)
  }

  /** Python `s.replace(pat, repl, 1)`: the first occurrence of `pat`, if
      any, is replaced by `repl`. */
  function ReplaceFirst(s: string, pat: string, repl: string): (r: string)
    ensures !Contains(s, pat) ==> r == s
    ensures forall i | FirstOccurrence(s, pat, i) :: r == s[..i] + repl + s[i + |pat|..]
  {
    match IndexOf(s, pat)
    case None => s
    case Some(i) =>
      assert forall k | FirstOccurrence(s, pat, k) :: k == i;
      s[..i] + repl + s[i + |pat|..]
  }
}
