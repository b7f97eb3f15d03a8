/** The JavaScript string and array primitives the deploy script relies on,
    over `seq<char>`: `String.prototype.split` with a one-character separator,
    `Array.prototype.indexOf`, `String.prototype.replace` with a string pattern,
    and `String.prototype.trim`.
 */
module Text {
  import opened Wrappers

  // ---------------------------------------------------------------------------
  // split / join
  // ---------------------------------------------------------------------------

  /** Concatenates `parts` with `sep` between consecutive parts (`parts.join(sep)`). */
  function Join(parts: seq<string>, sep: char): (s: string)
    ensures |parts| >= 1 ==> parts[0] <= s
  {
    if |parts| == 0 then []
    else if |parts| == 1 then parts[0]
    else parts[0] + [sep] + Join(parts[1..], sep)
  }

  /** `s.split(sep)` for a one-character separator: the maximal runs of
      non-separator characters, an empty piece on each side of every separator.
      There is always at least one piece (`"".split("\n")` is `[""]`), and no
      piece contains the separator. */
  function Split(s: string, sep: char): (parts: seq<string>)
    ensures |parts| >= 1
    ensures forall i :: 0 <= i < |parts| ==> sep !in parts[i]
    decreases |s|
  {
    if |s| == 0 then [""]
    else
      var rest := Split(s[1..], sep);
      if s[0] == sep then [""] + rest
      else [[s[0]] + rest[0]] + rest[1..]
  }

  /** Prefixing a character to the first piece prefixes it to the join. */
  lemma JoinExtendFirst(c: char, parts: seq<string>, sep: char)
    requires |parts| >= 1
    ensures Join([[c] + parts[0]] + parts[1..], sep) == [c] + Join(parts, sep)
  {
    var extended := [[c] + parts[0]] + parts[1..];
    assert extended[0] == [c] + parts[0];
    assert extended[1..] == parts[1..];
  }

  /** Joining the pieces of a split with the separator gives the string back. */
  lemma {:induction false} SplitJoin(s: string, sep: char)
    ensures Join(Split(s, sep), sep) == s
    decreases |s|
  {
    if |s| > 0 {
      var rest := Split(s[1..], sep);
      SplitJoin(s[1..], sep);
      assert s == [s[0]] + s[1..];
      if s[0] == sep {
        assert Split(s, sep) == [""] + rest;
        assert ([""] + rest)[1..] == rest;
      } else {
        assert Split(s, sep) == [[s[0]] + rest[0]] + rest[1..];
        JoinExtendFirst(s[0], rest, sep);
      }
    }
  }

  /** Splitting a piece that is followed by a separator peels that piece off. */
  lemma {:induction false} SplitCons(w: string, sep: char, t: string)
    requires sep !in w
    ensures Split(w + [sep] + t, sep) == [w] + Split(t, sep)
    decreases |w|
  {
    if |w| == 0 {
      assert w + [sep] + t == [sep] + t;
      assert ([sep] + t)[1..] == t;
    } else {
      var s := w + [sep] + t;
      assert s[1..] == w[1..] + [sep] + t;
      SplitCons(w[1..], sep, t);
      assert [w[0]] + w[1..] == w;
    }
  }

  /** A string without the separator splits into itself alone. */
  lemma {:induction false} SplitSingle(w: string, sep: char)
    requires sep !in w
    ensures Split(w, sep) == [w]
    decreases |w|
  {
    if |w| > 0 {
      SplitSingle(w[1..], sep);
      assert [w[0]] + w[1..] == w;
    }
  }

  /** The converse round trip: splitting the join of separator-free pieces
      gives the pieces back, so `split` and `join` are mutually inverse on
      non-empty sequences of separator-free strings. */
  lemma {:induction false} JoinSplit(parts: seq<string>, sep: char)
    requires |parts| >= 1
    requires forall i :: 0 <= i < |parts| ==> sep !in parts[i]
    ensures Split(Join(parts, sep), sep) == parts
    decreases |parts|
  {
    if |parts| == 1 {
      SplitSingle(parts[0], sep);
    } else {
      JoinSplit(parts[1..], sep);
      SplitCons(parts[0], sep, Join(parts[1..], sep));
      assert [parts[0]] + parts[1..] == parts;
    }
  }

  // ---------------------------------------------------------------------------
  // indexOf
  // ---------------------------------------------------------------------------

  /** `xs.indexOf(x)`: the position of the first element equal to `x`, or -1
      when no element is. */
  function IndexOf<T(==)>(xs: seq<T>, x: T): (i: int)
    ensures -1 <= i < |xs|
    ensures i == -1 <==> x !in xs
    ensures 0 <= i ==> xs[i] == x
    ensures forall j :: 0 <= j < i ==> xs[j] != x
  {
    if |xs| == 0 then -1
    else if xs[0] == x then 0
    else
      var j := IndexOf(xs[1..], x);
      assert xs == [xs[0]] + xs[1..];
      if j == -1 then -1 else j + 1
  }

  /** The first position of `x` is unique: any position holding `x` with no
      earlier `x` is the one `indexOf` returns. */
  lemma IndexOfIsFirst<T>(xs: seq<T>, x: T, k: nat)
    requires k < |xs| && xs[k] == x
    requires forall j :: 0 <= j < k ==> xs[j] != x
    ensures IndexOf(xs, x) == k
  {
  }

  // ---------------------------------------------------------------------------
  // replace with a string pattern
  // ---------------------------------------------------------------------------

  /** `pat` occurs in `s` starting at position `i`. */
  predicate OccursAt(s: string, pat: string, i: int) {
    0 <= i && i + |pat| <= |s| && s[i..i + |pat|] == pat
  }

  /** `k` is the leftmost position at which `pat` occurs in `s`. */
  predicate FirstOccurrence(s: string, pat: string, k: int) {
    OccursAt(s, pat, k) && forall j :: 0 <= j < k ==> !OccursAt(s, pat, j)
  }

  /** The leftmost occurrence of `pat` in `s` at or after `from`, scanning left to right. */
  function FindFrom(s: string, pat: string, from: nat): (r: Option<nat>)
    ensures r.Some? ==> from <= r.value && OccursAt(s, pat, r.value)
    ensures r.Some? ==> forall j :: from <= j < r.value ==> !OccursAt(s, pat, j)
    ensures r.None? ==> forall j :: from <= j ==> !OccursAt(s, pat, j)
    decreases |s| - from
  {
    if from + |pat| > |s| then None
    else if s[from..from + |pat|] == pat then Some(from)
    else FindFrom(s, pat, from + 1)
  }

  /** `s.replace(pat, rep)` with a string pattern: only the leftmost occurrence
      of `pat` is replaced, and `s` is returned unchanged when `pat` does not
      occur. The replacement is taken literally. */
  function ReplaceFirst(s: string, pat: string, rep: string): (r: string)
    ensures (forall j :: !OccursAt(s, pat, j)) ==> r == s
    ensures forall k :: FirstOccurrence(s, pat, k) ==> r == s[..k] + rep + s[k + |pat|..]
  {
    match FindFrom(s, pat, 0)
    case None => s
    case Some(k) =>
      assert forall k' :: FirstOccurrence(s, pat, k') ==> k' == k;
      s[..k] + rep + s[k + |pat|..]
  }

  /** `s.replace(pat, "")`: deletes the leftmost occurrence of `pat`, if any. */
  function RemoveFirst(s: string, pat: string): (r: string)
    ensures (forall j :: !OccursAt(s, pat, j)) ==> r == s
    ensures forall k :: FirstOccurrence(s, pat, k) ==> r == s[..k] + s[k + |pat|..]
    ensures forall k :: FirstOccurrence(s, pat, k) ==> |r| == |s| - |pat|
  {
    ReplaceFirst(s, pat, "")
  }

  /** Cutting `|pat|` characters out at `k` moves an occurrence of `pat`
      lying wholly after the cut left by `|pat|`. */
  lemma CutKeepsLaterOccurrence(s: string, pat: string, k: nat, j: nat)
    requires OccursAt(s, pat, j) && k + |pat| <= j
    ensures OccursAt(s[..k] + s[k + |pat|..], pat, j - |pat|)
  {
    var n := |pat|;
    var r := s[..k] + s[k + n..];
    assert |r| == |s| - n;
    forall i | j - n <= i < j
      ensures r[i] == s[i + n]
    {
    }
    assert r[j - n..j] == s[j..j + n];
  }

  /** Deleting the leftmost occurrence leaves every later, non-overlapping
      occurrence in place, shifted left by the pattern's length. */
  lemma RemoveFirstKeepsLater(s: string, pat: string, k: nat, j: nat)
    requires FirstOccurrence(s, pat, k)
    requires OccursAt(s, pat, j) && k + |pat| <= j
    ensures OccursAt(RemoveFirst(s, pat), pat, j - |pat|)
  {
    assert RemoveFirst(s, pat) == s[..k] + s[k + |pat|..];
    CutKeepsLaterOccurrence(s, pat, k, j);
  }

  /** Cutting the slice `k..m` out of a string cannot introduce a character. */
  lemma CutKeepsAbsentChar(s: string, k: nat, m: nat, c: char)
    requires k <= m <= |s| && c !in s
    ensures c !in s[..k] + s[m..]
  {
    var r := s[..k] + s[m..];
    forall i | 0 <= i < |r|
      ensures r[i] != c
    {
      if i < k {
        assert r[i] == s[i];
      } else {
        assert r[i] == s[i + m - k];
      }
    }
  }

  /** Deleting part of a string cannot introduce a character it did not have. */
  lemma RemoveFirstKeepsAbsentChar(s: string, pat: string, c: char)
    requires c !in s
    ensures c !in RemoveFirst(s, pat)
  {
    match FindFrom(s, pat, 0)
    case None =>
      assert forall j :: !OccursAt(s, pat, j);
    case Some(k) =>
      assert FirstOccurrence(s, pat, k);
      CutKeepsAbsentChar(s, k, k + |pat|, c);
  }

  // ---------------------------------------------------------------------------
  // trim
  // ---------------------------------------------------------------------------

  /** The characters `String.prototype.trim` strips: ECMAScript's WhiteSpace
      (tab, vertical tab, form feed, no-break space, byte order mark and the
      Unicode space separators, category Zs as of Unicode 15) and its
      LineTerminator (line feed, carriage return, line and paragraph separator). */
  predicate IsWhitespace(c: char) {
    var n := c as int;
    || n == 0x09 || n == 0x0A || n == 0x0B || n == 0x0C || n == 0x0D
    || n == 0x20 || n == 0xA0 || n == 0x1680
    || (0x2000 <= n <= 0x200A)
    || n == 0x2028 || n == 0x2029 || n == 0x202F || n == 0x205F
    || n == 0x3000 || n == 0xFEFF
  }

  /** Every character of `s` is whitespace. */
  predicate AllWhitespace(s: string) {
    forall i :: 0 <= i < |s| ==> IsWhitespace(s[i])
  }

  /** A whitespace character followed by whitespace is all whitespace. */
  lemma AllWhitespacePrepend(c: char, w: string)
    requires IsWhitespace(c) && AllWhitespace(w)
    ensures AllWhitespace([c] + w)
  {
  }

  /** Whitespace followed by a whitespace character is all whitespace. */
  lemma AllWhitespaceAppend(w: string, c: char)
    requires AllWhitespace(w) && IsWhitespace(c)
    ensures AllWhitespace(w + [c])
  {
  }

  /** `s` neither starts nor ends with whitespace. */
  predicate NoEdgeWhitespace(s: string) {
    |s| == 0 || (!IsWhitespace(s[0]) && !IsWhitespace(s[|s| - 1]))
  }

  /** `r` is `s` with its leading whitespace removed: a suffix of `s` whose
      dropped prefix is all whitespace and that does not itself start with
      whitespace. */
  predicate LeadingTrimmed(s: string, r: string) {
    |r| <= |s| && r == s[|s| - |r|..] && AllWhitespace(s[..|s| - |r|])
    && (|r| == 0 || !IsWhitespace(r[0]))
  }

  /** `r` is `s` with its trailing whitespace removed: a prefix of `s` whose
      dropped suffix is all whitespace and that does not itself end with
      whitespace. */
  predicate TrailingTrimmed(s: string, r: string) {
    |r| <= |s| && r == s[..|r|] && AllWhitespace(s[|r|..])
    && (|r| == 0 || !IsWhitespace(r[|r| - 1]))
  }

  /** `s` with its leading whitespace removed. */
  function TrimStart(s: string): (r: string)
    ensures LeadingTrimmed(s, r)
    decreases |s|
  {
    if |s| > 0 && IsWhitespace(s[0]) then
      var r := TrimStart(s[1..]);
      var k := |s| - |r|;
      assert s[1..][k - 1..] == s[k..];
      assert s[..k] == [s[0]] + s[1..][..k - 1];
      AllWhitespacePrepend(s[0], s[1..][..k - 1]);
      assert AllWhitespace(s[..k]);
      r
    else s
  }

  /** `s` with its trailing whitespace removed. */
  function TrimEnd(s: string): (r: string)
    ensures TrailingTrimmed(s, r)
    decreases |s|
  {
    if |s| > 0 && IsWhitespace(s[|s| - 1]) then
      var r := TrimEnd(s[..|s| - 1]);
      assert s[..|s| - 1][..|r|] == s[..|r|];
      assert s[|r|..] == s[..|s| - 1][|r|..] + [s[|s| - 1]];
      AllWhitespaceAppend(s[..|s| - 1][|r|..], s[|s| - 1]);
      assert AllWhitespace(s[|r|..]);
      r
    else s
  }

  /** `r` is the slice of `s` starting at `lo`, and everything of `s` outside
      that slice is whitespace. */
  predicate MiddleOf(s: string, r: string, lo: int) {
    0 <= lo <= |s| - |r| && r == s[lo..lo + |r|]
    && AllWhitespace(s[..lo]) && AllWhitespace(s[lo + |r|..])
  }

  /** The first `n` characters of the suffix from `lo` are the slice `lo..lo + n`. */
  lemma PrefixOfSuffix(s: string, lo: nat, n: nat)
    requires lo + n <= |s|
    ensures s[lo..][..n] == s[lo..lo + n]
  {
  }

  /** Trimming the leading whitespace of `s` and then the trailing whitespace
      of the result leaves the middle of `s`, with no whitespace at either end. */
  lemma TrimBothEnds(s: string, t: string, r: string)
    requires LeadingTrimmed(s, t) && TrailingTrimmed(t, r)
    ensures NoEdgeWhitespace(r)
    ensures MiddleOf(s, r, |s| - |t|)
  {
    var lo := |s| - |t|;
    if |r| > 0 {
      assert r[0] == t[0];
    }
    PrefixOfSuffix(s, lo, |r|);
    assert r == s[lo..lo + |r|];
    assert s[lo + |r|..] == t[|r|..];
    assert AllWhitespace(s[lo + |r|..]);
  }

  /** `s.trim()`: the contiguous middle of `s` left once the whitespace at both
      ends is dropped. */
  function Trim(s: string): (r: string)
    ensures NoEdgeWhitespace(r)
    ensures exists lo :: MiddleOf(s, r, lo)
  {
    var t := TrimStart(s);
    TrimBothEnds(s, t, TrimEnd(t));
    TrimEnd(t)
  }

  /** A string that does not start with whitespace has nothing to trim there. */
  lemma TrimStartFixes(s: string)
    requires |s| == 0 || !IsWhitespace(s[0])
    ensures TrimStart(s) == s
  {
  }

  /** A string that does not end with whitespace has nothing to trim there. */
  lemma TrimEndFixes(s: string)
    requires |s| == 0 || !IsWhitespace(s[|s| - 1])
    ensures TrimEnd(s) == s
  {
  }

  /** A string without whitespace at its ends is its own trim. */
  lemma {:induction false} TrimFixesTrimmed(s: string)
    requires NoEdgeWhitespace(s)
    ensures Trim(s) == s
  {
    TrimStartFixes(s);
    TrimEndFixes(s);
  }

  /** Trimming twice is trimming once. */
  lemma {:induction false} TrimIdempotent(s: string)
    ensures Trim(Trim(s)) == Trim(s)
  {
    TrimFixesTrimmed(Trim(s));
  }
}
