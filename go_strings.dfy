/**
 * The parts of Go's `strings` package that the DAG builder relies on:
 * `strings.TrimSpace` (with `unicode.IsSpace`) and `strings.Split` with a
 * one-character separator. Strings are sequences of Unicode scalar values.
 * The scanning functions walk an index over the string rather than slicing
 * it, so that their unfoldings stay small.
 */
module GoStrings {

  /** `unicode.IsSpace`: the characters with the Unicode White_Space property. */
  predicate IsSpace(c: char) {
    ('\t' <= c <= '\r') || c == ' ' || c == '\U{0085}' || c == '\U{00A0}' || c == '\U{1680}'
    || ('\U{2000}' <= c <= '\U{200A}') || c == '\U{2028}' || c == '\U{2029}'
    || c == '\U{202F}' || c == '\U{205F}' || c == '\U{3000}'
  }

  /** Every character of `s` at an index in [lo, hi) is white space. */
  ghost predicate SpaceBetween(s: string, lo: nat, hi: nat)
    requires lo <= hi <= |s|
  {
    forall j :: lo <= j < hi ==> IsSpace(s[j])
  }

  /** The first index at or after `i` that does not hold white space, or |s|. */
  function SkipSpace(s: string, i: nat): (k: nat)
    requires i <= |s|
    ensures i <= k <= |s|
    ensures forall j :: i <= j < k ==> IsSpace(s[j])
    ensures k < |s| ==> !IsSpace(s[k])
    decreases |s| - i
  {
    if i < |s| && IsSpace(s[i]) then SkipSpace(s, i + 1) else i
  }

  /** Walking back from `hi` but not below `lo`: the end of the text before the trailing white space. */
  function SkipSpaceBack(s: string, lo: nat, hi: nat): (k: nat)
    requires lo <= hi <= |s|
    ensures lo <= k <= hi
    ensures forall j :: k <= j < hi ==> IsSpace(s[j])
    ensures k > lo ==> !IsSpace(s[k - 1])
    decreases hi
  {
    if hi > lo && IsSpace(s[hi - 1]) then SkipSpaceBack(s, lo, hi - 1) else hi
  }

  /** No white space at either end of `s`. */
  predicate Trimmed(s: string) {
    s == [] || (!IsSpace(s[0]) && !IsSpace(s[|s| - 1]))
  }

  /**
   * `strings.TrimSpace`: the part of `s` left once the white space at both
   * ends is cut off.
   */
  function TrimSpace(s: string): (r: string)
    ensures |r| <= |s|
    ensures Trimmed(r)
  {
    var lo := SkipSpace(s, 0);
    s[lo..SkipSpaceBack(s, lo, |s|)]
  }

  /** TrimSpace(s) is an infix of `s` with nothing but white space around it. */
  lemma TrimSpaceInfix(s: string)
    ensures var r := TrimSpace(s);
      exists i :: 0 <= i <= |s| - |r| && r == s[i..i + |r|] && SpaceBetween(s, 0, i) && SpaceBetween(s, i + |r|, |s|)
  {
    var lo := SkipSpace(s, 0);
    var hi := SkipSpaceBack(s, lo, |s|);
    assert TrimSpace(s) == s[lo..hi];
    assert SpaceBetween(s, 0, lo) && SpaceBetween(s, hi, |s|);
  }

  /** SkipSpace is pinned down by its contract. */
  lemma {:induction false} SkipSpaceIs(s: string, i: nat, k: nat)
    requires i <= k <= |s|
    requires forall j :: i <= j < k ==> IsSpace(s[j])
    requires k < |s| ==> !IsSpace(s[k])
    ensures SkipSpace(s, i) == k
    decreases k - i
  {
    if i < k {
      SkipSpaceIs(s, i + 1, k);
    }
  }

  /** SkipSpaceBack is pinned down by its contract. */
  lemma {:induction false} SkipSpaceBackIs(s: string, lo: nat, hi: nat, k: nat)
    requires lo <= k <= hi <= |s|
    requires forall j :: k <= j < hi ==> IsSpace(s[j])
    requires k > lo ==> !IsSpace(s[k - 1])
    ensures SkipSpaceBack(s, lo, hi) == k
    decreases hi
  {
    if k < hi {
      SkipSpaceBackIs(s, lo, hi - 1, k);
    }
  }

  /**
   * The two properties of TrimSpace's contract determine its result: any
   * infix of `s` that is surrounded by white space only and neither starts
   * nor ends with white space is TrimSpace(s).
   */
  lemma TrimSpaceUnique(s: string, i: nat, r: string)
    requires i + |r| <= |s| && r == s[i..i + |r|]
    requires SpaceBetween(s, 0, i) && SpaceBetween(s, i + |r|, |s|)
    requires Trimmed(r)
    ensures r == TrimSpace(s)
  {
    if r == [] {
      SkipSpaceIs(s, 0, |s|);
      SkipSpaceBackIs(s, |s|, |s|, |s|);
    } else {
      assert s[i] == r[0];
      SkipSpaceIs(s, 0, i);
      assert s[i + |r| - 1] == r[|r| - 1];
      SkipSpaceBackIs(s, i, |s|, i + |r|);
    }
  }

  /** The first index at or after `j` that holds `c`, or |s|. */
  function IndexFrom(s: string, c: char, j: nat): (i: nat)
    requires j <= |s|
    ensures j <= i <= |s|
    ensures forall m :: j <= m < i ==> s[m] != c
    ensures i < |s| ==> s[i] == c
    decreases |s| - j
  {
    if j == |s| || s[j] == c then j else IndexFrom(s, c, j + 1)
  }

  /** IndexFrom is pinned down by its contract. */
  lemma IndexFromIs(s: string, c: char, j: nat, i: nat)
    requires j <= i <= |s|
    requires forall m :: j <= m < i ==> s[m] != c
    requires i < |s| ==> s[i] == c
    ensures IndexFrom(s, c, j) == i
  {
  }

  /** The pieces of `s` from index `start` on, cut at every `sep`. */
  function SplitFrom(s: string, sep: char, start: nat): (parts: seq<string>)
    requires start <= |s|
    ensures |parts| >= 1
    decreases |s| - start
  {
    var i := IndexFrom(s, sep, start);
    if i == |s| then [s[start..]] else [s[start..i]] + SplitFrom(s, sep, i + 1)
  }

  /**
   * `strings.Split(s, [sep])`: the pieces of `s` between occurrences of
   * `sep`; there is always at least one piece.
   */
  function Split(s: string, sep: char): (parts: seq<string>)
    ensures |parts| >= 1
  {
    SplitFrom(s, sep, 0)
  }

  /** `strings.Join(parts, [sep])`. */
  function Join(parts: seq<string>, sep: char): string
    requires |parts| >= 1
  {
    if |parts| == 1 then parts[0] else parts[0] + [sep] + Join(parts[1..], sep)
  }

  /** A character that is neither the separator nor in any part is not in their join. */
  lemma {:induction false} JoinExcludes(parts: seq<string>, sep: char, c: char)
    requires |parts| >= 1 && c != sep
    requires forall k :: 0 <= k < |parts| ==> c !in parts[k]
    ensures c !in Join(parts, sep)
    decreases |parts|
  {
    if |parts| > 1 {
      JoinExcludes(parts[1..], sep, c);
      assert c !in parts[0] + [sep];
    }
  }

  lemma {:induction false} SplitFromPieces(s: string, sep: char, start: nat)
    requires start <= |s|
    ensures forall k :: 0 <= k < |SplitFrom(s, sep, start)| ==> sep !in SplitFrom(s, sep, start)[k]
    decreases |s| - start
  {
    var i := IndexFrom(s, sep, start);
    var parts := SplitFrom(s, sep, start);
    if i < |s| {
      SplitFromPieces(s, sep, i + 1);
      assert forall k :: 1 <= k < |parts| ==> parts[k] == SplitFrom(s, sep, i + 1)[k - 1];
    }
  }

  /** No piece of a split contains the separator. */
  lemma SplitPieces(s: string, sep: char)
    ensures forall k :: 0 <= k < |Split(s, sep)| ==> sep !in Split(s, sep)[k]
  {
    SplitFromPieces(s, sep, 0);
  }

  lemma {:induction false} JoinSplitFrom(s: string, sep: char, start: nat)
    requires start <= |s|
    ensures Join(SplitFrom(s, sep, start), sep) == s[start..]
    decreases |s| - start
  {
    var i := IndexFrom(s, sep, start);
    if i < |s| {
      var rest := SplitFrom(s, sep, i + 1);
      var parts := SplitFrom(s, sep, start);
      assert parts == [s[start..i]] + rest;
      assert parts[0] == s[start..i] && parts[1..] == rest;
      JoinSplitFrom(s, sep, i + 1);
      CutAt(s, start, i);
    }
  }

  /** Cutting `s[start..]` around the character at index `i`. */
  lemma CutAt(s: string, start: nat, i: nat)
    requires start <= i < |s|
    ensures s[start..] == s[start..i] + [s[i]] + s[i + 1..]
  {
  }

  /** Joining the pieces back with the separator gives the original string. */
  lemma JoinSplit(s: string, sep: char)
    ensures Join(Split(s, sep), sep) == s
  {
    JoinSplitFrom(s, sep, 0);
    assert s[0..] == s;
  }

  /**
   * Where `s` from `start` on reads `p` (free of `sep`) followed by `rest`,
   * the next `sep` at or after `start` is the first character of `rest`, if
   * `rest` begins with one, and otherwise there is none.
   */
  lemma IndexAfterPiece(s: string, sep: char, start: nat, p: string, rest: string)
    requires start <= |s| && s[start..] == p + rest && sep !in p
    requires rest == [] || rest[0] == sep
    ensures start + |p| <= |s| && s[start..start + |p|] == p
    ensures IndexFrom(s, sep, start) == start + |p|
    ensures rest != [] ==> s[start + |p| + 1..] == rest[1..]
  {
    var end := start + |p|;
    forall m | start <= m < end ensures s[m] != sep {
      assert s[start..][m - start] == s[m];
      assert p[m - start] in p;
    }
    if rest != [] {
      assert s[start..][|p|] == s[end];
      assert s[end + 1..] == s[start..][|p| + 1..];
    }
    IndexFromIs(s, sep, start, end);
    assert s[start..end] == s[start..][..|p|];
  }

  lemma {:induction false} SplitJoinFrom(s: string, sep: char, start: nat, parts: seq<string>)
    requires start <= |s| && |parts| >= 1
    requires forall k :: 0 <= k < |parts| ==> sep !in parts[k]
    requires s[start..] == Join(parts, sep)
    ensures SplitFrom(s, sep, start) == parts
    decreases |parts|
  {
    if |parts| == 1 {
      IndexAfterPiece(s, sep, start, parts[0], []);
    } else {
      var tail := Join(parts[1..], sep);
      IndexAfterPiece(s, sep, start, parts[0], [sep] + tail);
      SplitJoinFrom(s, sep, start + |parts[0]| + 1, parts[1..]);
    }
  }

  /**
   * Split is the only way to cut a string into separator-free pieces:
   * splitting a join of such pieces gives the pieces back.
   */
  lemma SplitJoin(parts: seq<string>, sep: char)
    requires |parts| >= 1
    requires forall k :: 0 <= k < |parts| ==> sep !in parts[k]
    ensures Split(Join(parts, sep), sep) == parts
  {
    var s := Join(parts, sep);
    assert s[0..] == s;
    SplitJoinFrom(s, sep, 0, parts);
  }
}
