/**
 * The JavaScript string operations the engine relies on, stated over `seq<char>`:
 * `indexOf`, `replace` with a string pattern (first occurrence only), `split`
 * with a non-empty separator, `join` and `substring(0, n)`.
 */
module Text {
  import opened Wrappers

  /** `pat` occurs in `s` starting at index `k`. */
  predicate OccursAt(s: string, pat: string, k: nat) {
    k + |pat| <= |s| && s[k..k + |pat|] == pat
  }

  /** `pat` occurs nowhere in `s`. */
  ghost predicate Free(s: string, pat: string) {
    forall k: nat :: !OccursAt(s, pat, k)
  }

  /** `k` is the leftmost occurrence of `pat` in `s`. */
  ghost predicate FirstAt(s: string, pat: string, k: nat) {
    OccursAt(s, pat, k) && forall j: nat :: j < k ==> !OccursAt(s, pat, j)
  }

  /** Leftmost occurrence of `pat` in `s` at or after `i` (`s.indexOf(pat, i)`). */
  function IndexFrom(s: string, pat: string, i: nat): (r: Option<nat>)
    decreases |s| - i
    ensures r.Some? ==> i <= r.value && OccursAt(s, pat, r.value)
  {
    if i + |pat| > |s| then None
    else if s[i..i + |pat|] == pat then Some(i)
    else IndexFrom(s, pat, i + 1)
  }

  /** The search finds the leftmost occurrence at or after `i`, and misses only when there is none. */
  lemma {:induction false} IndexFromLeftmost(s: string, pat: string, i: nat)
    decreases |s| - i
    ensures IndexFrom(s, pat, i).Some? ==> forall j: nat :: i <= j < IndexFrom(s, pat, i).value ==> !OccursAt(s, pat, j)
    ensures IndexFrom(s, pat, i).None? ==> forall j: nat :: i <= j ==> !OccursAt(s, pat, j)
  {
    if i + |pat| <= |s| && s[i..i + |pat|] != pat {
      IndexFromLeftmost(s, pat, i + 1);
    }
  }

  /** `s.indexOf(pat)`, with `None` for -1. */
  function IndexOf(s: string, pat: string): (r: Option<nat>)
    ensures r.Some? ==> OccursAt(s, pat, r.value)
  {
    IndexFrom(s, pat, 0)
  }

  /** `indexOf` reports the leftmost occurrence, and -1 exactly when there is none. */
  lemma IndexOfLeftmost(s: string, pat: string)
    ensures IndexOf(s, pat).None? <==> Free(s, pat)
    ensures IndexOf(s, pat).Some? ==> FirstAt(s, pat, IndexOf(s, pat).value)
  {
    IndexFromLeftmost(s, pat, 0);
  }

  /**
   * `s.replace(pat, rep)` for a string pattern: only the leftmost occurrence is
   * replaced, and a string without an occurrence comes back unchanged.
   */
  function ReplaceFirst(s: string, pat: string, rep: string): (r: string)
    ensures Free(s, pat) ==> r == s
    ensures forall k: nat :: FirstAt(s, pat, k) ==> r == s[..k] + rep + s[k + |pat|..]
  {
    IndexOfLeftmost(s, pat);
    match IndexOf(s, pat)
    case None => s
    case Some(k) =>
      s[..k] + rep + s[k + |pat|..]
  }

  /** Replacing a pattern that starts the string replaces that prefix. */
  lemma ReplacePrefix(pat: string, rest: string, rep: string)
    ensures ReplaceFirst(pat + rest, pat, rep) == rep + rest
  {
    var s := pat + rest;
    assert s[0..|pat|] == pat;
    assert FirstAt(s, pat, 0);
    assert s[|pat|..] == rest;
  }

  /** `parts.join(sep)`. */
  function Join(parts: seq<string>, sep: string): string {
    if |parts| == 0 then ""
    else if |parts| == 1 then parts[0]
    else parts[0] + sep + Join(parts[1..], sep)
  }

  /** Joining one more part adds the separator and the part at the end. */
  lemma {:induction false} JoinSnoc(parts: seq<string>, p: string, sep: string)
    ensures Join(parts + [p], sep) == if parts == [] then p else Join(parts, sep) + sep + p
  {
    if |parts| > 1 {
      assert (parts + [p])[1..] == parts[1..] + [p];
      JoinSnoc(parts[1..], p, sep);
    }
  }

  /** Joining two non-empty lists puts one separator between their joins. */
  lemma {:induction false} JoinAppend(a: seq<string>, b: seq<string>, sep: string)
    requires a != [] && b != []
    ensures Join(a + b, sep) == Join(a, sep) + sep + Join(b, sep)
  {
    if |a| > 1 {
      assert (a + b)[1..] == a[1..] + b;
      JoinAppend(a[1..], b, sep);
    }
  }

  /** The join of the first `i + 1` parts extends the join of the first `i`. */
  lemma JoinPrefixStep(parts: seq<string>, i: nat, sep: string)
    requires i < |parts|
    ensures Join(parts[..i + 1], sep) == if i == 0 then parts[i] else Join(parts[..i], sep) + sep + parts[i]
  {
    assert parts[..i + 1] == parts[..i] + [parts[i]];
    JoinSnoc(parts[..i], parts[i], sep);
  }

  /** Joining a part in front of a non-empty list puts one separator after it. */
  lemma JoinCons(p: string, parts: seq<string>, sep: string)
    requires parts != []
    ensures Join([p] + parts, sep) == p + sep + Join(parts, sep)
  {
    assert ([p] + parts)[1..] == parts;
  }

  /** A suffix of `s` is the concatenation of three consecutive slices. */
  lemma SliceAround(s: string, i: nat, j: nat, k: nat)
    requires i <= j <= k <= |s|
    ensures s[i..] == s[i..j] + s[j..k] + s[k..]
  {
  }

  /** An occurrence in a suffix `s[m..]` is an occurrence in `s`, shifted by `m`. */
  lemma OccursShift(s: string, pat: string, m: nat, j: nat)
    requires m <= |s|
    ensures OccursAt(s[m..], pat, j) <==> OccursAt(s, pat, m + j)
  {
    if m + j + |pat| <= |s| {
      assert s[m..][j..j + |pat|] == s[m + j..m + j + |pat|];
    }
  }

  /** An occurrence in a slice `s[m..n]` is an occurrence in `s`, shifted by `m`. */
  lemma OccursInSlice(s: string, pat: string, m: nat, n: nat, j: nat)
    requires m <= n <= |s| && OccursAt(s[m..n], pat, j)
    ensures OccursAt(s, pat, m + j) && m + j + |pat| <= n
  {
    var t := s[m..n];
    assert j + |pat| <= |t|;
    forall x | j <= x < j + |pat| ensures t[x] == s[m + x] {
    }
    assert t[j..j + |pat|] == s[m + j..m + j + |pat|];
  }

  /**
   * The pieces of `s[start..]` between the occurrences of `sep`, each search
   * starting where the previous occurrence ended.
   */
  function SplitFrom(s: string, sep: string, start: nat): (parts: seq<string>)
    requires |sep| > 0 && start <= |s|
    decreases |s| - start
    ensures |parts| >= 1
  {
    match IndexFrom(s, sep, start)
    case None => [s[start..]]
    case Some(k) => [s[start..k]] + SplitFrom(s, sep, k + |sep|)
  }

  /** `s.split(sep)` for a non-empty separator. */
  function Split(s: string, sep: string): (parts: seq<string>)
    requires |sep| > 0
    ensures |parts| >= 1
  {
    SplitFrom(s, sep, 0)
  }

  /** Splitting is undone by joining with the same separator. */
  lemma {:induction false} SplitFromJoin(s: string, sep: string, start: nat)
    requires |sep| > 0 && start <= |s|
    ensures Join(SplitFrom(s, sep, start), sep) == s[start..]
    decreases |s| - start
  {
    match IndexFrom(s, sep, start)
    case None =>
    case Some(k) =>
      var tail := SplitFrom(s, sep, k + |sep|);
      assert SplitFrom(s, sep, start) == [s[start..k]] + tail;
      SplitFromJoin(s, sep, k + |sep|);
      JoinAround(s, sep, start, k, tail);
  }

  /** The piece before an occurrence at `k`, the separator, and the join of the rest make up `s[start..]`. */
  lemma JoinAround(s: string, sep: string, start: nat, k: nat, tail: seq<string>)
    requires start <= k && OccursAt(s, sep, k) && tail != [] && Join(tail, sep) == s[k + |sep|..]
    ensures Join([s[start..k]] + tail, sep) == s[start..]
  {
    var piece, rest := s[start..k], s[k + |sep|..];
    JoinCons(piece, tail, sep);
    assert Join([piece] + tail, sep) == piece + sep + rest;
    assert s[k..k + |sep|] == sep;
    SliceAround(s, start, k, k + |sep|);
  }

  /** No piece of a split contains the separator. */
  lemma {:induction false} SplitFromPiecesFree(s: string, sep: string, start: nat)
    requires |sep| > 0 && start <= |s|
    ensures forall i :: 0 <= i < |SplitFrom(s, sep, start)| ==> Free(SplitFrom(s, sep, start)[i], sep)
    decreases |s| - start
  {
    IndexFromLeftmost(s, sep, start);
    match IndexFrom(s, sep, start)
    case None =>
      forall j: nat ensures !OccursAt(s[start..], sep, j) {
        OccursShift(s, sep, start, j);
      }
    case Some(k) =>
      forall j: nat ensures !OccursAt(s[start..k], sep, j) {
        if OccursAt(s[start..k], sep, j) { OccursInSlice(s, sep, start, k, j); }
      }
      SplitFromPiecesFree(s, sep, k + |sep|);
  }

  /** Where the last piece of `SplitFrom(s, sep, start)` begins. */
  function LastStart(s: string, sep: string, start: nat): (p: nat)
    requires |sep| > 0 && start <= |s|
    decreases |s| - start
    ensures start <= p <= |s|
  {
    match IndexFrom(s, sep, start)
    case None => start
    case Some(k) => LastStart(s, sep, k + |sep|)
  }

  /** The last piece of `s.split(sep)` (what `.pop()` returns). */
  function LastPiece(s: string, sep: string): string
    requires |sep| > 0
  {
    var parts := Split(s, sep);
    parts[|parts| - 1]
  }

  /** The last piece of a split runs from `LastStart` to the end of the input. */
  lemma {:induction false} LastPieceAt(s: string, sep: string, start: nat)
    requires |sep| > 0 && start <= |s|
    ensures var parts := SplitFrom(s, sep, start); parts[|parts| - 1] == s[LastStart(s, sep, start)..]
    decreases |s| - start
  {
    match IndexFrom(s, sep, start)
    case None =>
    case Some(k) =>
      LastPieceAt(s, sep, k + |sep|);
      var tail := SplitFrom(s, sep, k + |sep|);
      var parts := SplitFrom(s, sep, start);
      assert parts == [s[start..k]] + tail;
      assert parts[|parts| - 1] == tail[|tail| - 1];
      assert LastStart(s, sep, start) == LastStart(s, sep, k + |sep|);
  }

  /** One step of `LastStart` past an occurrence found at `k`. */
  lemma LastStartStep(s: string, sep: string, start: nat, k: nat)
    requires |sep| > 0 && start <= |s| && IndexFrom(s, sep, start) == Some(k)
    ensures start <= k && k + |sep| <= |s| && OccursAt(s, sep, k)
    ensures LastStart(s, sep, start) == LastStart(s, sep, k + |sep|)
  {
  }

  /** A last piece that does not begin at `start` directly follows an occurrence of the separator. */
  lemma {:induction false} LastStartAfterSeparator(s: string, sep: string, start: nat)
    requires |sep| > 0 && start <= |s| && LastStart(s, sep, start) > start
    ensures |sep| <= LastStart(s, sep, start) && OccursAt(s, sep, LastStart(s, sep, start) - |sep|)
    decreases |s| - start
  {
    match IndexFrom(s, sep, start)
    case None =>
      assert false;
    case Some(k) =>
      var next := k + |sep|;
      var p := LastStart(s, sep, next);
      assert LastStart(s, sep, start) == p;
      if p > next {
        LastStartAfterSeparator(s, sep, next);
      } else {
        assert p - |sep| == k;
      }
  }

  /** No occurrence of the separator starts inside the last piece. */
  lemma {:induction false} LastPieceFree(s: string, sep: string, start: nat)
    requires |sep| > 0 && start <= |s|
    ensures forall j: nat :: LastStart(s, sep, start) <= j ==> !OccursAt(s, sep, j)
    decreases |s| - start
  {
    match IndexFrom(s, sep, start)
    case None => IndexFromLeftmost(s, sep, start);
    case Some(k) => LastPieceFree(s, sep, k + |sep|);
  }

  /** The first piece of a split is a prefix of the input. */
  lemma FirstPiecePrefix(s: string, sep: string)
    requires |sep| > 0
    ensures Split(s, sep)[0] <= s
  {
  }

  /** A prefix of a string free of `pat` is free of it too. */
  lemma PrefixFree(s: string, t: string, pat: string)
    requires t <= s && Free(s, pat)
    ensures Free(t, pat)
  {
    forall k: nat | OccursAt(t, pat, k) ensures OccursAt(s, pat, k) {
      assert s[k..k + |pat|] == t[k..k + |pat|];
    }
  }

  /** The character `c` does not occur in `s`. */
  predicate NoChar(s: string, c: char) {
    forall i :: 0 <= i < |s| ==> s[i] != c
  }

  /** A one-character pattern occurs exactly where that character is. */
  lemma OccursChar(s: string, c: char, j: nat)
    ensures OccursAt(s, [c], j) <==> j < |s| && s[j] == c
  {
    if j < |s| && s[j] == c {
      assert s[j..j + 1] == [c];
    }
  }

  /** Two strings without the character `c` make a string without it. */
  lemma NoCharConcat(a: string, b: string, c: char)
    requires NoChar(a, c) && NoChar(b, c)
    ensures NoChar(a + b, c)
  {
    forall i | 0 <= i < |a + b| ensures (a + b)[i] != c {
      if i >= |a| { assert (a + b)[i] == b[i - |a|]; }
    }
  }

  /** A string without the character `c` is free of the pattern `[c]`. */
  lemma NoCharFree(s: string, c: char)
    requires NoChar(s, c)
    ensures Free(s, [c])
  {
    forall k: nat ensures !OccursAt(s, [c], k) {
      OccursChar(s, c, k);
    }
  }

  /** The search result is determined by where `pat` occurs: the leftmost occurrence at or after `i`, or none. */
  lemma IndexFromIs(s: string, pat: string, i: nat, r: Option<nat>)
    requires r.Some? ==> i <= r.value && OccursAt(s, pat, r.value) && forall j: nat :: i <= j < r.value ==> !OccursAt(s, pat, j)
    requires r.None? ==> forall j: nat :: i <= j ==> !OccursAt(s, pat, j)
    ensures IndexFrom(s, pat, i) == r
  {
    IndexFromLeftmost(s, pat, i);
  }

  /** Splitting a string that does not contain the one-character separator gives the string itself. */
  lemma SplitNoSeparator(s: string, c: char)
    requires NoChar(s, c)
    ensures Split(s, [c]) == [s]
  {
    NoCharFree(s, c);
    IndexFromIs(s, [c], 0, None);
  }

  /** Splitting `a c b` on `c`, where neither `a` nor `b` contains `c`, gives `[a, b]`. */
  lemma SplitTwo(a: string, b: string, c: char)
    requires NoChar(a, c) && NoChar(b, c)
    ensures Split(a + [c] + b, [c]) == [a, b]
  {
    var s := a + [c] + b;
    forall j: nat | j < |a| ensures !OccursAt(s, [c], j) {
      OccursChar(s, c, j);
    }
    OccursChar(s, c, |a|);
    IndexFromIs(s, [c], 0, Some(|a|));
    forall j: nat | |a| + 1 <= j ensures !OccursAt(s, [c], j) {
      OccursChar(s, c, j);
      if j < |s| { assert s[j] == b[j - |a| - 1]; }
    }
    IndexFromIs(s, [c], |a| + 1, None);
    assert SplitFrom(s, [c], |a| + 1) == [b] by {
      assert s[|a| + 1..] == b;
    }
    assert SplitFrom(s, [c], 0) == [a] + [b] by {
      assert s[0..|a|] == a;
    }
  }

  /** The search for a one-character pattern from `from` stops at the first occurrence of that character. */
  lemma NextChar(s: string, c: char, from: nat, k: nat)
    requires from <= k < |s| && s[k] == c && forall j :: from <= j < k ==> s[j] != c
    ensures IndexFrom(s, [c], from) == Some(k)
  {
    forall j: nat | from <= j < k ensures !OccursAt(s, [c], j) {
      OccursChar(s, c, j);
    }
    OccursChar(s, c, k);
    IndexFromIs(s, [c], from, Some(k));
  }

  /** The piece of `a + b + rest` after `a` and up to the next `c` is `b`, when `b` has no `c`. */
  lemma SplitPieceAt(a: string, b: string, rest: string, c: char)
    requires NoChar(b, c)
    ensures var s := a + b + [c] + rest;
      SplitFrom(s, [c], |a|) == [b] + SplitFrom(s, [c], |a| + |b| + 1)
  {
    var s := a + b + [c] + rest;
    forall j | |a| <= j < |a| + |b| ensures s[j] != c {
      assert s[j] == b[j - |a|];
    }
    NextChar(s, c, |a|, |a| + |b|);
    Middle(a, b, [c] + rest);
    assert s == a + b + ([c] + rest);
  }

  /** The middle part of a concatenation of three. */
  lemma Middle(a: string, b: string, c: string)
    ensures (a + b + c)[|a|..|a| + |b|] == b
  {
  }

  /** Splitting `a c b c rest` on `c`, where neither `a` nor `b` contains `c`, gives `a`, `b` and at least one more piece. */
  lemma SplitFirstTwo(a: string, b: string, rest: string, c: char)
    requires NoChar(a, c) && NoChar(b, c)
    ensures var parts := Split(a + [c] + b + [c] + rest, [c]); |parts| >= 3 && parts[0] == a && parts[1] == b
  {
    var s := a + [c] + b + [c] + rest;
    SplitPieceAt([], a, b + [c] + rest, c);
    assert [] + a + [c] + (b + [c] + rest) == s;
    SplitPieceAt(a + [c], b, rest, c);
    assert a + [c] + b + [c] + rest == s;
  }

  /** `s.substring(0, n)`: the first `n` characters, or all of `s` when shorter. */
  function Take(s: string, n: nat): (r: string)
    ensures |r| <= n && r <= s
    ensures |r| == n || r == s
  {
    if |s| <= n then s else s[..n]
  }
}
