/** The Python `str` operations the updater relies on, stated with Python's
    exact semantics: `str.split(sep)` with an explicit separator, `sep.join`,
    `str.replace`, negative slicing and the `\s` class of `re`. */
module Text {
  import opened Wrappers

  predicate StartsWith(s: string, p: string) {
    |p| <= |s| && s[..|p|] == p
  }

  predicate EndsWith(s: string, p: string) {
    |p| <= |s| && s[|s| - |p|..] == p
  }

  /** `pat` occurs in `s` starting at index `i`. */
  predicate OccursAt(s: string, pat: string, i: nat) {
    i + |pat| <= |s| && s[i..i + |pat|] == pat
  }

  /** Python's `pat in s`. */
  predicate Contains(s: string, pat: string) {
    exists i: nat | i <= |s| :: OccursAt(s, pat, i)
  }

  function IndexFrom(s: string, pat: string, from: nat): (r: Option<nat>)
    requires |pat| > 0 && from <= |s|
    ensures r.Some? ==> from <= r.value && OccursAt(s, pat, r.value)
    ensures forall j: nat :: from <= j && (r.None? || j < r.value) ==> !OccursAt(s, pat, j)
    decreases |s| - from
  {
    if from + |pat| > |s| then None
    else if OccursAt(s, pat, from) then Some(from)
    else IndexFrom(s, pat, from + 1)
  }

  /** The first index at which `pat` occurs in `s` (`str.find`, with `None` for -1). */
  function IndexOf(s: string, pat: string): (r: Option<nat>)
    requires |pat| > 0
    ensures r.Some? ==> OccursAt(s, pat, r.value)
    ensures r.Some? ==> forall j: nat :: j < r.value ==> !OccursAt(s, pat, j)
    ensures r.None? <==> !Contains(s, pat)
  {
    IndexFrom(s, pat, 0)
  }

  /** An occurrence inside a prefix is an occurrence in the whole string. */
  lemma PrefixOccurrence(s: string, pat: string, i: nat, j: nat)
    requires i <= |s| && OccursAt(s[..i], pat, j)
    ensures OccursAt(s, pat, j) && j + |pat| <= i
  {
    assert s[..i][j..j + |pat|] == s[j..j + |pat|];
  }

  /** The text before the first occurrence of `pat` does not contain `pat`. */
  lemma BeforeFirstOccurrence(s: string, pat: string, i: nat)
    requires |pat| > 0 && i <= |s|
    requires forall j: nat :: j < i ==> !OccursAt(s, pat, j)
    ensures !Contains(s[..i], pat)
  {
    if Contains(s[..i], pat) {
      var j: nat :| OccursAt(s[..i], pat, j);
      PrefixOccurrence(s, pat, i, j);
      assert false;
    }
  }

  /** Python's `s.split(sep)` for a non-empty separator: the pieces between
      the non-overlapping occurrences of `sep`, scanning left to right. */
  function Split(s: string, sep: string): (r: seq<string>)
    requires |sep| > 0
    ensures |r| >= 1
    decreases |s|
  {
    match IndexOf(s, sep)
    case None => [s]
    case Some(i) => [s[..i]] + Split(s[i + |sep|..], sep)
  }

  /** No piece of a split contains the separator. */
  lemma {:induction false} SplitPieces(s: string, sep: string)
    requires |sep| > 0
    ensures forall k :: 0 <= k < |Split(s, sep)| ==> !Contains(Split(s, sep)[k], sep)
    decreases |s|
  {
    match IndexOf(s, sep)
    case None =>
    case Some(i) =>
      BeforeFirstOccurrence(s, sep, i);
      SplitPieces(s[i + |sep|..], sep);
  }

  /** Python's `sep.join(parts)`. */
  function Join(parts: seq<string>, sep: string): string
    decreases |parts|
  {
    if |parts| == 0 then ""
    else if |parts| == 1 then parts[0]
    else parts[0] + sep + Join(parts[1..], sep)
  }

  /** Splitting and re-joining on the same separator gives the string back. */
  lemma {:induction false} JoinSplit(s: string, sep: string)
    requires |sep| > 0
    ensures Join(Split(s, sep), sep) == s
    decreases |s|
  {
    match IndexOf(s, sep)
    case None =>
    case Some(i) =>
      var rest := s[i + |sep|..];
      var q := Split(rest, sep);
      JoinSplit(rest, sep);
      assert Split(s, sep) == [s[..i]] + q;
      assert Join([s[..i]] + q, sep) == s[..i] + sep + Join(q, sep);
      assert s == s[..i] + s[i..i + |sep|] + rest;
  }

  /** Python's `s.split(pat)[0]`: the text before the first `pat`, or all of `s`. */
  function BeforeFirst(s: string, pat: string): (r: string)
    requires |pat| > 0
    ensures StartsWith(s, r) && !Contains(r, pat)
    ensures Contains(s, pat) ==> OccursAt(s, pat, |r|)
    ensures !Contains(s, pat) ==> r == s
  {
    SplitPieces(s, pat);
    Split(s, pat)[0]
  }

  /** The last piece of a split ends the string, right after a separator
      when there is more than one piece. */
  predicate LastPieceShape(s: string, sep: string, pieces: seq<string>)
    requires |pieces| >= 1
  {
    var last := pieces[|pieces| - 1];
    && EndsWith(s, last)
    && (|pieces| == 1 ==> last == s)
    && (|pieces| > 1 ==> |last| + |sep| <= |s| && OccursAt(s, sep, |s| - |last| - |sep|))
  }

  lemma {:induction false} SplitLast(s: string, sep: string)
    requires |sep| > 0
    ensures LastPieceShape(s, sep, Split(s, sep))
    decreases |s|
  {
    match IndexOf(s, sep)
    case None =>
      assert s[|s| - |s|..] == s;
    case Some(i) =>
      var rest := s[i + |sep|..];
      SplitLast(rest, sep);
      SplitCons(s, sep, i);
      SplitAround(s, sep, i);
      LastPieceCons(s, sep, s[..i], rest, Split(rest, sep));
  }

  /** Splitting at the first separator. */
  lemma SplitCons(s: string, sep: string, i: nat)
    requires |sep| > 0 && IndexOf(s, sep) == Some(i)
    ensures Split(s, sep) == [s[..i]] + Split(s[i + |sep|..], sep)
  {
  }

  /** A string is what comes before an occurrence, the occurrence, and what
      comes after it. */
  lemma SplitAround(s: string, sep: string, i: nat)
    requires OccursAt(s, sep, i)
    ensures s == s[..i] + sep + s[i + |sep|..]
  {
    assert s == s[..i] + s[i..i + |sep|] + s[i + |sep|..];
  }

  lemma LastPieceCons(s: string, sep: string, head: string, rest: string, q: seq<string>)
    requires |q| >= 1 && s == head + sep + rest && LastPieceShape(rest, sep, q)
    ensures LastPieceShape(s, sep, [head] + q)
  {
    var last := q[|q| - 1];
    var p := [head] + q;
    assert p[|p| - 1] == last;
    assert s[|s| - |last|..] == rest[|rest| - |last|..];
    if |q| > 1 {
      var k := |rest| - |last| - |sep|;
      assert s[|head| + |sep| + k..|head| + |sep| + k + |sep|] == rest[k..k + |sep|];
    } else {
      assert s[|head|..|head| + |sep|] == sep;
    }
  }

  /** Python's `s.split(sep)[-1]`: the text after the last `sep`, or all of `s`. */
  function AfterLast(s: string, sep: string): (r: string)
    requires |sep| > 0
    ensures EndsWith(s, r) && !Contains(r, sep)
    ensures |r| < |s| ==> |r| + |sep| <= |s| && OccursAt(s, sep, |s| - |r| - |sep|)
    ensures !Contains(s, sep) ==> r == s
  {
    var p := Split(s, sep);
    SplitLast(s, sep);
    SplitPieces(s, sep);
    p[|p| - 1]
  }

  /** Python's `s.replace(target, with)`: every non-overlapping occurrence of
      `target`, scanning left to right, becomes `with`. */
  function Replace(s: string, target: string, with: string): string
    requires |target| > 0
  {
    Join(Split(s, target), with)
  }

  /** A replacement with nothing to replace leaves the string as it was
      (so the `in` guards written before two of the source's `replace`
      calls change nothing). */
  lemma ReplaceAbsent(s: string, target: string, with: string)
    requires |target| > 0 && !Contains(s, target)
    ensures Replace(s, target, with) == s
  {
  }

  /** `s` with every `c` removed. */
  function Without(s: string, c: char): (r: string)
    ensures c !in r
    ensures |r| <= |s|
  {
    if |s| == 0 then ""
    else if s[0] == c then Without(s[1..], c)
    else [s[0]] + Without(s[1..], c)
  }

  lemma {:induction false} WithoutAppend(a: string, b: string, c: char)
    ensures Without(a + b, c) == Without(a, c) + Without(b, c)
    decreases |a|
  {
    if |a| > 0 {
      WithoutAppend(a[1..], b, c);
      assert (a + b)[1..] == a[1..] + b;
    } else {
      assert a + b == b;
    }
  }

  lemma {:induction false} WithoutAbsent(s: string, c: char)
    requires c !in s
    ensures Without(s, c) == s
    decreases |s|
  {
    if |s| > 0 {
      WithoutAbsent(s[1..], c);
      assert s == [s[0]] + s[1..];
    }
  }

  lemma CharNotContained(s: string, c: char)
    requires !Contains(s, [c])
    ensures c !in s
  {
    if c in s {
      var k :| 0 <= k < |s| && s[k] == c;
      assert OccursAt(s, [c], k);
    }
  }

  /** Replacing one character by the empty string deletes every copy of it. */
  lemma {:induction false} ReplaceCharDeletes(s: string, c: char)
    ensures Replace(s, [c], "") == Without(s, c)
    decreases |s|
  {
    match IndexOf(s, [c])
    case None =>
      CharNotContained(s, c);
      WithoutAbsent(s, c);
    case Some(i) =>
      var rest := s[i + 1..];
      ReplaceCharDeletes(rest, c);
      SplitCons(s, [c], i);
      HeadWithout(s, c, i);
      ReplaceCons(s, [c], "", i);
      SplitAround(s, [c], i);
      WithoutAppend(s[..i] + [c], rest, c);
      WithoutAppend(s[..i], [c], c);
  }

  /** Nothing before the first `c` is a `c`. */
  lemma HeadWithout(s: string, c: char, i: nat)
    requires IndexOf(s, [c]) == Some(i)
    ensures Without(s[..i], c) == s[..i]
  {
    SplitCons(s, [c], i);
    SplitPieces(s, [c]);
    assert Split(s, [c])[0] == s[..i];
    CharNotContained(s[..i], c);
    WithoutAbsent(s[..i], c);
  }

  /** Replacing starts at the first occurrence. */
  lemma ReplaceCons(s: string, target: string, with: string, i: nat)
    requires |target| > 0 && IndexOf(s, target) == Some(i)
    ensures Replace(s, target, with) == s[..i] + with + Replace(s[i + |target|..], target, with)
  {
    SplitCons(s, target, i);
  }

  /** Python's `s[:-n]` for `n >= 1`: all but the last `n` characters,
      empty when `s` is shorter than `n`. */
  function DropLast(s: string, n: nat): (r: string)
    requires n >= 1
    ensures |s| >= n ==> s == r + s[|s| - n..]
    ensures |s| < n ==> r == ""
  {
    if |s| >= n then s[..|s| - n] else ""
  }

  /** The characters `\s` matches in a Python 3 `str` pattern (`str.isspace`). */
  predicate IsSpace(c: char) {
    || c == ' '
    || '\t' <= c <= '\r'
    || '\U{1c}' <= c <= '\U{1f}'
    || c == '\U{85}' || c == '\U{a0}' || c == '\U{1680}'
    || '\U{2000}' <= c <= '\U{200a}'
    || c == '\U{2028}' || c == '\U{2029}' || c == '\U{202f}' || c == '\U{205f}'
    || c == '\U{3000}'
  }

  predicate AllSpace(s: string) {
    forall k :: 0 <= k < |s| ==> IsSpace(s[k])
  }

  /** What `\s*` consumes: the leading whitespace of `s` removed. */
  function SkipSpace(s: string): (r: string)
    ensures EndsWith(s, r) && AllSpace(s[..|s| - |r|])
    ensures |r| == 0 || !IsSpace(r[0])
  {
    if |s| > 0 && IsSpace(s[0]) then
      var r := SkipSpace(s[1..]);
      SkipSpaceStep(s, r);
      r
    else s
  }

  /** One more leading space in front of a skipped run. */
  lemma SkipSpaceStep(s: string, r: string)
    requires |s| > 0 && IsSpace(s[0])
    requires EndsWith(s[1..], r) && AllSpace(s[1..][..|s| - 1 - |r|])
    ensures EndsWith(s, r) && AllSpace(s[..|s| - |r|])
  {
    assert s[|s| - |r|..] == s[1..][|s| - 1 - |r|..];
    var w := s[..|s| - |r|];
    forall k | 0 <= k < |w|
      ensures IsSpace(w[k])
    {
      if k > 0 {
        assert w[k] == s[1..][..|s| - 1 - |r|][k - 1];
      }
    }
  }

  /** The leading spaces skipped in front of `rest` are skipped entirely. */
  lemma {:induction false} SkipSpacePrefix(w: string, rest: string)
    requires AllSpace(w) && (|rest| == 0 || !IsSpace(rest[0]))
    ensures SkipSpace(w + rest) == rest
    decreases |w|
  {
    if |w| > 0 {
      assert (w + rest)[1..] == w[1..] + rest;
      SkipSpacePrefix(w[1..], rest);
    } else {
      assert w + rest == rest;
    }
  }
}
