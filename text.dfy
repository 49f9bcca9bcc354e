/** Literal substring search, counting, replacement and whitespace stripping on
    strings, with the semantics of Python's `re.search` on an all-literal
    pattern, `str.count`, `str.replace(old, "")` and `str.strip()`. */
module Text {

  datatype Option<T> = None | Some(value: T)

  /** `w` occurs in `s` starting at index `i`. */
  predicate OccursAt(s: string, i: nat, w: string) {
    i + |w| <= |s| && s[i..i + |w|] == w
  }

  /** `w` occurs somewhere in `s`. */
  predicate Contains(s: string, w: string) {
    exists i: nat | i + |w| <= |s| :: OccursAt(s, i, w)
  }

  /** The leading character of `w` appears nowhere else in `w`; two
      occurrences of such a word in a string can never overlap. */
  predicate LeadUnique(w: string) {
    |w| > 0 && forall k :: 0 < k < |w| ==> w[k] != w[0]
  }

  /** Index of the first occurrence of `w` in `s` at or after `i`. */
  function FindFrom(s: string, w: string, i: nat): (r: Option<nat>)
    decreases |s| - i
    ensures r.Some? ==> i <= r.value && OccursAt(s, r.value, w)
    ensures forall k: nat :: i <= k && (r.None? || k < r.value) ==> !OccursAt(s, k, w)
  {
    if i + |w| > |s| then None
    else if OccursAt(s, i, w) then Some(i)
    else FindFrom(s, w, i + 1)
  }

  /** First match of a literal pattern, as `re.search` finds it. */
  function FindFirst(s: string, w: string): (r: Option<nat>)
    ensures r.None? <==> !Contains(s, w)
    ensures r.Some? ==> OccursAt(s, r.value, w) && forall k: nat :: k < r.value ==> !OccursAt(s, k, w)
  {
    FindFrom(s, w, 0)
  }

  /** Non-overlapping occurrences of `w` in `s[i..]`, scanning left to right
      and resuming after each match, as `str.count` does. */
  function CountFrom(s: string, w: string, i: nat): nat
    requires |w| > 0
    decreases |s| - i
  {
    if i + |w| > |s| then 0
    else if OccursAt(s, i, w) then 1 + CountFrom(s, w, i + |w|)
    else CountFrom(s, w, i + 1)
  }

  /** `s.count(w)` for a non-empty `w`. */
  function Count(s: string, w: string): (n: nat)
    requires |w| > 0
    ensures n == 0 <==> !Contains(s, w)
  {
    assert CountFrom(s, w, 0) == 0 <==> !Contains(s, w) by {
      if Contains(s, w) {
        var j: nat :| j + |w| <= |s| && OccursAt(s, j, w);
        CountFromPositive(s, w, 0, j);
      } else {
        CountFromAbsent(s, w, 0);
      }
    }
    CountFrom(s, w, 0)
  }

  lemma {:induction false} CountFromPositive(s: string, w: string, i: nat, j: nat)
    requires |w| > 0 && i <= j && OccursAt(s, j, w)
    ensures CountFrom(s, w, i) >= 1
    decreases |s| - i
  {
    if !OccursAt(s, i, w) {
      CountFromPositive(s, w, i + 1, j);
    }
  }

  lemma {:induction false} CountFromAbsent(s: string, w: string, i: nat)
    requires |w| > 0 && forall k: nat :: i <= k ==> !OccursAt(s, k, w)
    ensures CountFrom(s, w, i) == 0
    decreases |s| - i
  {
    if i + |w| <= |s| {
      CountFromAbsent(s, w, i + 1);
    }
  }

  /** Two non-overlapping occurrences are both counted. */
  lemma {:induction false} CountFromTwo(s: string, w: string, i: nat, j1: nat, j2: nat)
    requires |w| > 0 && i <= j1 && j1 + |w| <= j2
    requires OccursAt(s, j1, w) && OccursAt(s, j2, w)
    ensures CountFrom(s, w, i) >= 2
    decreases |s| - i
  {
    if OccursAt(s, i, w) {
      CountFromPositive(s, w, i + |w|, j2);
    } else {
      CountFromTwo(s, w, i + 1, j1, j2);
    }
  }

  /** A single occurrence and no other one is counted exactly once. */
  lemma {:induction false} CountFromOne(s: string, w: string, i: nat, j: nat)
    requires |w| > 0 && i <= j && OccursAt(s, j, w)
    requires forall k: nat :: i <= k && OccursAt(s, k, w) ==> k == j
    ensures CountFrom(s, w, i) == 1
    decreases |s| - i
  {
    if i == j {
      CountFromAbsent(s, w, i + |w|);
    } else {
      CountFromOne(s, w, i + 1, j);
    }
  }

  /** Two occurrences of a word whose leading character does not recur
      never overlap. */
  lemma NoOverlap(s: string, w: string, i: nat, j: nat)
    requires LeadUnique(w) && i < j < i + |w|
    ensures !(OccursAt(s, i, w) && OccursAt(s, j, w))
  {
    if j + |w| <= |s| {
      assert s[i..i + |w|][j - i] == s[j] == s[j..j + |w|][0];
    }
  }

  /** A slice in which no occurrence of `w` starts contains no `w`. */
  lemma SliceFree(s: string, w: string, i: nat, j: nat)
    requires |w| > 0 && i <= j <= |s|
    requires forall k: nat :: i <= k < j ==> !OccursAt(s, k, w)
    ensures !Contains(s[i..j], w)
  {
    var t := s[i..j];
    assert forall q :: 0 <= q < |t| ==> t[q] == s[i + q];
    forall p: nat | p + |w| <= |t| ensures !OccursAt(t, p, w) {
      assert t[p..p + |w|] == s[i + p..i + p + |w|];
      assert !OccursAt(s, i + p, w);
    }
  }

  /** If `x` sits at `i` and `w` right after it, and `x` has no `w` of its
      own, then the search from `i` finds the `w` that follows `x`. */
  lemma {:induction false} FirstAfter(s: string, w: string, i: nat, x: string)
    requires LeadUnique(w) && !Contains(x, w)
    requires OccursAt(s, i, x) && OccursAt(s, i + |x|, w)
    ensures FindFrom(s, w, i) == Some(i + |x|)
  {
    forall j: nat | i <= j < i + |x| ensures !OccursAt(s, j, w) {
      if j + |w| <= i + |x| {
        assert forall k :: 0 <= k < |x| ==> x[k] == s[i + k];
        assert s[j..j + |w|] == x[j - i..j - i + |w|];
        assert !OccursAt(x, j - i, w);
      } else {
        NoOverlap(s, w, j, i + |x|);
      }
    }
  }

  /** For such a word, a count of one means exactly one occurrence. */
  lemma CountOneUnique(s: string, w: string, i: nat, j: nat)
    requires LeadUnique(w) && Count(s, w) == 1
    requires OccursAt(s, i, w) && OccursAt(s, j, w)
    ensures i == j
  {
    if i < j {
      if j < i + |w| {
        NoOverlap(s, w, i, j);
      } else {
        CountFromTwo(s, w, 0, i, j);
      }
    } else if j < i {
      if i < j + |w| {
        NoOverlap(s, w, j, i);
      } else {
        CountFromTwo(s, w, 0, j, i);
      }
    }
  }

  /** For such a word, one occurrence and no other gives a count of one. */
  lemma CountExactlyOne(s: string, w: string, j: nat)
    requires |w| > 0 && OccursAt(s, j, w)
    requires forall k: nat :: OccursAt(s, k, w) ==> k == j
    ensures Count(s, w) == 1
  {
    CountFromOne(s, w, 0, j);
  }

  /** Whether `w` occurs at a position depends only on the characters there. */
  lemma OccursShift(a: string, b: string, i: nat, w: string)
    ensures OccursAt(b, i, w) <==> OccursAt(a + b, |a| + i, w)
    ensures i + |w| <= |a| ==> (OccursAt(a, i, w) <==> OccursAt(a + b, i, w))
  {
    if i + |w| <= |b| {
      assert (a + b)[|a| + i..|a| + i + |w|] == b[i..i + |w|];
    }
    if i + |w| <= |a| {
      assert (a + b)[i..i + |w|] == a[i..i + |w|];
    }
  }

  /** A word whose first character is `s[m]` and does not recur in it has
      no occurrence that starts before `m` and runs past it. */
  lemma LeadBarrier(s: string, w: string, k: nat, m: nat)
    requires LeadUnique(w) && k < m < k + |w| && m < |s| && s[m] == w[0]
    ensures !OccursAt(s, k, w)
  {
    if k + |w| <= |s| {
      assert s[k..k + |w|][m - k] == s[m];
    }
  }

  /** A string none of whose characters is the first of `w` holds no `w`. */
  lemma NoLeadNoContains(x: string, w: string)
    requires |w| > 0 && forall k :: 0 <= k < |x| ==> x[k] != w[0]
    ensures !Contains(x, w)
  {
    forall p: nat | p + |w| <= |x| ensures !OccursAt(x, p, w) {
      assert x[p..p + |w|][0] == x[p];
    }
  }

  /** Counting `b` from `j` is counting `a + b` from `|a| + j`. */
  lemma {:induction false} CountFromShift(a: string, b: string, w: string, j: nat)
    requires |w| > 0
    ensures CountFrom(a + b, w, |a| + j) == CountFrom(b, w, j)
    decreases |b| - j
  {
    OccursShift(a, b, j, w);
    if j + |w| <= |b| {
      if OccursAt(b, j, w) {
        CountFromShift(a, b, w, j + |w|);
      } else {
        CountFromShift(a, b, w, j + 1);
      }
    }
  }

  /** Positions where `w` does not start can be skipped. */
  lemma {:induction false} CountFromSkip(s: string, w: string, i: nat, j: nat)
    requires |w| > 0 && i <= j
    requires forall k: nat :: i <= k < j ==> !OccursAt(s, k, w)
    ensures CountFrom(s, w, i) == CountFrom(s, w, j)
    decreases j - i
  {
    if i < j {
      CountFromSkip(s, w, i + 1, j);
    }
  }

  /** When `b` starts with the first character of `w` (which does not recur
      in `w`), no occurrence spans the seam and the counts add up. */
  lemma {:induction false} CountFromConcat(a: string, b: string, w: string, i: nat)
    requires LeadUnique(w) && (b == [] || b[0] == w[0]) && i <= |a|
    ensures CountFrom(a + b, w, i) == CountFrom(a, w, i) + CountFrom(b, w, 0)
    decreases |a| - i
  {
    if i + |w| > |a| {
      forall k: nat | i <= k < |a| ensures !OccursAt(a + b, k, w) {
        if b != [] {
          LeadBarrier(a + b, w, k, |a|);
        }
      }
      CountFromSkip(a + b, w, i, |a|);
      CountFromShift(a, b, w, 0);
    } else {
      OccursShift(a, b, i, w);
      if OccursAt(a, i, w) {
        CountFromConcat(a, b, w, i + |w|);
      } else {
        CountFromConcat(a, b, w, i + 1);
      }
    }
  }

  /** `(a + b).count(w) == a.count(w) + b.count(w)` when `b` starts with the
      first character of `w`, which does not recur in `w`. */
  lemma CountConcat(a: string, b: string, w: string)
    requires LeadUnique(w) && (b == [] || b[0] == w[0])
    ensures Count(a + b, w) == Count(a, w) + Count(b, w)
  {
    CountFromConcat(a, b, w, 0);
  }

  /** A string that starts with `w` counts one more `w` than its rest. */
  lemma CountLeading(w: string, x: string)
    requires |w| > 0
    ensures Count(w + x, w) == 1 + Count(x, w)
  {
    OccursShift([], w + x, 0, w);
    assert (w + x)[..|w|] == w;
    CountFromShift(w, x, w, 0);
  }

  /** A prefix `p` that neither starts with `w` nor holds the first character
      of `w` after its own first character adds nothing to the count. */
  lemma CountSkipPrefix(p: string, x: string, w: string)
    requires |w| > 0 && !OccursAt(p + x, 0, w)
    requires forall k :: 0 < k < |p| ==> p[k] != w[0]
    ensures Count(p + x, w) == Count(x, w)
  {
    forall k: nat | k < |p| ensures !OccursAt(p + x, k, w) {
      if 0 < k && k + |w| <= |p + x| {
        assert (p + x)[k..k + |w|][0] == p[k];
      }
    }
    CountFromSkip(p + x, w, 0, |p|);
    CountFromShift(p, x, w, 0);
  }

  /** `s.replace(w, "")`: every non-overlapping occurrence of `w`, found left
      to right, is deleted. */
  function RemoveAll(s: string, w: string): (r: string)
    requires |w| > 0
    ensures |r| <= |s|
    ensures !Contains(s, w) ==> r == s
    decreases |s|
  {
    if |s| < |w| then s
    else if s[..|w|] == w then
      assert OccursAt(s, 0, w);
      RemoveAll(s[|w|..], w)
    else
      assert !Contains(s, w) ==> !Contains(s[1..], w) by {
        if Contains(s[1..], w) {
          var k: nat :| k + |w| <= |s[1..]| && OccursAt(s[1..], k, w);
          assert s[1..][k..k + |w|] == s[k + 1..k + 1 + |w|];
          assert OccursAt(s, k + 1, w);
        }
      }
      [s[0]] + RemoveAll(s[1..], w)
  }

  /** Deleting the occurrences of `w` shortens `s` by `|w|` for each one
      that `str.count` counts: `replace` and `count` see the same matches. */
  lemma {:induction false} RemoveAllLength(s: string, w: string)
    requires |w| > 0
    ensures |RemoveAll(s, w)| == |s| - |w| * Count(s, w)
    decreases |s|
  {
    if |s| < |w| {
      assert Count(s, w) == 0;
    } else if s[..|w|] == w {
      var rest := s[|w|..];
      assert OccursAt(s, 0, w);
      assert s == s[..|w|] + rest;
      CountFromShift(s[..|w|], rest, w, 0);
      var n, m := |w|, Count(rest, w);
      assert Count(s, w) == m + 1;
      assert RemoveAll(s, w) == RemoveAll(rest, w);
      RemoveAllLength(rest, w);
      MulSucc(n, m);
    } else {
      var rest := s[1..];
      assert !OccursAt(s, 0, w);
      assert s == s[..1] + rest;
      CountFromShift(s[..1], rest, w, 0);
      assert Count(s, w) == Count(rest, w);
      assert RemoveAll(s, w) == [s[0]] + RemoveAll(rest, w);
      RemoveAllLength(rest, w);
    }
  }

  /** A `w` appended to a string holding none is the only one `replace`
      deletes: no earlier match can straddle the seam, because a match
      there would have to hold a second leading character of `w`. */
  lemma {:induction false} RemoveAllTail(a: string, w: string)
    requires LeadUnique(w) && !Contains(a, w)
    ensures RemoveAll(a + w, w) == a
    decreases |a|
  {
    var s := a + w;
    if a == [] {
      assert s[..|w|] == w && s[|w|..] == [];
    } else {
      assert !OccursAt(s, 0, w) by {
        if |w| <= |a| {
          OccursShift(a, w, 0, w);
        } else {
          LeadBarrier(s, w, 0, |a|);
        }
      }
      assert s[..|w|] != w;
      assert s[1..] == a[1..] + w;
      SliceFree(a, w, 1, |a|);
      assert a[1..|a|] == a[1..];
      RemoveAllTail(a[1..], w);
    }
  }

  lemma MulSucc(n: int, m: int)
    ensures n * (m + 1) == n * m + n
  {
  }

  /** The characters Python's `str.isspace` accepts (Unicode White_Space
      minus U+180E, plus the four information separators U+001C..U+001F). */
  predicate IsWhitespace(c: char) {
    || c == ' '
    || '\t' <= c <= '\r'
    || '\U{1C}' <= c <= '\U{1F}'
    || c == '\U{85}' || c == '\U{A0}' || c == '\U{1680}'
    || '\U{2000}' <= c <= '\U{200A}'
    || c == '\U{2028}' || c == '\U{2029}' || c == '\U{202F}' || c == '\U{205F}'
    || c == '\U{3000}'
  }

  /** `s.lstrip()`. */
  function TrimStart(s: string): (r: string)
    ensures |r| <= |s| && r == s[|s| - |r|..]
    ensures forall k :: 0 <= k < |s| - |r| ==> IsWhitespace(s[k])
    ensures r == [] || !IsWhitespace(r[0])
  {
    if |s| > 0 && IsWhitespace(s[0]) then TrimStart(s[1..]) else s
  }

  /** `s.rstrip()`. */
  function TrimEnd(s: string): (r: string)
    ensures |r| <= |s| && r == s[..|r|]
    ensures forall k :: |r| <= k < |s| ==> IsWhitespace(s[k])
    ensures r == [] || !IsWhitespace(r[|r| - 1])
  {
    if |s| > 0 && IsWhitespace(s[|s| - 1]) then TrimEnd(s[..|s| - 1]) else s
  }

  /** `s.strip()`: the result neither starts nor ends with whitespace, and
      it is `s` itself when `s` has no whitespace at either end. */
  function Strip(s: string): (r: string)
    ensures |r| <= |s|
    ensures r == [] || (!IsWhitespace(r[0]) && !IsWhitespace(r[|r| - 1]))
    ensures s == [] || (!IsWhitespace(s[0]) && !IsWhitespace(s[|s| - 1])) ==> r == s
  {
    var t := TrimStart(s);
    assert TrimEnd(t) != [] ==> TrimEnd(t)[0] == t[0];
    TrimEnd(t)
  }

  /** What stripping leaves is a slice of the string, with only whitespace
      cut off at either end. */
  lemma StripSlice(s: string)
    ensures var r, i := Strip(s), |s| - |TrimStart(s)|;
      && i + |r| <= |s| && r == s[i..i + |r|]
      && (forall k :: 0 <= k < i ==> IsWhitespace(s[k]))
      && (forall k :: i + |r| <= k < |s| ==> IsWhitespace(s[k]))
  {
    var i := |s| - |TrimStart(s)|;
    assert TrimStart(s) == s[i..];
    assert Strip(s) == TrimEnd(s[i..]);
    TrimEndOfSuffix(s, i);
  }

  /** Right-stripping the suffix of `s` from `i` leaves the slice of `s`
      from `i`, followed in `s` by whitespace only. */
  lemma TrimEndOfSuffix(s: string, i: nat)
    requires i <= |s|
    ensures var r := TrimEnd(s[i..]);
      && i + |r| <= |s| && r == s[i..i + |r|]
      && (forall k :: i + |r| <= k < |s| ==> IsWhitespace(s[k]))
  {
    var t := s[i..];
    var r := TrimEnd(t);
    assert r == t[..|r|];
    assert t[..|r|] == s[i..i + |r|];
    forall k | i + |r| <= k < |s|
      ensures IsWhitespace(s[k])
    {
      assert s[k] == t[k - i];
    }
  }

  /** Stripping leaves nothing exactly when the string is all whitespace. */
  lemma StripEmpty(s: string)
    ensures Strip(s) == [] <==> forall k :: 0 <= k < |s| ==> IsWhitespace(s[k])
  {
    StripSlice(s);
    var r, i := Strip(s), |s| - |TrimStart(s)|;
    if r != [] {
      assert s[i] == r[0];
    }
  }
}
