/** The Qt 5 container operations the core relies on (QByteArray and QString
    share them), with Qt's clamping of out-of-range arguments written out. */
module QtSeq {
  import opened Bytes

  /** Whether `p` occurs in `s` at position `i`. */
  ghost predicate OccursAt<T>(s: seq<T>, p: seq<T>, i: int)
  {
    0 <= i && i + |p| <= |s| && s[i..i + |p|] == p
  }

  /** Whether `s` begins with `p`, compared element by element. */
  predicate StartsWith<T(==)>(s: seq<T>, p: seq<T>)
  {
    |p| == 0 || (|s| > 0 && s[0] == p[0] && StartsWith(s[1..], p[1..]))
  }

  /** StartsWith is a comparison of the first |p| elements. */
  lemma {:induction false} StartsWithIff<T>(s: seq<T>, p: seq<T>)
    ensures StartsWith(s, p) <==> |p| <= |s| && s[..|p|] == p
  {
    if |p| > 0 && |s| > 0 {
      StartsWithIff(s[1..], p[1..]);
      if |p| <= |s| {
        assert s[..|p|] == [s[0]] + s[1..][..|p| - 1];
        assert p == [p[0]] + p[1..];
      }
    }
  }

  /** indexOf(p): the position at which the non-empty `p` first occurs in `s`,
      or -1 when it does not occur (IndexOfFirst). */
  function IndexOf<T(==)>(s: seq<T>, p: seq<T>): (r: int)
    requires |p| > 0
    ensures r == -1 || 0 <= r <= |s| - |p|
    decreases |s|
  {
    if |s| < |p| then -1
    else if StartsWith(s, p) then 0
    else
      var k := IndexOf(s[1..], p);
      if k < 0 then -1 else k + 1
  }

  /** indexOf finds an occurrence, no occurrence lies before it, and -1 means
      there is none. */
  lemma {:induction false} IndexOfFirst<T>(s: seq<T>, p: seq<T>)
    requires |p| > 0
    ensures IndexOf(s, p) >= 0 ==> OccursAt(s, p, IndexOf(s, p))
    ensures forall i :: 0 <= i < IndexOf(s, p) ==> !OccursAt(s, p, i)
    ensures IndexOf(s, p) == -1 ==> forall i :: 0 <= i <= |s| - |p| ==> !OccursAt(s, p, i)
    decreases |s|
  {
    StartsWithIff(s, p);
    if |s| >= |p| && s[..|p|] != p {
      IndexOfFirst(s[1..], p);
      forall i | 1 <= i <= |s| - |p|
        ensures OccursAt(s, p, i) <==> OccursAt(s[1..], p, i - 1)
      {
        OccursInTail(s, p, i);
      }
    }
  }

  /** An occurrence after the first position is an occurrence in the tail. */
  lemma OccursInTail<T>(s: seq<T>, p: seq<T>, i: int)
    requires 1 <= i <= |s|
    ensures OccursAt(s, p, i) <==> OccursAt(s[1..], p, i - 1)
  {
    if i + |p| <= |s| {
      assert s[i..i + |p|] == s[1..][i - 1..i - 1 + |p|];
    }
  }

  /** contains(p). */
  function Contains<T(==)>(s: seq<T>, p: seq<T>): bool
    requires |p| > 0
  {
    IndexOf(s, p) >= 0
  }

  /** mid(pos, -1): everything from `pos` on; a position past the end gives an
      empty array and a negative one the whole array. */
  function Mid<T>(s: seq<T>, pos: int): seq<T>
  {
    if pos > |s| then [] else if pos < 0 then s else s[pos..]
  }

  /** left(n): the first `n` elements; a negative `n` gives an empty array and
      one past the end the whole array. */
  function Left<T>(s: seq<T>, n: int): seq<T>
  {
    if n >= |s| then s else if n < 0 then [] else s[..n]
  }

  /** remove(0, n): drop the first `n` elements, clamped to the length. */
  function RemovePrefix<T>(s: seq<T>, n: int): seq<T>
  {
    if n <= 0 then s else if n >= |s| then [] else s[n..]
  }

  /** chop(n): drop the last `n` elements, clamped to the length. */
  function Chop<T>(s: seq<T>, n: int): seq<T>
  {
    if n <= 0 then s else if n >= |s| then [] else s[..|s| - n]
  }

  /** at(i) on a null-terminated array: index |s| is the terminating zero. */
  function At(s: seq<byte>, i: int): byte
    requires 0 <= i <= |s|
  {
    if i < |s| then s[i] else 0
  }

  /** replace(p, r): every occurrence of the non-empty `p`, scanning left to
      right and without overlap, becomes `r`. */
  function ReplaceAll<T(==)>(s: seq<T>, p: seq<T>, r: seq<T>): (t: seq<T>)
    requires |p| > 0
    ensures s == [] ==> t == []
    ensures |r| > 0 && s != [] ==> t != []
    ensures |r| <= |p| ==> |t| <= |s|
    decreases |s|
  {
    if |s| < |p| then s
    else if StartsWith(s, p) then r + ReplaceAll(s[|p|..], p, r)
    else [s[0]] + ReplaceAll(s[1..], p, r)
  }

  /** An occurrence bounds the first occurrence from above. */
  lemma FoundNoLater<T>(s: seq<T>, p: seq<T>, i: int)
    requires |p| > 0
    requires OccursAt(s, p, i)
    ensures 0 <= IndexOf(s, p) <= i
  {
    IndexOfFirst(s, p);
  }

  /** Where `p + q` occurs, `p` occurs. */
  lemma {:induction false} PrefixOccurs<T>(s: seq<T>, p: seq<T>, q: seq<T>, i: int)
    requires OccursAt(s, p + q, i)
    ensures OccursAt(s, p, i)
  {
    assert s[i..i + |p|] == s[i..i + |p + q|][..|p|];
  }

  /** Dropping a prefix twice is dropping the sum of the two lengths. */
  lemma MidMid<T>(s: seq<T>, a: int, b: int)
    requires a >= 0 && b >= 0
    ensures Mid(Mid(s, a), b) == Mid(s, a + b)
  {
  }

  /** mid(0) is the whole array. */
  lemma MidZero<T>(s: seq<T>)
    ensures Mid(s, 0) == s
  {
  }

  /** For a non-negative count, remove(0, n) and mid(n) agree. */
  lemma RemovePrefixIsMid<T>(s: seq<T>, n: int)
    requires n >= 0
    ensures RemovePrefix(s, n) == Mid(s, n)
  {
  }

  /** A pattern whose first element does not occur is never replaced. */
  lemma {:induction false} ReplaceAbsent<T>(s: seq<T>, p: seq<T>, r: seq<T>)
    requires |p| > 0
    requires forall i :: 0 <= i < |s| ==> s[i] != p[0]
    ensures ReplaceAll(s, p, r) == s
    decreases |s|
  {
    if |s| >= |p| {
      assert !StartsWith(s, p);
      ReplaceAbsent(s[1..], p, r);
    }
  }

  /** Replacing one element by another maps the sequence element-wise. */
  lemma {:induction false} ReplaceSingle<T>(s: seq<T>, a: T, b: T)
    ensures |ReplaceAll(s, [a], [b])| == |s|
    ensures forall i :: 0 <= i < |s| ==>
      ReplaceAll(s, [a], [b])[i] == (if s[i] == a then b else s[i])
    decreases |s|
  {
    if s != [] {
      ReplaceSingle(s[1..], a, b);
      assert StartsWith(s, [a]) <==> s[0] == a by {
        assert [a][1..] == [];
      }
    }
  }
}
