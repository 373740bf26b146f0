/**
 * Ordering of the listing: `posts.sort((a, b) => date(b) - date(a))`.
 * The comparator puts the later date first and reports a tie as 0, and
 * `Array.prototype.sort` is stable, so posts with the same date keep the
 * order they had before sorting.
 *
 * `SortedByDate` is the specification: a stable insertion sort on sequences.
 * Its lemmas show it is newest first, a permutation, stable, and the ONLY
 * sequence with those three properties, so it agrees with any stable sort
 * under this comparator. `SortNewestFirst` sorts an array in place and is
 * proved to produce exactly `SortedByDate` of the old contents.
 */
module DateOrder {
  import opened Posts

  function DateOf(p: Post): (d: int) { p.frontmatter.date }

  /** Non-increasing by date: every post is at least as recent as those after it. */
  predicate NewestFirst(s: seq<Post>) {
    forall i, j :: 0 <= i < j < |s| ==> DateOf(s[j]) <= DateOf(s[i])
  }

  /** The posts of `s` dated `d`, in their order in `s`. */
  function OfDate(s: seq<Post>, d: int): (r: seq<Post>) {
    if s == [] then []
    else (if DateOf(s[0]) == d then [s[0]] else []) + OfDate(s[1..], d)
  }

  /** Stable reordering: for every date, the posts of that date appear in the same order. */
  ghost predicate SameOrderPerDate(s: seq<Post>, t: seq<Post>) {
    forall d :: OfDate(s, d) == OfDate(t, d)
  }

  /** Where `x` goes: before the first post strictly older than it. */
  function InsertPos(x: Post, s: seq<Post>): (j: nat)
    ensures j <= |s|
    ensures forall k :: 0 <= k < j ==> DateOf(x) <= DateOf(s[k])
    ensures j < |s| ==> DateOf(s[j]) < DateOf(x)
  {
    if s == [] || DateOf(s[0]) < DateOf(x) then 0 else 1 + InsertPos(x, s[1..])
  }

  /** Inserts a later-enumerated post after every post at least as recent. */
  function InsertByDate(x: Post, s: seq<Post>): (r: seq<Post>)
    ensures |r| == |s| + 1
  {
    if s == [] then [x]
    else if DateOf(x) <= DateOf(s[0]) then [s[0]] + InsertByDate(x, s[1..])
    else [x] + s
  }

  /**
   * Stable insertion sort, newest first: the specification of the listing
   * order. It keeps the number of posts; the lemmas below show it is newest
   * first, a permutation and stable, and the only such order.
   */
  function SortedByDate(s: seq<Post>): (r: seq<Post>)
    ensures |r| == |s|
  {
    if s == [] then [] else InsertByDate(s[|s| - 1], SortedByDate(s[..|s| - 1]))
  }

  // ---------------------------------------------------------------------------
  // Facts about OfDate
  // ---------------------------------------------------------------------------

  lemma {:induction false} OfDateAppend(a: seq<Post>, b: seq<Post>, d: int)
    ensures OfDate(a + b, d) == OfDate(a, d) + OfDate(b, d)
  {
    if a == [] {
      assert a + b == b;
    } else {
      var h := if DateOf(a[0]) == d then [a[0]] else [];
      assert (a + b)[0] == a[0];
      assert (a + b)[1..] == a[1..] + b;
      assert OfDate(a + b, d) == h + OfDate(a[1..] + b, d);
      OfDateAppend(a[1..], b, d);
      assert OfDate(a, d) == h + OfDate(a[1..], d);
    }
  }

  lemma {:induction false} OfDateNone(s: seq<Post>, d: int)
    requires forall k :: 0 <= k < |s| ==> DateOf(s[k]) != d
    ensures OfDate(s, d) == []
  {
    if s != [] {
      OfDateNone(s[1..], d);
    }
  }

  lemma OfDateSingle(x: Post, d: int)
    ensures OfDate([x], d) == if DateOf(x) == d then [x] else []
  {
    assert [x][1..] == [];
  }

  // ---------------------------------------------------------------------------
  // Insertion
  // ---------------------------------------------------------------------------

  /** Insertion puts `x` at `InsertPos` and leaves the rest in order. */
  lemma {:induction false} InsertSplit(x: Post, s: seq<Post>)
    ensures InsertByDate(x, s) == s[..InsertPos(x, s)] + [x] + s[InsertPos(x, s)..]
  {
    if s != [] && DateOf(x) <= DateOf(s[0]) {
      InsertSplit(x, s[1..]);
      var j := InsertPos(x, s[1..]);
      assert s[..j + 1] == [s[0]] + s[1..][..j];
      assert s[j + 1..] == s[1..][j..];
    }
  }

  /** In a newest-first sequence every post from `InsertPos` on is older than `x`. */
  lemma InsertPosOlder(x: Post, s: seq<Post>, k: int)
    requires NewestFirst(s) && InsertPos(x, s) <= k < |s|
    ensures DateOf(s[k]) < DateOf(x)
  {
    var j := InsertPos(x, s);
    assert DateOf(s[k]) <= DateOf(s[j]);
  }

  /** `InsertPos` is the one index whose left side is at least as recent and whose right neighbour is older. */
  lemma {:induction false} InsertPosUnique(x: Post, s: seq<Post>, j: nat)
    requires j <= |s|
    requires forall k :: 0 <= k < j ==> DateOf(x) <= DateOf(s[k])
    requires j < |s| ==> DateOf(s[j]) < DateOf(x)
    ensures InsertPos(x, s) == j
  {
    if j > 0 {
      assert DateOf(x) <= DateOf(s[0]);
      forall k | 0 <= k < j - 1
        ensures DateOf(x) <= DateOf(s[1..][k])
      {
        assert s[1..][k] == s[k + 1];
      }
      InsertPosUnique(x, s[1..], j - 1);
    }
  }

  /** A post at least as recent as everything in a newest-first sequence can go in front. */
  lemma ConsNewestFirst(y: Post, t: seq<Post>)
    requires NewestFirst(t)
    requires forall q :: q in t ==> DateOf(q) <= DateOf(y)
    ensures NewestFirst([y] + t)
  {
    var r := [y] + t;
    forall i, j | 0 <= i < j < |r|
      ensures DateOf(r[j]) <= DateOf(r[i])
    {
      assert r[j] == t[j - 1];
      if i > 0 {
        assert r[i] == t[i - 1];
      } else {
        assert t[j - 1] in t;
      }
    }
  }

  lemma {:induction false} InsertNewestFirst(x: Post, s: seq<Post>)
    requires NewestFirst(s)
    ensures NewestFirst(InsertByDate(x, s))
  {
    if s == [] {
    } else {
      var tail := s[1..];
      assert NewestFirst(tail) by {
        forall i, j | 0 <= i < j < |tail|
          ensures DateOf(tail[j]) <= DateOf(tail[i])
        {
          assert tail[i] == s[i + 1] && tail[j] == s[j + 1];
        }
      }
      forall q | q in tail
        ensures DateOf(q) <= DateOf(s[0])
      {
        var k :| 0 <= k < |tail| && tail[k] == q;
        assert tail[k] == s[k + 1];
      }
      if DateOf(x) <= DateOf(s[0]) {
        InsertNewestFirst(x, tail);
        InsertPermutation(x, tail);
        forall q | q in InsertByDate(x, tail)
          ensures DateOf(q) <= DateOf(s[0])
        {
          assert q in multiset(InsertByDate(x, tail));
          assert q == x || q in multiset(tail);
        }
        ConsNewestFirst(s[0], InsertByDate(x, tail));
      } else {
        assert s == [s[0]] + tail;
        ConsNewestFirst(x, s);
      }
    }
  }

  lemma {:induction false} InsertPermutation(x: Post, s: seq<Post>)
    ensures multiset(InsertByDate(x, s)) == multiset(s) + multiset{x}
  {
    if s != [] && DateOf(x) <= DateOf(s[0]) {
      InsertPermutation(x, s[1..]);
      assert s == [s[0]] + s[1..];
      assert multiset(InsertByDate(x, s)) == multiset{s[0]} + multiset(InsertByDate(x, s[1..]));
    }
  }

  /** Into a newest-first sequence, `x` lands after every post of its own date. */
  lemma InsertOfDate(x: Post, s: seq<Post>, d: int)
    requires NewestFirst(s)
    ensures OfDate(InsertByDate(x, s), d) == OfDate(s, d) + (if DateOf(x) == d then [x] else [])
  {
    InsertSplit(x, s);
    var j := InsertPos(x, s);
    assert s == s[..j] + s[j..];
    OfDateAppend(s[..j] + [x], s[j..], d);
    OfDateAppend(s[..j], [x], d);
    OfDateAppend(s[..j], s[j..], d);
    OfDateSingle(x, d);
    if DateOf(x) == d {
      forall k | 0 <= k < |s[j..]|
        ensures DateOf(s[j..][k]) != d
      {
        InsertPosOlder(x, s, j + k);
      }
      OfDateNone(s[j..], d);
    }
  }

  // ---------------------------------------------------------------------------
  // The sort
  // ---------------------------------------------------------------------------

  /** Sorting one more post is inserting it into the sorted prefix. */
  lemma SortedByDateSnoc(s: seq<Post>, x: Post)
    ensures SortedByDate(s + [x]) == InsertByDate(x, SortedByDate(s))
  {
    assert (s + [x])[..|s|] == s;
  }

  lemma {:induction false} SortedByDateNewestFirst(s: seq<Post>)
    ensures NewestFirst(SortedByDate(s))
  {
    if s != [] {
      SortedByDateNewestFirst(s[..|s| - 1]);
      InsertNewestFirst(s[|s| - 1], SortedByDate(s[..|s| - 1]));
    }
  }

  lemma {:induction false} SortedByDatePermutation(s: seq<Post>)
    ensures multiset(SortedByDate(s)) == multiset(s)
  {
    if s != [] {
      var init := s[..|s| - 1];
      SortedByDatePermutation(init);
      InsertPermutation(s[|s| - 1], SortedByDate(init));
      assert s == init + [s[|s| - 1]];
    }
  }

  /** Stability: posts with equal dates keep their relative order. */
  lemma {:induction false} SortedByDateStable(s: seq<Post>)
    ensures SameOrderPerDate(SortedByDate(s), s)
  {
    if s != [] {
      var init := s[..|s| - 1];
      var x := s[|s| - 1];
      SortedByDateStable(init);
      SortedByDateNewestFirst(init);
      forall d
        ensures OfDate(SortedByDate(s), d) == OfDate(s, d)
      {
        InsertOfDate(x, SortedByDate(init), d);
        assert s == init + [x];
        OfDateAppend(init, [x], d);
        OfDateSingle(x, d);
      }
    }
  }

  /** In a newest-first sequence no post is newer than the first one. */
  lemma {:induction false} OfDateBound(s: seq<Post>, d: int)
    requires NewestFirst(s) && OfDate(s, d) != []
    ensures s != [] && d <= DateOf(s[0])
  {
    if DateOf(s[0]) != d {
      assert NewestFirst(s[1..]) by {
        forall i, j | 0 <= i < j < |s[1..]|
          ensures DateOf(s[1..][j]) <= DateOf(s[1..][i])
        {
          assert s[1..][i] == s[i + 1] && s[1..][j] == s[j + 1];
        }
      }
      OfDateBound(s[1..], d);
      assert DateOf(s[1]) <= DateOf(s[0]);
    }
  }

  /** The first post always appears among the posts of its own date. */
  lemma OfDateHead(s: seq<Post>)
    ensures s != [] ==> OfDate(s, DateOf(s[0])) != [] && OfDate(s, DateOf(s[0]))[0] == s[0]
  {
  }

  /**
   * Newest first plus stability fix the result: two sequences that are both
   * newest first and agree on the order within every date are equal.
   */
  lemma {:induction false} StableOrderUnique(a: seq<Post>, b: seq<Post>)
    requires NewestFirst(a) && NewestFirst(b) && SameOrderPerDate(a, b)
    ensures a == b
    decreases |a| + |b|
  {
    OfDateHead(a);
    OfDateHead(b);
    if a == [] {
      if b != [] {
        assert false;
      }
      return;
    }
    var da := DateOf(a[0]);
    OfDateBound(b, da);
    var db := DateOf(b[0]);
    OfDateBound(a, db);
    assert da == db;
    assert a[0] == b[0];
    forall d
      ensures OfDate(a[1..], d) == OfDate(b[1..], d)
    {
      var h := if da == d then [a[0]] else [];
      assert OfDate(a, d) == h + OfDate(a[1..], d);
      assert OfDate(b, d) == h + OfDate(b[1..], d);
      assert OfDate(a[1..], d) == (h + OfDate(a[1..], d))[|h|..];
      assert OfDate(b[1..], d) == (h + OfDate(b[1..], d))[|h|..];
    }
    assert NewestFirst(a[1..]) by {
      forall i, j | 0 <= i < j < |a[1..]|
        ensures DateOf(a[1..][j]) <= DateOf(a[1..][i])
      {
        assert a[1..][i] == a[i + 1] && a[1..][j] == a[j + 1];
      }
    }
    assert NewestFirst(b[1..]) by {
      forall i, j | 0 <= i < j < |b[1..]|
        ensures DateOf(b[1..][j]) <= DateOf(b[1..][i])
      {
        assert b[1..][i] == b[i + 1] && b[1..][j] == b[j + 1];
      }
    }
    StableOrderUnique(a[1..], b[1..]);
    assert a == [a[0]] + a[1..] && b == [b[0]] + b[1..];
  }

  /** Any stable newest-first sort of `s` yields `SortedByDate(s)`. */
  lemma SortedByDateIsTheStableSort(s: seq<Post>, t: seq<Post>)
    requires NewestFirst(t) && SameOrderPerDate(t, s)
    ensures t == SortedByDate(s)
  {
    SortedByDateNewestFirst(s);
    SortedByDateStable(s);
    StableOrderUnique(t, SortedByDate(s));
  }

  /**
   * One step of the insertion sort: `a[i]` moves left past the strictly
   * older posts directly before it, which each shift one slot right. The
   * result `j` is where it lands.
   */
  method ShiftIn(a: array<Post>, i: nat) returns (j: nat)
    requires i < a.Length
    modifies a
    ensures j <= i
    ensures a[..i + 1] == old(a[..])[..j] + [old(a[..])[i]] + old(a[..])[j..i]
    ensures a[i + 1..] == old(a[..])[i + 1..]
    ensures j > 0 ==> DateOf(old(a[..])[i]) <= DateOf(old(a[..])[j - 1])
    ensures forall k :: j <= k < i ==> DateOf(old(a[..])[k]) < DateOf(old(a[..])[i])
  {
    ghost var orig := a[..];
    var x := a[i];
    j := i;
    while j > 0 && DateOf(a[j - 1]) < DateOf(x)
      invariant 0 <= j <= i
      invariant forall k :: 0 <= k < j ==> a[k] == orig[k]
      invariant forall k :: j < k <= i ==> a[k] == orig[k - 1]
      invariant forall k :: i < k < a.Length ==> a[k] == orig[k]
      invariant forall k :: j <= k < i ==> DateOf(orig[k]) < DateOf(x)
    {
      a[j] := a[j - 1];
      j := j - 1;
    }
    a[j] := x;
    ShiftedLayout(a[..], orig, i, j);
  }

  /** The array after the shifting loop, read as a sequence. */
  lemma ShiftedLayout(s: seq<Post>, orig: seq<Post>, i: nat, j: nat)
    requires |s| == |orig| && j <= i < |s| && s[j] == orig[i]
    requires forall k :: 0 <= k < j ==> s[k] == orig[k]
    requires forall k :: j < k <= i ==> s[k] == orig[k - 1]
    requires forall k :: i < k < |s| ==> s[k] == orig[k]
    ensures s[..i + 1] == orig[..j] + [orig[i]] + orig[j..i]
    ensures s[i + 1..] == orig[i + 1..]
  {
  }

  /** Where the shifting loop stops is exactly `InsertPos`. */
  lemma InsertedAt(x: Post, prefix: seq<Post>, j: nat)
    requires NewestFirst(prefix) && j <= |prefix|
    requires j > 0 ==> DateOf(x) <= DateOf(prefix[j - 1])
    requires forall k :: j <= k < |prefix| ==> DateOf(prefix[k]) < DateOf(x)
    ensures InsertByDate(x, prefix) == prefix[..j] + [x] + prefix[j..]
  {
    forall k | 0 <= k < j
      ensures DateOf(x) <= DateOf(prefix[k])
    {
      assert DateOf(prefix[j - 1]) <= DateOf(prefix[k]);
    }
    InsertPosUnique(x, prefix, j);
    InsertSplit(x, prefix);
  }

  /** One pass of the outer loop extends the sorted prefix by one post. */
  lemma ShiftInExtends(input: seq<Post>, i: nat, before: seq<Post>, after: seq<Post>, j: nat)
    requires i < |input| == |before| == |after| && j <= i
    requires before[..i] == SortedByDate(input[..i]) && before[i..] == input[i..]
    requires after[..i + 1] == before[..j] + [before[i]] + before[j..i]
    requires after[i + 1..] == before[i + 1..]
    requires j > 0 ==> DateOf(before[i]) <= DateOf(before[j - 1])
    requires forall k :: j <= k < i ==> DateOf(before[k]) < DateOf(before[i])
    ensures after[..i + 1] == SortedByDate(input[..i + 1])
    ensures after[i + 1..] == input[i + 1..]
  {
    var prefix := before[..i];
    var x := before[i];
    assert x == before[i..][0] == input[i];
    assert prefix[..j] == before[..j];
    assert prefix[j..] == before[j..i];
    assert j > 0 ==> prefix[j - 1] == before[j - 1];
    forall k | j <= k < |prefix|
      ensures DateOf(prefix[k]) < DateOf(x)
    {
      assert prefix[k] == before[k];
    }
    SortedByDateNewestFirst(input[..i]);
    InsertedAt(x, prefix, j);
    assert input[..i + 1] == input[..i] + [x];
    SortedByDateSnoc(input[..i], x);
    assert before[i + 1..] == before[i..][1..];
    assert input[i + 1..] == input[i..][1..];
  }

  /**
   * `posts.sort(...)` in place: a stable insertion sort that shifts strictly
   * older posts one slot to the right.
   */
  method SortNewestFirst(a: array<Post>)
    modifies a
    ensures a[..] == SortedByDate(old(a[..]))
    ensures NewestFirst(a[..])
    ensures multiset(a[..]) == multiset(old(a[..]))
    ensures SameOrderPerDate(a[..], old(a[..]))
  {
    ghost var input := a[..];
    var i := 0;
    while i < a.Length
      invariant 0 <= i <= a.Length
      invariant a[..i] == SortedByDate(input[..i])
      invariant a[i..] == input[i..]
    {
      ghost var before := a[..];
      var j := ShiftIn(a, i);
      ShiftInExtends(input, i, before, a[..], j);
      i := i + 1;
    }
    assert input[..a.Length] == input;
    SortedByDateNewestFirst(input);
    SortedByDatePermutation(input);
    SortedByDateStable(input);
  }

}
