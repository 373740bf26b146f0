/**
 * String work done per post file by the home page's static-props step:
 * deriving the slug from a file name, removing HTML-like tags from the body
 * with the pattern `<[^>]*>`, and cutting the excerpt.
 *
 * JavaScript's `substring` and `replace` count in UTF-16 code units. Each
 * code unit of a source string is represented by one `char` here (an
 * injective encoding), so lengths and positions are code-unit counts.
 */
module Markup {

  /** The recognised content extension. */
  const Extension: string := ".mdx"

  /** How many code units of the stripped body the excerpt keeps. */
  const ExcerptLength: nat := 150

  /** The truncation marker appended to every excerpt. */
  const Ellipsis: string := "..."

  function Min(a: nat, b: nat): (m: nat) { if a <= b then a else b }

  predicate EndsWith(s: string, suffix: string) {
    |suffix| <= |s| && s[|s| - |suffix|..] == suffix
  }

  // ---------------------------------------------------------------------------
  // Slug
  // ---------------------------------------------------------------------------

  /**
   * `name.replace(/\.mdx$/, '')`: the anchored pattern removes one trailing
   * ".mdx" when there is one and leaves every other name alone.
   */
  function StripExtension(name: string): (slug: string)
    ensures EndsWith(name, Extension) ==> slug + Extension == name
    ensures !EndsWith(name, Extension) ==> slug == name
  {
    if EndsWith(name, Extension) then name[..|name| - |Extension|] else name
  }

  /** Exactly one ".mdx" is removed, even from a name ending in ".mdx.mdx". */
  lemma SlugRemovesOneExtension(slug: string)
    ensures StripExtension(slug + Extension) == slug
  {
    var name := slug + Extension;
    assert name[|name| - |Extension|..] == Extension;
    assert name[..|name| - |Extension|] == slug;
  }

  // ---------------------------------------------------------------------------
  // Tag stripping
  // ---------------------------------------------------------------------------

  /** Position of the first '>' in `s`. */
  function FirstClose(s: string): (k: nat)
    requires '>' in s
    ensures k < |s| && s[k] == '>'
    ensures forall i :: 0 <= i < k ==> s[i] != '>'
  {
    if s[0] == '>' then 0 else 1 + FirstClose(s[1..])
  }

  /**
   * `s.replace(/<[^>]*>/g, '')`. The global replace scans left to right; at a
   * '<' that has some '>' after it the pattern matches up to the FIRST such
   * '>' (the class `[^>]` cannot step over one), and that whole match is
   * dropped; any other character, including a '<' with no '>' after it, is
   * kept.
   */
  function StripTags(s: string): (r: string)
    ensures |r| <= |s|
    decreases |s|
  {
    if s == [] then []
    else if s[0] == '<' && '>' in s[1..] then
      StripTags(s[FirstClose(s[1..]) + 2..])
    else
      [s[0]] + StripTags(s[1..])
  }

  /** No '<' is followed, anywhere later, by a '>': the pattern has no match. */
  predicate TagFree(s: string) {
    forall i, j :: 0 <= i < j < |s| && s[i] == '<' ==> s[j] != '>'
  }

  /** `a` can be obtained from `b` by deleting characters. */
  predicate IsSubsequence(a: string, b: string)
    decreases |b|
  {
    if a == [] then true
    else if b == [] then false
    else if a[0] == b[0] then IsSubsequence(a[1..], b[1..])
    else IsSubsequence(a, b[1..])
  }

  lemma {:induction false} SubsequenceMembers(a: string, b: string, c: char)
    requires IsSubsequence(a, b) && c in a
    ensures c in b
    decreases |b|
  {
    if a[0] == b[0] {
      if c != a[0] {
        assert c in a[1..];
        SubsequenceMembers(a[1..], b[1..], c);
      }
    } else {
      SubsequenceMembers(a, b[1..], c);
    }
  }

  lemma {:induction false} SubsequenceOfSuffix(a: string, b: string, k: nat)
    requires k <= |b| && IsSubsequence(a, b[k..])
    ensures IsSubsequence(a, b)
    decreases k
  {
    if k > 0 {
      SubsequenceOfSuffix(a, b[1..], k - 1);
      assert b[1..][k - 1..] == b[k..];
      SubsequenceSkip(a, b);
    }
  }

  /** Deleting the head of `b` keeps every subsequence of its tail. */
  lemma {:induction false} SubsequenceSkip(a: string, b: string)
    requires |b| > 0 && IsSubsequence(a, b[1..])
    ensures IsSubsequence(a, b)
    decreases |a| + |b|
  {
    if a != [] && a[0] == b[0] {
      // Greedy matching of a[0] against b[0] loses nothing.
      SubsequenceTail(a, b[1..]);
    }
  }

  /** Dropping the head of `a` keeps it a subsequence. */
  lemma {:induction false} SubsequenceTail(a: string, b: string)
    requires a != [] && IsSubsequence(a, b)
    ensures IsSubsequence(a[1..], b)
    decreases |a| + |b|
  {
    if a[0] == b[0] {
      SubsequenceSkip(a[1..], b);
    } else {
      SubsequenceTail(a, b[1..]);
      SubsequenceSkip(a[1..], b);
    }
  }

  /** Stripping only deletes characters: the output is a subsequence of the input. */
  lemma {:induction false} StripTagsSubsequence(s: string)
    ensures IsSubsequence(StripTags(s), s)
    decreases |s|
  {
    if s == [] {
    } else if s[0] == '<' && '>' in s[1..] {
      var k := FirstClose(s[1..]) + 2;
      StripTagsSubsequence(s[k..]);
      SubsequenceOfSuffix(StripTags(s), s, k);
    } else {
      StripTagsSubsequence(s[1..]);
      var r := StripTags(s);
      assert r[0] == s[0] && r[1..] == StripTags(s[1..]);
    }
  }

  /** Every character of the output occurs in the input. */
  lemma {:induction false} StripTagsMembers(s: string, c: char)
    requires c in StripTags(s)
    ensures c in s
  {
    StripTagsSubsequence(s);
    SubsequenceMembers(StripTags(s), s, c);
  }

  /** The output contains no tag: the pattern has nothing left to match. */
  lemma {:induction false} StripTagsTagFree(s: string)
    ensures TagFree(StripTags(s))
    decreases |s|
  {
    if s == [] {
    } else if s[0] == '<' && '>' in s[1..] {
      StripTagsTagFree(s[FirstClose(s[1..]) + 2..]);
    } else {
      var rest := StripTags(s[1..]);
      StripTagsTagFree(s[1..]);
      if s[0] == '<' {
        if '>' in rest {
          StripTagsMembers(s[1..], '>');
        }
      }
      var r := [s[0]] + rest;
      forall i, j | 0 <= i < j < |r| && r[i] == '<'
        ensures r[j] != '>'
      {
        if i == 0 {
          assert r[j] == rest[j - 1];
        } else {
          assert r[i] == rest[i - 1] && r[j] == rest[j - 1];
        }
      }
    }
  }

  /** Stripping changes nothing in text that has no tag. */
  lemma {:induction false} StripTagsIdentity(s: string)
    requires TagFree(s)
    ensures StripTags(s) == s
    decreases |s|
  {
    if s != [] {
      if s[0] == '<' {
        forall j | 0 <= j < |s[1..]|
          ensures s[1..][j] != '>'
        {
          assert s[j + 1] != '>';
        }
      }
      assert TagFree(s[1..]) by {
        forall i, j | 0 <= i < j < |s[1..]| && s[1..][i] == '<'
          ensures s[1..][j] != '>'
        {
          assert s[i + 1] == '<';
        }
      }
      StripTagsIdentity(s[1..]);
    }
  }

  /** Stripping is idempotent. */
  lemma {:induction false} StripTagsIdempotent(s: string)
    ensures StripTags(StripTags(s)) == StripTags(s)
  {
    StripTagsTagFree(s);
    StripTagsIdentity(StripTags(s));
  }

  /** Text without any '<' passes through unchanged. */
  lemma {:induction false} StripTagsNoOpenIdentity(s: string)
    requires '<' !in s
    ensures StripTags(s) == s
  {
    assert TagFree(s) by {
      forall i | 0 <= i < |s|
        ensures s[i] != '<'
      {
        assert s[i] in s;
      }
    }
    StripTagsIdentity(s);
  }

  /** Text without '<' ahead of a tag is kept, and the tag itself is dropped. */
  lemma {:induction false} StripTagsPlainPrefix(a: string, b: string)
    requires '<' !in a
    ensures StripTags(a + b) == a + StripTags(b)
    decreases |a|
  {
    if a != [] {
      assert a[0] in a;
      assert (a + b)[1..] == a[1..] + b;
      StripTagsPlainPrefix(a[1..], b);
    } else {
      assert a + b == b;
    }
  }

  /** One whole tag `<t>` (with no '>' inside `t`) is removed, text before it is kept. */
  lemma StripTagsDropsTag(a: string, t: string, b: string)
    requires '<' !in a && '>' !in t
    ensures StripTags(a + "<" + t + ">" + b) == a + StripTags(b)
  {
    var tag := "<" + t + ">" + b;
    var inner := tag[1..];
    assert inner == t + ">" + b;
    assert inner[|t|] == '>';
    forall i | 0 <= i < |t|
      ensures inner[i] != '>'
    {
      assert inner[i] == t[i];
      assert t[i] in t;
    }
    var k := FirstClose(inner);
    assert k == |t|;
    assert tag[k + 2..] == b;
    assert a + "<" + t + ">" + b == a + tag;
    StripTagsPlainPrefix(a, tag);
  }

  // ---------------------------------------------------------------------------
  // Excerpt
  // ---------------------------------------------------------------------------

  /**
   * `text.substring(0, 150) + '...'`: the marker is appended whether or not
   * anything was cut off.
   */
  function Excerpt(text: string): (r: string)
    ensures |r| == Min(|text|, ExcerptLength) + |Ellipsis| <= ExcerptLength + |Ellipsis|
    ensures EndsWith(r, Ellipsis)
    ensures r[..|r| - |Ellipsis|] <= text
    ensures |text| <= ExcerptLength ==> r == text + Ellipsis
  {
    text[..Min(|text|, ExcerptLength)] + Ellipsis
  }

  /** An excerpt cut from stripped text contains no tag either. */
  lemma ExcerptTagFree(body: string)
    ensures TagFree(Excerpt(StripTags(body)))
  {
    var t := StripTags(body);
    StripTagsTagFree(body);
    var r := Excerpt(t);
    var m := Min(|t|, ExcerptLength);
    assert r == t[..m] + Ellipsis;
    forall k | 0 <= k < |r|
      ensures r[k] == if k < m then t[k] else '.'
    {
    }
    forall i, j | 0 <= i < j < |r| && r[i] == '<'
      ensures r[j] != '>'
    {
    }
  }

}
