/**
 * Post records and the per-file step of the home page's static props: each
 * entry of the content directory either becomes a post (slug, front matter,
 * excerpt) or is dropped, and the survivors keep the directory's order.
 *
 * Reading the file and splitting its front matter from its body happen
 * before this step; a file arrives here as its name, its parsed front matter
 * and its body text.
 */
module Posts {
  import opened Wrappers
  import Markup

  /**
   * Parsed front matter. `date` is an ordered key that orders like the
   * instant (milliseconds since the epoch) that `new Date(...)` yields for
   * the date string; title and category are passed through.
   */
  datatype FrontMatter = FrontMatter(date: int, title: string, category: string, status: Option<string>)

  /** One directory entry together with its parsed front matter and body. */
  datatype SourceFile = SourceFile(name: string, data: FrontMatter, content: string)

  /** What the listing hands to the page: slug, untouched front matter, excerpt. */
  datatype Post = Post(slug: string, frontmatter: FrontMatter, excerpt: string)

  /** Only names ending in ".mdx" are posts. */
  predicate IsPostFile(f: SourceFile) {
    Markup.EndsWith(f.name, Markup.Extension)
  }

  /**
   * The `map` callback: `null` for a name without the extension, otherwise a
   * post whose slug is the name without ".mdx" and whose excerpt is cut from
   * the body after tag stripping.
   */
  function ToPost(f: SourceFile): (r: Option<Post>)
    ensures r.Some? <==> IsPostFile(f)
    ensures r.Some? ==> r.value.slug + Markup.Extension == f.name
    ensures r.Some? ==> r.value.frontmatter == f.data
    ensures r.Some? ==> r.value.excerpt == Markup.Excerpt(Markup.StripTags(f.content))
  {
    if !IsPostFile(f) then None
    else
      Some(Post(Markup.StripExtension(f.name), f.data, Markup.Excerpt(Markup.StripTags(f.content))))
  }

  /** `filenames.map(ToPost)`: one entry per file, `None` standing for `null`. */
  function MapToPost(files: seq<SourceFile>): (r: seq<Option<Post>>)
    ensures |r| == |files|
    ensures forall i :: 0 <= i < |files| ==> r[i] == ToPost(files[i])
  {
    seq(|files|, i requires 0 <= i < |files| => ToPost(files[i]))
  }

  /** `.filter(post => post !== null)`: the posts, in order, without the nulls. */
  function DropNulls(s: seq<Option<Post>>): (posts: seq<Post>)
    ensures |posts| <= |s|
    ensures forall p :: p in posts <==> Some(p) in s
  {
    if s == [] then []
    else (if s[0].Some? then [s[0].value] else []) + DropNulls(s[1..])
  }

  /**
   * The posts collected from a directory listing, in enumeration order:
   * every one comes from some ".mdx" entry, and every ".mdx" entry gives one.
   */
  function Collect(files: seq<SourceFile>): (posts: seq<Post>)
    ensures |posts| <= |files|
    ensures forall p :: p in posts ==> exists i :: 0 <= i < |files| && ToPost(files[i]) == Some(p)
    ensures forall i :: 0 <= i < |files| && IsPostFile(files[i]) ==> ToPost(files[i]).value in posts
  {
    DropNulls(MapToPost(files))
  }

  lemma {:induction false} DropNullsAppend(a: seq<Option<Post>>, b: seq<Option<Post>>)
    ensures DropNulls(a + b) == DropNulls(a) + DropNulls(b)
  {
    if a == [] {
      assert a + b == b;
    } else {
      assert (a + b)[0] == a[0];
      assert (a + b)[1..] == a[1..] + b;
      DropNullsAppend(a[1..], b);
    }
  }

  /** The map-and-filter works entry by entry, so directory order is kept. */
  lemma CollectAppend(a: seq<SourceFile>, b: seq<SourceFile>)
    ensures Collect(a + b) == Collect(a) + Collect(b)
  {
    assert MapToPost(a + b) == MapToPost(a) + MapToPost(b);
    DropNullsAppend(MapToPost(a), MapToPost(b));
  }

  /** A single entry gives its post, or nothing when its name is not a post name. */
  lemma CollectSingle(f: SourceFile)
    ensures IsPostFile(f) ==> Collect([f]) == [ToPost(f).value]
    ensures !IsPostFile(f) ==> Collect([f]) == []
  {
    assert MapToPost([f]) == [ToPost(f)];
    assert MapToPost([f])[1..] == [];
  }

  /**
   * A post is listed exactly when some ".mdx" entry of the directory
   * produces it.
   */
  lemma CollectMembers(files: seq<SourceFile>, p: Post)
    ensures p in Collect(files) <==> exists f :: f in files && ToPost(f) == Some(p)
  {
    var r := MapToPost(files);
    if Some(p) in r {
      var i :| 0 <= i < |r| && r[i] == Some(p);
      assert files[i] in files;
    }
    if f :| f in files && ToPost(f) == Some(p) {
      var i :| 0 <= i < |files| && files[i] == f;
      assert r[i] == Some(p);
    }
  }

}
