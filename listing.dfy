/**
 * The home page's static-props step: list the content directory, turn each
 * ".mdx" entry into a post, and sort the posts newest first. A missing
 * directory gives an empty list, not an error.
 */
module Listing {
  import opened Wrappers
  import opened Posts
  import opened DateOrder

  /**
   * What the home page receives for a directory state and its entries: no
   * posts without the directory, otherwise a reordering of the collected
   * posts, one per ".mdx" entry.
   */
  function HomePosts(dirExists: bool, files: seq<SourceFile>): (r: seq<Post>)
    ensures !dirExists ==> r == []
    ensures dirExists ==> multiset(r) == multiset(Collect(files))
    ensures |r| == if dirExists then |Collect(files)| else 0
  {
    if dirExists then
      SortedByDatePermutation(Collect(files));
      SortedByDate(Collect(files))
    else []
  }

  /**
   * `getStaticProps`: `posts` starts empty and, when the directory exists,
   * is replaced by the collected posts and then sorted in place.
   */
  method GetStaticProps(dirExists: bool, files: seq<SourceFile>) returns (posts: seq<Post>)
    ensures posts == HomePosts(dirExists, files)
    ensures !dirExists ==> posts == []
    ensures NewestFirst(posts)
    ensures dirExists ==> multiset(posts) == multiset(Collect(files))
    ensures dirExists ==> SameOrderPerDate(posts, Collect(files))
  {
    posts := [];
    if dirExists {
      var collected := Collect(files);
      var a := new Post[|collected|](k requires 0 <= k < |collected| => collected[k]);
      assert a[..] == collected;
      SortNewestFirst(a);
      posts := a[..];
    }
  }

  /**
   * A post is on the home page exactly when the directory exists and one of
   * its ".mdx" entries produces that post.
   */
  lemma HomePostsMembers(dirExists: bool, files: seq<SourceFile>, p: Post)
    ensures p in HomePosts(dirExists, files) <==>
              dirExists && exists f :: f in files && ToPost(f) == Some(p)
  {
    if dirExists {
      assert p in HomePosts(dirExists, files) <==> p in multiset(Collect(files));
      CollectMembers(files, p);
    }
  }

  /** The listing is the result of any stable newest-first sort of the collected posts. */
  lemma HomePostsIsStableSort(files: seq<SourceFile>, sorted: seq<Post>)
    requires NewestFirst(sorted) && SameOrderPerDate(sorted, Collect(files))
    ensures HomePosts(true, files) == sorted
  {
    SortedByDateIsTheStableSort(Collect(files), sorted);
  }

}
