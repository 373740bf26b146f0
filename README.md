# Home page post listing of the bugabsurd.pl blog, in Dafny

This project models the post-listing step of the blog's home page
(`getStaticProps` in `pages/index.js`) and the status badge that the page shows
next to each post. It proves properties of that model.

The listing step works on the `posts` content directory:

1. It keeps only file names ending in `.mdx`.
2. It derives each post's slug by removing that extension.
3. It removes HTML-like tags (the pattern `<[^>]*>`) from the body.
4. It cuts the excerpt to the first 150 code units and always appends `...`.
   Each UTF-16 code unit is one `char` in the model.
5. It sorts the posts newest first, in place, with a stable sort.

A missing directory yields an empty list.

Modules:

- `Wrappers` (`wrappers.dfy`): the `Option` datatype.
- `Markup` (`markup.dfy`): slug derivation, tag stripping and the excerpt.
  These are pure functions, and lemmas state their properties.
- `Posts` (`posts.dfy`): the `FrontMatter`, `SourceFile` and `Post` records.
  Also the per-file `map` callback (`ToPost`), the `map` (`MapToPost`), the
  null filter (`DropNulls`) and their composition (`Collect`).
- `DateOrder` (`date_order.dfy`): the sort. `SortedByDate` is a stable
  insertion sort on sequences and serves as the specification. Lemmas prove
  that it is newest first, a permutation and stable. They also prove it is the
  only sequence with those properties, so it agrees with every stable sort
  that uses the page's comparator. `SortNewestFirst` sorts an `array` in
  place. Its proof shows it computes exactly `SortedByDate` of the old
  contents.
- `Listing` (`listing.dfy`): `GetStaticProps`, the whole step as a method.
  `posts` starts empty. When the directory exists, `posts` is replaced by the
  collected posts, which are then sorted in an array.
- `HomePage` (`home_page.dfy`): the status-badge rule.

`pages/index.js` orders posts by a plain date difference (line 36). Its
excerpt is a 150-unit prefix of the tag-stripped body (line 27). It pins no
date to the top of the list and has no other excerpt rule.

## Model

| member | source | states |
|---|---|---|
| `Markup.StripExtension` | pages/index.js:17 | for a name ending in ".mdx", slug + ".mdx" is the name; any other name is unchanged |
| `Markup.SlugRemovesOneExtension` | pages/index.js:17 | exactly one trailing ".mdx" is removed: the slug of `slug + ".mdx"` is `slug`, even if `slug` itself ends in ".mdx" |
| `Markup.StripTags` | pages/index.js:24 | the output is never longer than the input; together with `StripTagsDropsTag`, `StripTagsPlainPrefix` and `StripTagsIdentity` it is pinned to the regex's behaviour: a leftmost '<' matches up to the first '>' after it and the match is deleted |
| `Markup.StripTagsTagFree` | pages/index.js:24 | after stripping, no '<' is followed anywhere later by a '>', so the pattern has nothing left to match |
| `Markup.StripTagsSubsequence` | pages/index.js:24 | stripping only deletes characters: the output is a subsequence of the input |
| `Markup.StripTagsMembers` | pages/index.js:24 | every character of the output occurs in the input |
| `Markup.StripTagsIdentity` | pages/index.js:24 | text with no tag is returned unchanged |
| `Markup.StripTagsIdempotent` | pages/index.js:24 | stripping twice equals stripping once |
| `Markup.StripTagsNoOpenIdentity` | pages/index.js:24 | text that contains no '<' is returned unchanged |
| `Markup.StripTagsPlainPrefix` | pages/index.js:24 | text with no '<' in front of the rest is kept verbatim, and stripping continues on the rest |
| `Markup.StripTagsDropsTag` | pages/index.js:24 | a whole tag `<t>` with no '>' inside `t` is removed, and the text before it is kept |
| `Markup.Excerpt` | pages/index.js:27 | the excerpt has length min(text length, 150) + 3 (at most 153) and always ends in "...", even for short text; without the marker it is a prefix of the text; for text of at most 150 units it is the text plus "..." |
| `Markup.ExcerptTagFree` | pages/index.js:24-27 | the excerpt cut from the stripped body contains no tag |
| `Posts.ToPost` | pages/index.js:15-33 | a file yields a post exactly when its name ends in ".mdx"; the post's slug plus ".mdx" is the file name; its front matter is passed through untouched; its excerpt is the excerpt of the tag-stripped body |
| `Posts.DropNulls` | pages/index.js:34 | the null filter keeps exactly the non-null entries and never adds any |
| `Posts.DropNullsAppend` | pages/index.js:34 | the filter works entry by entry, so the kept posts stay in their original order |
| `Posts.Collect` | pages/index.js:15-34 | at most one post per entry; every collected post comes from some entry, and every ".mdx" entry contributes its post |
| `Posts.CollectAppend` | pages/index.js:15-34 | the `map` gives one callback result per file name and the filter works entry by entry: the posts of a concatenated listing are the concatenated posts, so enumeration order is kept |
| `Posts.CollectSingle` | pages/index.js:15-34 | one ".mdx" entry gives exactly the callback's post for it; any other entry gives nothing |
| `Posts.CollectMembers` | pages/index.js:15-34 | a post is collected exactly when some ".mdx" entry of the directory produces it |
| `DateOrder.SortedByDate` | pages/index.js:36 | the sort keeps the number of posts; `SortedByDateNewestFirst`, `SortedByDatePermutation`, `SortedByDateStable` and `StableOrderUnique` pin it down as the one stable newest-first ordering |
| `DateOrder.InsertNewestFirst` | pages/index.js:36 | inserting a post into a newest-first sequence keeps it newest first |
| `DateOrder.InsertPermutation` | pages/index.js:36 | insertion adds exactly the inserted post |
| `DateOrder.InsertOfDate` | pages/index.js:36 | an inserted post lands after every post of its own date, so stability is preserved |
| `DateOrder.SortedByDateNewestFirst` | pages/index.js:36 | after sorting, dates are non-increasing |
| `DateOrder.SortedByDatePermutation` | pages/index.js:36 | the sorted list is a permutation of the input |
| `DateOrder.SortedByDateStable` | pages/index.js:36 | posts with equal dates keep their relative order from before the sort |
| `DateOrder.StableOrderUnique` | pages/index.js:36 | two newest-first sequences that agree on the order within each date are equal |
| `DateOrder.SortedByDateIsTheStableSort` | pages/index.js:36 | any newest-first, stable reordering of the input is exactly the model's result, so the model agrees with any stable sort under the page's comparator |
| `DateOrder.ShiftIn` | pages/index.js:36 | one in-place step moves a post left past the strictly older posts before it, shifting them one slot right, and leaves the rest of the array alone |
| `DateOrder.SortNewestFirst` | pages/index.js:36 | the in-place sort leaves the array equal to the specification's result: newest first, a permutation of the old contents, and stable |
| `Listing.GetStaticProps` | pages/index.js:8-45 | the page receives the sorted collected posts, or an empty list when the directory is missing; the result is newest first, a permutation of the collected posts, and stable |
| `Listing.HomePosts` | pages/index.js:8-45 | without the directory the page gets an empty list; otherwise a permutation of the collected posts, with as many posts as the filter kept |
| `Listing.HomePostsMembers` | pages/index.js:10-41 | a post is on the page exactly when the directory exists and one of its ".mdx" entries produces it |
| `Listing.HomePostsIsStableSort` | pages/index.js:36 | the page's order is the one any stable newest-first sort of the collected posts produces |
| `HomePage.StatusBadge` | pages/index.js:94-95 | the badge is shown exactly when the status is present and non-empty (JavaScript truthiness); it is critical exactly for "KRYTYCZNY" and "USZKODZONY"; it shows the status text unchanged |

## Left out

- Filesystem calls (`fs.existsSync`, `readdirSync`, `readFileSync`, `path.join`, `process.cwd`) are I/O. Their results are inputs: a directory-exists flag and the list of entries, each with its name, parsed front matter and body.
- `readFileSync` (pages/index.js:19) throws on an entry it cannot read, such as a subdirectory named `x.mdx`. `gray-matter` (pages/index.js:21) throws on malformed front matter. Either failure aborts the whole step. The model always returns a listing and does not model these failures.
- `gray-matter` front-matter parsing is a foreign library. Each entry arrives already split into front matter and body. The open front-matter mapping is reduced to the fields the page reads: date, title, category and status.
- `new Date(...)` parsing is replaced by an integer date key that orders like the instant (milliseconds since the epoch) that `new Date(...)` yields for the date string. An unparsable date makes the comparator return `NaN`, which leaves the order ill-defined. The integer key rules that case out.
- `Array.prototype.sort` does not fix its algorithm. The model sorts by insertion. `SortedByDateIsTheStableSort` proves that every stable sort with this comparator gives the same result.
- HomePage.StatusBadge: takes the status as an optional string. A non-string front-matter value, such as a YAML number or boolean, is not modelled.
- JSX rendering, `next/head`, `next/link`, CSS classes, animations and `revalidate: 60` are presentation and framework plumbing. The only logic kept from the render is the status rule.
- The post page, the category pages and `components/HolographicQuote.js` are not part of this model.
- Duplicate slugs are not defended against in the code, and the model does not check for them either.
