/** The blog index (`lib/blog.ts`): the hard-coded posts, `getBlogPosts`
    (a stable sort, newest first) and `getBlogPostBySlug` (the first post
    with that slug).  Post bodies, tags and images are not modelled. */
module Blog {
  import opened Wrappers
  import opened Seqs

  /** A `YYYY-MM-DD` front-matter date, already parsed. */
  datatype Date = Date(year: int, month: int, day: int)

  /** `new Date(a).getTime() >= new Date(b).getTime()` for valid calendar
      dates: the later year, then month, then day. */
  predicate NotOlder(a: Date, b: Date) {
    a.year > b.year
    || (a.year == b.year && (a.month > b.month || (a.month == b.month && a.day >= b.day)))
  }

  datatype BlogPost = BlogPost(slug: string, title: string, date: Date, author: string, readingTime: nat)

  const BlogPosts: seq<BlogPost> := [
    BlogPost("2024-stem-education-revolution", "The STEM Education Revolution",
             Date(2024, 1, 1), "MSI Team", 5),
    BlogPost("2022-transforming-education-holistic-student-development",
             "Transforming Education for Holistic Student Development", Date(2022, 11, 22),
             "Maths and Science Infinity", 6),
    BlogPost("2022-how-to-turn-education-into-success", "How to Turn Education into Success",
             Date(2022, 11, 22), "Maths and Science Infinity", 7)
  ]

  // ---------------------------------------------------------------------
  // getBlogPosts.

  predicate NewestFirst(s: seq<BlogPost>) {
    forall i, j :: 0 <= i < j < |s| ==> NotOlder(s[i].date, s[j].date)
  }

  /** Places `p` before the first post it is not older than, hence after
      every strictly newer post and before posts of its own date that came
      after it. */
  function Insert(p: BlogPost, sorted: seq<BlogPost>): (r: seq<BlogPost>)
    ensures multiset(r) == multiset(sorted) + multiset{p}
    ensures |r| == |sorted| + 1
  {
    if sorted == [] || NotOlder(p.date, sorted[0].date) then [p] + sorted
    else
      assert sorted == [sorted[0]] + sorted[1..];
      [sorted[0]] + Insert(p, sorted[1..])
  }

  /** `BLOG_POSTS.sort(...)`, the comparator ordering newest first;
      JavaScript's sort is stable. */
  function SortNewestFirst(s: seq<BlogPost>): (r: seq<BlogPost>)
    ensures multiset(r) == multiset(s)
  {
    if s == [] then []
    else
      assert s == [s[0]] + s[1..];
      Insert(s[0], SortNewestFirst(s[1..]))
  }

  lemma {:induction false} InsertKeepsOrder(p: BlogPost, sorted: seq<BlogPost>)
    requires NewestFirst(sorted)
    ensures NewestFirst(Insert(p, sorted))
  {
    if sorted != [] && !NotOlder(p.date, sorted[0].date) {
      InsertKeepsOrder(p, sorted[1..]);
      var r := Insert(p, sorted);
      forall j | 0 < j < |r| ensures NotOlder(r[0].date, r[j].date) {
        assert r[j] in multiset(sorted[1..]) + multiset{p};
        if r[j] != p {
          assert r[j] in sorted[1..];
        }
      }
    }
  }

  lemma {:induction false} SortIsNewestFirst(s: seq<BlogPost>)
    ensures NewestFirst(SortNewestFirst(s))
  {
    if s != [] {
      SortIsNewestFirst(s[1..]);
      InsertKeepsOrder(s[0], SortNewestFirst(s[1..]));
    }
  }

  function DatedOn(d: Date): BlogPost -> bool {
    (p: BlogPost) => p.date == d
  }

  /** Inserting into a sorted list puts `p` first among the posts of its
      date. */
  lemma {:induction false} InsertKeepsDateOrder(p: BlogPost, sorted: seq<BlogPost>, d: Date)
    requires NewestFirst(sorted)
    ensures Filter(Insert(p, sorted), DatedOn(d)) ==
      (if p.date == d then [p] else []) + Filter(sorted, DatedOn(d))
  {
    if sorted != [] && !NotOlder(p.date, sorted[0].date) {
      InsertKeepsDateOrder(p, sorted[1..], d);
      var r := Insert(p, sorted);
      assert r[1..] == Insert(p, sorted[1..]);
      if p.date == d {
        assert sorted[0].date != d;
      }
    }
  }

  /** Stability: the posts of any one date keep their original relative
      order. */
  lemma {:induction false} SortIsStable(s: seq<BlogPost>, d: Date)
    ensures Filter(SortNewestFirst(s), DatedOn(d)) == Filter(s, DatedOn(d))
  {
    if s != [] {
      SortIsStable(s[1..], d);
      SortIsNewestFirst(s[1..]);
      InsertKeepsDateOrder(s[0], SortNewestFirst(s[1..]), d);
    }
  }

  /** Sorting a list that is already newest first changes nothing, so
      sorting twice is sorting once. */
  lemma {:induction false} SortOfSorted(s: seq<BlogPost>)
    requires NewestFirst(s)
    ensures SortNewestFirst(s) == s
  {
    if s != [] {
      SortOfSorted(s[1..]);
      if |s| > 1 {
        assert NotOlder(s[0].date, s[1].date);
      }
    }
  }

  lemma SortIdempotent(s: seq<BlogPost>)
    ensures SortNewestFirst(SortNewestFirst(s)) == SortNewestFirst(s)
  {
    SortIsNewestFirst(s);
    SortOfSorted(SortNewestFirst(s));
  }

  /** What `getBlogPosts` returns, and what `BLOG_POSTS` holds afterwards:
      the sort happens in place. */
  function GetBlogPosts(posts: seq<BlogPost>): (r: seq<BlogPost>)
    ensures multiset(r) == multiset(posts)
    ensures NewestFirst(r)
    ensures forall d :: Filter(r, DatedOn(d)) == Filter(posts, DatedOn(d))
  {
    SortIsNewestFirst(posts);
    forall d ensures Filter(SortNewestFirst(posts), DatedOn(d)) == Filter(posts, DatedOn(d)) {
      SortIsStable(posts, d);
    }
    SortNewestFirst(posts)
  }

  /** The three posts are already newest first, the two of 22 November 2022
      in the order written, so the sort leaves them as they are. */
  lemma BlogPostsAlreadyInOrder()
    ensures GetBlogPosts(BlogPosts) == BlogPosts
  {
    var posts := BlogPosts;
    assert posts[0].date == Date(2024, 1, 1);
    assert posts[1].date == Date(2022, 11, 22) && posts[2].date == Date(2022, 11, 22);
    assert NewestFirst(posts);
    SortOfSorted(posts);
  }

  // ---------------------------------------------------------------------
  // getBlogPostBySlug.

  /** The position of the first post with `slug`. */
  function FirstWithSlug(posts: seq<BlogPost>, slug: string): (r: Option<nat>)
    ensures r.None? <==> forall i :: 0 <= i < |posts| ==> posts[i].slug != slug
    ensures r.Some? ==>
      && r.value < |posts| && posts[r.value].slug == slug
      && (forall j :: 0 <= j < r.value ==> posts[j].slug != slug)
  {
    if posts == [] then None
    else if posts[0].slug == slug then Some(0)
    else
      var r := FirstWithSlug(posts[1..], slug);
      if r.None? then None else Some(r.value + 1)
  }

  /** `BLOG_POSTS.find(post => post.slug === slug) || null`. */
  function FindBySlug(posts: seq<BlogPost>, slug: string): (r: Option<BlogPost>)
    ensures r.None? <==> forall i :: 0 <= i < |posts| ==> posts[i].slug != slug
    ensures r.Some? ==>
      exists i :: && 0 <= i < |posts| && posts[i] == r.value && r.value.slug == slug
                  && (forall j :: 0 <= j < i ==> posts[j].slug != slug)
  {
    var i := FirstWithSlug(posts, slug);
    if i.None? then None else Some(posts[i.value])
  }

  predicate DistinctSlugs(posts: seq<BlogPost>) {
    forall i, j :: 0 <= i < j < |posts| ==> posts[i].slug != posts[j].slug
  }

  lemma BlogPostSlugsDistinct()
    ensures DistinctSlugs(BlogPosts)
  {
  }

  /** With distinct slugs a post is found by its own slug, and reordering
      the list (as the sort does) finds the same post. */
  lemma FindOwnSlug(posts: seq<BlogPost>, i: int)
    requires DistinctSlugs(posts) && 0 <= i < |posts|
    ensures FindBySlug(posts, posts[i].slug) == Some(posts[i])
  {
  }

  lemma FindUnaffectedBySort(posts: seq<BlogPost>, slug: string)
    requires DistinctSlugs(posts)
    ensures FindBySlug(GetBlogPosts(posts), slug) == FindBySlug(posts, slug)
  {
    FindInReordering(posts, GetBlogPosts(posts), slug);
  }

  /** Any reordering of posts with distinct slugs finds the same post. */
  lemma FindInReordering(a: seq<BlogPost>, b: seq<BlogPost>, slug: string)
    requires DistinctSlugs(a) && multiset(a) == multiset(b)
    ensures FindBySlug(b, slug) == FindBySlug(a, slug)
  {
    var r := FindBySlug(a, slug);
    var q := FindBySlug(b, slug);
    if r.Some? {
      FoundIsMember(a, slug);
      assert r.value in multiset(b);
      FoundIsMember(b, slug);
      assert q.value in multiset(a);
      SlugIdentifies(a, r.value, q.value);
    } else {
      forall k | 0 <= k < |b| ensures b[k].slug != slug {
        assert b[k] in multiset(a);
      }
    }
  }

  lemma FoundIsMember(posts: seq<BlogPost>, slug: string)
    ensures FindBySlug(posts, slug).Some? ==>
      FindBySlug(posts, slug).value in posts && FindBySlug(posts, slug).value.slug == slug
  {
  }

  /** With distinct slugs, a slug picks out a single post. */
  lemma SlugIdentifies(posts: seq<BlogPost>, x: BlogPost, y: BlogPost)
    requires DistinctSlugs(posts) && x in posts && y in posts && x.slug == y.slug
    ensures x == y
  {
    var i :| 0 <= i < |posts| && posts[i] == x;
    var j :| 0 <= j < |posts| && posts[j] == y;
  }
}
