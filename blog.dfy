/** The blog page's category filter: the active category, the filtered post
    list and the empty-state message. */
module Blog {
  import opened Seqs

  /** A post; its title, excerpt and tags are display text and left out. */
  datatype Post = Post(id: string, date: string, category: string, author: string)

  /** The category key that shows every post. */
  const AllKey := "all"

  /** The keys of the category buttons, in display order. */
  const CategoryKeys: seq<string> := ["all", "release", "tech", "design"]

  function PostCategoryIs(category: string): Post -> bool {
    (p: Post) => p.category == category
  }

  /** `filteredPosts`: every post for 'all', else the posts of the active
      category in their original order. */
  function FilteredPosts(posts: seq<Post>, active: string): (r: seq<Post>)
    ensures active == AllKey ==> r == posts
    ensures |r| <= |posts|
  {
    if active == AllKey then posts else Filter(posts, PostCategoryIs(active))
  }

  /** A post is listed iff it belongs to the active category, or the active
      category is 'all'. */
  lemma FilteredPostsMembers(posts: seq<Post>, active: string, p: Post)
    ensures p in FilteredPosts(posts, active) <==> p in posts && (active == AllKey || p.category == active)
  {
    if active != AllKey {
      FilterMembership(posts, PostCategoryIs(active), p);
    }
  }

  /** The filter keeps the original order: filtering a concatenation lists
      the first part's posts before the second's. */
  lemma FilteredPostsKeepOrder(a: seq<Post>, b: seq<Post>, active: string)
    ensures FilteredPosts(a + b, active) == FilteredPosts(a, active) + FilteredPosts(b, active)
  {
    if active != AllKey {
      FilterAppend(a, b, PostCategoryIs(active));
    }
  }

  /** A category that every post belongs to lists every post, in order. */
  lemma SingleCategoryListsAll(posts: seq<Post>, active: string)
    requires forall i :: 0 <= i < |posts| ==> posts[i].category == active
    ensures FilteredPosts(posts, active) == posts
  {
    if active != AllKey {
      FilterKeepsAll(posts, PostCategoryIs(active));
    }
  }

  /** The empty-state message shows when the filtered list is empty. */
  function ShowsEmptyState(posts: seq<Post>, active: string): (shows: bool)
    ensures posts == [] ==> shows
    ensures shows ==> active != AllKey || posts == []
  {
    |FilteredPosts(posts, active)| == 0
  }

  /** The message shows exactly when no post matches the active category. */
  lemma EmptyStateIff(posts: seq<Post>, active: string)
    ensures ShowsEmptyState(posts, active) <==>
            forall i :: 0 <= i < |posts| ==> active != AllKey && posts[i].category != active
  {
    if active != AllKey {
      if forall i :: 0 <= i < |posts| ==> posts[i].category != active {
        FilterKeepsNone(posts, PostCategoryIs(active));
      } else {
        var i :| 0 <= i < |posts| && posts[i].category == active;
        FilterMembership(posts, PostCategoryIs(active), posts[i]);
      }
    } else if posts != [] {
      assert posts[0] in posts;
    }
  }

  /** The posts the page ships with (id, date, category and author). */
  const Posts: seq<Post> := [
    Post("1", "2025-12-25", "release", "Lu Design Team"),
    Post("2", "2025-12-20", "design", "UI Team"),
    Post("3", "2025-12-15", "tech", "Dev Team"),
    Post("4", "2025-12-10", "tech", "Dev Team"),
    Post("5", "2025-12-05", "design", "UI Team")
  ]

  /** With the shipped posts, no category button leads to the empty state. */
  lemma ShippedPostsNeverEmpty(index: nat)
    requires index < |CategoryKeys|
    ensures !ShowsEmptyState(Posts, CategoryKeys[index])
  {
    EmptyStateIff(Posts, CategoryKeys[index]);
    var w := if index == 1 then 0 else if index == 2 then 2 else 1;
    assert index == 0 || Posts[w].category == CategoryKeys[index];
  }

  /** The page's state. */
  class BlogPage {
    const posts: seq<Post>
    var activeCategory: string

    constructor (posts: seq<Post>)
      ensures this.posts == posts && activeCategory == AllKey
    {
      this.posts := posts;
      activeCategory := AllKey;
    }

    /** Clicking the category button at `index` selects its key. */
    method SelectCategory(index: nat)
      requires index < |CategoryKeys|
      modifies this`activeCategory
      ensures activeCategory == CategoryKeys[index]
    {
      activeCategory := CategoryKeys[index];
    }

    /** The posts currently listed. */
    method ListedPosts() returns (r: seq<Post>)
      ensures r == FilteredPosts(posts, activeCategory)
    {
      r := FilteredPosts(posts, activeCategory);
    }
  }
}
