/** The read-only views: the front-page listing (optional search, newest
    first, comment counts per post) and a post's detail page (the post and
    its comments, oldest first). */
module Listing {
  import opened Nullable
  import opened Text
  import opened Board
  import opened Sorting

  /** The search condition `author ILIKE '%q%' OR content ILIKE '%q%'`, with
      ASCII case folding. A null author never matches (SQL `NULL ILIKE ...`
      is not true). The empty query matches every post, and a query longer
      than both the author and the content matches none. */
  predicate Matches(p: Post, q: string)
    ensures q == "" ==> Matches(p, q)
    ensures Matches(p, q) ==> |q| <= |p.content| || (p.author.Some? && |q| <= |p.author.value|)
  {
    || (p.author.Some? && ContainsIgnoreCase(p.author.value, q))
    || ContainsIgnoreCase(p.content, q)
  }

  /** The posts the listing shows for the cleaned query `q`: all of them when
      `q` is empty, otherwise those matching it. */
  function Selected(st: Store, q: string): (ids: set<nat>)
    ensures forall k :: k in ids <==> k in st.posts && (q == "" || Matches(st.posts[k], q))
  {
    if q == "" then st.posts.Keys
    else set k | k in st.posts && Matches(st.posts[k], q)
  }

  /** The comments of post `pid`. */
  function CommentsOf(comments: map<nat, Comment>, pid: nat): set<nat> {
    set c | c in comments && comments[c].postId == pid
  }

  /** The comments of post `pid` among the keys `ks`. */
  function CommentsAmong(comments: map<nat, Comment>, ks: set<nat>, pid: nat): set<nat> {
    set c | c in ks && c in comments && comments[c].postId == pid
  }

  /** `SELECT post_id, COUNT(id) FROM comment GROUP BY post_id`, as a map:
      one entry per post that has at least one comment, holding how many it
      has. Posts without comments get no entry. */
  method CountByPost(comments: map<nat, Comment>) returns (counts: map<nat, nat>)
    ensures forall pid :: pid in counts <==> CommentsOf(comments, pid) != {}
    ensures forall pid | pid in counts :: counts[pid] == |CommentsOf(comments, pid)|
  {
    counts := map[];
    var done: set<nat> := {};
    var rest := comments.Keys;
    while rest != {}
      invariant done + rest == comments.Keys && done !! rest
      invariant forall pid :: pid in counts <==> CommentsAmong(comments, done, pid) != {}
      invariant forall pid | pid in counts :: counts[pid] == |CommentsAmong(comments, done, pid)|
      decreases |rest|
    {
      var c :| c in rest;
      var pid := comments[c].postId;
      CommentsAmongGrow(comments, done, c);
      var n := if pid in counts then counts[pid] else 0;
      counts := counts[pid := n + 1];
      done := done + {c};
      rest := rest - {c};
    }
    assert forall pid :: CommentsAmong(comments, done, pid) == CommentsOf(comments, pid);
  }

  /** Adding one more comment key grows only its own post's set, by one. */
  lemma CommentsAmongGrow(comments: map<nat, Comment>, done: set<nat>, c: nat)
    requires c in comments && c !in done
    ensures CommentsAmong(comments, done + {c}, comments[c].postId)
            == CommentsAmong(comments, done, comments[c].postId) + {c}
    ensures |CommentsAmong(comments, done + {c}, comments[c].postId)|
            == |CommentsAmong(comments, done, comments[c].postId)| + 1
    ensures forall p | p != comments[c].postId ::
              CommentsAmong(comments, done + {c}, p) == CommentsAmong(comments, done, p)
  {
    var pid := comments[c].postId;
    assert CommentsAmong(comments, done + {c}, pid) == CommentsAmong(comments, done, pid) + {c};
  }

  /** Sort key for "newest first": the creation timestamp. */
  function NewestFirst(posts: map<nat, Post>): (key: map<nat, int>)
    ensures key.Keys == posts.Keys
    ensures forall k | k in key :: key[k] == posts[k].createdAt
  {
    map k | k in posts :: posts[k].createdAt as int
  }

  /** Sort key for "oldest first": the negated creation timestamp. */
  function OldestFirst(comments: map<nat, Comment>): (key: map<nat, int>)
    ensures key.Keys == comments.Keys
    ensures forall k | k in key :: key[k] == -(comments[k].createdAt as int)
  {
    map k | k in comments :: -(comments[k].createdAt as int)
  }

  /** `GET /?q=...`: echoes the cleaned query, lists the selected posts (each
      once) newest first, and counts the comments of every post. */
  method Index(st: Store, query: Option<string>) returns (q: string, ids: seq<nat>, counts: map<nat, nat>)
    ensures q == Clean(query)
    ensures multiset(ids) == multiset(Selected(st, q))
    ensures forall i | 0 <= i < |ids| :: ids[i] in st.posts
    ensures forall i, j | 0 <= i < j < |ids| :: st.posts[ids[i]].createdAt >= st.posts[ids[j]].createdAt
    ensures forall pid :: pid in counts <==> CommentsOf(st.comments, pid) != {}
    ensures forall pid | pid in counts :: counts[pid] == |CommentsOf(st.comments, pid)|
  {
    q := Clean(query);
    var found := Enumerate(Selected(st, q));
    assert forall i | 0 <= i < |found| :: found[i] in multiset(found);
    var key := NewestFirst(st.posts);
    ids := SortDesc(found, key);
    assert forall i | 0 <= i < |ids| :: ids[i] in multiset(ids);
    counts := CountByPost(st.comments);
  }

  /** `GET /post/<id>`: the post (`None` for a 404) and its comments, each
      once, oldest first. */
  method Detail(st: Store, pid: nat) returns (post: Option<Post>, commentIds: seq<nat>)
    ensures pid !in st.posts ==> post.None? && commentIds == []
    ensures pid in st.posts ==> post == Some(st.posts[pid])
    ensures pid in st.posts ==> multiset(commentIds) == multiset(CommentsOf(st.comments, pid))
    ensures forall i | 0 <= i < |commentIds| :: commentIds[i] in st.comments
    ensures forall i, j | 0 <= i < j < |commentIds| ::
              st.comments[commentIds[i]].createdAt <= st.comments[commentIds[j]].createdAt
  {
    if pid !in st.posts {
      return None, [];
    }
    post := Some(st.posts[pid]);
    var found := Enumerate(CommentsOf(st.comments, pid));
    assert forall i | 0 <= i < |found| :: found[i] in multiset(found);
    var key := OldestFirst(st.comments);
    commentIds := SortDesc(found, key);
    assert forall i | 0 <= i < |commentIds| :: commentIds[i] in multiset(commentIds);
  }

  /** A missing or blank query lists every post. */
  lemma BlankQueryListsAll(st: Store, query: Option<string>)
    requires query.None? || AllSpace(query.value)
    ensures Selected(st, Clean(query)) == st.posts.Keys
  {
    CleanEmptyIffBlank(query);
  }

  /** The case of the query does not matter: searching for `q` and for its
      lower-cased form select the same posts. */
  lemma SearchIgnoresQueryCase(st: Store, q: string)
    ensures Selected(st, q) == Selected(st, Lower(q))
  {
    LowerIdempotent(q);
  }

  /** Example: the query "ann" finds a post whose author is "Ann". */
  lemma AuthorSearchExample(p: Post)
    requires p.author == Some("Ann")
    ensures Matches(p, "ann")
  {
    assert Lower("Ann") == "ann";
    assert Lower("ann") == "ann";
    assert OccursAt("ann", "ann", 0);
  }

  /** In a valid store every count belongs to an existing post. */
  lemma CountsOnlyExistingPosts(st: Store, pid: nat)
    requires Valid(st)
    requires CommentsOf(st.comments, pid) != {}
    ensures pid in st.posts
  {
    var c :| c in CommentsOf(st.comments, pid);
  }
}
