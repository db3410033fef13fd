/** The state-changing routes as one request type, and the facts that hold of
    every request: the store invariant is kept, a rejected request changes
    nothing, rows are never edited except for their like counter, and like
    counters never go down. */
module Requests {
  import opened Nullable
  import opened Text
  import opened Board

  /** A form submission to one of the POST routes; fields the browser did
      not send are `None`. */
  datatype Request =
    | WriteForm(author: Option<string>, content: Option<string>, deleteCode: Option<string>)
    | LikeForm(postId: nat)
    | DeletePostForm(postId: nat, code: Option<string>, adminToken: Option<string>)
    | CommentForm(postId: nat, author: Option<string>, content: Option<string>, deleteCode: Option<string>)
    | DeleteCommentForm(commentId: nat, code: Option<string>, adminToken: Option<string>)

  /** A request together with the clock reading at which it is served. */
  datatype Event = Event(request: Request, now: nat)

  /** Serves one request. `adminEnv` is the `ADMIN_TOKEN` environment
      variable, `now` the creation timestamp for any row inserted. */
  function Apply(st: Store, req: Request, adminEnv: Option<string>, now: nat): (r: Step)
    ensures Valid(st) ==> Valid(r.store)
    ensures !r.outcome.Ok? ==> r.store == st
    ensures forall k | k in st.posts && k in r.store.posts ::
              && LikeCount(r.store.posts[k]) >= LikeCount(st.posts[k])
              && r.store.posts[k] == st.posts[k].(likes := r.store.posts[k].likes)
    ensures forall k | k in r.store.posts && k !in st.posts ::
              r.store.posts[k].likes == Some(0) && r.store.posts[k].createdAt == now
    ensures forall c | c in st.comments && c in r.store.comments ::
              r.store.comments[c] == st.comments[c]
  {
    match req
    case WriteForm(author, content, code) => Write(st, author, content, code, now)
    case LikeForm(id) => LikePost(st, id)
    case DeletePostForm(id, code, token) => DeletePost(st, id, code, adminEnv, token)
    case CommentForm(id, author, content, code) => AddComment(st, id, author, content, code, now)
    case DeleteCommentForm(cid, code, token) => DeleteComment(st, cid, code, adminEnv, token)
  }

  /** Serves a sequence of requests in order. */
  function Run(st: Store, events: seq<Event>, adminEnv: Option<string>): Store
    decreases |events|
  {
    if events == [] then st
    else Run(Apply(st, events[0].request, adminEnv, events[0].now).store, events[1..], adminEnv)
  }

  /** Any sequence of requests keeps the store invariant: content is never
      blank and no comment ever points at a missing post. */
  lemma {:induction false} RunPreservesValid(st: Store, events: seq<Event>, adminEnv: Option<string>)
    requires Valid(st)
    ensures Valid(Run(st, events, adminEnv))
    decreases |events|
  {
    if events != [] {
      var next := Apply(st, events[0].request, adminEnv, events[0].now).store;
      RunPreservesValid(next, events[1..], adminEnv);
    }
  }

  /** The store after `n` like requests on post `id`. */
  function LikeMany(st: Store, id: nat, n: nat): Store
    decreases n
  {
    if n == 0 then st else LikeMany(LikePost(st, id).store, id, n - 1)
  }

  /** `n` likes on an existing post raise its counter by exactly `n` and
      touch nothing else. */
  lemma {:induction false} LikeManyCounts(st: Store, id: nat, n: nat)
    requires id in st.posts
    ensures id in LikeMany(st, id, n).posts
    ensures LikeCount(LikeMany(st, id, n).posts[id]) == LikeCount(st.posts[id]) + n
    ensures n > 0 ==> LikeMany(st, id, n).posts[id].likes.Some?
    ensures LikeMany(st, id, n).posts.Keys == st.posts.Keys
    ensures forall k | k in st.posts && k != id :: LikeMany(st, id, n).posts[k] == st.posts[k]
    ensures LikeMany(st, id, n).comments == st.comments
    decreases n
  {
    if n > 0 {
      LikeManyCounts(LikePost(st, id).store, id, n - 1);
    }
  }

  /** A freshly written post liked `n` times shows `likes == n`. */
  lemma WriteThenLike(st: Store, author: Option<string>, content: Option<string>,
                      deleteCode: Option<string>, now: nat, n: nat)
    requires Clean(content) != ""
    ensures var w := Write(st, author, content, deleteCode, now);
            w.outcome.Ok? && w.outcome.target in LikeMany(w.store, w.outcome.target, n).posts
            && LikeMany(w.store, w.outcome.target, n).posts[w.outcome.target].likes == Some(n)
  {
    var w := Write(st, author, content, deleteCode, now);
    var id := w.outcome.target;
    assert w.store.posts[id].likes == Some(0);
    LikeManyCounts(w.store, id, n);
    var after := LikeMany(w.store, id, n);
    if n == 0 {
      assert after == w.store;
    } else {
      assert LikeCount(after.posts[id]) == n;
    }
  }

  /** Example: writing author "Ann" and content "Hello" stores exactly
      those, with no delete code and no likes. */
  lemma WriteExample(st: Store, now: nat)
    ensures var w := Write(st, Some("Ann"), Some("Hello"), None, now);
            && w.outcome.Ok?
            && w.store.posts[w.outcome.target].author == Some("Ann")
            && w.store.posts[w.outcome.target].content == "Hello"
            && w.store.posts[w.outcome.target].deleteCode.None?
            && w.store.posts[w.outcome.target].likes == Some(0)
  {
    StripStripped("Ann");
    StripStripped("Hello");
  }

  /** Once a post is deleted, liking it or commenting on it is a 404 and no
      comment refers to it any more. */
  lemma DeletedPostIsGone(st: Store, id: nat, code: Option<string>,
                          adminEnv: Option<string>, adminToken: Option<string>,
                          author: Option<string>, content: Option<string>, now: nat)
    requires DeletePost(st, id, code, adminEnv, adminToken).outcome.Ok?
    ensures var after := DeletePost(st, id, code, adminEnv, adminToken).store;
            && LikePost(after, id).outcome == NotFound
            && AddComment(after, id, author, content, None, now).outcome == NotFound
            && forall c | c in after.comments :: after.comments[c].postId != id
  {
  }
}
