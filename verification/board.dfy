/** The bulletin board's records and the five state-changing request
    handlers (write a post, like it, delete it, comment on it, delete a
    comment), modelled as pure transitions of an in-memory store holding the
    two tables. Each transition returns the outcome the handler reports and
    the store after the request; an outcome other than `Ok` never changes the
    store. */
module Board {
  import opened Nullable
  import opened Text

  /** A row of the `post` table. `likes` is a nullable integer column whose
      default is 0; the handlers read it as `likes or 0`. `createdAt` is the
      caller-supplied clock reading at creation. */
  datatype Post = Post(
    id: nat,
    author: Option<string>,
    content: string,
    createdAt: nat,
    deleteCode: Option<string>,
    likes: Option<nat>)

  /** A row of the `comment` table; `postId` is a foreign key into `post`. */
  datatype Comment = Comment(
    id: nat,
    postId: nat,
    author: Option<string>,
    content: string,
    createdAt: nat,
    deleteCode: Option<string>)

  /** Both tables, keyed by primary key. */
  datatype Store = Store(posts: map<nat, Post>, comments: map<nat, Comment>)

  /** What a handler answers. `Ok` carries the id of the post the handler
      redirects to or acted on; `NotFound` is the 404 of `get_or_404`;
      `ValidationError` and `AuthError` are the flashed error messages. */
  datatype Outcome = Ok(target: nat) | NotFound | ValidationError | AuthError

  datatype Step = Step(outcome: Outcome, store: Store)

  /** The like counter as the handlers read it: `likes or 0`. */
  function LikeCount(p: Post): (n: nat)
    ensures p.likes.None? ==> n == 0
    ensures p.likes.Some? ==> n == p.likes.value
  {
    p.likes.ValueOr(0)
  }

  /** Stored content: non-empty and already stripped. */
  predicate IsContent(s: string) {
    s != "" && NoEdgeSpace(s)
  }

  /** A stored optional field: null, or non-empty stripped text. */
  predicate IsOptionalField(s: Option<string>) {
    s.None? || IsContent(s.value)
  }

  /** The store invariant every handler keeps: rows sit under their own
      primary key, content is never blank, blank optional fields are null,
      and every comment's `postId` names an existing post. The empty board
      satisfies it, and a valid board without posts has no comments. */
  ghost predicate Valid(st: Store)
    ensures st == Store(map[], map[]) ==> Valid(st)
    ensures Valid(st) && st.posts == map[] ==> st.comments == map[]
  {
    && (forall k | k in st.posts ::
          && st.posts[k].id == k
          && IsContent(st.posts[k].content)
          && IsOptionalField(st.posts[k].author)
          && IsOptionalField(st.posts[k].deleteCode))
    && (forall k | k in st.comments ::
          && st.comments[k].id == k
          && IsContent(st.comments[k].content)
          && IsOptionalField(st.comments[k].author)
          && IsOptionalField(st.comments[k].deleteCode)
          && st.comments[k].postId in st.posts)
  }

  // ---------------------------------------------------------------------
  // Delete authorisation
  // ---------------------------------------------------------------------

  /** Python truthiness of an optional string: present and non-empty. */
  predicate Truthy(s: Option<string>) {
    s.Some? && s.value != ""
  }

  /** The self-service half of the rule: the item has a delete code and the
      cleaned submitted code is non-empty and equal to it. */
  predicate CodeMatches(stored: Option<string>, submitted: Option<string>)
    ensures CodeMatches(stored, submitted) ==> submitted.Some? && stored.Some? && IsContent(stored.value)
  {
    Truthy(stored) && Clean(submitted) != "" && Clean(submitted) == stored.value
  }

  /** The override half: an admin token is configured (`adminEnv`, read from
      the environment and NOT cleaned) and the cleaned submitted token equals
      it. */
  predicate AdminMatches(adminEnv: Option<string>, submitted: Option<string>)
    ensures AdminMatches(adminEnv, submitted) ==> submitted.Some? && adminEnv.Some? && IsContent(adminEnv.value)
  {
    Truthy(adminEnv) && Clean(submitted) == adminEnv.value
  }

  /** The deletion rule shared by posts and comments. It needs a secret on
      one side (a delete code on the item or a configured admin token) and a
      submitted field on the other. */
  predicate Authorized(stored: Option<string>, code: Option<string>,
                       adminEnv: Option<string>, adminToken: Option<string>)
    ensures Authorized(stored, code, adminEnv, adminToken) ==> Truthy(stored) || Truthy(adminEnv)
    ensures Authorized(stored, code, adminEnv, adminToken) ==> code.Some? || adminToken.Some?
  {
    CodeMatches(stored, code) || AdminMatches(adminEnv, adminToken)
  }

  /** An item without a delete code can only be deleted through the admin
      token. */
  lemma NoCodeNeedsAdmin(stored: Option<string>, code: Option<string>,
                         adminEnv: Option<string>, adminToken: Option<string>)
    requires !Truthy(stored)
    ensures Authorized(stored, code, adminEnv, adminToken) <==> AdminMatches(adminEnv, adminToken)
  {
  }

  /** Without a delete code and without an admin token nothing can be
      deleted, whatever is submitted. */
  lemma NoSecretNoDelete(stored: Option<string>, code: Option<string>,
                         adminEnv: Option<string>, adminToken: Option<string>)
    requires !Truthy(stored) && !Truthy(adminEnv)
    ensures !Authorized(stored, code, adminEnv, adminToken)
  {
  }

  /** Only the submission is cleaned, so an admin token configured with
      surrounding whitespace never matches and the admin path is closed. */
  lemma PaddedAdminTokenNeverMatches(stored: Option<string>, code: Option<string>,
                                     adminEnv: Option<string>, adminToken: Option<string>)
    requires adminEnv.Some? && !NoEdgeSpace(adminEnv.value)
    ensures !AdminMatches(adminEnv, adminToken)
    ensures Authorized(stored, code, adminEnv, adminToken) <==> CodeMatches(stored, code)
  {
  }

  /** A stored code with surrounding whitespace can never be matched by a
      submitted code (handlers never store one: they strip it first). */
  lemma PaddedCodeNeverMatches(stored: Option<string>, code: Option<string>)
    requires stored.Some? && !NoEdgeSpace(stored.value)
    ensures !CodeMatches(stored, code)
  {
  }

  /** Submitting the item's own code, with or without surrounding
      whitespace, authorises the deletion. */
  lemma OwnCodeAuthorizes(stored: string, pad1: string, pad2: string,
                          adminEnv: Option<string>, adminToken: Option<string>)
    requires IsContent(stored) && AllSpace(pad1) && AllSpace(pad2)
    ensures Authorized(Some(stored), Some(pad1 + stored + pad2), adminEnv, adminToken)
  {
    var s := pad1 + stored + pad2;
    assert s[|pad1|..|pad1| + |stored|] == stored;
    assert SpaceBetween(s, 0, |pad1|);
    assert SpaceBetween(s, |pad1| + |stored|, |s|);
    assert StripsTo(s, stored);
    StripUnique(s, Clean(Some(s)), stored);
  }

  // ---------------------------------------------------------------------
  // Fresh primary keys
  // ---------------------------------------------------------------------

  lemma {:induction false} MaxExists(s: set<nat>)
    requires s != {}
    ensures exists m :: m in s && forall y | y in s :: y <= m
  {
    var x :| x in s;
    var rest := s - {x};
    if rest == {} {
      assert s == {x};
      assert forall y | y in s :: y <= x;
    } else {
      MaxExists(rest);
      var m :| m in rest && forall y | y in rest :: y <= m;
      var top := if x > m then x else m;
      forall y | y in s
        ensures y <= top
      {
        if y != x {
          assert y in rest;
        }
      }
      assert top in s;
    }
  }

  /** The largest key of a non-empty table. */
  function Max(s: set<nat>): (m: nat)
    requires s != {}
    ensures m in s
    ensures forall y | y in s :: y <= m
  {
    MaxExists(s);
    var m :| m in s && forall y | y in s :: y <= m;
    m
  }

  /** The key the database hands out for a new row: one past the largest key
      in use, as SQLite does for an integer primary key. Only freshness is
      relied upon (an id freed by a delete may be handed out again). */
  function FreshId(ids: set<nat>): (r: nat)
    ensures r !in ids
    ensures r > 0
  {
    if ids == {} then 1 else Max(ids) + 1
  }

  // ---------------------------------------------------------------------
  // Transitions
  // ---------------------------------------------------------------------

  /** `POST /write`: blank content is rejected; otherwise one post is
      inserted with no likes yet. */
  function Write(st: Store, author: Option<string>, content: Option<string>,
                 deleteCode: Option<string>, now: nat): (r: Step)
    ensures Clean(content) == "" ==> r == Step(ValidationError, st)
    ensures Clean(content) != "" ==>
      && r.outcome.Ok?
      && r.outcome.target !in st.posts
      && r.store.posts.Keys == st.posts.Keys + {r.outcome.target}
      && (forall k | k in st.posts :: r.store.posts[k] == st.posts[k])
      && r.store.comments == st.comments
    ensures Clean(content) != "" ==>
      var p := r.store.posts[r.outcome.target];
      && p.id == r.outcome.target
      && p.content == Clean(content)
      && p.author == OptionalField(author)
      && p.deleteCode == OptionalField(deleteCode)
      && p.createdAt == now
      && p.likes == Some(0)
    ensures Valid(st) ==> Valid(r.store)
  {
    var text := Clean(content);
    if text == "" then
      Step(ValidationError, st)
    else
      var id := FreshId(st.posts.Keys);
      var p := Post(id, OptionalField(author), text, now, OptionalField(deleteCode), Some(0));
      Step(Ok(id), st.(posts := st.posts[id := p]))
  }

  /** `POST /post/<id>/like`: one more like on an existing post. */
  function LikePost(st: Store, id: nat): (r: Step)
    ensures id !in st.posts ==> r == Step(NotFound, st)
    ensures id in st.posts ==>
      && r.outcome == Ok(id)
      && r.store.posts.Keys == st.posts.Keys
      && LikeCount(r.store.posts[id]) == LikeCount(st.posts[id]) + 1
      && r.store.posts[id] == st.posts[id].(likes := r.store.posts[id].likes)
      && (forall k | k in st.posts && k != id :: r.store.posts[k] == st.posts[k])
      && r.store.comments == st.comments
    ensures Valid(st) ==> Valid(r.store)
  {
    if id !in st.posts then
      Step(NotFound, st)
    else
      var p := st.posts[id];
      Step(Ok(id), st.(posts := st.posts[id := p.(likes := Some(LikeCount(p) + 1))]))
  }

  /** The comments left once post `pid` is gone (the `delete-orphan`
      cascade): no survivor points at `pid`, survivors are not edited, and
      every comment of another post survives. */
  function WithoutCommentsOf(comments: map<nat, Comment>, pid: nat): (r: map<nat, Comment>)
    ensures forall c | c in r :: r[c].postId != pid
    ensures forall c | c in r :: c in comments && r[c] == comments[c]
    ensures forall c | c in comments && comments[c].postId != pid :: c in r
  {
    map c | c in comments && comments[c].postId != pid :: comments[c]
  }

  /** If every comment pointed into the set of posts `live`, then after the
      cascade for `pid` every surviving comment points into `live - {pid}`:
      deleting a post with its comments leaves no dangling foreign key. */
  lemma CascadeKeepsIntegrity(comments: map<nat, Comment>, pid: nat, live: set<nat>)
    requires forall c | c in comments :: comments[c].postId in live
    ensures forall c | c in WithoutCommentsOf(comments, pid) ::
              WithoutCommentsOf(comments, pid)[c].postId in live - {pid}
  {
  }

  /** `POST /post/<id>/delete`: an authorised delete removes the post and,
      by cascade, its comments; anything else changes nothing. */
  function DeletePost(st: Store, id: nat, code: Option<string>,
                      adminEnv: Option<string>, adminToken: Option<string>): (r: Step)
    ensures id !in st.posts ==> r == Step(NotFound, st)
    ensures id in st.posts && !Authorized(st.posts[id].deleteCode, code, adminEnv, adminToken) ==>
      r == Step(AuthError, st)
    ensures id in st.posts && Authorized(st.posts[id].deleteCode, code, adminEnv, adminToken) ==>
      && r.outcome == Ok(id)
      && r.store.posts.Keys == st.posts.Keys - {id}
      && (forall k | k in r.store.posts :: r.store.posts[k] == st.posts[k])
      && (forall c :: c in r.store.comments <==> c in st.comments && st.comments[c].postId != id)
      && (forall c | c in r.store.comments :: r.store.comments[c] == st.comments[c])
    ensures Valid(st) ==> Valid(r.store)
  {
    if id !in st.posts then
      Step(NotFound, st)
    else if !Authorized(st.posts[id].deleteCode, code, adminEnv, adminToken) then
      Step(AuthError, st)
    else
      Step(Ok(id), Store(st.posts - {id}, WithoutCommentsOf(st.comments, id)))
  }

  /** `POST /post/<id>/comment`: the parent must exist and the content must
      not be blank; then one comment is inserted under it. */
  function AddComment(st: Store, pid: nat, author: Option<string>, content: Option<string>,
                      deleteCode: Option<string>, now: nat): (r: Step)
    ensures pid !in st.posts ==> r == Step(NotFound, st)
    ensures pid in st.posts && Clean(content) == "" ==> r == Step(ValidationError, st)
    ensures pid in st.posts && Clean(content) != "" ==>
      && r.outcome == Ok(pid)
      && r.store.posts == st.posts
      && exists cid | cid !in st.comments ::
           && r.store.comments.Keys == st.comments.Keys + {cid}
           && (forall k | k in st.comments :: r.store.comments[k] == st.comments[k])
           && r.store.comments[cid] ==
                Comment(cid, pid, OptionalField(author), Clean(content), now, OptionalField(deleteCode))
    ensures Valid(st) ==> Valid(r.store)
  {
    if pid !in st.posts then
      Step(NotFound, st)
    else
      var text := Clean(content);
      if text == "" then
        Step(ValidationError, st)
      else
        var cid := FreshId(st.comments.Keys);
        var c := Comment(cid, pid, OptionalField(author), text, now, OptionalField(deleteCode));
        Step(Ok(pid), st.(comments := st.comments[cid := c]))
  }

  /** `POST /comment/<id>/delete`: an authorised delete removes that one
      comment and redirects to its post, whose id is read before the row
      goes. */
  function DeleteComment(st: Store, cid: nat, code: Option<string>,
                         adminEnv: Option<string>, adminToken: Option<string>): (r: Step)
    ensures cid !in st.comments ==> r == Step(NotFound, st)
    ensures cid in st.comments && !Authorized(st.comments[cid].deleteCode, code, adminEnv, adminToken) ==>
      r == Step(AuthError, st)
    ensures cid in st.comments && Authorized(st.comments[cid].deleteCode, code, adminEnv, adminToken) ==>
      && r.outcome == Ok(st.comments[cid].postId)
      && r.store.posts == st.posts
      && r.store.comments.Keys == st.comments.Keys - {cid}
      && (forall k | k in r.store.comments :: r.store.comments[k] == st.comments[k])
    ensures Valid(st) ==> Valid(r.store)
  {
    if cid !in st.comments then
      Step(NotFound, st)
    else
      var c := st.comments[cid];
      if !Authorized(c.deleteCode, code, adminEnv, adminToken) then
        Step(AuthError, st)
      else
        Step(Ok(c.postId), st.(comments := st.comments - {cid}))
  }
}
