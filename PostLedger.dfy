/** The post/like bookkeeping of the posts service, stated over a value of
    the whole store: what `create`, `likePost` and `unlikePost` do to the
    tables, and the invariant they keep: every post's `likesCount` is the
    number of like rows for that post. */
module PostLedger {
  import opened Entities

  /** The three tables, and the next key the posts table will hand out. */
  datatype Store = Store(
    users: map<int, User>,
    posts: map<int, Post>,
    likes: set<Like>,
    nextId: int)

  /** The outcome of a like or unlike call: the response and the new store. */
  datatype Step = Step(result: Result<string>, store: Store)

  /** What `create` returns (the key and the saved row) and the new store. */
  datatype Created = Created(id: int, post: Post, store: Store)

  /** The like rows of post `postId`. */
  function LikesOf(likes: set<Like>, postId: int): (r: set<Like>)
    ensures forall l :: l in r <==> l in likes && l.postId == postId
  {
    set l | l in likes && l.postId == postId
  }

  /** The store as the service keeps it: keys are below `nextId`, every like
      row points at an existing post, and every counter equals the number of
      like rows for its post. Uniqueness of the (userId, postId) pair is
      given by `likes` being a set. */
  ghost predicate Consistent(s: Store)
  {
    && 1 <= s.nextId
    && (forall id :: id in s.posts ==> 1 <= id < s.nextId)
    && (forall l :: l in s.likes ==> l.postId in s.posts)
    && (forall id :: id in s.posts ==> s.posts[id].likesCount == |LikesOf(s.likes, id)|)
  }

  /** An empty posts and likes table over any users table. */
  function Empty(users: map<int, User>): (s: Store)
    ensures Consistent(s)
  {
    Store(users, map[], {}, 1)
  }

  /** Post `postId` with its counter moved by `delta`, every other column kept. */
  function Bump(posts: map<int, Post>, postId: int, delta: int): (r: map<int, Post>)
    requires postId in posts
  {
    posts[postId := posts[postId].(likesCount := posts[postId].likesCount + delta)]
  }

  /** `create`: a new row with the given content and author, the next key,
      the creation time `now` and `likesCount` at its default 0. */
  function CreateStep(s: Store, content: string, userId: int, now: int): (c: Created)
  {
    var p := Post(content, userId, 0, now);
    Created(s.nextId, p, s.(posts := s.posts[s.nextId := p], nextId := s.nextId + 1))
  }

  /** `likePost`: the post must exist, then the pair must be new; only then
      is the row inserted and the counter raised by one. */
  function LikeStep(s: Store, postId: int, userId: int): (t: Step)
  {
    if postId !in s.posts then
      Step(NotFound(PostNotFound), s)
    else if Like(userId, postId) in s.likes then
      Step(Conflict(AlreadyLiked), s)
    else
      Step(Ok(LikeAdded),
           s.(likes := s.likes + {Like(userId, postId)}, posts := Bump(s.posts, postId, 1)))
  }

  /** `unlikePost`: the post must exist, then the pair must be present; only
      then is the row removed and the counter lowered by one. */
  function UnlikeStep(s: Store, postId: int, userId: int): (t: Step)
  {
    if postId !in s.posts then
      Step(NotFound(PostNotFound), s)
    else if Like(userId, postId) !in s.likes then
      Step(NotFound(NotLiked), s)
    else
      Step(Ok(LikeRemoved),
           s.(likes := s.likes - {Like(userId, postId)}, posts := Bump(s.posts, postId, -1)))
  }

  // ---------------------------------------------------------------------
  // Counting like rows

  lemma LikesOfInsert(likes: set<Like>, l: Like, postId: int)
    requires l !in likes
    ensures LikesOf(likes + {l}, postId) ==
            if l.postId == postId then LikesOf(likes, postId) + {l} else LikesOf(likes, postId)
    ensures |LikesOf(likes + {l}, postId)| ==
            if l.postId == postId then |LikesOf(likes, postId)| + 1 else |LikesOf(likes, postId)|
  {
  }

  lemma LikesOfRemove(likes: set<Like>, l: Like, postId: int)
    requires l in likes
    ensures LikesOf(likes - {l}, postId) ==
            if l.postId == postId then LikesOf(likes, postId) - {l} else LikesOf(likes, postId)
    ensures |LikesOf(likes - {l}, postId)| ==
            if l.postId == postId then |LikesOf(likes, postId)| - 1 else |LikesOf(likes, postId)|
  {
  }

  // ---------------------------------------------------------------------
  // create

  /** `create` adds exactly one post, under a key no post had, with the
      given content and author and no likes; the likes and users tables and
      every other post are unchanged. */
  lemma CreateStepAddsOnePost(s: Store, content: string, userId: int, now: int)
    requires Consistent(s)
    ensures var c := CreateStep(s, content, userId, now);
      && c.id !in s.posts
      && c.post == Post(content, userId, 0, now)
      && c.store.posts.Keys == s.posts.Keys + {c.id}
      && |c.store.posts| == |s.posts| + 1
      && c.store.posts[c.id] == c.post
      && (forall id :: id in s.posts ==> c.store.posts[id] == s.posts[id])
      && c.store.likes == s.likes && c.store.users == s.users
  {
  }

  lemma CreatePreservesConsistent(s: Store, content: string, userId: int, now: int)
    requires Consistent(s)
    ensures Consistent(CreateStep(s, content, userId, now).store)
  {
  }

  // ---------------------------------------------------------------------
  // likePost

  /** The three outcomes of `likePost`, in the order the service checks them:
      a missing post wins over an existing like, and both failures leave the
      store as it was. A success inserts exactly the new pair and raises that
      post's counter, and only that post's counter, by one. */
  lemma LikeStepOutcomes(s: Store, postId: int, userId: int)
    ensures var t := LikeStep(s, postId, userId);
      && (t.result == NotFound(PostNotFound) <==> postId !in s.posts)
      && (t.result == Conflict(AlreadyLiked) <==> postId in s.posts && Like(userId, postId) in s.likes)
      && (t.result == Ok(LikeAdded) <==> postId in s.posts && Like(userId, postId) !in s.likes)
      && (!t.result.Ok? ==> t.store == s)
      && (t.result.Ok? ==>
            && Like(userId, postId) !in s.likes
            && t.store.likes == s.likes + {Like(userId, postId)}
            && |t.store.likes| == |s.likes| + 1
            && t.store.posts.Keys == s.posts.Keys
            && t.store.posts[postId].likesCount == s.posts[postId].likesCount + 1
            && t.store.posts[postId].(likesCount := 0) == s.posts[postId].(likesCount := 0)
            && (forall q :: q in s.posts && q != postId ==> t.store.posts[q] == s.posts[q])
            && t.store.users == s.users && t.store.nextId == s.nextId)
  {
  }

  lemma {:induction false} LikePreservesConsistent(s: Store, postId: int, userId: int)
    requires Consistent(s)
    ensures Consistent(LikeStep(s, postId, userId).store)
  {
    var t := LikeStep(s, postId, userId);
    if t.result.Ok? {
      var l := Like(userId, postId);
      forall q | q in t.store.posts
        ensures t.store.posts[q].likesCount == |LikesOf(t.store.likes, q)|
      {
        LikesOfInsert(s.likes, l, q);
      }
    }
  }

  // ---------------------------------------------------------------------
  // unlikePost

  /** The three outcomes of `unlikePost`, in the order the service checks
      them; both failures leave the store as it was. A success removes
      exactly the pair and lowers that post's counter, and only that one, by
      one. */
  lemma UnlikeStepOutcomes(s: Store, postId: int, userId: int)
    ensures var t := UnlikeStep(s, postId, userId);
      && (t.result == NotFound(PostNotFound) <==> postId !in s.posts)
      && (t.result == NotFound(NotLiked) <==> postId in s.posts && Like(userId, postId) !in s.likes)
      && (t.result == Ok(LikeRemoved) <==> postId in s.posts && Like(userId, postId) in s.likes)
      && (!t.result.Ok? ==> t.store == s)
      && (t.result.Ok? ==>
            && Like(userId, postId) in s.likes
            && t.store.likes == s.likes - {Like(userId, postId)}
            && |t.store.likes| == |s.likes| - 1
            && t.store.posts.Keys == s.posts.Keys
            && t.store.posts[postId].likesCount == s.posts[postId].likesCount - 1
            && t.store.posts[postId].(likesCount := 0) == s.posts[postId].(likesCount := 0)
            && (forall q :: q in s.posts && q != postId ==> t.store.posts[q] == s.posts[q])
            && t.store.users == s.users && t.store.nextId == s.nextId)
  {
  }

  lemma {:induction false} UnlikePreservesConsistent(s: Store, postId: int, userId: int)
    requires Consistent(s)
    ensures Consistent(UnlikeStep(s, postId, userId).store)
  {
    var t := UnlikeStep(s, postId, userId);
    if t.result.Ok? {
      var l := Like(userId, postId);
      forall q | q in t.store.posts
        ensures t.store.posts[q].likesCount == |LikesOf(t.store.likes, q)|
      {
        LikesOfRemove(s.likes, l, q);
      }
    }
  }

  /** In a consistent store no counter is negative, and a successful unlike
      starts from a counter of at least one, so it never goes below zero. */
  lemma CountersNeverNegative(s: Store, postId: int, userId: int)
    requires Consistent(s)
    ensures forall q :: q in s.posts ==> s.posts[q].likesCount >= 0
    ensures UnlikeStep(s, postId, userId).result.Ok? ==>
              s.posts[postId].likesCount >= 1 &&
              UnlikeStep(s, postId, userId).store.posts[postId].likesCount >= 0
  {
  }

  // ---------------------------------------------------------------------
  // Round trips

  /** A successful like followed by an unlike of the same pair gives back the
      store as it was. */
  lemma LikeThenUnlikeRestores(s: Store, postId: int, userId: int)
    requires LikeStep(s, postId, userId).result.Ok?
    ensures UnlikeStep(LikeStep(s, postId, userId).store, postId, userId) == Step(Ok(LikeRemoved), s)
  {
  }

  /** A successful unlike followed by a like of the same pair gives back the
      store as it was. */
  lemma UnlikeThenLikeRestores(s: Store, postId: int, userId: int)
    requires UnlikeStep(s, postId, userId).result.Ok?
    ensures LikeStep(UnlikeStep(s, postId, userId).store, postId, userId) == Step(Ok(LikeAdded), s)
  {
  }

  // ---------------------------------------------------------------------
  // Any sequence of calls

  datatype Call =
    | CreateCall(content: string, author: int, now: int)
    | LikeCall(postId: int, userId: int)
    | UnlikeCall(postId: int, userId: int)

  function Apply(s: Store, c: Call): (r: Store)
  {
    match c
    case CreateCall(content, author, now) => CreateStep(s, content, author, now).store
    case LikeCall(p, u) => LikeStep(s, p, u).store
    case UnlikeCall(p, u) => UnlikeStep(s, p, u).store
  }

  /** The store after the calls in order, each completed before the next. */
  function Run(s: Store, calls: seq<Call>): (r: Store)
    decreases |calls|
  {
    if calls == [] then s else Run(Apply(s, calls[0]), calls[1..])
  }

  /** After any sequence of completed calls every counter still equals the
      number of like rows for its post. */
  lemma {:induction false} RunPreservesConsistent(s: Store, calls: seq<Call>)
    requires Consistent(s)
    ensures Consistent(Run(s, calls))
    decreases |calls|
  {
    if calls != [] {
      match calls[0] {
        case CreateCall(content, author, now) => CreatePreservesConsistent(s, content, author, now);
        case LikeCall(p, u) => LikePreservesConsistent(s, p, u);
        case UnlikeCall(p, u) => UnlikePreservesConsistent(s, p, u);
      }
      RunPreservesConsistent(Apply(s, calls[0]), calls[1..]);
    }
  }

  /** Post 1 with no likes; user 7 likes it (counter 1), likes it again
      (Conflict, counter still 1), then unlikes it (counter 0). */
  lemma LikeTwiceThenUnlikeScenario(users: map<int, User>, now: int)
    ensures var s0 := CreateStep(Empty(users), "hola", 7, now).store;
      && s0.posts[1].likesCount == 0
      && var t1 := LikeStep(s0, 1, 7);
      && t1.result == Ok(LikeAdded) && t1.store.posts[1].likesCount == 1
      && var t2 := LikeStep(t1.store, 1, 7);
      && t2.result == Conflict(AlreadyLiked) && t2.store.posts[1].likesCount == 1
      && var t3 := UnlikeStep(t2.store, 1, 7);
      && t3.result == Ok(LikeRemoved) && t3.store.posts[1].likesCount == 0
  {
  }
}
