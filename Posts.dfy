/** The posts service as an object over the tables it updates in place.
    `Create`, `LikePost` and `UnlikePost` change the tables step by step, as
    the service does (look the post up, look the like up, insert or remove
    the like row, then move the counter); each is proved to end in the
    state, and give the answer, that the matching step of `PostLedger`
    describes, and to keep the counters equal to the like rows. The read
    queries are the functions of `PostQueries`, applied to `Snapshot()`. */
module Posts {
  import opened Entities
  import opened PostLedger

  class PostsService {
    var users: map<int, User>
    var posts: map<int, Post>
    var likes: set<Like>
    var nextId: int

    /** The tables as one value. */
    function Snapshot(): (s: Store)
      reads this
    {
      Store(users, posts, likes, nextId)
    }

    ghost predicate Valid()
      reads this
    {
      Consistent(Snapshot())
    }

    /** A service over the given users and no posts or likes yet. */
    constructor (users: map<int, User>)
      ensures Valid()
      ensures Snapshot() == Empty(users)
    {
      this.users := users;
      posts := map[];
      likes := {};
      nextId := 1;
    }

    /** `create`: save a new row with the given content and author; the
        store assigns the key and the creation time `now`. */
    method Create(content: string, userId: int, now: int) returns (id: int, post: Post)
      requires Valid()
      modifies this
      ensures Valid()
      ensures Created(id, post, Snapshot()) == CreateStep(old(Snapshot()), content, userId, now)
      ensures id !in old(posts) && posts == old(posts)[id := post]
      ensures post == Post(content, userId, 0, now)
      ensures likes == old(likes) && users == old(users)
    {
      CreatePreservesConsistent(Snapshot(), content, userId, now);
      post := Post(content, userId, 0, now);
      id := nextId;
      posts := posts[id := post];
      nextId := nextId + 1;
    }

    /** `likePost`: NotFound when the post is missing (before any like
        lookup), Conflict when the pair is already there; otherwise insert
        the pair and raise the counter by one. */
    method LikePost(postId: int, userId: int) returns (r: Result<string>)
      requires Valid()
      modifies this
      ensures Valid()
      ensures Step(r, Snapshot()) == LikeStep(old(Snapshot()), postId, userId)
      ensures !r.Ok? ==> posts == old(posts) && likes == old(likes)
      ensures users == old(users) && nextId == old(nextId)
    {
      LikePreservesConsistent(Snapshot(), postId, userId);
      if postId !in posts {
        return NotFound(PostNotFound);
      }
      var like := Like(userId, postId);
      if like in likes {
        return Conflict(AlreadyLiked);
      }
      likes := likes + {like};
      posts := posts[postId := posts[postId].(likesCount := posts[postId].likesCount + 1)];
      r := Ok(LikeAdded);
    }

    /** `unlikePost`: NotFound when the post is missing (before any like
        lookup), NotFound when the pair is not there; otherwise remove the
        pair and lower the counter by one. */
    method UnlikePost(postId: int, userId: int) returns (r: Result<string>)
      requires Valid()
      modifies this
      ensures Valid()
      ensures Step(r, Snapshot()) == UnlikeStep(old(Snapshot()), postId, userId)
      ensures !r.Ok? ==> posts == old(posts) && likes == old(likes)
      ensures r.Ok? ==> posts[postId].likesCount == old(posts[postId].likesCount) - 1 >= 0
      ensures users == old(users) && nextId == old(nextId)
    {
      UnlikePreservesConsistent(Snapshot(), postId, userId);
      CountersNeverNegative(Snapshot(), postId, userId);
      if postId !in posts {
        return NotFound(PostNotFound);
      }
      var like := Like(userId, postId);
      if like !in likes {
        return NotFound(NotLiked);
      }
      likes := likes - {like};
      posts := posts[postId := posts[postId].(likesCount := posts[postId].likesCount - 1)];
      r := Ok(LikeRemoved);
    }
  }

  /** Liking and then unliking through the service gives back the tables as
      they were, when the like succeeded. */
  method LikeThenUnlike(svc: PostsService, postId: int, userId: int)
    returns (liked: Result<string>, unliked: Result<string>)
    requires svc.Valid()
    modifies svc
    ensures svc.Valid()
    ensures liked.Ok? ==> unliked == Ok(LikeRemoved) && svc.Snapshot() == old(svc.Snapshot())
  {
    ghost var before := svc.Snapshot();
    liked := svc.LikePost(postId, userId);
    unliked := svc.UnlikePost(postId, userId);
    if liked.Ok? {
      LikeThenUnlikeRestores(before, postId, userId);
    }
  }
}
