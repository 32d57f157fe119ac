/** The read side of the posts service: every post newest first, one
    author's posts newest first, and one post by key; each post joined with
    its author's four public columns and its like rows. */
module PostQueries {
  import opened Entities
  import opened PostLedger

  /** Post `a` is listed before post `b`: it was created later, or at the
      same time with a larger key. The database orders by `createdAt`
      descending only; the key settles ties so that the order is total. */
  predicate Before(posts: map<int, Post>, a: int, b: int)
    requires a in posts && b in posts
  {
    posts[a].createdAt > posts[b].createdAt ||
    (posts[a].createdAt == posts[b].createdAt && a > b)
  }

  /** `ids` lists keys of `posts`, each one before every later one. */
  predicate Descending(posts: map<int, Post>, ids: seq<int>)
  {
    && (forall k :: 0 <= k < |ids| ==> ids[k] in posts)
    && (forall i, j :: 0 <= i < j < |ids| ==> Before(posts, ids[i], ids[j]))
  }

  predicate IsNewest(posts: map<int, Post>, id: int)
  {
    id in posts && forall j :: j in posts && j != id ==> Before(posts, id, j)
  }

  /** Dropping some posts keeps the listing order of the others. */
  lemma BeforeInSubmap(sub: map<int, Post>, posts: map<int, Post>, a: int, b: int)
    requires a in sub && b in sub
    requires forall id :: id in sub ==> id in posts && sub[id] == posts[id]
    ensures Before(sub, a, b) <==> Before(posts, a, b)
  {
  }

  /** A table with at least one row has a key. */
  lemma HasKey(posts: map<int, Post>)
    requires |posts| > 0
    ensures exists id :: id in posts
  {
    if forall id :: id !in posts.Keys {
      assert false;
    }
  }

  lemma {:induction false} NewestExists(posts: map<int, Post>)
    requires |posts| > 0
    ensures exists id :: IsNewest(posts, id)
    decreases |posts|
  {
    HasKey(posts);
    var k :| k in posts;
    var rest := posts - {k};
    assert rest.Keys == posts.Keys - {k};
    if forall j :: j in posts ==> j == k {
      assert IsNewest(posts, k);
    } else {
      var other :| other in posts && other != k;
      assert other in rest;
      NewestExists(rest);
      var m :| IsNewest(rest, m);
      if Before(posts, k, m) {
        forall j | j in posts && j != k ensures Before(posts, k, j) {
          if j != m {
            assert j in rest;
            BeforeInSubmap(rest, posts, m, j);
          }
        }
        assert IsNewest(posts, k);
      } else {
        forall j | j in posts && j != m ensures Before(posts, m, j) {
          if j != k {
            assert j in rest;
            BeforeInSubmap(rest, posts, m, j);
          }
        }
        assert IsNewest(posts, m);
      }
    }
  }

  lemma NewestUnique(posts: map<int, Post>)
    ensures forall a, b :: IsNewest(posts, a) && IsNewest(posts, b) ==> a == b
  {
  }

  /** Putting the newest post in front of a listing of the others lists them all. */
  lemma NewestInFront(posts: map<int, Post>, id: int, rest: seq<int>)
    requires IsNewest(posts, id)
    requires Descending(posts - {id}, rest)
    requires forall x :: x in posts - {id} <==> x in rest
    ensures Descending(posts, [id] + rest)
    ensures forall x :: x in posts <==> x in [id] + rest
  {
  }

  /** The keys of `posts`, newest first. */
  function NewestFirst(posts: map<int, Post>): (ids: seq<int>)
    ensures |ids| == |posts|
    ensures Descending(posts, ids)
    ensures forall id :: id in posts <==> id in ids
    decreases |posts|
  {
    if |posts| == 0 then []
    else
      NewestExists(posts);
      NewestUnique(posts);
      var id :| IsNewest(posts, id);
      var rest := posts - {id};
      assert rest.Keys == posts.Keys - {id};
      var tail := NewestFirst(rest);
      NewestInFront(posts, id, tail);
      [id] + tail
  }

  /** Post `id` joined with its author's public columns and its like rows. */
  function View(s: Store, id: int): (v: PostView)
    requires id in s.posts
    ensures v.id == id
    ensures v.content == s.posts[id].content && v.userId == s.posts[id].userId
    ensures v.likesCount == s.posts[id].likesCount && v.createdAt == s.posts[id].createdAt
    ensures v.user.Some? <==> s.posts[id].userId in s.users
    ensures v.user.Some? ==>
              v.user.value == Author(v.userId, s.users[v.userId].firstName,
                                     s.users[v.userId].lastName, s.users[v.userId].alias)
    ensures forall l :: l in v.likes <==> l in s.likes && l.postId == id
  {
    var p := s.posts[id];
    var author :=
      if p.userId in s.users then
        var u := s.users[p.userId];
        Some(Author(p.userId, u.firstName, u.lastName, u.alias))
      else None;
    PostView(id, p.content, p.userId, p.likesCount, p.createdAt, author, LikesOf(s.likes, id))
  }

  function Views(s: Store, ids: seq<int>): (vs: seq<PostView>)
    requires forall k :: 0 <= k < |ids| ==> ids[k] in s.posts
    ensures |vs| == |ids|
    ensures forall k :: 0 <= k < |ids| ==> vs[k] == View(s, ids[k])
  {
    seq(|ids|, k requires 0 <= k < |ids| => View(s, ids[k]))
  }

  /** Joining a listing of the keys of `sub` (part of the posts table) gives
      one view per key, each key once, newest first. */
  lemma {:induction false} ViewsListing(s: Store, sub: map<int, Post>, ids: seq<int>)
    requires forall id :: id in sub ==> id in s.posts && sub[id] == s.posts[id]
    requires Descending(sub, ids)
    requires forall id :: id in sub <==> id in ids
    ensures forall k :: 0 <= k < |ids| ==> ids[k] in s.posts
    ensures var r := Views(s, ids);
      && (forall k :: 0 <= k < |r| ==> r[k].id in sub && r[k] == View(s, r[k].id))
      && (forall id :: id in sub ==> exists k :: 0 <= k < |r| && r[k].id == id)
      && (forall i, j :: 0 <= i < j < |r| ==> r[i].id != r[j].id && r[i].createdAt >= r[j].createdAt)
  {
    forall k | 0 <= k < |ids| ensures ids[k] in s.posts {
      var id := ids[k];
      assert id in sub;
    }
    var r := Views(s, ids);
    forall k | 0 <= k < |r| ensures r[k].id in sub && r[k] == View(s, r[k].id) {
      assert r[k].id == ids[k];
    }
    forall i, j | 0 <= i < j < |r| ensures r[i].id != r[j].id && r[i].createdAt >= r[j].createdAt {
      assert Before(sub, ids[i], ids[j]);
    }
    forall id | id in sub ensures exists k :: 0 <= k < |r| && r[k].id == id {
      var k :| 0 <= k < |ids| && ids[k] == id;
      assert r[k].id == id;
    }
  }

  /** `findAll`: every post exactly once, newest first. */
  function FindAll(s: Store): (r: seq<PostView>)
    ensures |r| == |s.posts|
    ensures forall k :: 0 <= k < |r| ==> r[k].id in s.posts && r[k] == View(s, r[k].id)
    ensures forall id :: id in s.posts ==> exists k :: 0 <= k < |r| && r[k].id == id
    ensures forall i, j :: 0 <= i < j < |r| ==> r[i].id != r[j].id && r[i].createdAt >= r[j].createdAt
  {
    var ids := NewestFirst(s.posts);
    ViewsListing(s, s.posts, ids);
    Views(s, ids)
  }

  /** The rows of `posts` written by `userId`. */
  function AuthoredBy(posts: map<int, Post>, userId: int): (r: map<int, Post>)
    ensures forall id :: id in r <==> id in posts && posts[id].userId == userId
    ensures forall id :: id in r ==> r[id] == posts[id]
  {
    map id | id in posts && posts[id].userId == userId :: posts[id]
  }

  /** `findMyPosts`: the posts whose author is `userId`, newest first. */
  function FindMyPosts(s: Store, userId: int): (r: seq<PostView>)
    ensures forall k :: 0 <= k < |r| ==> r[k].id in s.posts && r[k] == View(s, r[k].id)
    ensures forall k :: 0 <= k < |r| ==> r[k].userId == userId
    ensures forall id :: id in s.posts && s.posts[id].userId == userId ==>
              exists k :: 0 <= k < |r| && r[k].id == id
    ensures forall i, j :: 0 <= i < j < |r| ==> r[i].id != r[j].id && r[i].createdAt >= r[j].createdAt
  {
    var mine := AuthoredBy(s.posts, userId);
    var ids := NewestFirst(mine);
    ViewsListing(s, mine, ids);
    Views(s, ids)
  }

  /** `findOne`: the post with key `id`, or NotFound. */
  function FindOne(s: Store, id: int): (r: Result<PostView>)
    ensures r.Ok? <==> id in s.posts
    ensures r.Ok? ==> r.value.id == id && r.value == View(s, id)
    ensures !r.Ok? ==> r == NotFound(PostNotFound)
  {
    if id in s.posts then Ok(View(s, id)) else NotFound(PostNotFound)
  }

  // ---------------------------------------------------------------------
  // findMyPosts lists the same posts in the same order as findAll

  /** The views among `vs` whose author is `userId`, in their order. */
  function ByAuthor(vs: seq<PostView>, userId: int): (r: seq<PostView>)
    ensures forall k :: 0 <= k < |r| ==> r[k] in vs && r[k].userId == userId
  {
    if vs == [] then []
    else if vs[0].userId == userId then [vs[0]] + ByAuthor(vs[1..], userId)
    else ByAuthor(vs[1..], userId)
  }

  /** The keys among `ids` whose author is `userId`, in their order. */
  function KeysByAuthor(posts: map<int, Post>, ids: seq<int>, userId: int): (r: seq<int>)
    requires forall k :: 0 <= k < |ids| ==> ids[k] in posts
    ensures forall id :: id in r <==> id in ids && posts[id].userId == userId
    ensures forall k :: 0 <= k < |r| ==> r[k] in posts
  {
    if ids == [] then []
    else if posts[ids[0]].userId == userId then [ids[0]] + KeysByAuthor(posts, ids[1..], userId)
    else KeysByAuthor(posts, ids[1..], userId)
  }

  /** Keeping one author's keys of a listing keeps it in listing order. */
  lemma {:induction false} KeysByAuthorDescending(posts: map<int, Post>, ids: seq<int>, userId: int)
    requires Descending(posts, ids)
    ensures Descending(AuthoredBy(posts, userId), KeysByAuthor(posts, ids, userId))
  {
    if ids != [] {
      KeysByAuthorDescending(posts, ids[1..], userId);
      var rest := KeysByAuthor(posts, ids[1..], userId);
      var mine := AuthoredBy(posts, userId);
      if posts[ids[0]].userId == userId {
        var r := [ids[0]] + rest;
        forall i, j | 0 <= i < j < |r| ensures Before(mine, r[i], r[j]) {
          assert r[j] == rest[j - 1] && r[j] in rest;
          if i == 0 {
            var m :| 0 <= m < |ids[1..]| && ids[1..][m] == r[j];
            assert Before(posts, ids[0], ids[m + 1]);
          } else {
            assert r[i] == rest[i - 1];
          }
        }
      }
    }
  }

  lemma ViewsCons(s: Store, ids: seq<int>)
    requires ids != []
    requires forall k :: 0 <= k < |ids| ==> ids[k] in s.posts
    ensures Views(s, ids) == [View(s, ids[0])] + Views(s, ids[1..])
  {
  }

  lemma {:induction false} ViewsByAuthor(s: Store, ids: seq<int>, userId: int)
    requires forall k :: 0 <= k < |ids| ==> ids[k] in s.posts
    ensures ByAuthor(Views(s, ids), userId) == Views(s, KeysByAuthor(s.posts, ids, userId))
  {
    if ids != [] {
      ViewsCons(s, ids);
      ViewsByAuthor(s, ids[1..], userId);
      var vs := Views(s, ids);
      assert vs[0] == View(s, ids[0]);
      assert vs[1..] == Views(s, ids[1..]);
      var rest := KeysByAuthor(s.posts, ids[1..], userId);
      if s.posts[ids[0]].userId == userId {
        ViewsCons(s, [ids[0]] + rest);
        assert ([ids[0]] + rest)[1..] == rest;
      }
    }
  }

  /** The first key of a listing comes before every other key in it. */
  lemma FirstComesFirst(posts: map<int, Post>, ids: seq<int>, x: int)
    requires Descending(posts, ids)
    requires x in ids
    ensures x == ids[0] || Before(posts, ids[0], x)
  {
  }

  /** A listing holds no key twice, so its tail holds all keys but the first. */
  lemma TailKeys(posts: map<int, Post>, ids: seq<int>, x: int)
    requires Descending(posts, ids)
    requires ids != []
    ensures x in ids[1..] <==> x in ids && x != ids[0]
  {
  }

  /** Two listings of the same keys, both in listing order, are equal. */
  lemma {:induction false} DescendingUnique(posts: map<int, Post>, a: seq<int>, b: seq<int>)
    requires Descending(posts, a) && Descending(posts, b)
    requires forall id :: id in a ==> id in b
    requires forall id :: id in b ==> id in a
    ensures a == b
    decreases |a|
  {
    if a == [] || b == [] {
      var x := if a != [] then a[0] else if b != [] then b[0] else 0;
      assert a != [] ==> x in a;
      assert b != [] ==> x in b;
      assert x in a <==> x in b;
    } else {
      assert a[0] in a && b[0] in b;
      FirstComesFirst(posts, a, b[0]);
      FirstComesFirst(posts, b, a[0]);
      forall id | id in a[1..] ensures id in b[1..] {
        TailKeys(posts, a, id);
        TailKeys(posts, b, id);
      }
      forall id | id in b[1..] ensures id in a[1..] {
        TailKeys(posts, a, id);
        TailKeys(posts, b, id);
      }
      DescendingUnique(posts, a[1..], b[1..]);
      assert a == [a[0]] + a[1..];
      assert b == [b[0]] + b[1..];
    }
  }

  /** One author's posts are exactly the posts of the full listing written by
      that author, in the full listing's order. */
  lemma MyPostsFollowFeedOrder(s: Store, userId: int)
    ensures FindMyPosts(s, userId) == ByAuthor(FindAll(s), userId)
  {
    var all := NewestFirst(s.posts);
    var mine := AuthoredBy(s.posts, userId);
    var filtered := KeysByAuthor(s.posts, all, userId);
    KeysByAuthorDescending(s.posts, all, userId);
    DescendingUnique(mine, NewestFirst(mine), filtered);
    ViewsByAuthor(s, all, userId);
  }
}
