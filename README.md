# PeriConecta posts and users services, modelled in Dafny

This project models the business logic of the PeriConecta social-network
backend (a NestJS + TypeORM application):

- **Users service** (`src/users/users.service.ts`). Lookups by id and by
  alias select six columns: id, firstName, lastName, alias, birthDate and
  email. The password is never selected. A lookup that matches no row fails
  with NotFound `Usuario no encontrado`. The profile is the lookup by id,
  reshaped.
- **Posts service** (`src/posts/posts.service.ts`). It creates posts, lists
  all posts or one author's posts newest first, and fetches one post. It
  also likes and unlikes a post. A like row is unique per (userId, postId)
  pair. Each like or unlike keeps the post's `likesCount` counter in step.

The database is an abstract in-memory store, `PostLedger.Store`:

- `users` is a map from id to user row.
- `posts` is a map from id to `(content, userId, likesCount, createdAt)`.
- `likes` is a set of `(userId, postId)` pairs. Being a set gives the
  `@Unique(['userId','postId'])` constraint.
- `nextId` is the next key the auto-increment column hands out.

The main invariant is `PostLedger.Consistent`: every post's `likesCount`
equals the number of like rows for that post, and every like row points at
an existing post. `create`, `likePost` and `unlikePost` each preserve it, and
so does any sequence of them. So a counter is never negative.

Modules:

- `Entities` holds the rows, the projections, the `Result` type
  (`Ok | NotFound | Conflict`) and the service's messages.
- `Users` holds the user lookups, as pure functions over the users map.
- `PostLedger` holds the store, the invariant, and one function per
  state-changing call (`CreateStep`, `LikeStep`, `UnlikeStep`). The lemmas
  about these functions are the properties of the service.
- `PostQueries` holds `findAll`, `findMyPosts` and `findOne`, as functions
  over a store value.
- `Posts` holds `PostsService`, a class whose fields are the tables. Its
  methods `Create`, `LikePost` and `UnlikePost` update them step by step, in
  the service's order. Each method is proved to reach exactly the state and
  answer of the matching `PostLedger` step.

Each call is modelled as one atomic step. The service's own database I/O
(`findOne`, `save`, `increment`, `decrement`, `remove`) becomes map and set
updates.

Where the code and its unit test disagree, the model follows the code. The
unit test asserts calls that the service does not make:

- The `likePost` success test (`src/posts/posts.service.spec.ts:266-276`)
  expects a lookup of the liking user's id, firstName, lastName and alias,
  then `emitLikeAdded` and `emitLikeCountUpdate` on `PostsGateway`.
- The `unlikePost` success test (`src/posts/posts.service.spec.ts:331-332`)
  expects `emitLikeRemoved` and `emitLikeCountUpdate`. It expects no user
  lookup.
- Both tests also set up a second `findOne` of the post
  (`src/posts/posts.service.spec.ts:243-244, 311-312`), but no assertion
  checks that it happens.

The service takes no gateway (`src/posts/posts.service.ts:15-22`) and makes
none of these calls. So in the model a like or unlike changes the tables and
returns a message, and does nothing else.

## Model

| member | source | states |
|---|---|---|
| `Users.FindById` | src/users/users.service.ts:13-24 | succeeds exactly when a row has the id; the result carries that row's six selected columns; otherwise NotFound `Usuario no encontrado` |
| `Users.FindByAlias` | src/users/users.service.ts:26-37 | succeeds exactly when some row has the alias, and returns that row's id and six selected columns; otherwise NotFound `Usuario no encontrado` (the empty alias included) |
| `Users.GetProfile` | src/users/users.service.ts:39-50 | succeeds exactly when a row has the id; the profile holds that row's six columns; otherwise the lookup's NotFound unchanged |
| `Users.GetProfileIsFindById` | src/users/users.service.ts:39-50 | the profile is exactly the lookup by id, on success and on failure |
| `Users.PasswordNeverSelected` | src/users/users.service.ts:13-50 | changing any user's password changes the result of none of the three lookups, and keeps aliases unique |
| `Users.UnknownIdNotFound` | src/users/users.service.ts:13-24 | any id with no row (zero and negative ids included) gives NotFound from both the id lookup and the profile |
| `Users.UnknownAliasNotFound` | src/users/users.service.ts:26-37 | an alias that no row has gives NotFound |
| `Users.AliasAndIdAgree` | src/users/users.service.ts:13-37 | looking a user up by its own alias gives the same profile as looking it up by id |
| `PostLedger.Empty` | src/entities/post.entity.ts:32-36 | empty posts and likes tables satisfy the counter invariant |
| `PostLedger.CreateStepAddsOnePost` | src/posts/posts.service.ts:24-31 | `create` adds exactly one post under a key not used before, with the given content and author and `likesCount` 0; likes, users and every other post are unchanged |
| `PostLedger.CreatePreservesConsistent` | src/posts/posts.service.ts:24-31 | `create` keeps every counter equal to the like rows of its post |
| `PostLedger.LikeStepOutcomes` | src/posts/posts.service.ts:89-117 | NotFound `Publicación no encontrada` exactly when the post is missing, whether or not the pair exists; Conflict `Ya has dado like a esta publicación` exactly when the post exists and the pair is present; `Like agregado exitosamente` otherwise. Failures leave the store unchanged. A success adds exactly the new pair, raises that post's counter by 1 and changes nothing else |
| `PostLedger.LikePreservesConsistent` | src/posts/posts.service.ts:105-114 | inserting the pair and incrementing the counter keeps every counter equal to the like rows of its post |
| `PostLedger.UnlikeStepOutcomes` | src/posts/posts.service.ts:119-142 | NotFound `Publicación no encontrada` exactly when the post is missing; NotFound `No has dado like a esta publicación` exactly when the post exists without the pair; `Like removido exitosamente` otherwise. Failures leave the store unchanged. A success removes exactly the pair, lowers that post's counter by 1 and changes nothing else |
| `PostLedger.UnlikePreservesConsistent` | src/posts/posts.service.ts:135-139 | removing the pair and decrementing the counter keeps every counter equal to the like rows of its post |
| `PostLedger.CountersNeverNegative` | src/posts/posts.service.ts:135-139 | in a consistent store no counter is negative, and a successful unlike starts from at least 1, so it never goes below 0 |
| `PostLedger.LikeThenUnlikeRestores` | src/posts/posts.service.ts:89-142 | a successful like followed by unlike of the same pair succeeds and restores the modelled store exactly (every column except `updatedAt`) |
| `PostLedger.UnlikeThenLikeRestores` | src/posts/posts.service.ts:89-142 | a successful unlike followed by like of the same pair succeeds and restores the modelled store exactly (likes identified by their pair; `updatedAt` not modelled) |
| `PostLedger.RunPreservesConsistent` | src/posts/posts.service.ts:24-142 | after any sequence of completed create/like/unlike calls, every counter equals the number of like rows for its post |
| `PostLedger.LikeTwiceThenUnlikeScenario` | src/posts/posts.service.ts:89-142 | on a fresh post: like gives count 1; a second like by the same user gives Conflict and count stays 1; unlike gives count 0 |
| `PostQueries.NewestFirst` | src/posts/posts.service.ts:44-46 | lists every key of the table exactly once, ordered by `createdAt` descending, with ties settled by key |
| `PostQueries.View` | src/posts/posts.service.ts:35-43 | a listed post carries its own modelled columns; when the author exists, its author's id, firstName, lastName and alias from that user row, otherwise no author; and exactly its like rows |
| `PostQueries.FindAll` | src/posts/posts.service.ts:33-48 | returns every post exactly once, each joined as in `View`, with `createdAt` non-increasing |
| `PostQueries.AuthoredBy` | src/posts/posts.service.ts:50-53 | keeps exactly the rows whose `userId` is the given author |
| `PostQueries.FindMyPosts` | src/posts/posts.service.ts:50-66 | returns exactly the posts whose `userId` is the given one, each once, joined as in `View`, with `createdAt` non-increasing |
| `PostQueries.MyPostsFollowFeedOrder` | src/posts/posts.service.ts:33-66 | one author's posts are exactly that author's entries of `findAll`, in the same order |
| `PostQueries.FindOne` | src/posts/posts.service.ts:68-87 | succeeds exactly when the key exists and returns that post joined; otherwise NotFound `Publicación no encontrada` |
| `Posts.PostsService.constructor` | src/posts/posts.service.ts:15-22 | a service over empty posts and likes tables satisfies the invariant |
| `Posts.PostsService.Create` | src/posts/posts.service.ts:24-31 | ends in `CreateStep`'s state and returns its key and row; keeps the invariant |
| `Posts.PostsService.LikePost` | src/posts/posts.service.ts:89-117 | ends in `LikeStep`'s state and answer; a failure changes nothing; keeps the invariant |
| `Posts.PostsService.UnlikePost` | src/posts/posts.service.ts:119-142 | ends in `UnlikeStep`'s state and answer; a failure changes nothing; a success lowers the counter to a value ≥ 0; keeps the invariant |
| `Posts.LikeThenUnlike` | src/posts/posts.service.ts:89-142 | through the service object, a successful like followed by an unlike restores all modelled tables (`updatedAt` not modelled) |

## Left out

- Socket events: `PostsGateway` (`src/posts/posts.gateway.ts`) broadcasts over socket.io with wall-clock timestamps, and the service never calls it.
- `getPostsWithLikes` (`src/posts/posts.service.ts:144-169`): a TypeORM query-builder chain that selects a column, `post.message`, which the entity does not have. It states nothing beyond "newest first", which `PostQueries.FindAll` already covers.
- Controllers, module wiring, the database seeder and the auth service. These are HTTP routing, configuration and startup I/O. Auth also depends on bcrypt and JWT, which are foreign libraries.
- DTO validation (content non-empty, at most 500 characters): class-validator does it before the service runs. The service stores any content.
- Foreign keys on `userId`: the store accepts a post or like whose user has no row. The database would reject such an insert with a storage error, and in the application the user id always comes from the authenticated token. The foreign key from a like to its post is part of `PostLedger.Consistent`.
- Storage errors (lost connection, constraint violations): the service does not handle them. Each call is modelled as one atomic, sequential step, so neither the check-then-insert race nor the non-atomic pair "insert like, then increment" is modelled.
- Like rows have their own `id` and `createdAt` in the database. The model identifies a like by its (userId, postId) pair only. The like relation in a listing is therefore a set of pairs.
- `updatedAt` on posts (`src/entities/post.entity.ts:40-41`) is not in the model. The database sets it on `create` and again on every `increment` and `decrement` of the counter (`src/posts/posts.service.ts:114, 139`). `findAll`, `findMyPosts` and `findOne` return it, but `PostView` does not carry it. Users' `createdAt` and `updatedAt` are not in the model either; no lookup selects them.
- Timestamps and keys: `createdAt` is a parameter of `Create` (the database clock). Keys come from an auto-increment counter starting at 1.
- `PostQueries.FindAll`, `PostQueries.FindMyPosts`: the database orders only by `createdAt` descending. The order among posts with equal `createdAt` is unspecified, and the model fixes it as key descending. The contracts of these two functions state only that `createdAt` never increases along the list.
- `PostQueries.MyPostsFollowFeedOrder`: holds only under the model's key tie-break. The source runs two separate queries, each ordered only by `createdAt` (`src/posts/posts.service.ts:44-46, 62-64`). So two posts of one author with equal `createdAt` may come out in a different relative order in the two listings.
- `PostLedger.LikeThenUnlikeRestores`, `PostLedger.UnlikeThenLikeRestores`, `Posts.LikeThenUnlike`: restore the store only over the modelled columns. In the database the post's `updatedAt` moves on each increment and decrement. After unlike-then-like, the new like row also has a fresh `id` and `createdAt`.
- `Users.FindByAlias`: requires that aliases are unique. This is the database's unique constraint on `alias` (`src/entities/user.entity.ts:35`), and it makes the matched row determined.
- `PostQueries.FindAll`: the TypeORM `select` lists only the author's columns. The model returns the post's own columns other than `updatedAt`, as the entity and the tests show.
