/** Rows of the three tables (users, posts, likes), the projections the
    services hand out, and the outcomes of a service call. */
module Entities {

  datatype Option<+T> = None | Some(value: T)

  /** The outcome of a service call: a value, or the NotFound / Conflict
      exception the service throws, with its message. */
  datatype Result<+T> = Ok(value: T) | NotFound(msg: string) | Conflict(msg: string)

  /** A calendar date, as stored in the `date` column `birthDate`. */
  datatype Date = Date(year: int, month: int, day: int)

  /** A row of the users table; the key (id) is the key of the map that holds it. */
  datatype User = User(
    email: string,
    password: string,
    firstName: string,
    lastName: string,
    alias: string,
    birthDate: Date)

  /** The six columns the user lookups select: everything except the password. */
  datatype UserProfile = UserProfile(
    id: int,
    firstName: string,
    lastName: string,
    alias: string,
    birthDate: Date,
    email: string)

  /** The four author columns joined into every post listing. */
  datatype Author = Author(id: int, firstName: string, lastName: string, alias: string)

  /** A row of the posts table; the key (id) is the key of the map that holds it.
      `likesCount` is a signed integer column so that "never below zero" is a
      property to prove, not a consequence of the type. */
  datatype Post = Post(content: string, userId: int, likesCount: int, createdAt: int)

  /** A row of the likes table, identified by its (userId, postId) pair. */
  datatype Like = Like(userId: int, postId: int)

  /** A post as the read queries return it: its own columns, the author
      projection (absent when no user has that id) and its like rows. */
  datatype PostView = PostView(
    id: int,
    content: string,
    userId: int,
    likesCount: int,
    createdAt: int,
    user: Option<Author>,
    likes: set<Like>)

  const UserNotFound: string := "Usuario no encontrado"
  const PostNotFound: string := "Publicación no encontrada"
  const AlreadyLiked: string := "Ya has dado like a esta publicación"
  const NotLiked: string := "No has dado like a esta publicación"
  const LikeAdded: string := "Like agregado exitosamente"
  const LikeRemoved: string := "Like removido exitosamente"
}
