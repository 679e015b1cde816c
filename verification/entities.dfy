/** The record shapes the client receives from the server (src/models/models/forum.ts).
    Timestamps are kept as the text the server sends; they are only displayed. */
module Entities {
  import opened Options

  datatype User = User(
    userId: string,
    email: string,
    firstName: string,
    lastName: string,
    password: Option<string>)

  datatype Comment = Comment(
    id: string,
    message: string,
    createdAt: string,
    user: User)

  datatype Forum = Forum(
    id: string,
    title: string,
    description: string,
    createdAt: string,
    createdBy: User,
    commentsCount: nat,
    lastComment: Option<Comment>)

  /** The forum was created by the user with id `userId`: the filter of the
      forum page and the owner-only edit/delete buttons of a list item. */
  predicate OwnedBy(f: Forum, userId: string) {
    f.createdBy.userId == userId
  }
}
