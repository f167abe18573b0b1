/** The records the leaderboard store keeps: users, submissions and the
    persisted document that holds both lists. */
module Types {

  /** An opaque unique identifier (a random UUID string in the store). */
  type Id = string

  /** A wall-clock reading in milliseconds. */
  type Millis = int

  datatype Option<T> = None | Some(value: T)

  /** A registered user. `total_submissions` is the counter the ranking sorts on. */
  datatype User = User(id: Id, username: string, total_submissions: nat, created_at: Millis)

  /** One accepted submission; `user_id` refers back to the user who made it.
      The optional `note` field is never written by the store and is not modelled. */
  datatype Submission = Submission(id: Id, user_id: Id, created_at: Millis)

  /** The whole persisted document: it is read and written back in one piece. */
  datatype LocalDB = LocalDB(users: seq<User>, submissions: seq<Submission>)

  /** The document used when nothing has been stored yet. */
  const EMPTY_DB := LocalDB([], [])
}
