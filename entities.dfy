/** The two persistent entities, User.java and Task.java, as values. */
module Entities {

  /** Database identities (Long columns generated by the IDENTITY strategy). */
  type UserId = nat
  type TaskId = nat

  /** A user row; `password` holds the encoded password, never the raw one. */
  datatype User = User(id: UserId, name: string, email: string, password: string)

  /** A task row; the many-to-one `user` association is kept as the owner's id. */
  datatype Task = Task(id: TaskId, title: string, description: string, completed: bool, owner: UserId)
}
