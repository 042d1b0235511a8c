/** The records the repositories store and exchange (package `domain`). */
module Domain {

  /** A registered account. `password` holds the plaintext on the way into
      CreateUser and the bcrypt hash once stored. */
  datatype User = User(id: int, username: string, password: string, role: string)

  /** A login request: a username and a plaintext password. */
  datatype Credentials = Credentials(username: string, password: string)

  /** The claims of a session token: the user's id and role and, of the
      registered JWT claims, the expiry time in Unix seconds (the only one
      the repository sets or reads). */
  datatype Claims = Claims(userId: int, role: string, expiresAt: int)

  /** A 12-byte MongoDB object identifier. */
  type ObjectID = s: seq<bv8> | |s| == 12 witness [0, 0, 0, 0, 0, 0, 0, 0, 0, 0, 0, 0]

  /** A task's status; any text can arrive, three values are valid. */
  type TaskStatus = string

  const TaskStatusStarted: TaskStatus := "Started"
  const TaskStatusInProgress: TaskStatus := "InProgress"
  const TaskStatusComplete: TaskStatus := "Complete"

  datatype Task = Task(id: ObjectID, title: string, description: string, status: TaskStatus)
}
