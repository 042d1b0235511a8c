# In-memory task and user stores, modelled in Dafny

This project models the two in-memory repositories of a task-management backend written in Go:

- **The task store** (`repository/task_repository.go`). It has a validator, a set of pure rules over a task's title, description and status, checked in that order. The store holds an ordered list of tasks. Create validates a task, gives it a fresh id and appends it. Update validates the task, then replaces the first task with the same id in place. Delete splices out the first task with the id. There are also lookups by id and a listing of all tasks.
- **The user store** (`repository/user_repository.go`). It holds an ordered list of users and a counter, `lastUserID`. Registration refuses a taken username, hashes the password with bcrypt, takes the next id from the counter and appends the user. Login checks the password of the first user with the username and issues an HS256 JSON Web Token (RFC 7519). Token validation checks the parse and signature first, then the token's validity flag, then the expiry.

Each store's mutex is held for the whole of every method. Each method is therefore modelled as one atomic step on a Dafny class: `InMemoryTaskRepository` has a `tasks: seq<Task>` field, and `InMemoryUserRepository` has `users: seq<User>` and `lastUserID: int`. Each class has an object invariant, `Valid()`:

- Task store: every stored task passes validation, and no two tasks share an id.
- User store: usernames are unique, ids strictly increase along the list, and every id is between 1 and `lastUserID`.

The store methods are proved against specification functions over the old list: `FirstWithId`, `Removed`, `FirstWithUsername`, `Registered` and `Authenticate`. The lemmas beside them state the properties the callers rely on:

- what a later lookup finds;
- that the invariants are kept;
- that registering and then logging in yields the stored user's token;
- that an issued token validates until its expiry and is refused by the parse after it (`TokenRefusedAfterExpiry`).

Modules: `Outcomes` (result values that carry Go's error texts), `Seqs` (the first-match scan that every lookup loop performs), `GoStrings` (`unicode.IsSpace`, `strings.TrimSpace`, and `len` as UTF-8 byte length), `Domain` (the records), `Crypto` (bcrypt and jwt as supplied functions, with the properties relied on), `TaskRepository` and `UserRepository`.

Foreign code, the clock and the id generator become inputs:

- bcrypt's `GenerateFromPassword`/`CompareHashAndPassword` and jwt's `SignedString`/`ParseWithClaims` are function-valued fields of the `Bcrypt` and `Jwt` datatypes. The parse takes the clock, because jwt runs the `Valid()` check of the embedded `jwt.StandardClaims` inside the parse. What the repository relies on is stated as four predicates, and only the lemmas that need them require them:
  - `BcryptSound`: a password matches a hash generated from it.
  - `JwtRoundTrip`: a token signed under a key, parsed under that key, either fails or yields the claims it was signed over, marked valid, and it does not fail before its expiry.
  - `JwtParseOkIsValid`: a parse that returns no error marks the token valid.
  - `JwtChecksExpiry`: a token that parses as valid and carries a non-zero expiry has not passed it. Releases of jwt v4 differ on the very second of expiry, so that case is left open.
- `time.Now()` is a parameter `now` in Unix seconds. `config.SecretKey` and `config.TokenExpiration` (in whole seconds) are fields of the `AuthService` value that the user store holds.
- `primitive.NewObjectID()` is a parameter `newId` of `CreateTask`, with the precondition that no stored task has it. The source trusts the generator for this and never checks it.
- A write through the argument pointer (`task.ID`, `user.ID`, `user.Password`) is an extra result: the caller's record after the call.

Points of the code that the model keeps as written:

- Go's `len` counts bytes, so the title bounds count bytes, not characters. A title of two two-byte characters is accepted (`TitleBoundsCountBytes`).
- `GetAllTasks` hands out the store's own slice rather than a copy. The model returns the list as a value.
- `ValidateToken` has a third rejection, "token is not valid", between the parse check and the expiry check. jwt v4 marks a token valid exactly when the parse returns no error, so this branch is never taken (`NotValidBranchUnreachable`, from `JwtParseOkIsValid`). The model's parse may still return a token that is not valid, which over-approximates the library.
- Because jwt already refuses an expired token inside the parse, an issued token past its expiry gets "failed to parse token: …", not "token has expired" (`TokenRefusedAfterExpiry`). The explicit expiry check fails only for a token with no expiry claim (`ExplicitExpiryOnlyWithoutExp`).
- The error texts are the source's own. The title bound messages ("less than 100", "greater than 3") do not match the checks (over 100 and under 3 bytes). The model follows the checks.

## Model

| member | source | states |
|---|---|---|
| GoStrings.TrimSpace | repository/task_repository.go:99 | the result is the slice of s left after cutting a white-space prefix and a white-space suffix, and it neither starts nor ends with white space; it is "" exactly when every character is Unicode white space |
| GoStrings.ByteLen | repository/task_repository.go:102-106 | `len` of a string is its UTF-8 byte count, between the number of characters and four times it |
| GoStrings.AsciiByteLen | repository/task_repository.go:102-106 | on ASCII text the byte length equals the number of characters |
| GoStrings.NonAsciiByteLen | repository/task_repository.go:102-106 | a single non-ASCII character makes the byte length exceed the character count |
| TaskRepository.ValidateTitle | repository/task_repository.go:98-109 | passes exactly the non-blank titles of 3 to 100 bytes (both ends included); a blank title gets the empty error whatever its length; otherwise over 100 bytes is too long and under 3 bytes too short |
| TaskRepository.ValidateDescription | repository/task_repository.go:111-116 | passes exactly the non-blank descriptions, with no upper bound; the only error is the empty one |
| TaskRepository.ValidateStatus | repository/task_repository.go:118-125 | passes exactly the three status constants; anything else is "status is invalid" |
| TaskRepository.Validate | repository/task_repository.go:85-96 | passes exactly the tasks whose title, description and status are all valid; reports the title error if any, else the description error, else the status error |
| TaskRepository.TitleVerdictOnAscii | repository/task_repository.go:98-109 | for non-blank ASCII titles: 101 characters or more is too long, 2 or fewer too short, 3 to 100 valid |
| TaskRepository.TitleBoundsCountBytes | repository/task_repository.go:102-107 | two two-byte characters (4 bytes) pass; 34 three-byte characters (102 bytes) are too long |
| Seqs.FirstIndex | repository/task_repository.go:47-52 | the scan of a `range` loop that stops at the first match: the index of the first occurrence of the key, or none exactly when the key does not occur |
| TaskRepository.FirstWithId | repository/task_repository.go:47-51 | the index the range loop stops at: the first task holding the id, or none when no task holds it |
| TaskRepository.Removed | repository/task_repository.go:78 | the splice removes exactly one position: it keeps everything before it and shifts everything after it down by one, in order |
| TaskRepository.CreateKeepsInvariant | repository/task_repository.go:26-32 | appending a valid task under an unused id keeps every stored task valid and ids distinct; a lookup of the new id finds it at the end |
| TaskRepository.UpdateKeepsInvariant | repository/task_repository.go:59-66 | replacing the first task with the id by a valid task keeps the invariant; a lookup of the id then finds the new task at the same index |
| TaskRepository.DeleteKeepsInvariant | repository/task_repository.go:76-79 | splicing out a task keeps the invariant; with distinct ids, a later lookup of the removed id finds nothing |
| TaskRepository.InMemoryTaskRepository.constructor | repository/task_repository.go:18-20 | a new store is empty and valid |
| TaskRepository.InMemoryTaskRepository.CreateTask | repository/task_repository.go:22-34 | the result is the validator's verdict; on success the task gets the fresh id and is appended with earlier tasks unchanged; on failure the list and the caller's task are unchanged; the invariant is kept |
| TaskRepository.InMemoryTaskRepository.GetAllTasks | repository/task_repository.go:36-41 | returns the stored list in insertion order and changes nothing |
| TaskRepository.InMemoryTaskRepository.GetTaskByID | repository/task_repository.go:43-53 | succeeds exactly when some task has the id, returning the first such task; otherwise "task not found"; changes nothing |
| TaskRepository.InMemoryTaskRepository.UpdateTask | repository/task_repository.go:55-70 | an invalid task gets its validation error and changes nothing; a valid one replaces the first task with its id at the same index, leaving length and all other positions unchanged; with no such task it gets "task not found" and changes nothing |
| TaskRepository.InMemoryTaskRepository.DeleteTask | repository/task_repository.go:72-83 | removes the first task with the id, keeping the order of the rest; with no such task it gets "task not found" and changes nothing |
| UserRepository.GenerateToken | repository/user_repository.go:78-94 | an issued token, parsed under the secret key at any time before its expiry, yields claims carrying the user's id and role and an expiry tokenExpiration after the issue time |
| UserRepository.ValidateToken | repository/user_repository.go:96-117 | a parse failure is reported as "failed to parse token: " plus its error before anything else is checked; a parsed token that is not valid gets "token is not valid"; a valid one whose expiry is before now gets "token has expired"; a valid one expiring at now or later is accepted with its claims; success implies all three checks passed |
| UserRepository.TokenValidBeforeExpiry | repository/user_repository.go:78-116 | a token issued at time t validates to the issued claims at every time before t + tokenExpiration |
| UserRepository.TokenRefusedAfterExpiry | repository/user_repository.go:100-106 | after its expiry an issued token fails inside the parse, so the answer is the parse error, never "token has expired" |
| UserRepository.NotValidBranchUnreachable | repository/user_repository.go:108-110 | when a parse without error always marks the token valid, "token is not valid" is never the answer |
| UserRepository.ExplicitExpiryOnlyWithoutExp | repository/user_repository.go:112-114 | when jwt checks expiry itself, the explicit "token has expired" branch is reached only by a token whose expiry claim is 0 (absent) |
| UserRepository.FirstWithUsername | repository/user_repository.go:55-56 | the index the range loop stops at: the first user with the username, or none when no user has it |
| UserRepository.Authenticate | repository/user_repository.go:51-64 | an unknown username and a wrong password for the first user with the username get the identical error "invalid username or password"; a password that matches the first such user's hash yields exactly that user's token (or the signing error); success happens only that way |
| UserRepository.Registered | repository/user_repository.go:42-46 | the definition of the user CreateUser stores: the argument with the hash as password and the counter plus one as id, username and role kept |
| UserRepository.CreateUserKeepsInvariant | repository/user_repository.go:28-49 | appending a user under a new username with the next id keeps usernames distinct, ids strictly increasing and all ids between 1 and the counter |
| UserRepository.RegisterThenAuthenticate | repository/user_repository.go:38-58 | given that a password matches its own bcrypt hash, login with the password just registered answers with the token of the stored user |
| UserRepository.InMemoryUserRepository.constructor | repository/user_repository.go:21-26 | a new store has no users and the counter at 0 |
| UserRepository.InMemoryUserRepository.CreateUser | repository/user_repository.go:28-49 | a taken username gives "username already exists", and a bcrypt failure gives its error; in both cases the list, the counter and the argument are unchanged; otherwise the counter goes up by exactly one, the user gets it as id and the hash as password, and is appended with earlier users unchanged; the invariant is kept |
| UserRepository.InMemoryUserRepository.AuthenticateUser | repository/user_repository.go:51-64 | answers as Authenticate on the current list: only the first username match is checked; changes nothing |
| UserRepository.InMemoryUserRepository.GetUserByUsername | repository/user_repository.go:66-76 | succeeds exactly when some user has the username, returning the first such user; otherwise "user not found"; changes nothing |

## Left out

- Mutexes (`taskMu`, `userMu`): every method holds its store's lock for its whole run, so each is modelled as one atomic sequential step. Interleavings are not modelled.
- bcrypt and jwt internals: hashing, salting, cost, HMAC-SHA256 and token encoding are foreign libraries, represented by the supplied functions and the predicates above. jwt's own checks of the registered claims are part of the supplied parse; only its expiry check is stated (`JwtChecksExpiry`). A forged or altered token is therefore modelled only as "parse fails".
- Claims: of jwt's registered claims only `ExpiresAt` is modelled, because `generateToken` sets no other one.
- Clock: `time.Now()` is the parameter `now`, in Unix seconds. The expiration duration is taken in whole seconds, so the sub-second truncation of `Unix()` is not modelled.
- UserRepository.ValidateToken: the source reads the clock twice, once inside the parse and once at the explicit expiry check. The model uses one `now` for both, so a tick between the two readings is not modelled.
- UserRepository.TokenValidBeforeExpiry: says nothing about the very second of expiry, where jwt v4 releases disagree.
- UserRepository.InMemoryUserRepository.CreateUser: 64-bit wrap-around of `lastUserID` is not modelled, because it needs 2^63 registrations.
- UserRepository.GenerateToken: 64-bit overflow of `now + TokenExpiration` is not modelled, because it is beyond any realistic clock.
- TaskRepository.InMemoryTaskRepository.CreateTask: `primitive.NewObjectID()` is an external generator. The fresh id is a parameter that no stored task may hold. That precondition stands for the generator's uniqueness, which the code does not check.
- Strings are sequences of Unicode scalar values, so a Go string holding invalid UTF-8 cannot be represented.
- domain/task.go is not part of this model. `Task` has only the four fields the repository reads or writes (id, title, description, status). The three status texts are placeholders; only their distinctness matters (Go rejects duplicate constant cases in a switch).
- TaskRepository.InMemoryTaskRepository.GetAllTasks: the source returns the store's own slice, so later writes through it would alias the store. The model returns the list as a value. Aliasing also runs the other way: `UpdateTask` (`r.tasks[i] = *task`) and `DeleteTask` (the in-place splice) rewrite the backing array that an earlier result shares, so after a delete a list the caller still holds appears shifted, with its last element doubled. The model does not capture this. The nil error it always returns is dropped.
- TaskRepository.InMemoryTaskRepository.GetTaskByID and UserRepository.InMemoryUserRepository.GetUserByUsername return a pointer to a copy in the source. The model returns the record as a value.
- `fmt.Printf` in `CreateUser` (console output) and the unused `context.Context` parameters.
- The HTTP controller, the use-case layer (one-line delegation to the repository) and process start-up are outside the core.
