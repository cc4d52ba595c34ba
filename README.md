# Task Manager API — verified Dafny model

This project models the logic of the Go exercises in `abe16s/Task-Manager-API-Final`.

- **Library lending simulator.** Book and member objects are shared between the library's map of books and each member's borrowed list.
- **First in-memory task store.** A package-level slice of tasks.
- **Task2 string exercises.** `Palindrome` and `WordCount`.
- **Task and user use cases.** They run over repository, password and JWT collaborators.
- **Bearer-token middleware.** Three versions, together with the JWT issue/validate service.
- **MongoDB-backed repositories and services.** One set for tasks and one for users, including the retry loops that draw fresh uuids.

Imperative source code is modelled as classes with `modifies` clauses and loops with invariants:
- the library;
- the task slice;
- the repositories and services over a collection;
- the caller's `*User` that registration writes to.

Pure decisions are modelled as functions:
- the middlewares;
- the JWT helpers;
- the use-case delegation.

Each operation is tied to a specification function or to a preserved invariant, and lemmas state what the source promises about it.

Modelling choices:
- **Collaborators the code cannot see are parameters.** This covers the repository, password service and JWT service interfaces, the MongoDB driver's faults, bcrypt, the token signer and the decoding of a compact token. Use cases return the calls they made (`Traced`). This makes "the repository is never called" and "called with exactly this task" statable.
- **Collections.** A collection is a class holding `map<Uuid, T>`. Duplicate keys on `_id` and `username` are decided by the map. A driver error, or a duplicate on an index the model does not track, comes in as a per-call fault.
- **Fresh ids.** `uuid.New()` inside a retry loop is a finite supply of draws. Running out of draws is a model-only error, `Exhausted`.
- **Time.** Time is an integer: seconds for Unix timestamps and due dates, nanoseconds where the source adds a raw `time.Duration`.
- **Code that is repeated across files is modelled once.** Each such member has one row below, citing its first copy:
  - `task_manager/infrastructure/auth_middleware.go:22-54` repeats the closure of `infrastructure/auth_middleware.go`, so `AuthGate.Gate` models both.
  - The store-backed `task_manager/usecases/task_service.go:27-147` runs the same cursor walk, lookup, delete and insert loop as the task repository, so `TaskRepository.TaskRepository` models both.
  - The registration loop at `task_manager/services/user_service.go:100-120` is the repository's, so `UserRepository.InsertWithFreshIds` models both.
- **Strings.** `strings.ToLower`, RE2 `\w`/`\s` and `strings.Fields` are modelled on ASCII. `strings.Split(h, " ")` is `SplitSpace`: it gives exactly two parts iff `h` holds exactly one space.

## Model

| member | source | states |
|---|---|---|
| LibraryService.Library.AddBook | library_management/services/library_service.go:22-24 | A fresh book object carrying exactly the given fields replaces any entry under its id. Every other entry and the members are unchanged. The lending invariant is kept. |
| LibraryService.Library.RemoveBook | library_management/services/library_service.go:26-28 | Only that key leaves the book map, and an absent key changes nothing. Members and their borrowed lists are untouched. The lending invariant is kept. |
| LibraryService.Library.constructor | library_management/main.go:10-11 | A library starts with no books and the given members. When no member has borrowed anything, as at start-up, the lending invariant holds, which is the base case for every operation below. |
| LibraryService.Library.BorrowBook | library_management/services/library_service.go:30-44 | Errors come in a fixed order: unknown book, unknown member, book already "Borrowed". Any other status can be borrowed. On error nothing changes. On success the very object in the map is marked "Borrowed" and appended to the member's list. The lending invariant is kept, so no book is ever lent twice. |
| LibraryService.FindBorrowed | library_management/services/library_service.go:51-52 | The search stops at the first entry with the id, or at the end of the list when there is none. |
| LibraryService.Library.Release | library_management/services/library_service.go:53-54 | The found entry is marked "Available" and spliced out, and the rest of the list keeps its order. The lending invariant is kept. |
| LibraryService.Library.ReturnBook | library_management/services/library_service.go:46-59 | An unknown member is an error. Only the member's list is searched: the first entry with the id is marked "Available" and spliced out, and the rest keep their order. No entry means an error with the list and every status unchanged. The invariant is kept. |
| LibraryService.Library.ListAvailableBooks | library_management/services/library_service.go:61-69 | It returns a copy of each book whose status is exactly "Available". Each key appears once and no other book appears, in the order of the map walk. |
| LibraryService.Library.ListBorrowedBooks | library_management/services/library_service.go:71-81 | Empty for an unknown member; otherwise copies of the member's borrowed books in list order. |
| TaskList.InitialTasks | task_manager/services/task_service.go:13-17 | The start-up slice has three tasks with ids "1", "2", "3", one per status, each due a day after the previous one. |
| TaskList.InitialIdsUnique | task_manager/services/task_service.go:13-17 | The start-up ids are distinct. |
| TaskList.TaskStore.GetTasks | task_manager/services/task_service.go:26-28 | It returns the stored tasks, all of them and in order (as a value; see "## Left out"). |
| TaskList.TaskStore.GetTaskById | task_manager/services/task_service.go:30-37 | Success iff some task has the id, and then it is the first such task; otherwise "task not found". |
| TaskList.Revise | task_manager/services/task_service.go:39-57 | Succeeds iff the new status is exactly one of the three words or "". Title, description and due date are always replaced. "" keeps the old status. The id is kept. Anything else gets the "status must be ..." message. |
| TaskList.TaskStore.UpdateTaskByID | task_manager/services/task_service.go:39-57 | An unknown id gives the lookup error. Otherwise the result is the revision of the first match. No `modifies`: the slice itself never changes, because the edit works on a copy. |
| TaskList.TaskStore.DeleteTask | task_manager/services/task_service.go:59-67 | Splices out the first match and returns it; the others keep their order. No match is an error with the slice unchanged. |
| TaskList.TaskStore.AddTask | task_manager/services/task_service.go:69-77 | Appends the task under id `len+1`, with "Pending" for an empty status and no other check. The returned task is the new last element. |
| TaskList.ReusedIdAfterDelete | task_manager/services/task_service.go:69-77 | As written: after deleting "1" from the start-up slice, adding a task gives ids "2", "3", "3". |
| TaskList.TaskStore.AddTaskFresh | task_manager/services/task_service.go:69-77 | Corrected: the new id differs from every id in the slice, so unique ids stay unique. Otherwise the same as AddTask. |
| TaskList.FreshIdAfterDelete | task_manager/services/task_service.go:69-77 | Corrected: the same steps leave three distinct ids. |
| Palindrome.Normalize | Task2/palindrom.go:9-12 | After lower-casing and dropping `[^\w]`, only `[0-9a-z_]` remains. |
| Palindrome.MirroredIffReversed | Task2/palindrom.go:15-21 | The two-pointer condition (each character equals its mirror) holds iff the string equals its reverse. |
| Palindrome.Scan | Task2/palindrom.go:13-22 | The two-pointer loop answers true iff every character equals its mirror. |
| Palindrome.Palindrome | Task2/palindrom.go:8-23 | The scan returns true iff the normalised string equals its reverse. |
| Palindrome.CaseInsensitive | Task2/palindrom.go:9 | Lower-casing the input first changes nothing. |
| Palindrome.NonWordIgnored | Task2/palindrom.go:11-12 | Deleting a non-word character anywhere changes nothing. |
| Palindrome.NoWordCharsIsPalindrome | Task2/palindrom.go:13-22 | An input without word characters (including the empty input) is a palindrome. |
| Palindrome.UnderscoreKept | Task2/palindrom.go:11 | Every input that holds an underscore still holds one after normalisation. So the underscore is compared: "_a" is not a palindrome. |
| WordCount.Normalize | Task2/wordcount.go:9-12 | Only `[0-9a-z_]` and RE2 white space survive normalisation. |
| WordCount.TallyCounts | Task2/wordcount.go:14-18 | The keys of the tally are exactly the fields. Each count is the number of occurrences of that field, and at least 1. |
| WordCount.Count | Task2/wordcount.go:14-17 | The counting loop yields the tally of the fields it walks. |
| WordCount.WordCount | Task2/wordcount.go:8-19 | The result is the tally of the fields of the normalised input. |
| WordCount.TallyEmptyIff | Task2/wordcount.go:14-18 | The tally is empty exactly when there is no field. |
| WordCount.NoFieldIffNoWordChar | Task2/wordcount.go:9-15 | Normalising leaves no field exactly when the input holds no word character. |
| WordCount.TallySum | Task2/wordcount.go:15-17 | The counts add up to the number of fields. |
| WordCount.KeysAreLowerWords | Task2/wordcount.go:9-12 | Every key is a non-empty run of `[0-9a-z_]`. |
| WordCount.CaseInsensitive | Task2/wordcount.go:9 | Lower-casing the input first changes nothing. |
| WordCount.EmptyIffNoWordChar | Task2/wordcount.go:14-18 | The map is empty exactly when the input holds no word character, which covers empty and white-space-only input. |
| WordCount.PunctuationDropped | Task2/wordcount.go:11-12 | A character that is neither a word character nor a space is deleted before splitting, so "don't" counts as "dont". |
| Ascii.SplitSpace | infrastructure/auth_middleware.go:21-22 | `strings.Split(h, " ")` gives one more part than `h` has spaces, none of them holding a space. |
| Ascii.SplitJoin | infrastructure/auth_middleware.go:21 | Joining the parts with single spaces gives back the header. |
| Ascii.SplitAroundSpace | infrastructure/auth_middleware.go:21-28 | A header made of two space-free words around one space splits into exactly those two words. |
| Ascii.DecimalRoundTrip | task_manager/services/task_service.go:70 | Parsing the decimal text of n gives n back. |
| Ascii.ContainsNothingLonger | task_manager/repositories/user_repository.go:114-118 | A message never contains a longer word, so "_id" never contains "username". |
| Domain.ValidStatusIgnoresCase | usecases/task_usecase.go:40 | The status gate judges a status and its lower-case form alike. |
| TaskUsecase.GetTasks | usecases/task_usecase.go:23-29 | One repository call; its list or error comes back unchanged. |
| TaskUsecase.GetTaskById | usecases/task_usecase.go:31-37 | One call with the same id; its answer comes back unchanged. |
| TaskUsecase.UpdateTaskByID | usecases/task_usecase.go:39-49 | A status outside the three words in any case gives "status error" with no repository call. Otherwise one call with the same id and task, and its error comes back unchanged. |
| TaskUsecase.DeleteTask | usecases/task_usecase.go:51-57 | One call with the same id; its error comes back unchanged. |
| TaskUsecase.AddTask | usecases/task_usecase.go:59-69 | The same gate applies. A passing task goes to the repository under the fresh id, with every other field (status text included) as given. The repository's answer comes back. |
| TaskUsecase.GatesAgree | usecases/task_usecase.go:40-42 | For Update and Add alike, the repository is called iff the status passes the gate. |
| TaskUsecase.GatesIgnoreCase | usecases/task_usecase.go:60-62 | Both gates decide a status and its lower-case form alike. |
| TaskUsecase.AddIgnoresCallerId | usecases/task_usecase.go:63-64 | The caller's id never reaches the repository. |
| TaskUsecaseEarly.GetTasks | task_manager/usecases/task_usecase.go:15-21 | One repository call; its list or error comes back unchanged. |
| TaskUsecaseEarly.GetTaskById | task_manager/usecases/task_usecase.go:23-29 | One call with the same id; its answer comes back unchanged. |
| TaskUsecaseEarly.UpdateTaskByID | task_manager/usecases/task_usecase.go:31-37 | No status check: every update reaches the repository, whose task or error comes back. |
| TaskUsecaseEarly.DeleteTask | task_manager/usecases/task_usecase.go:39-45 | One call with the same id; its error comes back unchanged. |
| TaskUsecaseEarly.AddTask | task_manager/usecases/task_usecase.go:47-56 | The status gate applies, and the task goes to the repository exactly as given, id included. |
| TaskUsecaseEarly.AddDiffersOnlyInId | task_manager/usecases/task_usecase.go:47-56 | The later AddTask is this one applied to the task under its fresh id. |
| TaskUsecaseEarly.UpdateGateIsNew | task_manager/usecases/task_usecase.go:31-37 | On a valid status both Update versions make the same call; on any other status only this one reaches the repository. |
| UserUsecase.RegisterUser | task_manager/usecases/user_usecase.go:18-44 | A Count error returns before anything else, with the user untouched. Otherwise the user gets the fresh id, and becomes admin when the count is 0, never losing the flag. A hash error returns without a repository call. Otherwise the password becomes the hash and the repository is called with exactly that user; its answer comes back. |
| UserUsecase.LoginUser | task_manager/usecases/user_usecase.go:48-66 | A GetUser error comes back unchanged. A mismatch gives "invalid credentials" and no token is asked for. The token is asked for with the stored username and admin flag. A generation failure gives "internal server error". |
| UserUsecase.LoginIgnoresRequestedAdmin | task_manager/usecases/user_usecase.go:60-63 | The admin flag a login request carries never influences the outcome. |
| UserUsecase.TokenOnlyAfterMatch | task_manager/usecases/user_usecase.go:53-57 | A token comes back only when the stored hash matched. |
| UserUsecase.PromoteUser | task_manager/usecases/user_usecase.go:70-72 | One repository call; its result comes back exactly. |
| AuthGate.Gate | infrastructure/auth_middleware.go:11-46 | The checks, in order: an empty header gives 401 "authorization header is required"; not exactly one space or no "bearer" (any case) gives 401 "invalid authorization header"; a validator error gives 401 with its text; a failed admin check gives 403 "Forbidden". The handler runs iff all pass. |
| AuthGate.GateOnBearerHeader | infrastructure/auth_middleware.go:28-43 | The validator sees exactly the token part of a bearer header. Its error text becomes the 401 message, and only the admin check gives 403. |
| AuthGate.GateIgnoresAdminWhenUnchecked | infrastructure/auth_middleware.go:36-43 | With adminCheck false, ValidateAdmin is never consulted. |
| AuthGate.GateEmptyHeaderConsultsNothing | infrastructure/auth_middleware.go:14-19 | An empty header is refused without consulting the validator or ValidateAdmin. |
| AuthGate.LegacyGate | task_manager/middleware/auth_middleware.go:14-47 | The same header checks with capitalised messages. Then "Invalid JWT" unless the token parses as HMAC under the literal key and is valid. The handler runs iff all pass. |
| AuthGate.LegacyIgnoresAdminCheck | task_manager/middleware/auth_middleware.go:14-46 | adminCheck is never read: admin routes admit every valid token. |
| AuthGate.LegacyAgreesWithGate | task_manager/middleware/auth_middleware.go:14-47 | The oldest gate lets through exactly what the newer one lets through with the admin check off and a validator that parses under the literal key. |
| Jwt.Parse | task_manager/infrastructure/jwt_services.go:54-60 | A token comes back iff it decodes, uses HMAC, was signed with the key and its numeric expiry has not passed, where an expiry of 0 means none. |
| Jwt.GenerateToken | task_manager/infrastructure/jwt_services.go:27-41 | An HS256 token with exactly "username", "isAdmin" and "exp" (now plus twenty minutes, in seconds), signed with the literal "JwtSecret". A signer failure gives "can't sign token". |
| Jwt.ValidateAuthHeader | task_manager/infrastructure/jwt_services.go:44-67 | An empty header gives "authorization header is required" and a misshapen one "invalid authorization header". Every parse failure gives "invalid JWT". A token comes back only if it verifies under the configured secret. |
| Jwt.ValidateAdmin | task_manager/infrastructure/jwt_services.go:70-73 | True iff the "is_admin" claim is true. The type assertion's panic on a missing or non-bool claim is its precondition. |
| Jwt.BearerHeader | task_manager/infrastructure/jwt_services.go:48-60 | A "<bearer> <token>" header reaches the parser with exactly the token. |
| Jwt.GeneratedTokenRejected | task_manager/infrastructure/jwt_services.go:34 | As written: a generated token never validates unless the configured secret is "JwtSecret". |
| Jwt.GeneratedTokenHasNoAdminClaim | task_manager/infrastructure/jwt_services.go:31 | As written: a generated token carries no "is_admin" claim, so ValidateAdmin cannot read it. |
| Jwt.GenerateTokenFixed | task_manager/infrastructure/jwt_services.go:27-41 | Corrected: the flag goes under "is_admin" and the token is signed with the configured secret. |
| Jwt.FixedTokenRoundTrip | task_manager/infrastructure/jwt_services.go:27-73 | Corrected: a token presented within twenty minutes validates, and ValidateAdmin gives back the flag it was issued with. |
| Jwt.FixedTokenExpires | task_manager/infrastructure/jwt_services.go:27-66 | Corrected: for a token issued after the Unix epoch, after twenty minutes the same token is refused with "invalid JWT". |
| MongoDriver.SetFields | task_manager/repositories/task_repository.go:80-87 | The `$set` replaces title, description, due date and status, and never the id. |
| MongoDriver.UserInsertReply | task_manager/repositories/user_repository.go:109 | An insert into the users collection succeeds iff there is no fault, the id is free and the username is free. Only a driver error is a non-duplicate failure. |
| MongoDriver.TaskInsertReply | task_manager/repositories/task_repository.go:129 | An insert into the tasks collection succeeds iff there is no fault and the id is free. |
| MongoDriver.PromotedEffect | task_manager/repositories/user_repository.go:165 | `$set is_admin` keeps every user's id, name and password, makes the named user admin and leaves every other flag alone. |
| MongoDriver.PromotedWellFormed | task_manager/repositories/user_repository.go:165 | Promotion keeps ids and unique usernames. |
| MongoDriver.PromotedIdempotent | task_manager/repositories/user_repository.go:165 | Promoting twice is promoting once. |
| TaskRepository.FirstSettled | task_manager/repositories/task_repository.go:126-137 | Every draw before the settling one ended in a duplicate key, and the settling one did not. |
| TaskRepository.FreshDrawSettles | task_manager/repositories/task_repository.go:126-137 | A fault-free draw of an unused id ends the retries. |
| TaskRepository.TaskRepository.GetTasks | task_manager/repositories/task_repository.go:26-54 | The first failure of Find, a decode or the cursor is returned. Otherwise every stored task is listed exactly once. |
| TaskRepository.TaskRepository.GetTaskById | task_manager/repositories/task_repository.go:56-74 | The stored task, or "task Not Found" for an absent id; other errors pass through. |
| TaskRepository.TaskRepository.UpdateTaskByID | task_manager/repositories/task_repository.go:76-101 | An absent id gives "task not found" with the store unchanged. Otherwise only the four fields of that task change, with no status check. |
| TaskRepository.TaskRepository.DeleteTask | task_manager/repositories/task_repository.go:103-120 | Exactly that id is removed; zero removed gives "task not found". |
| TaskRepository.TaskRepository.AddTask | task_manager/repositories/task_repository.go:122-139 | The caller's id is replaced draw after draw while inserts hit a duplicate key. A driver error is returned with nothing stored. Success stores the task under a previously unused drawn id and returns it. |
| TaskStoreService.TaskService.UpdateTaskByID | task_manager/usecases/task_service.go:77-109 | A status outside the three words in any case gives "status error" before the store is touched. Otherwise the four fields are overwritten and the post-update document comes back; an absent id gives "task not found". |
| UserRepository.Classify | task_manager/repositories/user_repository.go:111-126 | A duplicate naming "username" gives "username already exists", checked before "_id". One naming only "_id" retries. One naming neither is reported as success. Any other error comes back unchanged. |
| UserRepository.InsertOutcome | task_manager/repositories/user_repository.go:107-127 | Registration either leaves the users as they were, or adds the user (with the drawn id) under a previously free id and an untaken username. |
| UserRepository.InsertWithFreshIds | task_manager/repositories/user_repository.go:107-127 | The loop's result and the users it leaves are those of InsertOutcome, and the unique index is kept. |
| UserRepository.IndexMessagesClassified | task_manager/repositories/user_repository.go:112-120 | An `_id` clash is retried; a username clash is refused. |
| UserRepository.RegisterDecided | task_manager/repositories/user_repository.go:107-127 | With fault-free inserts and a free id in the supply, registration refuses exactly a taken username, and otherwise stores the user under the first drawn id not already in use (`FirstFree`). |
| UserRepository.FirstFree | task_manager/repositories/user_repository.go:107-112 | The position of the first drawn id not in use: every earlier draw clashes, and the one there does not. |
| UserRepository.RegisterKeepsUsersWellFormed | task_manager/repositories/user_repository.go:107-127 | Usernames stay distinct across registration. |
| UserRepository.CheckLogin | task_manager/repositories/user_repository.go:145-156 | Success iff the password matches the stored hash and a token was issued. A mismatch gives "invalid credentials" and an issue failure "internal server error". |
| UserRepository.StoredUserUnique | task_manager/repositories/user_repository.go:137 | Under the unique index a username names at most one stored user. |
| UserRepository.UserRepository.Count | task_manager/repositories/user_repository.go:82-92 | The number of stored users, or the driver's error. |
| UserRepository.UserRepository.RegisterUser | task_manager/repositories/user_repository.go:95-128 | A hash failure returns its error with nothing stored. Otherwise the registration loop runs with the hash in place of the password, and a returned user carries the hash. |
| UserRepository.UserRepository.LoginUser | task_manager/repositories/user_repository.go:132-157 | A failing read passes through and an absent user gives "user not found". Otherwise the login decision for a stored user with that name, whose token is GenerateToken's for the stored name and flag. |
| UserRepository.UserRepository.PromoteUser | task_manager/repositories/user_repository.go:161-171 | Only a driver failure is an error. Otherwise the named user is promoted and nil comes back even when none matched. |
| UserStoreService.ServiceToken | task_manager/services/user_service.go:144-148 | HS256 under the literal key, with "username" and "is_admin" from the stored user and an "exp" that is a time 900 ns ahead. |
| UserStoreService.ServiceTokenNeverExpires | task_manager/services/user_service.go:147 | As written: the middleware sharing that key admits the token at every later time. |
| UserStoreService.ServiceTokenFixed | task_manager/services/user_service.go:144-148 | Corrected: "exp" is a Unix time fifteen minutes ahead. |
| UserStoreService.FixedServiceTokenExpires | task_manager/services/user_service.go:144-150 | Corrected: for a token issued after the Unix epoch, the middleware admits the token iff it is presented within fifteen minutes. |
| UserStoreService.UserService.RegisterUser | task_manager/services/user_service.go:79-121 | A hash failure returns before the count; a count failure returns before the insert; both store nothing. Otherwise the user becomes admin iff the store was empty (else the caller's flag is kept) and runs the registration loop. |
| UserStoreService.UserService.LoginUser | task_manager/services/user_service.go:125-156 | "user not found", "invalid credentials" and "internal server error" as in the repository. The token is ServiceToken for the stored user. |
| UserStoreService.UserService.PromoteUser | task_manager/services/user_service.go:160-170 | Only a driver failure is an error; otherwise nil, matched or not. |

## Left out

- **Non-ASCII text.** Unicode case mapping in `strings.ToLower` is not modelled: only ASCII letters change case. So the model drops a character that Go lower-cases into a word character, such as the Kelvin sign U+212A, which Go maps to 'k' and keeps. RE2's `\s` is ASCII-only in Go as well. `strings.Fields` only ever sees characters that survived `[^\w\s]`.
- **Crypto.** bcrypt hashing and comparison, HMAC-SHA256 signing and the compact JWT encoding are abstract. The password service is a function parameter, signing is a success flag, and `decode` maps token text to the token it encodes (HMAC is taken as ideal).
- **jwt-go validation.** It is reduced to what these tokens use: the method must be HMAC, the key must match, and a numeric "exp" must not have passed, an "exp" of 0 meaning no expiry. "nbf", "iat" and other claim kinds are not checked.
- **Jwt.ValidateAdmin**: the branch for claims that are not MapClaims is not modelled. Every token in the model carries a claim map.
- **The JWT service of task_manager/infrastructure/auth_middleware.go** is not part of this model. Its ValidateToken and ValidateAdmin are the parameters of `AuthGate.Gate`.
- **Environment and index setup.** The `.env` loading, the `JWT_SECRET` lookup and the index creation in the constructors are left out. The configured secret is a parameter, and the unique indexes on `_id` and `username` are assumed present.
- **Driver errors.** Timeouts, connection loss and the other driver errors come in only as the per-call fault values. The exact text of a duplicate-key error is modelled as the name of the index's key. When an insert clashes on both `_id` and `username`, the `_id` clash is the one reported.
- **The uuid supply.** `uuid.New()` retries run over a finite list of draws. A loop that uses them all ends with the model-only error "uuid supply exhausted", whereas the Go loop would keep drawing.
- **TaskStoreService.TaskService.UpdateTaskByID**: a failure to decode the returned document is folded into the driver fault.
- **TaskRepository.TaskRepository.GetTasks**: the order in which the cursor returns documents is left open (a ghost `order` of the ids). Only "each stored task exactly once" is stated.
- **LibraryService.Library.ListAvailableBooks**: the map's iteration order is left open in the same way.
- **Collaborator state.** The use cases' repository, password and JWT interfaces are modelled by their replies, not as stateful objects. The repository's own logic is modelled separately in the repository modules.
- **UserUsecase.RegisterUser**: the repository receives a copy of the caller's user, so a repository that wrote through the pointer is not modelled.
- **TaskList.TaskStore.GetTasks**: the Go function returns the package-level slice itself, and AddTask returns a pointer into its backing array. The model returns values. So it does not capture that a slice or pointer a caller took earlier sees later writes: DeleteTask's in-place `append` shifts the elements under it, duplicates the last one, and can leave an AddTask pointer on a different task.
- **TaskList.TaskStore.AddTask**: the returned `&tasks[len(tasks)-1]` is modelled as a copy of the new task, with the aliasing described above left out.
- **Concurrency.** HTTP handlers share the package-level task slice without a lock. The model runs calls one at a time, so interleavings and data races are not captured.
- **Time.** Wall-clock time (`time.Now`, `AddDate`) is an integer parameter. Due dates are seconds; `time.Duration` arithmetic is written out where the source relies on it.
- **Not modelled at all.** HTTP controllers, routers, `main` programs and console I/O.

## Findings

| source | as written | input that shows it | evidently intended | confidence | as-written member | corrected member |
|---|---|---|---|---|---|---|
| task_manager/infrastructure/jwt_services.go:34 | GenerateToken signs with the literal "JwtSecret", but ValidateAuthHeader verifies with the configured `jwtSecret` | any configured secret other than "JwtSecret": `ValidateAuthHeader` refuses a token `GenerateToken` just issued with "invalid JWT". `GenerateToken` is called by the user repository's login (task_manager/repositories/user_repository.go:151), but no code in the repository calls the package-level `ValidateAuthHeader`; the middlewares go through a JWT service that is not part of this model | sign with the configured `jwtSecret` | not executed; medium | Jwt.GeneratedTokenRejected | Jwt.FixedTokenRoundTrip |
| task_manager/infrastructure/jwt_services.go:31 | GenerateToken writes the claim "isAdmin", but ValidateAdmin reads "is_admin" with an unchecked type assertion | any token `GenerateToken` issues: `ValidateAdmin` (line 72) finds no "is_admin" claim and its type assertion panics. This is a fact about the two functions of the file: no code in the repository calls the package-level `ValidateAdmin`, since the admin routes go through a JWT service that is not part of this model | write the flag under "is_admin" | not executed; medium | Jwt.GeneratedTokenHasNoAdminClaim | Jwt.GenerateTokenFixed |
| task_manager/services/task_service.go:70 | the new id is `len(tasks)+1` | delete "1" from the start-up tasks, then add a task: ids become "2", "3", "3" | an id not already in use | not executed; high | TaskList.ReusedIdAfterDelete | TaskList.TaskStore.AddTaskFresh |
| task_manager/services/user_service.go:147 | "exp" is `time.Now().Add(900)`, a `time.Time` 900 ns ahead, which jwt-go does not check | a token presented at any later time is admitted by task_manager/middleware/auth_middleware.go | a numeric expiry fifteen minutes ahead | not executed; medium | UserStoreService.ServiceTokenNeverExpires | UserStoreService.FixedServiceTokenExpires |
