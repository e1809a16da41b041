# file-transfer: chunk framing, credential rules and the users store

A Dafny model of three parts of the file-transfer application. Each part comes with proofs about it.

- **The sending client** (`src/client/file_handler.js`), in module `FileHandler`.
  - `sendFile` reads the chosen file in 16384-byte slices.
  - Each `load` event takes the current value of a 1-based `chunk` counter and increments it. It frames the slice behind a JSON header copied into a zero-filled 200-byte region (`str2ab`, `appendBuffer`, `create_full_buffer`). It then advances `offset` by the slice's length and reads on while `offset < file.size`.
  - The header text is opaque: a function from the chunk number to the text.
  - The bytes and array work are imperative methods over `array<byte>`. Each method is proved against a pure function: `Str2Ab`, `AppendBuffer`, `CreateFullBuffer`, `ReadSlice`, and `SendFile` with its `load` handler `OnLoad`.
  - The pure functions carry the counting, tiling and round-trip lemmas.
- **The users controller** (`src/server/controllers/users.controller.js`), in module `UsersController`.
  - `isUsrSuitable` and `isPwdSuitable` are restated as character-class and length rules. Each rule is proved equal to a recursive matcher of the regular expression it replaces.
  - `validateCredential` is a method writing into an error object.
  - Also modelled: `User.toJSON`, the `Authorization` header slicing, and the key checks and field filter of `update_user`.
  - `update_user` is also modelled end to end against the store.
- **The users DAO** (`src/server/dao/users.dao.js`), in module `UsersDao`.
  - The `users` and `sessions` collections are two maps keyed by username, the fields of class `Store`. Both collections have a unique index on `username`.
  - ObjectIds come from a counter, and the clock is a parameter.
  - `Store.Valid()` is the invariant every operation keeps: each document is filed under its own username, so there is at most one session per username.

JavaScript strings are sequences of UTF-16 code units (`Text.JsString`), because `length`, `charCodeAt`, `split('')` and regular expressions without the `u` flag count code units. The password expression has the `u` flag, so it sees code points (`Text.CodePoints`). A high surrogate followed by a low surrogate is one code point; a lone surrogate is itself. The test vectors are Dafny strings of scalar values encoded with `Text.Utf16`.

Where the code and its comments disagree, the model follows the code:

- a password is 9 to 65 code points long, its first character from `[\w!@#$%^&*]`;
- a username is 3 to 15 characters from `[\w@$^&*]`.

## Model

| member | source | states |
|---|---|---|
| FileHandler.HeaderBytesAt | src/client/file_handler.js:247-250 | byte `i` of the 200-byte header region is `charCodeAt(i)` modulo 256 below the text's length and 0 after it |
| FileHandler.WireMessage | src/client/file_handler.js:233-250 | a header of more than 200 code units is an error; otherwise the message is 200 bytes longer than the body, its first 200 are the header region and dropping them gives the body back unchanged |
| FileHandler.Str2Ab | src/client/file_handler.js:243-251 | throws exactly when the text has more than 200 code units; otherwise returns a fresh buffer holding the header region |
| FileHandler.AppendBuffer | src/client/file_handler.js:259-264 | a fresh buffer as long as `b1` and `b2` together, holding `b1` then `b2` |
| FileHandler.CreateFullBuffer | src/client/file_handler.js:233-236 | fails exactly when the header is too long; otherwise a fresh buffer holding the wire message |
| FileHandler.HeaderBytesInjective | src/client/file_handler.js:247-250 | two fitting headers of non-zero Latin-1 characters with the same header region are the same text |
| FileHandler.HeaderBytesDropHighByte | src/client/file_handler.js:249 | a code unit above 255 keeps only its low byte: U+0141 and U+0041 give the same header region |
| FileHandler.Split | src/client/file_handler.js:199-200 | `split` on a one-unit separator: at least one part, and no part contains the separator |
| FileHandler.SplitHead | src/client/file_handler.js:199 | the first part of `split` is the text before the first separator and holds none; a second part exists exactly when the text has a separator |
| FileHandler.FileStem | src/client/file_handler.js:199 | `name` is a dot-free prefix of the file name, ending at the first dot or at the end |
| FileHandler.FileExt | src/client/file_handler.js:200 | `ext` is absent exactly when the name has no dot; otherwise it is the dot-free text after the first dot, up to the second dot or the end |
| FileHandler.SplitSecond | src/client/file_handler.js:200 | the second part of a split is the text between the first dot and the next dot or the end |
| FileHandler.BlobSlice | src/client/file_handler.js:266-270 | `Blob.slice` clamps to the file: the slice is the bytes `file[start..max(start, min(end, size))]`, so `max(0, min(end, size) - start)` of them, at least one when `start < size` and `start < end`, and none when `start >= size` |
| FileHandler.LoadsFrom | src/client/file_handler.js:214-225 | the `load` events after a read at `offset` with the counter at `chunk`: each takes the counter and increments it, advances `offset` by its slice and reads on while `offset < size` (properties in `LoadsNumbered`, `LoadsTile`, `LoadsCount`, `LoadSliceAt`) |
| FileHandler.Loads | src/client/file_handler.js:271 | all events of one `sendFile`: `readSlice(0)` with the counter at 1 (properties in `LoadsOfFile`) |
| FileHandler.LoadsNumbered | src/client/file_handler.js:195-225 | event `i` after a read started with the counter at `chunk` carries chunk number `chunk + i`: no gap, no repeat |
| FileHandler.LoadsTile | src/client/file_handler.js:208-224 | the slices of the events after a read at `offset`, concatenated, are exactly `file[offset..]` |
| FileHandler.LoadsCount | src/client/file_handler.js:221-224 | a read at `offset < size` yields `ceil((size - offset) / 16384)` events; a read at the end yields one empty event |
| FileHandler.LoadSliceAt | src/client/file_handler.js:221-270 | event `i` carries the slice `[offset + 16384 i, min(offset + 16384 (i + 1), size))` |
| FileHandler.LoadsOfFile | src/client/file_handler.js:195-271 | a 0-byte file gives exactly one empty chunk numbered 1; otherwise `ceil(size / 16384)` chunks numbered 1, 2, 3, …, whose slices tile the file |
| FileHandler.ReassembleFrames | src/client/file_handler.js:220-236 | when every header fits, every chunk is delivered, and dropping the 200 header bytes of each message and concatenating gives the slices back |
| FileHandler.TransferRoundTrip | src/client/file_handler.js:187-272 | when every header fits, the receiver's concatenation of the message bodies is the whole file |
| FileHandler.DeferredSend | src/client/file_handler.js:220 | the deferred send hands over the wire message, or the error `str2ab` throws |
| FileHandler.ReadSlice | src/client/file_handler.js:266-270 | `readSlice(o)` reads `file.slice(offset, o + 16384)` into a fresh buffer |
| FileHandler.OnLoad | src/client/file_handler.js:214-225 | one `load` event frames the slice read at `offset` under the current counter, increments the counter, advances `offset` by the slice's length and reads on exactly while `offset < size` |
| FileHandler.SendingStep | src/client/file_handler.js:214-225 | one `load` event keeps the loop invariant `Sending` and moves `offset` forward unless the file is exhausted |
| FileHandler.LoadsFromStep | src/client/file_handler.js:221-224 | the events still to come after a read at `offset` are this event followed by the events of the next read, if any |
| FileHandler.SendFile | src/client/file_handler.js:187-272 | the events are exactly `Loads(file)`, and the messages are exactly the wire message of each event in order |
| Text.CodePoints | src/server/controllers/users.controller.js:114 | what a `u`-flag expression iterates over: a surrogate pair is one code point, any other unit stands for itself; never longer than the text, and non-empty for a non-empty text |
| Text.CodePointsOfUtf16 | src/server/controllers/users.controller.js:114 | decoding the UTF-16 encoding of a string with the `u`-flag rules gives back its scalar values |
| UsersController.IsUsrSuitable | src/server/controllers/users.controller.js:123 | the username rules on the code units: 3 to 15, each from `[\w@$^&*]` (proved equal to the expression by `UsrSuitableMatchesPattern`) |
| UsersController.IsPwdSuitable | src/server/controllers/users.controller.js:114 | the password rules on the code points: 9 to 65, no line terminator, first from `[\w!@#$%^&*]`, and a digit, an upper-case letter, a lower-case letter and one of `!@#$%^&*` (proved equal to the expression by `PwdSuitableMatchesPattern`) |
| UsersController.RepeatIff | src/server/controllers/users.controller.js:114-123 | `c{lo,hi}$` matches exactly a run of `lo` to `hi` characters of class `c` |
| UsersController.LookaheadIff | src/server/controllers/users.controller.js:114 | `(?=.*c)` holds exactly when a character of class `c` comes before any line terminator |
| UsersController.LookaheadOverDots | src/server/controllers/users.controller.js:114 | with no line terminator in the input, `(?=.*c)` just asks for one character of class `c` |
| UsersController.PwdShapeIff | src/server/controllers/users.controller.js:114 | `[\w!@#$%^&*](.){8,64}$` matches exactly 9 to 65 non-terminators whose first is from the head class |
| UsersController.PwdSuitableMatchesPattern | src/server/controllers/users.controller.js:114 | the password rules (length, no line terminator, head class, digit, upper, lower, special) hold exactly when the regular expression matches |
| UsersController.UsrSuitableMatchesPattern | src/server/controllers/users.controller.js:123 | the username rules (3 to 15 code units from `[\w@$^&*]`) hold exactly when the regular expression matches |
| UsersController.UsrSuitableIsAscii | src/server/controllers/users.controller.js:123 | a name made only of username characters is ASCII, so its code units are its code points |
| UsersController.UsrSuitableOfText | test/integration/users.endpoints.test.js:15-18 | the username predicate on an encoded string is the username rules on its scalar values |
| UsersController.PwdSuitableOfText | test/integration/users.endpoints.test.js:14-19 | the password predicate on an encoded string is the password rules on its scalar values |
| UsersController.Utf16OfAscii | test/integration/users.endpoints.test.js:15-18 | an ASCII string encodes to one code unit per character, each its own value |
| UsersController.UsernameVectorTooShort | test/integration/users.endpoints.test.js:15 | `bb` is refused |
| UsersController.UsernameVectorEmoji | test/integration/users.endpoints.test.js:15 | `COLCQOCLS🥐` is refused: the emoji is outside the class |
| UsersController.UsernameVectorPunctuation | test/integration/users.endpoints.test.js:15 | `!#%@#%#EVR^%@` is refused: `!` is outside the class |
| UsersController.UsernameVectorTooLong | test/integration/users.endpoints.test.js:15 | `'AaD'.repeat(6)`, 18 characters, is refused |
| UsersController.UsernameVectorHyphen | test/integration/users.endpoints.test.js:15 | `hehe-nope` is refused: `-` is outside the class |
| UsersController.UsernameVectorAccepted | test/integration/users.endpoints.test.js:18 | `2021_year_` is accepted |
| UsersController.PasswordVectorTooShort | test/integration/users.endpoints.test.js:14 | `Aa$1` is refused |
| UsersController.PasswordVectorNoSpecial | test/integration/users.endpoints.test.js:14 | `ADFAsdlknf32l45🤡` is refused |
| UsersController.PasswordVectorNoLower | test/integration/users.endpoints.test.js:14 | `&$%^&$%^😁12341DQDAGS` is refused |
| UsersController.PasswordVectorNoUpper | test/integration/users.endpoints.test.js:14 | `ojnj$#!%!#513` is refused |
| UsersController.PasswordVectorTooLong | test/integration/users.endpoints.test.js:14 | `'aDa234^%&$🥴'.repeat(6)`, 66 code points, is refused |
| UsersController.PasswordVectorAccepted | test/integration/users.endpoints.test.js:19 | `1123#2351@3423Rr%$^%` is accepted |
| UsersController.CredentialsRejected | src/server/controllers/users.controller.js:128-134 | the three `switch (true)` cases: a missing or empty member, a failed password predicate, a failed username predicate |
| UsersController.CredentialsAcceptedIff | src/server/controllers/users.controller.js:128-134 | no `switch` case fires exactly when both members are present and both predicates hold (an empty member already fails its predicate) |
| UsersController.ValidateCredential | src/server/controllers/users.controller.js:104-135 | with either argument missing, returns the two predicates and records nothing; otherwise sets `errors.user` to 'Password or username are not valid.' exactly when a case fires and leaves `errors` as it was otherwise |
| UsersController.RegistrationRejected | test/integration/users.endpoints.test.js:13-43 | each of the tests' five invalid usernames is refused whatever the password |
| UsersController.RegistrationRejectedByPassword | test/integration/users.endpoints.test.js:13-43 | each of the tests' five invalid passwords is refused whatever the username |
| UsersController.RegistrationAccepted | test/integration/users.endpoints.test.js:17-20 | the tests' valid user is accepted |
| UsersController.ToJson | src/server/controllers/users.controller.js:53-55 | the JSON form has the single member `username`, carrying the user's username |
| UsersController.ToJsonHidesPassword | src/server/controllers/users.controller.js:44-55 | users differing only in `pwd` serialise alike, and `pwd` is not a member |
| UsersController.BearerToken | src/server/controllers/users.controller.js:323 | the token is the header without its first seven code units, whatever they are |
| UsersController.OptionalBearerToken | src/server/controllers/users.controller.js:380 | with `?.`, a missing header gives no token, and a present one gives its slice |
| UsersController.RequiredBearerToken | src/server/controllers/users.controller.js:323 | without `?.` (in `logout`), a missing header throws, and a present one gives its slice |
| UsersController.BearerRoundTrip | src/server/controllers/users.controller.js:323 | the token written after `Bearer ` is the token read back |
| UsersController.ForwardedAsWritten | src/server/controllers/users.controller.js:507 | the forwarded fields are body members with the body's values, and never `_id`, `pwd`, `created_at` or `updated_at` |
| UsersController.UpdateDecisionAsWritten | src/server/controllers/users.controller.js:492-520 | as written: more than 5 keys gives 401; otherwise a failed member check gives 400; a forwarded update carries the filtered fields |
| UsersController.UpdateDecision | src/server/controllers/users.controller.js:492-520 | the intended rule `UpdateUser` runs: 401 for more than 5 keys, then 400 for a member the document lacks of its own or a banned one, then, for a requested username other than the current one, 400 when taken and 401 when unsuitable; otherwise the allowed members are forwarded (its outcomes are pinned by `UpdateRejections` and `UpdateForwarded`) |
| UsersController.UpdateRejections | src/server/controllers/users.controller.js:492-520 | the intended rule refuses with 401 for more than 5 keys, then 400 for a member the document lacks or a banned one, then 400 for a taken new username, then 401 for an unsuitable one, each an if-and-only-if |
| UsersController.UpdateForwarded | src/server/controllers/users.controller.js:507-522 | a forwarded update carries every body member except `pwd`, each one the document already has, none of `_id`, `pwd`, `created_at`, `updated_at`; a new username in it is free and suitable |
| UsersController.UpdateDecisionsAgree | src/server/controllers/users.controller.js:500-520 | when the body names no inherited-only member and no empty username, the code as written and the intended rule decide alike |
| UsersController.EmptyUsernameForwardedAsWritten | src/server/controllers/users.controller.js:510 | as written, `{ username: "", pwd }` is forwarded with the empty username, which `isUsrSuitable` refuses; the intended rule answers 401 |
| UsersController.InheritedNameForwardedAsWritten | src/server/controllers/users.controller.js:500-507 | as written, `{ constructor: value, pwd }` passes the member check and `constructor` is forwarded; the intended rule answers 400 |
| UsersController.StoredFields | src/server/controllers/users.controller.js:522 | the forwarded members become string fields of the same names and values |
| UsersController.UpdateUser | src/server/controllers/users.controller.js:487-539 | a refused body leaves the store untouched with the rule's status. A forwarded one re-files the merged document under its new username and ends the old session. It answers 200 exactly when that session existed, 500 otherwise |
| UsersDao.SchemaOk | src/server/dao/users.dao.js:63-88 | the `users` validator: `username` and `pwd` are strings, `created_at` and `updated_at` are dates |
| UsersDao.LooksLikeObjectId | src/server/dao/users.dao.js:267 | the `_id` test of `getUserSession`: an ObjectId value, or a string of exactly 24 hex digits |
| UsersDao.Store.FindSession | src/server/dao/users.dao.js:264-271 | the session `findOne` returns: one stored session; for an ObjectId key, found exactly when a stored session has that `_id`, and then it is one; for a key that is not `_id`-shaped, found exactly when its username has a session, and then it is the session filed under that username |
| UsersDao.Consistent | src/server/dao/users.dao.js:54-55 | the store invariant: each user document passes the validator, is filed under its own username and has an `_id`; no two users share an `_id`; each session is filed under its own username with an `_id` of its own; every ObjectId in use is below the counter |
| UsersDao.InsertKeepsConsistent | src/server/dao/users.dao.js:157 | inserting a valid document under a free username with a free `_id` keeps the invariant, with the counter moved past that `_id` |
| UsersDao.RefileKeepsConsistent | src/server/dao/users.dao.js:290-296 | re-filing a document with its `_id` unchanged under its own or a free username keeps the invariant |
| UsersDao.Above | src/server/dao/users.dao.js:157 | the counter after an insert is past the old counter and past the stored ObjectId, so a generated `_id` is never one already in use |
| UsersDao.Store.IdTaken | src/server/dao/users.dao.js:157-161 | some stored user already has the given `_id`, so the `_id` index refuses a second one |
| UsersDao.Stamp | src/server/dao/users.dao.js:153-155 | `created_at` and `updated_at` are set to the same instant; every other field is kept |
| UsersDao.Merge | src/server/dao/users.dao.js:293 | every given field is overwritten, `updated_at` becomes now unless given, every other field is unchanged |
| UsersDao.Store.GetUser | src/server/dao/users.dao.js:136-144 | a document is found exactly when the username is stored, and it is that username's document |
| UsersDao.Store.GetUserSession | src/server/dao/users.dao.js:264-278 | an ObjectId or 24 hex digits looks up by `_id`, anything else by username: an ObjectId key finds a session exactly when one has that `_id`, a username key finds exactly the session filed under it, and a 24-hex string never matches an ObjectId `_id` |
| UsersDao.Store.AddUser | src/server/dao/users.dao.js:151-168 | a document the validator refuses fails; a taken username or a taken `_id` fails with 'A user with the given username already exists.'; each failure leaves the store unchanged. Otherwise the stamped document is stored under its username, keeping a given `_id` or receiving a fresh ObjectId, and no two users share an `_id` |
| UsersDao.DuplicateIdRefused | src/server/dao/users.dao.js:157-161 | a second registration carrying the same `_id` as the first is refused with the duplicate-user error, whatever the usernames |
| UsersDao.Store.LoginUser | src/server/dao/users.dao.js:176-214 | a found session keeps its `_id` and fields, with only `jwt`, `updated_at` and `last_activity` overwritten; otherwise a new session is inserted with all three timestamps at now, and its new `_id` is returned |
| UsersDao.Store.LogoutUser | src/server/dao/users.dao.js:244-257 | the username's session is removed; the call succeeds exactly when one existed, and fails with 'Session not found.' otherwise |
| UsersDao.Store.DeleteUser | src/server/dao/users.dao.js:221-237 | the user and the session are both removed; the call succeeds exactly when a user was stored, and fails with 'Deletion unsuccessful.' otherwise |
| UsersDao.Store.ChangeUserData | src/server/dao/users.dao.js:286-305 | an unknown username returns no document; otherwise the merged document is stored and returned, unless it would change `_id`, fail the validator or take another user's name |
| UsersDao.OneSessionPerUsername | src/server/dao/users.dao.js:55 | two sessions with the same username are the same document |
| UsersDao.SessionLifeCycle | test/unit/users.dao.test.js:108-165 | after adding a user, a second login returns the first login's `_id`, logout succeeds, and deleting the user leaves no session behind (with the string username the test evidently intends, where it passes its session object) |

## Left out

- WebRTC negotiation in `createConnection` and the BroadcastChannel signalling in `send_to_server` are not modelled: they are browser APIs and promise chains.
- FileHandler.DeferredSend: the `setTimeout` deferral is not modelled, only the message each `load` event produces. The order of sends is taken to be the order of events.
- FileHandler.SendFile: the `error` and `abort` listeners, `console.log` calls and `file_info`'s other members are not modelled. The header text is a parameter (`header: nat -> JsString`) standing for `JSON.stringify({ chunk, ...file_info })`.
- FileHandler.SendFile: the module-level `sendChannel`, `peerConnection` and `fileReader` handles are not modelled.
- `src/client/tcp_conn.js` is not part of this model (WebSocket plumbing and `escape`-based UTF-8 helpers).
- bcrypt and JWT (`hashPwd`, `comparePassword`, `encoded`, `decoded`) are opaque foreign calls and are not modelled.
- UsersController.UpdateUser: the `authenticate` middleware is not modelled. The path's username is taken to be the authenticated user's, and its document is the one the store holds.
- UsersController.UpdateUser: the deletion of the AFK tracker in `logoutAndUpdateUsr` is not modelled (`TrackAFK` is outside this model), and neither is the JSON the route sends back.
- UsersController.UpdateUser: it is modelled with the intended decision rule (see Findings), not the rule as written.
- UsersController.UpdateUser: the handler runs as one atomic step. The source awaits between the name-taken check (users.controller.js:512) and `changeUserData` (:522), so another request can take the new name in between; the unique index then makes `changeUserData` fail and the handler answers 500 (:523-526). The model does not capture that interleaving, so its forwarded updates always reach `logoutAndUpdateUsr`.
- The HTTP status plumbing of the other route handlers, and their `try`/`catch` logging, are not modelled.
- UsersController.Truthy: request-body values are modelled as strings only. Numbers, booleans, objects and arrays in a JSON body are not modelled.
- UsersController.ValidateCredential: non-string `username` or `pwd` values (the regular expressions would test their string conversion) are not modelled.
- UsersController.ValidateCredential: the no-argument return is a record of the two predicates. `Object.setPrototypeOf` on the function object is not modelled.
- UsersDao.Store.GetUser: the `catch` branches that return `{ error }` on a database failure are not modelled in any DAO operation. The store never fails except by the outcomes listed in `DaoError`.
- UsersDao.Store.AddUser: duplicate detection by parsing the `E11000` error text is modelled as the `DuplicateUser` outcome. The validator's refusal is the `DocumentInvalid` outcome.
- UsersDao.Stamp: `addUser` writes `created_at` and `updated_at` into the caller's object (users.dao.js:154-155), and the driver writes the generated `_id` back into it. `Stamp` returns a new record instead, so that aliasing of the caller's object is not captured.
- UsersDao.Store.AddUser: ObjectIds MongoDB generates are modelled by the counter `nextId`, kept above every ObjectId in use, so a generated `_id` never collides.
- UsersDao.Store.LoginUser: the sessions validator is not modelled, because session fields are typed by the `Session` datatype.
- UsersDao.Store.LoginUser: the `session?.error` early return is not modelled.
- UsersDao.Store.LoginUser: the call runs as one atomic step. The source awaits `getUserSession` (users.dao.js:178) before `insertOne` (:193), so two first logins for one username can both find no session; the unique `username` index (:55) then makes the second insert fail with E11000 and that call returns `{ error }`. The model does not capture that interleaving: a login always inserts or updates.
- UsersDao.Store.DeleteUser: the call runs as one atomic step. The source awaits its two deletes (users.dao.js:223-224) before the re-checks (:226), so a registration or login for the same username in between makes the call return 'Deletion unsuccessful.' although the stored user was deleted. The model does not capture that interleaving: the call succeeds exactly when the user was stored.
- `injectDB` (index creation and `collMod` commands) is not modelled. Its effect is the map-per-collection layout and `SchemaOk`.
- `ObjectID.isValid` is not modelled separately: on a string it adds nothing to the 24-hex test, and every ObjectId value passes it.
- `src/server/dao/TrackAFK.dao.js`, `src/server/dao/files.dao.js` and `src/server/controllers/files.controller.js` are not part of this model.
- Service workers, configuration, logging, routes and bootstrap are not part of this model.

## Findings

| source | as written | input that shows it | evidently intended | confidence | as-written member | corrected member |
|---|---|---|---|---|---|---|
| src/server/controllers/users.controller.js:510 | `rawUserData?.username && …` skips the taken and validity checks when the requested username is the empty string, which is falsy; the filter at line 507 keeps it, since the stored username is truthy | `{ username: "", pwd }` from a user whose stored username and password are non-empty | any username other than the current one, the empty one included, goes through both checks, so the empty name is refused with 401 | not executed | UsersController.EmptyUsernameForwardedAsWritten | UsersController.UpdateRejections |
| src/server/controllers/users.controller.js:500-507 | `!!user[key]` is true for members every object inherits (`constructor`, `toString`, …), so such a key passes the member check and the filter and is forwarded to `changeUserData` | `{ constructor: "x", pwd }` for a stored user without a `constructor` field | only members the stored document has of its own may be updated, so the body is refused with 400 | not executed | UsersController.InheritedNameForwardedAsWritten | UsersController.UpdateForwarded |
