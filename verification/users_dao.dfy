/**
 * The `users` and `sessions` collections behind src/server/dao/users.dao.js.
 * Each collection has a unique index on `username`, so each is a map keyed by
 * username. The clock (`new Date()`) is a parameter; the ObjectIds MongoDB
 * assigns on insert come from a counter.
 */
module UsersDao {
  import opened Text
  import opened Wrappers

  /** A MongoDB ObjectId; its text form is 24 hexadecimal digits. */
  datatype ObjectId = ObjectId(n: nat)

  /** The field values a stored user document holds. */
  datatype Value = Str(text: JsString) | Date(time: int) | Id(id: ObjectId)

  /** A document of the `users` collection: field name to value. */
  type Record = map<string, Value>

  /** A document of the `sessions` collection. */
  datatype Session = Session(id: ObjectId, username: JsString, jwt: JsString,
                             createdAt: int, updatedAt: int, lastActivity: int)

  datatype DaoError =
    | DuplicateUser         // 'A user with the given username already exists.'
    | DocumentInvalid       // the collection's $jsonSchema validator refused the document
    | DuplicateKey          // another write broke a unique index
    | ImmutableId           // an update would change `_id`
    | SessionNotFound       // 'Session not found.'
    | DeletionUnsuccessful  // 'Deletion unsuccessful.'

  /** The argument of `getUserSession`: a username string or an ObjectId value. */
  datatype SessionKey = ByText(text: JsString) | ByObjectId(id: ObjectId)

  /** The `users` validator: `username` and `pwd` strings, `created_at` and `updated_at` dates. */
  predicate SchemaOk(rec: Record)
  {
    && "username" in rec && rec["username"].Str?
    && "pwd" in rec && rec["pwd"].Str?
    && "created_at" in rec && rec["created_at"].Date?
    && "updated_at" in rec && rec["updated_at"].Date?
  }

  predicate IsHexDigit(u: CodeUnit)
  {
    ('0' as CodeUnit <= u <= '9' as CodeUnit) || ('a' as CodeUnit <= u <= 'f' as CodeUnit)
    || ('A' as CodeUnit <= u <= 'F' as CodeUnit)
  }

  /** `/^[a-fA-F0-9]{24}$/`. */
  predicate IsHex24(s: JsString)
  {
    |s| == 24 && forall i :: 0 <= i < |s| ==> IsHexDigit(s[i])
  }

  /**
   * `ObjectID.isValid(x) && /^[a-fA-F0-9]{24}$/.test(x)`: an ObjectId value
   * (whose text form is 24 hex digits) or a string of exactly 24 hex digits.
   */
  predicate LooksLikeObjectId(key: SessionKey)
  {
    key.ByObjectId? || IsHex24(key.text)
  }

  /** `addUser` sets `created_at` and `updated_at` of the document to the same instant. */
  function Stamp(info: Record, now: int): (r: Record)
    ensures r.Keys == info.Keys + {"created_at", "updated_at"}
    ensures r["created_at"] == r["updated_at"] == Date(now)
    ensures forall k :: k in info && k != "created_at" && k != "updated_at" ==> r[k] == info[k]
  {
    info["created_at" := Date(now)]["updated_at" := Date(now)]
  }

  /**
   * The document `$set: { updated_at: time, ...fields }` leaves: every given
   * field overwritten, `updated_at` set to now unless `fields` sets it, every
   * other field unchanged.
   */
  function Merge(rec: Record, fields: Record, now: int): (r: Record)
    ensures r.Keys == rec.Keys + fields.Keys + {"updated_at"}
    ensures forall k :: k in fields ==> r[k] == fields[k]
    ensures "updated_at" !in fields ==> r["updated_at"] == Date(now)
    ensures forall k :: k in rec && k !in fields && k != "updated_at" ==> r[k] == rec[k]
  {
    rec["updated_at" := Date(now)] + fields
  }

  /** The counter after an insert whose `_id` is `id`: past `n` and past `id` when it is an ObjectId. */
  function Above(n: nat, id: Value): (r: nat)
    ensures r > n && (id.Id? ==> r > id.id.n)
    ensures id.Id? && id.id.n < n ==> r == n + 1
  {
    if id.Id? && id.id.n >= n then id.id.n + 1 else n + 1
  }

  /**
   * Each user document is valid, carries an `_id` and is filed under its own
   * `username`; no two users share an `_id` (the index MongoDB keeps on
   * `_id`); each session is filed under its own username (so there is at
   * most one per username) and has an `_id` of its own. Every ObjectId in
   * use is below `nextId`.
   */
  ghost predicate Consistent(users: map<JsString, Record>, sessions: map<JsString, Session>, nextId: nat)
  {
    && (forall u :: u in users ==>
          && SchemaOk(users[u]) && users[u]["username"] == Str(u) && "_id" in users[u]
          && (users[u]["_id"].Id? ==> users[u]["_id"].id.n < nextId))
    && (forall u, v :: u in users && v in users && users[u]["_id"] == users[v]["_id"] ==> u == v)
    && (forall u :: u in sessions ==> sessions[u].username == u && sessions[u].id.n < nextId)
    && (forall u, v :: u in sessions && v in sessions && sessions[u].id == sessions[v].id ==> u == v)
  }

  /** Inserting a valid document under a free username with a free `_id` keeps the invariant. */
  lemma InsertKeepsConsistent(users: map<JsString, Record>, sessions: map<JsString, Session>, nextId: nat,
                              name: JsString, doc: Record)
    requires Consistent(users, sessions, nextId)
    requires name !in users && SchemaOk(doc) && doc["username"] == Str(name) && "_id" in doc
    requires forall u :: u in users ==> users[u]["_id"] != doc["_id"]
    ensures Consistent(users[name := doc], sessions, Above(nextId, doc["_id"]))
  {
  }

  /** Re-filing a document under a free (or its own) username, with its `_id` kept, keeps the invariant. */
  lemma RefileKeepsConsistent(users: map<JsString, Record>, sessions: map<JsString, Session>, nextId: nat,
                              from: JsString, name: JsString, doc: Record)
    requires Consistent(users, sessions, nextId) && from in users
    requires SchemaOk(doc) && doc["username"] == Str(name) && "_id" in doc && doc["_id"] == users[from]["_id"]
    requires name == from || name !in users
    ensures Consistent((users - {from})[name := doc], sessions, nextId)
  {
    var after := (users - {from})[name := doc];
    forall u, v | u in after && v in after && after[u]["_id"] == after[v]["_id"]
      ensures u == v
    {
      var ou := if u == name then from else u;
      var ov := if v == name then from else v;
      assert users[ou]["_id"] == after[u]["_id"] && users[ov]["_id"] == after[v]["_id"];
    }
  }

  class Store {
    var users: map<JsString, Record>
    var sessions: map<JsString, Session>
    /** The next ObjectId the database hands out. */
    var nextId: nat

    /** The store's invariant, `Consistent` on its three fields. */
    ghost predicate Valid()
      reads this
    {
      Consistent(users, sessions, nextId)
    }

    /** Some stored user document already has `id` as its `_id`. */
    predicate IdTaken(id: Value)
      reads this
    {
      exists u :: u in users && "_id" in users[u] && users[u]["_id"] == id
    }

    constructor ()
      ensures Valid() && users == map[] && sessions == map[]
    {
      users, sessions, nextId := map[], map[], 0;
    }

    /** The session `sessions.findOne` returns for the given key, by `_id` or by `username`. */
    ghost function FindSession(key: SessionKey): (r: Option<Session>)
      reads this
      ensures r.Some? ==> r.value in sessions.Values
      ensures key.ByObjectId? && r.Some? ==> r.value.id == key.id
      ensures !LooksLikeObjectId(key) ==> (r.Some? <==> key.text in sessions)
      ensures !LooksLikeObjectId(key) && r.Some? ==> r.value == sessions[key.text]
      ensures key.ByObjectId? ==> (r.Some? <==> exists u :: u in sessions && sessions[u].id == key.id)
    {
      if LooksLikeObjectId(key) then
        match key
        case ByObjectId(id) =>
          if exists u :: u in sessions && sessions[u].id == id
          then var u :| u in sessions && sessions[u].id == id; Some(sessions[u])
          else None
        // `{ _id: <string> }` never equals an ObjectId `_id`
        case ByText(_) => None
      else if key.text in sessions then Some(sessions[key.text])
      else None
    }

    /** `getUser`: `users.findOne({ username })`. */
    method GetUser(username: JsString) returns (r: Option<Record>)
      requires Valid()
      ensures r.Some? <==> username in users
      ensures r.Some? ==> r.value == users[username] && r.value["username"] == Str(username)
    {
      if username in users {
        r := Some(users[username]);
      } else {
        r := None;
      }
    }

    /**
     * `getUserSession`: by `_id` when the argument is an ObjectId or 24 hex
     * digits, by `username` otherwise.
     */
    method GetUserSession(key: SessionKey) returns (r: Option<Session>)
      requires Valid()
      ensures r == FindSession(key)
      ensures !LooksLikeObjectId(key) ==> (r.Some? <==> key.text in sessions)
      ensures r.Some? ==> r.value in sessions.Values
      ensures key.ByObjectId? && r.Some? ==> r.value.id == key.id
      ensures key.ByText? && LooksLikeObjectId(key) ==> r.None?
      ensures !LooksLikeObjectId(key) && r.Some? ==> r.value == sessions[key.text]
      ensures key.ByObjectId? ==> (r.Some? <==> exists u :: u in sessions && sessions[u].id == key.id)
    {
      if LooksLikeObjectId(key) {
        match key
        case ByObjectId(id) =>
          if exists u :: u in sessions && sessions[u].id == id {
            var u :| u in sessions && sessions[u].id == id;
            r := Some(sessions[u]);
          } else {
            r := None;
          }
        case ByText(_) =>
          r := None;
      } else if key.text in sessions {
        r := Some(sessions[key.text]);
      } else {
        r := None;
      }
    }

    /**
     * `addUser`: stamps the document with the current time and inserts it. A
     * document the validator refuses, a taken username or a taken `_id` leaves
     * the store as it was; both unique-index violations are reported as
     * 'A user with the given username already exists.'.
     */
    method AddUser(info: Record, now: int) returns (r: Result<(), DaoError>)
      requires Valid()
      modifies this
      ensures Valid() && sessions == old(sessions)
      ensures var doc := Stamp(info, now);
        if !SchemaOk(doc) then r == Err(DocumentInvalid) && unchanged(this)
        else if doc["username"].text in old(users) then r == Err(DuplicateUser) && unchanged(this)
        else if "_id" in doc && old(IdTaken(doc["_id"])) then r == Err(DuplicateUser) && unchanged(this)
        else
          && r == Ok(())
          && var stored := if "_id" in doc then doc else doc["_id" := Id(ObjectId(old(nextId)))];
          && users == old(users)[doc["username"].text := stored]
          && nextId == Above(old(nextId), stored["_id"])
    {
      var doc := Stamp(info, now);
      if !SchemaOk(doc) {
        return Err(DocumentInvalid);
      }
      var name := doc["username"].text;
      if name in users {
        return Err(DuplicateUser);
      }
      if "_id" in doc && IdTaken(doc["_id"]) {
        return Err(DuplicateUser);
      }
      var stored := if "_id" in doc then doc else doc["_id" := Id(ObjectId(nextId))];
      InsertKeepsConsistent(users, sessions, nextId, name, stored);
      users := users[name := stored];
      nextId := Above(nextId, stored["_id"]);
      return Ok(());
    }

    /**
     * `loginUser`: with no session found for the username, inserts one whose
     * three timestamps are `now`; otherwise overwrites only `jwt`,
     * `updated_at` and `last_activity`. Returns the session's `_id`.
     */
    method LoginUser(username: JsString, jwt: JsString, now: int) returns (r: Result<ObjectId, DaoError>)
      requires Valid()
      modifies this
      ensures Valid() && users == old(users)
      ensures match old(FindSession(ByText(username)))
        case Some(s) =>
          && r == Ok(s.id)
          && sessions == old(sessions)[username := s.(jwt := jwt, updatedAt := now, lastActivity := now)]
          && nextId == old(nextId)
        case None =>
          if username in old(sessions) then r == Err(DuplicateKey) && unchanged(this)
          else
            && r == Ok(ObjectId(old(nextId)))
            && sessions == old(sessions)[username := Session(ObjectId(old(nextId)), username, jwt, now, now, now)]
            && nextId == old(nextId) + 1
    {
      var session := GetUserSession(ByText(username));
      if session.None? {
        if username in sessions {
          // the unique index on `sessions.username` refuses a second document
          return Err(DuplicateKey);
        }
        var id := ObjectId(nextId);
        sessions := sessions[username := Session(id, username, jwt, now, now, now)];
        nextId := nextId + 1;
        return Ok(id);
      } else {
        var s := session.value;
        sessions := sessions[username := s.(jwt := jwt, updatedAt := now, lastActivity := now)];
        return Ok(s.id);
      }
    }

    /** `logoutUser`: deletes the username's session; fails unless exactly one was deleted. */
    method LogoutUser(username: JsString) returns (r: Result<(), DaoError>)
      requires Valid()
      modifies this
      ensures Valid() && users == old(users) && nextId == old(nextId)
      ensures r.Ok? <==> username in old(sessions)
      ensures r.Err? ==> r.error == SessionNotFound
      ensures sessions == old(sessions) - {username}
    {
      var deletedCount := if username in sessions then 1 else 0;
      sessions := sessions - {username};
      if deletedCount != 1 {
        return Err(SessionNotFound);
      }
      return Ok(());
    }

    /**
     * `deleteUser`: deletes the user and the session, then succeeds only when a
     * user was deleted and neither a user nor a session is found afterwards.
     */
    method DeleteUser(username: JsString) returns (r: Result<(), DaoError>)
      requires Valid()
      modifies this
      ensures Valid() && nextId == old(nextId)
      ensures users == old(users) - {username} && sessions == old(sessions) - {username}
      ensures r.Ok? <==> username in old(users)
      ensures r.Err? ==> r.error == DeletionUnsuccessful
    {
      var delUsers := if username in users then 1 else 0;
      users := users - {username};
      sessions := sessions - {username};
      var user := GetUser(username);
      var session := GetUserSession(ByText(username));
      if delUsers == 1 && user.None? && session.None? {
        return Ok(());
      }
      return Err(DeletionUnsuccessful);
    }

    /**
     * `changeUserData`: `findOneAndUpdate` with `$set: { updated_at: time,
     * ...fields }`, returning the document after the update, or no document
     * when none has that username.
     */
    method ChangeUserData(username: JsString, fields: Record, now: int) returns (r: Result<Option<Record>, DaoError>)
      requires Valid()
      modifies this
      ensures Valid() && sessions == old(sessions) && nextId == old(nextId)
      ensures username !in old(users) ==> r == Ok(None) && unchanged(this)
      ensures username in old(users) ==>
        var doc := Merge(old(users)[username], fields, now);
        if doc["_id"] != old(users)[username]["_id"] then r == Err(ImmutableId) && unchanged(this)
        else if !SchemaOk(doc) then r == Err(DocumentInvalid) && unchanged(this)
        else if doc["username"].text != username && doc["username"].text in old(users) then
          r == Err(DuplicateKey) && unchanged(this)
        else r == Ok(Some(doc)) && users == (old(users) - {username})[doc["username"].text := doc]
    {
      if username !in users {
        return Ok(None);
      }
      var doc := Merge(users[username], fields, now);
      if doc["_id"] != users[username]["_id"] {
        return Err(ImmutableId);
      }
      if !SchemaOk(doc) {
        return Err(DocumentInvalid);
      }
      var name := doc["username"].text;
      if name != username && name in users {
        return Err(DuplicateKey);
      }
      RefileKeepsConsistent(users, sessions, nextId, username, name, doc);
      users := (users - {username})[name := doc];
      return Ok(Some(doc));
    }
  }

  /** At most one session per username: two sessions filed under the same username are the same document. */
  lemma OneSessionPerUsername(store: Store, s1: Session, s2: Session)
    requires store.Valid()
    requires s1 in store.sessions.Values && s2 in store.sessions.Values
    requires s1.username == s2.username
    ensures s1 == s2
  {
    var u1 :| u1 in store.sessions && store.sessions[u1] == s1;
    var u2 :| u2 in store.sessions && store.sessions[u2] == s2;
  }

  /**
   * The session life cycle the unit tests walk through: a second login
   * updates the first session and keeps its `_id`, logout then succeeds, and
   * deleting the user leaves no session behind. The unit tests pass their
   * session object as the username and no `jwt`; the lemma uses the string
   * username they evidently intend, and any `jwt`.
   */
  method SessionLifeCycle(info: Record, jwt: JsString, t1: int, t2: int, t3: int)
    returns (first: Result<ObjectId, DaoError>, second: Result<ObjectId, DaoError>,
             logout: Result<(), DaoError>, deleted: Result<(), DaoError>, after: Option<Session>)
    requires SchemaOk(Stamp(info, t1)) && !IsHex24(info["username"].text)
    ensures first.Ok? && second == first
    ensures logout.Ok? && deleted.Ok? && after.None?
  {
    var store := new Store();
    var added := store.AddUser(info, t1);
    var name := Stamp(info, t1)["username"].text;
    first := store.LoginUser(name, jwt, t1);
    second := store.LoginUser(name, jwt, t2);
    logout := store.LogoutUser(name);
    var again := store.LoginUser(name, jwt, t3);
    deleted := store.DeleteUser(name);
    after := store.GetUserSession(ByText(name));
  }

  /**
   * Two registrations that carry the same `_id`: the first is stored, the
   * second hits the `_id` index and gets the duplicate-user error, whatever
   * the usernames.
   */
  method DuplicateIdRefused(a: Record, b: Record, now: int)
    returns (first: Result<(), DaoError>, second: Result<(), DaoError>)
    requires SchemaOk(Stamp(a, now)) && SchemaOk(Stamp(b, now))
    requires "_id" in a && "_id" in b && a["_id"] == b["_id"]
    ensures first == Ok(()) && second == Err(DuplicateUser)
  {
    var store := new Store();
    first := store.AddUser(a, now);
    second := store.AddUser(b, now);
  }
}
