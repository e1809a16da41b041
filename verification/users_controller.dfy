/**
 * The decision rules of src/server/controllers/users.controller.js: the
 * credential predicates, `validateCredential`, `User.toJSON`, the
 * `Authorization` header slicing and the key checks of `update_user`.
 */
module UsersController {
  import opened Text
  import opened Wrappers
  import opened UsersDao

  // ---------------------------------------------------------------------------
  // Character classes, over code-unit or code-point values

  predicate IsDigit(c: int) { 0x30 <= c <= 0x39 }          // \d without the `i` flag
  predicate IsUpper(c: int) { 0x41 <= c <= 0x5A }          // [A-Z]
  predicate IsLower(c: int) { 0x61 <= c <= 0x7A }          // [a-z]

  /** `\w`: ASCII letters, digits and `_`. */
  predicate IsWordChar(c: int) { IsDigit(c) || IsUpper(c) || IsLower(c) || c == 0x5F }

  /** `[!@#$%^&*]`. */
  predicate IsSpecial(c: int)
  {
    c == 0x21 || c == 0x40 || c == 0x23 || c == 0x24 || c == 0x25 || c == 0x5E || c == 0x26 || c == 0x2A
  }

  /** `[\w@$^&*]`, the username class. */
  predicate IsUsrChar(c: int)
  {
    IsWordChar(c) || c == 0x40 || c == 0x24 || c == 0x5E || c == 0x26 || c == 0x2A
  }

  /** `[\w!@#$%^&*]`, the class of a password's first character. */
  predicate IsPwdHead(c: int) { IsWordChar(c) || IsSpecial(c) }

  /** The line terminators `.` does not match: LF, CR, LINE SEPARATOR, PARAGRAPH SEPARATOR. */
  predicate IsLineTerminator(c: int) { c == 0x0A || c == 0x0D || c == 0x2028 || c == 0x2029 }

  /** What `.` matches without the `s` flag. */
  predicate NotLineTerminator(c: int) { !IsLineTerminator(c) }

  // ---------------------------------------------------------------------------
  // The credential predicates

  /** `isUsrSuitable`: 3 to 15 code units, each in `[\w@$^&*]` (no `u` flag, so code units). */
  predicate IsUsrSuitable(username: JsString)
  {
    UsrRules(Units(username))
  }

  /** The username rules, on the code units of the candidate. */
  predicate UsrRules(units: seq<int>)
  {
    3 <= |units| <= 15 && forall i :: 0 <= i < |units| ==> IsUsrChar(units[i])
  }

  /**
   * `isPwdSuitable` (the `u` flag makes it count code points): 9 to 65 code
   * points, none a line terminator, the first in `[\w!@#$%^&*]`, and at
   * least one digit, one upper-case letter, one lower-case letter and one of
   * `!@#$%^&*`.
   */
  predicate IsPwdSuitable(pwd: JsString)
  {
    PwdRules(CodePoints(pwd))
  }

  /** The password rules, on the code points of the candidate. */
  predicate PwdRules(cps: seq<int>)
  {
    && 9 <= |cps| <= 65
    && (forall i :: 0 <= i < |cps| ==> NotLineTerminator(cps[i]))
    && IsPwdHead(cps[0])
    && (exists i :: 0 <= i < |cps| && IsDigit(cps[i]))
    && (exists i :: 0 <= i < |cps| && IsUpper(cps[i]))
    && (exists i :: 0 <= i < |cps| && IsLower(cps[i]))
    && (exists i :: 0 <= i < |cps| && IsSpecial(cps[i]))
  }

  // ---------------------------------------------------------------------------
  // The regular expressions themselves, matched by recursion on the input

  /** `c{lo,hi}$`: the whole of `s` is between `lo` and `hi` characters of class `c`. */
  predicate Repeat(s: seq<int>, lo: nat, hi: nat, c: int -> bool)
  {
    if s == [] then lo == 0
    else hi > 0 && c(s[0]) && Repeat(s[1..], if lo == 0 then 0 else lo - 1, hi - 1, c)
  }

  /** `(?=.*c)`: a character of class `c` follows a run of non-terminators. */
  predicate Lookahead(s: seq<int>, c: int -> bool)
  {
    s != [] && (c(s[0]) || (NotLineTerminator(s[0]) && Lookahead(s[1..], c)))
  }

  /** `/^(?=.*[\d])(?=.*[A-Z])(?=.*[a-z])(?=.*[!@#$%^&*])[\w!@#$%^&*](.){8,64}$/u` on code points. */
  predicate PwdPattern(cps: seq<int>)
  {
    && Lookahead(cps, IsDigit) && Lookahead(cps, IsUpper) && Lookahead(cps, IsLower) && Lookahead(cps, IsSpecial)
    && cps != [] && IsPwdHead(cps[0]) && Repeat(cps[1..], 8, 64, NotLineTerminator)
  }

  /** `/^[\w@$^&*]{3,15}$/` on code units. */
  predicate UsrPattern(units: seq<int>)
  {
    Repeat(units, 3, 15, IsUsrChar)
  }

  function Units(s: JsString): (r: seq<int>)
    ensures |r| == |s| && forall i :: 0 <= i < |s| ==> r[i] == s[i] as int
  {
    seq(|s|, i requires 0 <= i < |s| => s[i] as int)
  }

  lemma {:induction false} RepeatIff(s: seq<int>, lo: nat, hi: nat, c: int -> bool)
    ensures Repeat(s, lo, hi, c) <==> lo <= |s| <= hi && forall i :: 0 <= i < |s| ==> c(s[i])
  {
    if s != [] && hi > 0 {
      RepeatIff(s[1..], if lo == 0 then 0 else lo - 1, hi - 1, c);
      if c(s[0]) && forall i :: 0 <= i < |s[1..]| ==> c(s[1..][i]) {
        forall i | 0 <= i < |s| ensures c(s[i]) {
          if i > 0 { assert s[i] == s[1..][i - 1]; }
        }
      }
    }
  }

  lemma {:induction false} LookaheadIff(s: seq<int>, c: int -> bool)
    ensures Lookahead(s, c) <==> exists i :: 0 <= i < |s| && c(s[i]) && forall j :: 0 <= j < i ==> NotLineTerminator(s[j])
  {
    if s != [] {
      LookaheadIff(s[1..], c);
      if Lookahead(s, c) && !c(s[0]) {
        var i :| 0 <= i < |s[1..]| && c(s[1..][i]) && forall j :: 0 <= j < i ==> NotLineTerminator(s[1..][j]);
        assert c(s[i + 1]) && forall j :: 0 <= j < i + 1 ==> NotLineTerminator(s[j]);
      }
      if exists i :: 0 <= i < |s| && c(s[i]) && forall j :: 0 <= j < i ==> NotLineTerminator(s[j]) {
        var i :| 0 <= i < |s| && c(s[i]) && forall j :: 0 <= j < i ==> NotLineTerminator(s[j]);
        if i > 0 {
          assert c(s[1..][i - 1]) && forall j :: 0 <= j < i - 1 ==> NotLineTerminator(s[1..][j]);
        }
      }
    }
  }

  /** The username predicate is the username regular expression. */
  lemma UsrSuitableMatchesPattern(username: JsString)
    ensures IsUsrSuitable(username) <==> UsrPattern(Units(username))
  {
    RepeatIff(Units(username), 3, 15, IsUsrChar);
  }

  /** The password predicate is the password regular expression. */
  lemma PwdSuitableMatchesPattern(pwd: JsString)
    ensures IsPwdSuitable(pwd) <==> PwdPattern(CodePoints(pwd))
  {
    var cps := CodePoints(pwd);
    PwdShapeIff(cps);
    if 9 <= |cps| <= 65 && (forall i :: 0 <= i < |cps| ==> NotLineTerminator(cps[i])) {
      LookaheadOverDots(cps, IsDigit);
      LookaheadOverDots(cps, IsUpper);
      LookaheadOverDots(cps, IsLower);
      LookaheadOverDots(cps, IsSpecial);
    }
  }

  /** `[\w!@#$%^&*](.){8,64}$`: 9 to 65 characters, none a line terminator, the first from the head class. */
  lemma PwdShapeIff(cps: seq<int>)
    ensures (cps != [] && IsPwdHead(cps[0]) && Repeat(cps[1..], 8, 64, NotLineTerminator)) <==>
            (9 <= |cps| <= 65 && (forall i :: 0 <= i < |cps| ==> NotLineTerminator(cps[i])) && IsPwdHead(cps[0]))
  {
    if cps != [] {
      RepeatIff(cps[1..], 8, 64, NotLineTerminator);
      if Repeat(cps[1..], 8, 64, NotLineTerminator) && IsPwdHead(cps[0]) {
        forall i | 0 <= i < |cps| ensures NotLineTerminator(cps[i]) {
          if i > 0 { assert cps[i] == cps[1..][i - 1]; }
        }
      }
    }
  }

  /** With no line terminator in the way, a lookahead just asks for one character of its class. */
  lemma LookaheadOverDots(s: seq<int>, c: int -> bool)
    requires forall i :: 0 <= i < |s| ==> NotLineTerminator(s[i])
    ensures Lookahead(s, c) <==> exists i :: 0 <= i < |s| && c(s[i])
  {
    LookaheadIff(s, c);
  }

  /**
   * A suitable username is plain ASCII, so its code units are its code
   * points: counting either gives the same length.
   */
  lemma {:induction false} UsrSuitableIsAscii(u: JsString)
    requires forall i :: 0 <= i < |u| ==> IsUsrChar(u[i] as int)
    ensures CodePoints(u) == Units(u)
  {
    if u != [] {
      UsrSuitableIsAscii(u[1..]);
      assert !IsHighSurrogate(u[0]);
      assert Units(u) == [u[0] as int] + Units(u[1..]);
    }
  }

  // ---------------------------------------------------------------------------
  // Vectors from the registration tests

  /**
   * The username predicate on the UTF-16 text of a string is the username
   * rules on that string's scalar values.
   */
  lemma UsrSuitableOfText(s: string)
    ensures IsUsrSuitable(Utf16(s)) <==> UsrRules(Ords(s))
  {
    var u := Utf16(s);
    CodePointsOfUtf16(s);
    if IsUsrSuitable(u) {
      UsrSuitableIsAscii(u);
    }
    if UsrRules(Ords(s)) {
      Utf16OfAscii(s);
      assert Units(u) == Ords(s);
    }
  }

  // The registration tests' usernames, as the code units the pattern sees.

  lemma UsernameVectorTooShort()
    ensures !UsrRules(Ords("bb"))
  {
  }

  lemma UsernameVectorPunctuation()
    ensures !UsrRules(Ords("!#%@#%#EVR^%@"))
  {
    assert !IsUsrChar(Ords("!#%@#%#EVR^%@")[0]);
  }

  lemma UsernameVectorTooLong()
    ensures !UsrRules(Ords("AaDAaDAaDAaDAaDAaD"))
  {
  }

  lemma UsernameVectorHyphen()
    ensures !UsrRules(Ords("hehe-nope"))
  {
    assert !IsUsrChar(Ords("hehe-nope")[4]);
  }

  lemma UsernameVectorEmoji()
    ensures !UsrRules(Ords("COLCQOCLS\U{1F950}"))
  {
    assert !IsUsrChar(Ords("COLCQOCLS\U{1F950}")[9]);
  }

  lemma UsernameVectorAccepted()
    ensures UsrRules(Ords("2021_year_"))
  {
  }

  lemma {:induction false} Utf16OfAscii(s: string)
    requires forall i :: 0 <= i < |s| ==> s[i] as int < 0x80
    ensures |Utf16(s)| == |s| && forall i :: 0 <= i < |s| ==> Utf16(s)[i] as int == s[i] as int
  {
    if s != [] {
      Utf16OfAscii(s[1..]);
      assert Utf16(s) == [s[0] as int as CodeUnit] + Utf16(s[1..]);
    }
  }

  /**
   * The password predicate on the UTF-16 text of a string is the password
   * rules on that string's scalar values.
   */
  lemma PwdSuitableOfText(s: string)
    ensures IsPwdSuitable(Utf16(s)) <==> PwdRules(Ords(s))
  {
    CodePointsOfUtf16(s);
  }

  // The registration tests' passwords, as the code points the pattern sees.

  lemma PasswordVectorTooShort()
    ensures !PwdRules(Ords("Aa$1"))
  {
  }

  lemma PasswordVectorNoSpecial()
    ensures !PwdRules(Ords("ADFAsdlknf32l45\U{1F921}"))
  {
  }

  lemma PasswordVectorNoLower()
    ensures !PwdRules(Ords("&$%^&$%^\U{1F601}12341DQDAGS"))
  {
  }

  lemma PasswordVectorNoUpper()
    ensures !PwdRules(Ords("ojnj$#!%!#513"))
  {
  }

  /** Six copies of an eleven-code-point password: 66 code points, one too many. */
  lemma PasswordVectorTooLong()
    ensures !PwdRules(Ords(
      "aDa234^%&$\U{1F974}aDa234^%&$\U{1F974}aDa234^%&$\U{1F974}aDa234^%&$\U{1F974}aDa234^%&$\U{1F974}aDa234^%&$\U{1F974}"))
  {
  }

  lemma PasswordVectorAccepted()
    ensures PwdRules(Ords("1123#2351@3423Rr%$^%"))
  {
    var cps := Ords("1123#2351@3423Rr%$^%");
    assert IsDigit(cps[0]) && IsUpper(cps[14]) && IsLower(cps[15]) && IsSpecial(cps[4]);
  }

  // ---------------------------------------------------------------------------
  // validateCredential

  /** The `username` and `pwd` members of a request body, each possibly missing. */
  datatype RawUser = RawUser(username: Option<JsString>, pwd: Option<JsString>)

  const InvalidCredentials: string := "Password or username are not valid."

  /** The `switch (true)` cases of `validateCredential`: a missing or empty member, or a failed predicate. */
  predicate CredentialsRejected(user: RawUser)
  {
    || user.username.None? || user.username.value == []
    || user.pwd.None? || user.pwd.value == []
    || !IsPwdSuitable(user.pwd.value)
    || !IsUsrSuitable(user.username.value)
  }

  /** Credentials are accepted exactly when both members are present and both predicates hold. */
  lemma CredentialsAcceptedIff(user: RawUser)
    ensures !CredentialsRejected(user) <==>
      user.username.Some? && user.pwd.Some? && IsUsrSuitable(user.username.value) && IsPwdSuitable(user.pwd.value)
  {
    if user.pwd.Some? && user.pwd.value == [] {
      assert CodePoints(user.pwd.value) == [];
    }
  }

  /** The error object `validateCredential` writes into. */
  class ErrorBag {
    var entries: map<string, string>

    constructor ()
      ensures entries == map[]
    {
      entries := map[];
    }
  }

  /** The object `validateCredential()` returns when called without arguments. */
  datatype Validators = Validators(isPwdSuitable: JsString -> bool, isUsrSuitable: JsString -> bool)

  /**
   * `validateCredential(userFromBody, errors)`: with both arguments, records
   * `errors.user` when the credentials are rejected and otherwise leaves
   * `errors` as it was; with either missing, returns the two predicates and
   * records nothing.
   */
  method ValidateCredential(body: Option<RawUser>, errors: ErrorBag?) returns (r: Option<Validators>)
    modifies errors
    ensures body.None? || errors == null ==>
      && r.Some?
      && (forall p :: r.value.isPwdSuitable(p) == IsPwdSuitable(p))
      && (forall u :: r.value.isUsrSuitable(u) == IsUsrSuitable(u))
      && (errors != null ==> errors.entries == old(errors.entries))
    ensures body.Some? && errors != null ==>
      && r.None?
      && errors.entries == if CredentialsRejected(body.value)
                           then old(errors.entries)["user" := InvalidCredentials]
                           else old(errors.entries)
  {
    if body.None? || errors == null {
      return Some(Validators(IsPwdSuitable, IsUsrSuitable));
    }
    if CredentialsRejected(body.value) {
      errors.entries := errors.entries["user" := InvalidCredentials];
    }
    return None;
  }

  /** Registration with any password and one of the tests' invalid usernames is rejected. */
  lemma RegistrationRejected(pwd: JsString)
    ensures CredentialsRejected(RawUser(Some(Utf16("bb")), Some(pwd)))
    ensures CredentialsRejected(RawUser(Some(Utf16("COLCQOCLS\U{1F950}")), Some(pwd)))
    ensures CredentialsRejected(RawUser(Some(Utf16("!#%@#%#EVR^%@")), Some(pwd)))
    ensures CredentialsRejected(RawUser(Some(Utf16("AaDAaDAaDAaDAaDAaD")), Some(pwd)))
    ensures CredentialsRejected(RawUser(Some(Utf16("hehe-nope")), Some(pwd)))
  {
    UsernameVectorTooShort();
    UsrSuitableOfText("bb");
    UsernameVectorEmoji();
    UsrSuitableOfText("COLCQOCLS\U{1F950}");
    UsernameVectorPunctuation();
    UsrSuitableOfText("!#%@#%#EVR^%@");
    UsernameVectorTooLong();
    UsrSuitableOfText("AaDAaDAaDAaDAaDAaD");
    UsernameVectorHyphen();
    UsrSuitableOfText("hehe-nope");
  }

  /** Registration with any username and one of the tests' invalid passwords is rejected. */
  lemma RegistrationRejectedByPassword(name: JsString)
    ensures CredentialsRejected(RawUser(Some(name), Some(Utf16("Aa$1"))))
    ensures CredentialsRejected(RawUser(Some(name), Some(Utf16("ADFAsdlknf32l45\U{1F921}"))))
    ensures CredentialsRejected(RawUser(Some(name), Some(Utf16("&$%^&$%^\U{1F601}12341DQDAGS"))))
    ensures CredentialsRejected(RawUser(Some(name), Some(Utf16("ojnj$#!%!#513"))))
    ensures CredentialsRejected(RawUser(Some(name), Some(Utf16(
      "aDa234^%&$\U{1F974}aDa234^%&$\U{1F974}aDa234^%&$\U{1F974}aDa234^%&$\U{1F974}aDa234^%&$\U{1F974}aDa234^%&$\U{1F974}"))))
  {
    PasswordVectorTooShort();
    PwdSuitableOfText("Aa$1");
    PasswordVectorNoSpecial();
    PwdSuitableOfText("ADFAsdlknf32l45\U{1F921}");
    PasswordVectorNoLower();
    PwdSuitableOfText("&$%^&$%^\U{1F601}12341DQDAGS");
    PasswordVectorNoUpper();
    PwdSuitableOfText("ojnj$#!%!#513");
    PasswordVectorTooLong();
    PwdSuitableOfText("aDa234^%&$\U{1F974}aDa234^%&$\U{1F974}aDa234^%&$\U{1F974}aDa234^%&$\U{1F974}aDa234^%&$\U{1F974}aDa234^%&$\U{1F974}");
  }

  /** The tests' valid user is accepted. */
  lemma RegistrationAccepted()
    ensures !CredentialsRejected(RawUser(Some(Utf16("2021_year_")), Some(Utf16("1123#2351@3423Rr%$^%"))))
  {
    UsernameVectorAccepted();
    UsrSuitableOfText("2021_year_");
    PasswordVectorAccepted();
    PwdSuitableOfText("1123#2351@3423Rr%$^%");
    CredentialsAcceptedIff(RawUser(Some(Utf16("2021_year_")), Some(Utf16("1123#2351@3423Rr%$^%"))));
  }

  // ---------------------------------------------------------------------------
  // User.toJSON

  /** A `User`: the two members its constructor copies from its argument. */
  datatype User = User(username: Option<JsString>, pwd: Option<JsString>)

  /** `toJSON`: an object with the single member `username`. */
  function ToJson(user: User): (r: map<string, Option<JsString>>)
    ensures r.Keys == {"username"} && r["username"] == user.username
  {
    map["username" := user.username]
  }

  /** The password never reaches the JSON form: users differing only in `pwd` serialise alike. */
  lemma ToJsonHidesPassword(a: User, b: User)
    requires a.username == b.username
    ensures ToJson(a) == ToJson(b) && "pwd" !in ToJson(a)
  {
  }

  // ---------------------------------------------------------------------------
  // The Authorization header

  /** `"Bearer ".length`. */
  const BearerPrefixLength: nat := 7

  /** `header.slice("Bearer ".length)`: drops the first seven code units, whatever they are. */
  function BearerToken(header: JsString): (token: JsString)
    ensures |token| == if |header| < BearerPrefixLength then 0 else |header| - BearerPrefixLength
    ensures header == header[..|header| - |token|] + token
  {
    if |header| < BearerPrefixLength then [] else header[BearerPrefixLength..]
  }

  /** `req.get("Authorization")?.slice(...)`: a missing header gives no token. */
  function OptionalBearerToken(header: Option<JsString>): (token: Option<JsString>)
    ensures token.Some? <==> header.Some?
    ensures token.Some? ==> token.value == BearerToken(header.value)
  {
    match header
    case None => None
    case Some(h) => Some(BearerToken(h))
  }

  datatype HeaderError = NoAuthorizationHeader

  /** `req.get("Authorization").slice(...)` in `logout`: a missing header throws. */
  function RequiredBearerToken(header: Option<JsString>): (token: Result<JsString, HeaderError>)
    ensures token.Err? <==> header.None?
    ensures token.Ok? ==> token.value == BearerToken(header.value)
  {
    match header
    case None => Err(NoAuthorizationHeader)
    case Some(h) => Ok(BearerToken(h))
  }

  /** The token written after `Bearer ` is the token read back. */
  lemma BearerRoundTrip(token: JsString)
    ensures BearerToken(Utf16("Bearer ") + token) == token
  {
    assert |Utf16("Bearer ")| == BearerPrefixLength by {
      Utf16OfAscii("Bearer ");
    }
  }

  // ---------------------------------------------------------------------------
  // update_user

  /** A parsed JSON request body, with string values: member name to value. */
  type Body = map<string, JsString>

  /** `Object.keys(rawUserData).length > 5` is refused. */
  const MaxBodyKeys: nat := 5

  /** Members a request may never name. */
  const Banned: set<string> := {"_id", "created_at", "updated_at"}

  /** Members never forwarded to storage: the banned ones and `pwd`. */
  const NotForwarded: set<string> := Banned + {"pwd"}

  /** The members every plain object inherits from `Object.prototype`, all truthy. */
  const InheritedNames: set<string> :=
    {"constructor", "hasOwnProperty", "isPrototypeOf", "propertyIsEnumerable", "toString", "valueOf",
     "toLocaleString", "__proto__", "__defineGetter__", "__defineSetter__", "__lookupGetter__", "__lookupSetter__"}

  /** JavaScript truthiness of a stored value: strings unless empty, dates and ids always. */
  predicate Truthy(v: Value)
  {
    match v
    case Str(text) => text != []
    case Date(_) => true
    case Id(_) => true
  }

  function Lookup(user: Record, key: string): (r: Option<Value>)
    ensures r.Some? <==> key in user
    ensures r.Some? ==> r.value == user[key]
  {
    if key in user then Some(user[key]) else None
  }

  /** `!!user[key]` on a stored document: its own member if it has one, else the inherited one. */
  predicate TruthyMemberAsWritten(user: Record, key: string)
  {
    if key in user then Truthy(user[key]) else key in InheritedNames
  }

  /** A truthy member the stored document has of its own. */
  predicate TruthyOwnField(user: Record, key: string)
  {
    key in user && Truthy(user[key])
  }

  /** What `update_user` does with a request body before it reaches storage. */
  datatype UpdateOutcome =
    | TooManyKeys                       // 401
    | UnresolvedField                   // 400 'BAD REQUEST'
    | UsernameTaken                     // 400 'A user with the given username already exists.'
    | UsernameInvalid                   // 401
    | Forward(fields: map<string, JsString>)

  function Status(outcome: UpdateOutcome): nat
  {
    match outcome
    case TooManyKeys => 401
    case UnresolvedField => 400
    case UsernameTaken => 400
    case UsernameInvalid => 401
    case Forward(_) => 200
  }

  /** The `every` check as written: each body member is truthy on `user` and not banned. */
  predicate MembersResolvedAsWritten(body: Body, user: Record)
  {
    forall k :: k in body ==> TruthyMemberAsWritten(user, k) && k !in Banned
  }

  /** The `filter` as written: the body members kept for `changeUserData`. */
  function ForwardedAsWritten(body: Body, user: Record): (fields: map<string, JsString>)
    ensures fields.Keys <= body.Keys && fields.Keys !! NotForwarded
    ensures forall k :: k in fields ==> fields[k] == body[k]
  {
    map k | k in body && k !in NotForwarded && TruthyMemberAsWritten(user, k) :: body[k]
  }

  /**
   * `update_user` as written, on the body, the authenticated user's stored
   * document `user`, and the stored users (for `getUser` of a new name).
   */
  function UpdateDecisionAsWritten(body: Body, user: Record, users: map<JsString, Record>): (r: UpdateOutcome)
    ensures r.TooManyKeys? <==> |body| > MaxBodyKeys
    ensures r.UnresolvedField? <==> |body| <= MaxBodyKeys && !MembersResolvedAsWritten(body, user)
    ensures r.Forward? ==> r.fields == ForwardedAsWritten(body, user)
  {
    if |body| > MaxBodyKeys then TooManyKeys
    else if !MembersResolvedAsWritten(body, user) then UnresolvedField
    else if "username" in body && body["username"] != [] && Lookup(user, "username") != Some(Str(body["username"])) then
      if body["username"] in users then UsernameTaken
      else if !IsUsrSuitable(body["username"]) then UsernameInvalid
      else Forward(ForwardedAsWritten(body, user))
    else Forward(ForwardedAsWritten(body, user))
  }

  /** True when the body asks for a `username` other than the stored one. */
  predicate RenameRequested(body: Body, user: Record)
  {
    "username" in body && Lookup(user, "username") != Some(Str(body["username"]))
  }

  /** The intended member check: each body member is a truthy member of the document's own, and not banned. */
  predicate MembersResolved(body: Body, user: Record)
  {
    forall k :: k in body ==> TruthyOwnField(user, k) && k !in Banned
  }

  /** The intended filter. */
  function Forwarded(body: Body, user: Record): map<string, JsString>
  {
    map k | k in body && k !in NotForwarded && TruthyOwnField(user, k) :: body[k]
  }

  /**
   * `update_user` with the two checks it evidently intends: a body member
   * must be a truthy member of the stored document's own, and any requested
   * username other than the current one, the empty one included, is checked.
   */
  function UpdateDecision(body: Body, user: Record, users: map<JsString, Record>): UpdateOutcome
  {
    if |body| > MaxBodyKeys then TooManyKeys
    else if !MembersResolved(body, user) then UnresolvedField
    else if RenameRequested(body, user) then
      if body["username"] in users then UsernameTaken
      else if !IsUsrSuitable(body["username"]) then UsernameInvalid
      else Forward(Forwarded(body, user))
    else Forward(Forwarded(body, user))
  }

  /** The requests `update_user` refuses, in the order it checks them. */
  lemma UpdateRejections(body: Body, user: Record, users: map<JsString, Record>)
    ensures var r := UpdateDecision(body, user, users);
      && (r == TooManyKeys <==> |body| > MaxBodyKeys)
      && (r == UnresolvedField <==>
            |body| <= MaxBodyKeys && exists k :: k in body && (!TruthyOwnField(user, k) || k in Banned))
      && (r == UsernameTaken <==>
            && |body| <= MaxBodyKeys && MembersResolved(body, user)
            && RenameRequested(body, user) && body["username"] in users)
      && (r == UsernameInvalid <==>
            && |body| <= MaxBodyKeys && MembersResolved(body, user)
            && RenameRequested(body, user) && body["username"] !in users && !IsUsrSuitable(body["username"]))
  {
  }

  /**
   * A forwarded update carries every body member except `pwd`, each a member
   * the stored document already has, none of `_id`, `pwd`, `created_at`,
   * `updated_at`; and a new username in it is free and suitable.
   */
  lemma UpdateForwarded(body: Body, user: Record, users: map<JsString, Record>)
    requires UpdateDecision(body, user, users).Forward?
    ensures var fields := UpdateDecision(body, user, users).fields;
      && fields == (map k | k in body && k != "pwd" :: body[k])
      && fields.Keys <= user.Keys
      && fields.Keys !! NotForwarded
      && (RenameRequested(body, user) ==> body["username"] !in users && IsUsrSuitable(body["username"]))
  {
  }

  /** Off the two findings' inputs, the code as written and the intended rule decide alike. */
  lemma UpdateDecisionsAgree(body: Body, user: Record, users: map<JsString, Record>)
    requires forall k :: k in body && k in InheritedNames ==> k in user
    requires "username" in body ==> body["username"] != []
    ensures UpdateDecisionAsWritten(body, user, users) == UpdateDecision(body, user, users)
  {
    forall k | k in body ensures TruthyMemberAsWritten(user, k) == TruthyOwnField(user, k) {
      if k !in user { assert k !in InheritedNames; }
    }
    assert MembersResolvedAsWritten(body, user) == MembersResolved(body, user);
    assert ForwardedAsWritten(body, user) == Forwarded(body, user);
  }

  /**
   * As written, `{ username: "", pwd }` from a user with a non-empty name and
   * password skips both username checks (the empty string is falsy) and
   * forwards the empty name, which `isUsrSuitable` refuses; the intended rule
   * refuses it with 401.
   */
  lemma EmptyUsernameForwardedAsWritten(user: Record, users: map<JsString, Record>, pwd: JsString)
    requires SchemaOk(user) && user["username"].text != [] && user["pwd"].text != []
    requires [] !in users
    ensures var body := map["username" := [], "pwd" := pwd];
      && UpdateDecisionAsWritten(body, user, users) == Forward(map["username" := []])
      && !IsUsrSuitable([])
      && UpdateDecision(body, user, users) == UsernameInvalid
  {
    var body: Body := map["username" := [], "pwd" := pwd];
    assert MembersResolvedAsWritten(body, user);
    assert ForwardedAsWritten(body, user) == map["username" := []];
    assert MembersResolved(body, user);
    assert RenameRequested(body, user);
  }

  /**
   * As written, `{ constructor: value, pwd }` from a user with a password
   * passes the member check (every document inherits a truthy `constructor`)
   * and forwards `constructor` to storage; the intended rule refuses it with
   * 400.
   */
  lemma InheritedNameForwardedAsWritten(user: Record, users: map<JsString, Record>, value: JsString, pwd: JsString)
    requires SchemaOk(user) && user["pwd"].text != [] && "constructor" !in user
    ensures var body := map["constructor" := value, "pwd" := pwd];
      && UpdateDecisionAsWritten(body, user, users) == Forward(map["constructor" := value])
      && UpdateDecision(body, user, users) == UnresolvedField
  {
    var body: Body := map["constructor" := value, "pwd" := pwd];
    assert "constructor" in InheritedNames;
    assert MembersResolvedAsWritten(body, user);
    assert ForwardedAsWritten(body, user) == map["constructor" := value];
    assert !TruthyOwnField(user, "constructor");
  }

  /** The forwarded members as the document values `changeUserData` sets. */
  function StoredFields(fields: map<string, JsString>): (r: Record)
    ensures r.Keys == fields.Keys && forall k :: k in fields ==> r[k] == Str(fields[k])
  {
    map k | k in fields :: Str(fields[k])
  }

  /**
   * `update_user` for the authenticated user `username` (whose stored
   * document is `req.user`): a refused body leaves the store untouched; a
   * forwarded one is written with `changeUserData`, which succeeds since no
   * other request runs in between, and the old username's session is ended.
   */
  method UpdateUser(store: Store, username: JsString, body: Body, now: int) returns (status: nat)
    requires store.Valid() && username in store.users
    modifies store
    ensures store.Valid() && store.nextId == old(store.nextId)
    ensures var decision := UpdateDecision(body, old(store.users[username]), old(store.users));
      && (!decision.Forward? ==> status == Status(decision) && unchanged(store))
      && (decision.Forward? ==>
            var doc := Merge(old(store.users[username]), StoredFields(decision.fields), now);
            && store.users == (old(store.users) - {username})[doc["username"].text := doc]
            && store.sessions == old(store.sessions) - {username}
            && (status == 200 <==> username in old(store.sessions))
            && (status != 200 ==> status == 500))
  {
    var user := store.users[username];
    var decision := UpdateDecision(body, user, store.users);
    if !decision.Forward? {
      return Status(decision);
    }
    UpdateForwarded(body, user, store.users);
    var fields := StoredFields(decision.fields);
    ghost var doc := Merge(user, fields, now);
    assert doc["_id"] == user["_id"];
    assert SchemaOk(doc);
    assert doc["username"].text != username ==> doc["username"].text !in store.users;
    var changed := store.ChangeUserData(username, fields, now);
    assert changed == Ok(Some(doc));
    var logout := store.LogoutUser(username);
    if logout.Err? {
      return 500;
    }
    return 200;
  }
}
