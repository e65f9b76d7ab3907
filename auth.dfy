/**
  The authorization middleware: a chain of guards over the `Authorization`
  header, the process-wide token blacklist, token verification and the user
  lookup, each failure answered with its own status code.

  Token verification (`jwt.verify`) and the user lookup are calls into code
  outside this model; they are parameters here, each returning what the call
  returns or the name of the error it throws.
 */
module Auth {
  import opened Wrappers
  import opened Text
  import opened UserModel

  const BearerPrefix: string := "Bearer "

  /** What `jwt.verify` does with a token: returns the payload's email, or
      throws an error with the given `name`. */
  datatype Verified = Decoded(email: string) | Thrown(name: string)

  /** What the user lookup does: yields a user, yields none, or throws an error
      with the given `name`. */
  datatype Lookup = Found(user: UserRecord) | NoUser | LookupThrew(name: string)

  /** The middleware's decision: call `next()` with `req.user` set, or answer. */
  datatype AuthOutcome = Next(user: UserRecord) | Reject(status: int, message: string)

  const MalformedMessage: string := "Authorization header is missing or malformed"
  const MissingTokenMessage: string := "Token is missing"
  const BlacklistedMessage: string := "This token has been blacklisted"
  const UnknownUserMessage: string := "User not found, unauthorized access"
  const ExpiredMessage: string := "Token has expired"
  const InvalidMessage: string := "Invalid token"
  const InternalErrorMessage: string := "Internal server error"

  /** `header.split(' ')[1]`: the second space-separated field, `None` when
      there is no second field (`undefined`). */
  function SecondField(header: string): Option<string> {
    var parts := Split(header, ' ');
    if |parts| >= 2 then Some(parts[1]) else None
  }

  /** The token is the text after "Bearer " up to the next space (or the end):
      it is empty exactly when the header stops right after the prefix or the
      prefix is followed by another space. */
  lemma {:induction false} TokenAfterPrefix(header: string)
    requires StartsWith(header, BearerPrefix)
    ensures var rest := header[|BearerPrefix|..];
      && SecondField(header) == Some(rest[..IndexFrom(rest, ' ', 0)])
      && (SecondField(header).value == [] <==> rest == [] || rest[0] == ' ')
  {
    var rest := header[|BearerPrefix|..];
    assert header == "Bearer" + [' '] + rest;
    SplitAfterPiece("Bearer", rest, ' ');
    SplitFirst(rest, ' ');
  }

  /** The catch block: the thrown error's name picks the answer. */
  function CatchReply(name: string): AuthOutcome {
    if name == "TokenExpiredError" then Reject(401, ExpiredMessage)
    else if name == "JsonWebTokenError" then Reject(401, InvalidMessage)
    else Reject(500, InternalErrorMessage)
  }

  /** The guard chain, in the middleware's order. */
  function Authenticate(header: Option<string>, blackList: set<string>,
                        verify: string -> Verified, lookup: string -> Lookup): AuthOutcome
  {
    if header.None? || header.value == [] || !StartsWith(header.value, BearerPrefix) then
      Reject(401, MalformedMessage)
    else
      var token := SecondField(header.value);
      if token.None? || token.value == [] then Reject(401, MissingTokenMessage)
      else if token.value in blackList then Reject(403, BlacklistedMessage)
      else
        match verify(token.value)
        case Thrown(name) => CatchReply(name)
        case Decoded(email) =>
          match lookup(email)
          case LookupThrew(name) => CatchReply(name)
          case NoUser => Reject(401, UnknownUserMessage)
          case Found(u) => Next(u)
  }

  /** A header that is missing or does not start with "Bearer " is answered
      with 401, whatever the blacklist, the verifier and the lookup would say. */
  lemma MalformedHeaderStopsFirst(header: Option<string>,
                                  blackList: set<string>, verify: string -> Verified, lookup: string -> Lookup,
                                  blackList': set<string>, verify': string -> Verified, lookup': string -> Lookup)
    requires header.None? || !StartsWith(header.value, BearerPrefix)
    ensures Authenticate(header, blackList, verify, lookup) == Reject(401, MalformedMessage)
    ensures Authenticate(header, blackList, verify, lookup) == Authenticate(header, blackList', verify', lookup')
  {
  }

  /** "Bearer " with nothing after it, or followed by a second space, leaves an
      empty token: 401 before the blacklist is consulted. */
  lemma EmptyTokenRejected(header: string, blackList: set<string>,
                           verify: string -> Verified, lookup: string -> Lookup)
    requires StartsWith(header, BearerPrefix)
    requires |header| == |BearerPrefix| || header[|BearerPrefix|] == ' '
    ensures Authenticate(Some(header), blackList, verify, lookup) == Reject(401, MissingTokenMessage)
  {
    TokenAfterPrefix(header);
  }

  /** A blacklisted token is answered with 403 whatever the verifier and the
      lookup would say: the blacklist is consulted before verification. */
  lemma BlacklistBeforeVerify(header: string, blackList: set<string>,
                              verify: string -> Verified, lookup: string -> Lookup,
                              verify': string -> Verified, lookup': string -> Lookup)
    requires StartsWith(header, BearerPrefix)
    requires SecondField(header).Some? && SecondField(header).value != []
    requires SecondField(header).value in blackList
    ensures Authenticate(Some(header), blackList, verify, lookup) == Reject(403, BlacklistedMessage)
    ensures Authenticate(Some(header), blackList, verify, lookup)
         == Authenticate(Some(header), blackList, verify', lookup')
  {
  }

  /** The header and token checks passed: what the middleware does with the
      token, before and after verification. */
  ghost predicate PassesHeaderChecks(header: Option<string>, blackList: set<string>) {
    && header.Some? && StartsWith(header.value, BearerPrefix)
    && SecondField(header.value).Some?
    && SecondField(header.value).value != []
    && SecondField(header.value).value !in blackList
  }

  /** Past the header checks: a verification error maps by its name (expired
      and malformed tokens to 401, anything else to 500); a verified email
      that no user holds gives 401; a lookup error maps like a verification
      error; a found user is passed on. */
  lemma VerificationOutcomes(header: Option<string>, blackList: set<string>,
                             verify: string -> Verified, lookup: string -> Lookup)
    requires PassesHeaderChecks(header, blackList)
    ensures var token := SecondField(header.value).value;
      var outcome := Authenticate(header, blackList, verify, lookup);
      && (verify(token) == Thrown("TokenExpiredError") ==> outcome == Reject(401, ExpiredMessage))
      && (verify(token) == Thrown("JsonWebTokenError") ==> outcome == Reject(401, InvalidMessage))
      && ((verify(token).Thrown? && verify(token).name != "TokenExpiredError"
             && verify(token).name != "JsonWebTokenError") ==> outcome == Reject(500, InternalErrorMessage))
      && (verify(token).Decoded? && lookup(verify(token).email) == NoUser ==>
            outcome == Reject(401, UnknownUserMessage))
      && (verify(token).Decoded? && lookup(verify(token).email).LookupThrew? ==>
            outcome == CatchReply(lookup(verify(token).email).name))
  {
  }

  /** `next()` is reached exactly when every check passes, and then with the
      user the lookup found for the verified email. */
  lemma NextOnlyWhenAllPass(header: Option<string>, blackList: set<string>,
                            verify: string -> Verified, lookup: string -> Lookup, u: UserRecord)
    ensures Authenticate(header, blackList, verify, lookup) == Next(u) <==>
      && PassesHeaderChecks(header, blackList)
      && verify(SecondField(header.value).value).Decoded?
      && lookup(verify(SecondField(header.value).value).email) == Found(u)
  {
  }

  /** `userModel.findOne(...)` as the middleware writes it: `userModel` is bound
      to the user module's exports, the object `{ ROLES, User }`, which has no
      `findOne`, so the call throws a `TypeError` whatever the email. */
  function LookupAsWritten(email: string): Lookup {
    LookupThrew("TypeError")
  }

  /** As written, no request ever reaches `next()`. */
  lemma AsWrittenNeverAdmits(header: Option<string>, blackList: set<string>, verify: string -> Verified)
    ensures !Authenticate(header, blackList, verify, LookupAsWritten).Next?
  {
  }

  /** "Bearer abc" carries the token "abc". */
  lemma SampleHeaderToken()
    ensures StartsWith("Bearer abc", BearerPrefix)
    ensures SecondField("Bearer abc") == Some("abc")
  {
    var h := "Bearer abc";
    assert h[..|BearerPrefix|] == BearerPrefix;
    TokenAfterPrefix(h);
    var rest := h[|BearerPrefix|..];
    assert rest == "abc";
    assert IndexFrom(rest, ' ', 0) == 3;
    assert rest[..3] == "abc";
  }

  /** As written, a well-formed, unlisted token that verifies to the email of an
      existing user is answered with 500, where the intended lookup lets the
      request through with that user. */
  lemma AsWrittenValidTokenGets500(user: UserRecord)
    ensures Authenticate(Some("Bearer abc"), {}, _ => Decoded(user.email), LookupAsWritten)
         == Reject(500, InternalErrorMessage)
    ensures Authenticate(Some("Bearer abc"), {}, _ => Decoded(user.email), LookupIntended([user]))
         == Next(user)
  {
    SampleHeaderToken();
    ValidTokenOutcomes("Bearer abc", {}, _ => Decoded(user.email), [user], user);
  }

  /** Any well-formed header with a non-empty, unlisted token that verifies to
      a stored user's email (emails being unique): 500 as written, that user
      passed on as intended. */
  lemma ValidTokenOutcomes(header: string, blackList: set<string>, verify: string -> Verified,
                           users: seq<UserRecord>, user: UserRecord)
    requires StartsWith(header, BearerPrefix)
    requires SecondField(header).Some? && SecondField(header).value != []
    requires SecondField(header).value !in blackList
    requires UniqueUsers(users) && user in users
    requires verify(SecondField(header).value) == Decoded(user.email)
    ensures Authenticate(Some(header), blackList, verify, LookupAsWritten) == Reject(500, InternalErrorMessage)
    ensures Authenticate(Some(header), blackList, verify, LookupIntended(users)) == Next(user)
  {
    var found := FindOneByEmail(users, user.email);
    var a :| 0 <= a < |users| && users[a] == user;
    var b :| 0 <= b < |users| && users[b] == found.value;
    assert a == b;
    assert LookupIntended(users)(user.email) == Found(user);
  }

  /** `User.findOne({ email })`: the first user in the collection with the
      verified email. */
  function LookupIntended(users: seq<UserRecord>): string -> Lookup {
    email => if FindOneByEmail(users, email).Some? then Found(FindOneByEmail(users, email).value) else NoUser
  }

  /** With the intended lookup, the user passed on is a stored user whose email
      is exactly the verified one; when no stored user has that email the
      answer is 401. */
  lemma IntendedAdmitsStoredUser(header: Option<string>, blackList: set<string>,
                                 verify: string -> Verified, users: seq<UserRecord>)
    ensures var outcome := Authenticate(header, blackList, verify, LookupIntended(users));
      outcome.Next? ==>
        && PassesHeaderChecks(header, blackList)
        && outcome.user in users
        && verify(SecondField(header.value).value) == Decoded(outcome.user.email)
    ensures PassesHeaderChecks(header, blackList)
        && verify(SecondField(header.value).value).Decoded?
        && (forall v :: v in users ==> v.email != verify(SecondField(header.value).value).email)
        ==> Authenticate(header, blackList, verify, LookupIntended(users)) == Reject(401, UnknownUserMessage)
  {
  }

  /** The middleware with its process-wide blacklist. Authenticating only reads
      the blacklist: nothing here adds a token to it or removes one. */
  class AuthGate {
    var blackList: set<string>

    constructor ()
      ensures blackList == {}
    {
      blackList := {};
    }

    /** One request through the middleware. */
    method Handle(header: Option<string>, verify: string -> Verified, users: seq<UserRecord>)
      returns (outcome: AuthOutcome)
      ensures outcome == Authenticate(header, blackList, verify, LookupIntended(users))
    {
      if header.None? || header.value == [] || !StartsWith(header.value, BearerPrefix) {
        return Reject(401, MalformedMessage);
      }
      var token := SecondField(header.value);
      if token.None? || token.value == [] {
        return Reject(401, MissingTokenMessage);
      }
      if token.value in blackList {
        return Reject(403, BlacklistedMessage);
      }
      match verify(token.value)
      case Thrown(name) =>
        outcome := CatchReply(name);
      case Decoded(email) =>
        var found := FindOneByEmail(users, email);
        if found.None? {
          outcome := Reject(401, UnknownUserMessage);
        } else {
          outcome := Next(found.value);
        }
    }
  }
}
