/**
  The user schema: field constraints (email normalisation and pattern,
  password length, phone pattern, activity and role defaults) and the
  save-time email-uniqueness hook over the user collection.
 */
module UserModel {
  import opened Wrappers
  import opened Text

  /** A user's `_id`; only compared for equality. */
  type UserId = nat

  /** `ROLES`: the three role names. */
  datatype Role = Admin | Organizer | User

  function RoleName(r: Role): string {
    match r
    case Admin => "Admin"
    case Organizer => "Organizer"
    case User => "User"
  }

  /** The role whose name is `s`, if any: the schema's `enum` check. */
  function ParseRole(s: string): (r: Option<Role>)
    ensures r.Some? ==> RoleName(r.value) == s
    ensures r.None? ==> forall x: Role :: RoleName(x) != s
  {
    if s == "Admin" then Some(Admin)
    else if s == "Organizer" then Some(Organizer)
    else if s == "User" then Some(User)
    else None
  }

  const DefaultRole: Role := User
  const DefaultActivity: bool := true
  const MinPasswordLength: nat := 8

  /** The email as stored: trimmed, then lower-cased. */
  function NormalizeEmail(s: string): string {
    ToLower(Trim(s))
  }

  /** Normalising a normalised email changes nothing. */
  lemma NormalizeEmailIdempotent(s: string)
    ensures NormalizeEmail(NormalizeEmail(s)) == NormalizeEmail(s)
  {
    var t := Trim(s);
    var l := ToLower(t);
    TrimSpec(s);
    ToLowerProperties(t);
    if l != [] {
      assert !IsSpace(l[0]) && !IsSpace(l[|l| - 1]);
      assert TrimStart(l) == l;
      assert TrimEnd(l) == l;
    } else {
      assert Trim(l) == [];
    }
    assert Trim(l) == l;
  }

  /** The pattern `^\S+@\S+\.\S+$`: no whitespace, and an `@` and a later `.`
      that leave non-empty text before the `@`, between the two and after the `.`. */
  ghost predicate EmailShape(s: string) {
    && NoSpace(s)
    && exists i, j :: 1 <= i && i + 2 <= j && j + 2 <= |s| && s[i] == '@' && s[j] == '.'
  }

  /** A matcher for the email pattern: take the first `@` that has text before
      it, then the first `.` that leaves text between; there must be text after. */
  function MatchesEmail(s: string): bool {
    && NoSpace(s)
    && |s| >= 1
    && var i := IndexFrom(s, '@', 1);
      i + 2 <= |s| && IndexFrom(s, '.', i + 2) + 2 <= |s|
  }

  /** The matcher accepts exactly the strings of the pattern. */
  lemma MatchesEmailIff(s: string)
    ensures MatchesEmail(s) <==> EmailShape(s)
  {
    if MatchesEmail(s) {
      var i := IndexFrom(s, '@', 1);
      var j := IndexFrom(s, '.', i + 2);
      assert s[i] == '@' && s[j] == '.';
    }
    if EmailShape(s) {
      var i0, j0 :| 1 <= i0 && i0 + 2 <= j0 && j0 + 2 <= |s| && s[i0] == '@' && s[j0] == '.';
      var i := IndexFrom(s, '@', 1);
      assert i <= i0;
      var j := IndexFrom(s, '.', i + 2);
      assert j <= j0;
    }
  }

  predicate IsDigit(c: char) {
    '0' <= c <= '9'
  }

  /** `[1-9]\d{1,14}`: a non-zero digit followed by one to fourteen digits. */
  predicate DigitRun(d: string) {
    && 2 <= |d| <= 15
    && '1' <= d[0] <= '9'
    && forall k :: 0 <= k < |d| ==> IsDigit(d[k])
  }

  /** The pattern `^\+?[1-9]\d{1,14}$`: an optional `+` of length `p`, then a digit run. */
  ghost predicate PhoneShape(s: string) {
    exists p: nat :: p <= 1 && p <= |s| && s[..p] == "+"[..p] && DigitRun(s[p..])
  }

  /** A matcher for the phone pattern: skip a leading `+`, then check the digit run. */
  function MatchesPhone(s: string): bool {
    DigitRun(if |s| > 0 && s[0] == '+' then s[1..] else s)
  }

  /** The matcher accepts exactly the strings of the pattern. */
  lemma MatchesPhoneIff(s: string)
    ensures MatchesPhone(s) <==> PhoneShape(s)
  {
    if MatchesPhone(s) {
      var p: nat := if |s| > 0 && s[0] == '+' then 1 else 0;
      assert s[..p] == "+"[..p];
    }
    if PhoneShape(s) {
      var p: nat :| p <= 1 && p <= |s| && s[..p] == "+"[..p] && DigitRun(s[p..]);
      if p == 0 {
        assert s[0] == s[p..][0];
      } else {
        assert s[0] == s[..p][0];
      }
    }
  }

  /** What a save request carries for each field; `None` is an absent field. */
  datatype UserInput = UserInput(
    email: Option<string>,
    password: Option<string>,
    phone: Option<string>,
    activity: Option<bool>,
    role: Option<string>)

  /** A user document as stored. */
  datatype UserRecord = UserRecord(
    id: UserId,
    email: string,
    password: string,
    phone: string,
    activity: bool,
    role: Role)

  /** A field whose validator can reject. */
  datatype Field = EmailField | PasswordField | PhoneField | RoleField

  /** Email is required, then normalised, then matched against the pattern. */
  predicate EmailOk(e: Option<string>) {
    e.Some? && MatchesEmail(NormalizeEmail(e.value))
  }

  predicate PasswordOk(p: Option<string>) {
    p.Some? && |p.value| >= MinPasswordLength
  }

  predicate PhoneOk(p: Option<string>) {
    p.Some? && MatchesPhone(p.value)
  }

  /** An absent role takes the default; a present one must name a role. */
  predicate RoleOk(r: Option<string>) {
    r.None? || ParseRole(r.value).Some?
  }

  const AllFields: set<Field> := {EmailField, PasswordField, PhoneField, RoleField}

  /** Whether the validators of field `f` accept the input. */
  predicate FieldOk(u: UserInput, f: Field) {
    match f
    case EmailField => EmailOk(u.email)
    case PasswordField => PasswordOk(u.password)
    case PhoneField => PhoneOk(u.phone)
    case RoleField => RoleOk(u.role)
  }

  /** Every field whose validator rejects the input. */
  function Errors(u: UserInput): set<Field> {
    set f | f in AllFields && !FieldOk(u, f)
  }

  /** Casting and validation of a save request: the stored record with
      normalised email and defaults applied, or every failing field. */
  function BuildUser(id: UserId, u: UserInput): Result<UserRecord, set<Field>> {
    if EmailOk(u.email) && PasswordOk(u.password) && PhoneOk(u.phone) && RoleOk(u.role) then
      Ok(UserRecord(
        id,
        NormalizeEmail(u.email.value),
        u.password.value,
        u.phone.value,
        if u.activity.Some? then u.activity.value else DefaultActivity,
        if u.role.Some? then ParseRole(u.role.value).value else DefaultRole))
    else
      Err(Errors(u))
  }

  /** No upper-case ASCII letter. */
  predicate IsLowercase(s: string) {
    forall k :: 0 <= k < |s| ==> !('A' <= s[k] <= 'Z')
  }

  /** A string without whitespace or upper-case letters is already normalised. */
  lemma NormalizedFixpoint(s: string)
    requires NoSpace(s) && IsLowercase(s)
    ensures NormalizeEmail(s) == s
  {
    assert TrimStart(s) == s;
    assert TrimEnd(s) == s;
    assert ToLower(s) == s;
  }

  /** A normalised email has no upper-case letter. */
  lemma NormalizedIsLowercase(s: string)
    ensures IsLowercase(NormalizeEmail(s))
  {
  }

  /** A stored record satisfies every schema constraint. */
  predicate RecordValid(r: UserRecord) {
    && IsLowercase(r.email)
    && MatchesEmail(r.email)
    && |r.password| >= MinPasswordLength
    && MatchesPhone(r.phone)
  }

  /** A rejection names each failing field and only those, and there is at
      least one. */
  lemma BuildUserErrors(id: UserId, u: UserInput)
    requires BuildUser(id, u).Err?
    ensures BuildUser(id, u).error != {}
    ensures forall f :: f in BuildUser(id, u).error <==> f in AllFields && !FieldOk(u, f)
  {
    var e := BuildUser(id, u).error;
    assert e == Errors(u);
    var f: Field :|
      f in AllFields && !FieldOk(u, f);
    assert f in e;
  }

  /** An accepted input becomes a valid record with the normalised email, the
      password and phone as given, and the defaults for an absent activity flag and role. */
  lemma BuildUserValid(id: UserId, u: UserInput)
    requires BuildUser(id, u).Ok?
    ensures var r := BuildUser(id, u).value;
      && RecordValid(r) && r.id == id
      && r.email == NormalizeEmail(u.email.value)
      && r.password == u.password.value && r.phone == u.phone.value
      && (u.activity.None? ==> r.activity == DefaultActivity)
      && (u.activity.Some? ==> r.activity == u.activity.value)
      && (u.role.None? ==> r.role == DefaultRole)
      && (u.role.Some? ==> RoleName(r.role) == u.role.value)
  {
    NormalizedIsLowercase(u.email.value);
  }

  /** `findOne({ email })`: the first user in collection order with that email. */
  function FindOneByEmail(users: seq<UserRecord>, email: string): (r: Option<UserRecord>)
    ensures r.Some? ==> r.value in users && r.value.email == email
    ensures r.None? ==> forall k :: 0 <= k < |users| ==> users[k].email != email
    ensures r.Some? ==> exists k :: 0 <= k < |users| && users[k] == r.value
                             && forall m :: 0 <= m < k ==> users[m].email != email
  {
    if users == [] then None
    else if users[0].email == email then Some(users[0])
    else
      var r := FindOneByEmail(users[1..], email);
      if r.Some? then
        ghost var k :| 0 <= k < |users[1..]| && users[1..][k] == r.value
          && forall m :: 0 <= m < k ==> users[1..][m].email != email;
        assert users[k + 1] == r.value;
        r
      else r
  }

  /** The collection invariant the hook maintains: distinct users have distinct
      ids and distinct emails. */
  ghost predicate UniqueUsers(users: seq<UserRecord>) {
    forall i, j :: 0 <= i < j < |users| ==>
      users[i].id != users[j].id && users[i].email != users[j].email
  }

  /** The pre-save hook: rejected with "Email already exists" when the user found
      by email has a different id. */
  function PreSaveCheck(users: seq<UserRecord>, u: UserRecord): Result<(), string> {
    var found := FindOneByEmail(users, u.email);
    if found.Some? && found.value.id != u.id then Err("Email already exists") else Ok(())
  }

  /** On a collection with unique emails the hook rejects exactly when some other
      user already holds the email. */
  lemma PreSaveRejectsIff(users: seq<UserRecord>, u: UserRecord)
    requires UniqueUsers(users)
    ensures PreSaveCheck(users, u).Err? <==>
      exists v :: v in users && v.email == u.email && v.id != u.id
  {
    if v :| v in users && v.email == u.email && v.id != u.id {
      var found := FindOneByEmail(users, u.email);
      var a :| 0 <= a < |users| && users[a] == v;
      var b :| 0 <= b < |users| && users[b] == found.value;
      assert a == b;
    }
  }

  /** Saving a user that is already stored, unchanged, passes the hook. */
  lemma ResavePasses(users: seq<UserRecord>, u: UserRecord)
    requires UniqueUsers(users)
    requires u in users
    ensures PreSaveCheck(users, u).Ok?
  {
    PreSaveRejectsIff(users, u);
  }

  /** The position of the user with id `id`, or `|users|`. */
  function IndexOfId(users: seq<UserRecord>, id: UserId): (k: nat)
    ensures k <= |users|
    ensures k < |users| ==> users[k].id == id
    ensures k == |users| ==> forall m :: 0 <= m < |users| ==> users[m].id != id
  {
    if users == [] then 0
    else if users[0].id == id then 0
    else 1 + IndexOfId(users[1..], id)
  }

  /** The write itself: replace the user with the same id in place, or add the
      user at the end of the collection. */
  function Write(users: seq<UserRecord>, r: UserRecord): seq<UserRecord> {
    var k := IndexOfId(users, r.id);
    if k < |users| then users[k := r] else users + [r]
  }

  /** A write that passed the hook keeps ids and emails unique, stores the
      record, keeps every other user, and adds nothing else. */
  lemma WriteKeepsUnique(users: seq<UserRecord>, r: UserRecord)
    requires UniqueUsers(users)
    requires PreSaveCheck(users, r).Ok?
    ensures UniqueUsers(Write(users, r))
    ensures r in Write(users, r)
    ensures forall v :: v in users && v.id != r.id ==> v in Write(users, r)
    ensures forall v :: v in Write(users, r) ==> v == r || (v in users && v.id != r.id)
  {
    PreSaveRejectsIff(users, r);
    var after := Write(users, r);
    var k := IndexOfId(users, r.id);
    forall i, j | 0 <= i < j < |after|
      ensures after[i].id != after[j].id && after[i].email != after[j].email
    {
      if i == k || j == k {
        var o := if i == k then j else i;
        assert after[o] == users[o] && after[o] in users;
      }
    }
    assert after[if k < |users| then k else |users|] == r;
    forall v | v in users && v.id != r.id
      ensures v in after
    {
      var m :| 0 <= m < |users| && users[m] == v;
      assert after[m] == v;
    }
    forall v | v in after && v != r
      ensures v in users && v.id != r.id
    {
      var m :| 0 <= m < |after| && after[m] == v;
      assert m != k && after[m] == users[m];
    }
  }

  /** Why a save fails. */
  datatype SaveError = Invalid(fields: set<Field>) | EmailTaken

  /** `save()`: validation, then the uniqueness hook, then the write. */
  function SaveUser(users: seq<UserRecord>, id: UserId, u: UserInput): Result<seq<UserRecord>, SaveError> {
    match BuildUser(id, u)
    case Err(fs) => Err(Invalid(fs))
    case Ok(r) => if PreSaveCheck(users, r).Err? then Err(EmailTaken) else Ok(Write(users, r))
  }

  /** A save fails exactly when validation or the hook rejects; a save that
      passes keeps ids and emails unique, stores the validated record, keeps
      every user with another id and adds no one else. */
  lemma SaveUserKeepsUnique(users: seq<UserRecord>, id: UserId, u: UserInput)
    requires UniqueUsers(users)
    ensures SaveUser(users, id, u).Err? <==>
      BuildUser(id, u).Err? || PreSaveCheck(users, BuildUser(id, u).value).Err?
    ensures SaveUser(users, id, u).Ok? ==>
      && UniqueUsers(SaveUser(users, id, u).value)
      && BuildUser(id, u).Ok? && BuildUser(id, u).value in SaveUser(users, id, u).value
      && SaveUser(users, id, u).value == Write(users, BuildUser(id, u).value)
      && (forall v :: v in users && v.id != id ==> v in SaveUser(users, id, u).value)
      && (forall v :: v in SaveUser(users, id, u).value ==>
            v == BuildUser(id, u).value || (v in users && v.id != id))
  {
    if BuildUser(id, u).Ok? && PreSaveCheck(users, BuildUser(id, u).value).Ok? {
      WriteKeepsUnique(users, BuildUser(id, u).value);
    }
  }
}
