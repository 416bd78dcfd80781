/** The `users` table and the user model: input validators, lookups,
    creation with validation, and the field list a partial update builds. */
module Users {
  import opened Wrappers
  import opened Text

  /** A row of `users`. `role`, `isBanned`, `bannedUntil` and `banReason`
      are the moderation columns the admin routes read and write; they are
      NULL on a freshly created user. `bannedUntil` is a time in
      milliseconds since the epoch. */
  datatype User = User(
    id: int,
    discordId: string,
    username: string,
    discriminator: Option<string>,
    avatar: Option<string>,
    email: Option<string>,
    role: Option<string>,
    isBanned: Option<int>,
    bannedUntil: Option<int>,
    banReason: Option<string>)

  /** The rows in insertion order and the last `AUTOINCREMENT` id handed out. */
  datatype UserTable = UserTable(rows: seq<User>, lastId: nat)

  /** Primary keys are positive, at most the last id handed out, and
      distinct; `discord_id` is `UNIQUE`. */
  predicate ValidTable(t: UserTable) {
    && (forall i :: 0 <= i < |t.rows| ==> 1 <= t.rows[i].id <= t.lastId)
    && (forall i, j :: 0 <= i < j < |t.rows| ==>
          t.rows[i].id != t.rows[j].id && t.rows[i].discordId != t.rows[j].discordId)
  }

  // ---------------------------------------------------------------------
  // Validators
  // ---------------------------------------------------------------------

  /** `/^\d{17,19}$/`: a Discord snowflake of 17 to 19 decimal digits. */
  predicate ValidateDiscordId(discordId: string) {
    17 <= |discordId| <= 19 && AllDigits(discordId)
  }

  /** Between 1 and 100 characters. */
  predicate ValidateUsername(username: string) {
    0 < |username| <= 100
  }

  /** No white space and no `@` in `s`. */
  predicate PlainRun(s: string) {
    forall i :: 0 <= i < |s| ==> !IsSpace(s[i]) && s[i] != '@'
  }

  /** The language of `/^[^\s@]+@[^\s@]+\.[^\s@]+$/`: a non-empty local part,
      one `@`, and a domain holding a `.` with something on either side,
      with no white space and no other `@` anywhere. */
  predicate MatchesEmailPattern(e: string) {
    exists a, b :: 0 < a && a + 1 < b && b + 1 < |e| && e[a] == '@' && e[b] == '.'
      && PlainRun(e[..a]) && PlainRun(e[a + 1..b]) && PlainRun(e[b + 1..])
  }

  /** The email check: the pattern, and at most 255 characters. Computed by
      locating the `@` rather than by matching the pattern. */
  function ValidateEmail(e: string): (ok: bool)
    ensures ok ==> |e| <= 255 && Contains(e, '@')
  {
    var at := IndexOf(e, '@');
    && at >= 1
    && LastIndexOf(e, '@') == at
    && NoSpace(e)
    && |e| - at >= 4
    && IndexOf(e[at + 2..|e| - 1], '.') >= 0
    && |e| <= 255
  }

  /** The email check accepts exactly the addresses of the pattern that fit
      in 255 characters. */
  lemma ValidateEmailMatchesPattern(e: string)
    ensures ValidateEmail(e) <==> MatchesEmailPattern(e) && |e| <= 255
  {
    if ValidateEmail(e) {
      ValidEmailMatches(e);
    }
    if MatchesEmailPattern(e) && |e| <= 255 {
      var a, b :| 0 < a && a + 1 < b && b + 1 < |e| && e[a] == '@' && e[b] == '.'
        && PlainRun(e[..a]) && PlainRun(e[a + 1..b]) && PlainRun(e[b + 1..]);
      MatchIsValidEmail(e, a, b);
    }
  }

  lemma ValidEmailMatches(e: string)
    requires ValidateEmail(e)
    ensures MatchesEmailPattern(e)
  {
    var a := IndexOf(e, '@');
    var d := e[a + 2..|e| - 1];
    var k := IndexOf(d, '.');
    var b := a + 2 + k;
    assert e[b] == d[k];
    assert forall i :: 0 <= i < |e| ==> !IsSpace(e[i]);
    assert forall i :: 0 <= i < |e| && i != a ==> e[i] != '@';
    var local, mid, tail := e[..a], e[a + 1..b], e[b + 1..];
    assert forall j :: 0 <= j < |local| ==> local[j] == e[j];
    assert forall j :: 0 <= j < |mid| ==> mid[j] == e[a + 1 + j];
    assert forall j :: 0 <= j < |tail| ==> tail[j] == e[b + 1 + j];
    assert PlainRun(local) && PlainRun(mid) && PlainRun(tail);
  }

  lemma MatchIsValidEmail(e: string, a: int, b: int)
    requires 0 < a && a + 1 < b && b + 1 < |e| && e[a] == '@' && e[b] == '.'
    requires PlainRun(e[..a]) && PlainRun(e[a + 1..b]) && PlainRun(e[b + 1..])
    requires |e| <= 255
    ensures ValidateEmail(e)
  {
    assert forall i :: 0 <= i < a ==> e[i] == e[..a][i];
    assert forall i :: a < i < b ==> e[i] == e[a + 1..b][i - a - 1];
    assert forall i :: b < i < |e| ==> e[i] == e[b + 1..][i - b - 1];
    assert forall i :: 0 <= i < |e| && i != a ==> e[i] != '@' && !IsSpace(e[i]);
    assert IndexOf(e, '@') == a;
    assert LastIndexOf(e, '@') == a;
    assert NoSpace(e);
    var d := e[a + 2..|e| - 1];
    assert d[b - a - 2] == '.';
    assert Contains(d, '.');
  }

  /** A natural number's decimal rendering is a valid Discord id exactly
      when the number lies in [10^16, 10^19). */
  lemma DiscordIdRange(n: nat)
    ensures ValidateDiscordId(NatToString(n)) <==> Pow10(16) <= n < Pow10(19)
  {
    DigitCountRange(n, 17, 19);
  }

  /** The rendering of `n` has between `lo` and `hi` digits exactly when
      `n` lies in [10^(lo-1), 10^hi). */
  lemma DigitCountRange(n: nat, lo: nat, hi: nat)
    requires 2 <= lo <= hi
    ensures lo <= |NatToString(n)| <= hi <==> Pow10(lo - 1) <= n < Pow10(hi)
  {
    var len := |NatToString(n)|;
    NatToStringLength(n);
    if lo <= len <= hi {
      Pow10Monotone(lo - 1, len - 1);
      Pow10Monotone(len, hi);
    }
    if Pow10(lo - 1) <= n < Pow10(hi) {
      if len < lo {
        Pow10Monotone(len, lo - 1);
      } else if len > hi {
        Pow10Monotone(hi, len - 1);
      }
    }
  }

  // ---------------------------------------------------------------------
  // Lookups
  // ---------------------------------------------------------------------

  /** The row with primary key `id`, if any (`findById`). */
  function FindById(t: UserTable, id: int): (r: Option<User>)
    ensures r.Some? ==> r.value in t.rows && r.value.id == id
    ensures r.None? ==> forall i :: 0 <= i < |t.rows| ==> t.rows[i].id != id
    decreases |t.rows|
  {
    if |t.rows| == 0 then None
    else if t.rows[0].id == id then Some(t.rows[0])
    else FindById(UserTable(t.rows[1..], t.lastId), id)
  }

  /** The row with this Discord id, if any; malformed ids are refused
      before the table is consulted (`findByDiscordId`). */
  function FindByDiscordId(t: UserTable, discordId: string): (r: Result<Option<User>, string>)
    ensures r.Err? <==> !ValidateDiscordId(discordId)
    ensures r.Ok? && r.value.Some? ==> r.value.value in t.rows && r.value.value.discordId == discordId
    ensures r.Ok? && r.value.None? ==> forall i :: 0 <= i < |t.rows| ==> t.rows[i].discordId != discordId
  {
    if !ValidateDiscordId(discordId) then Err("Invalid Discord ID format")
    else Ok(FindByDiscord(t.rows, discordId))
  }

  function FindByDiscord(rows: seq<User>, discordId: string): (r: Option<User>)
    ensures r.Some? ==> r.value in rows && r.value.discordId == discordId
    ensures r.None? ==> forall i :: 0 <= i < |rows| ==> rows[i].discordId != discordId
    decreases |rows|
  {
    if |rows| == 0 then None
    else if rows[0].discordId == discordId then Some(rows[0])
    else FindByDiscord(rows[1..], discordId)
  }

  // ---------------------------------------------------------------------
  // create
  // ---------------------------------------------------------------------

  /** The fields a caller supplies to `create`. */
  datatype NewUser = NewUser(
    discordId: string,
    username: string,
    discriminator: Option<string>,
    avatar: Option<string>,
    email: Option<string>)

  datatype CreateError =
    | InvalidDiscordId
    | InvalidUsername
    | InvalidEmail
    | DuplicateDiscordId  // the `UNIQUE` constraint on `discord_id`

  /** The email is checked only when it is present and non-empty. */
  predicate EmailAcceptable(email: Option<string>) {
    email.None? || email.value == "" || ValidateEmail(email.value)
  }

  predicate DiscordIdTaken(t: UserTable, discordId: string) {
    exists i :: 0 <= i < |t.rows| && t.rows[i].discordId == discordId
  }

  /** Validates, inserts with the next `AUTOINCREMENT` id, and returns the
      row read back. The checks run in the order the source runs them. */
  function Create(t: UserTable, data: NewUser): (r: Result<(User, UserTable), CreateError>)
    ensures !ValidateDiscordId(data.discordId) ==> r == Err(InvalidDiscordId)
    ensures ValidateDiscordId(data.discordId) && !ValidateUsername(data.username) ==> r == Err(InvalidUsername)
    ensures (ValidateDiscordId(data.discordId) && ValidateUsername(data.username) && !EmailAcceptable(data.email))
            ==> r == Err(InvalidEmail)
    ensures r.Ok? <==> ValidateDiscordId(data.discordId) && ValidateUsername(data.username)
                       && EmailAcceptable(data.email) && !DiscordIdTaken(t, data.discordId)
    ensures r.Ok? ==>
      var (u, t') := r.value;
      && t'.rows == t.rows + [u]
      && u.id == t.lastId + 1 == t'.lastId
      && u.discordId == data.discordId && u.username == data.username
      && u.discriminator == data.discriminator && u.avatar == data.avatar && u.email == data.email
      && u.role.None? && u.isBanned.None? && u.bannedUntil.None? && u.banReason.None?
    ensures r.Ok? && ValidTable(t) ==> ValidTable(r.value.1)
  {
    if !ValidateDiscordId(data.discordId) then Err(InvalidDiscordId)
    else if !ValidateUsername(data.username) then Err(InvalidUsername)
    else if !EmailAcceptable(data.email) then Err(InvalidEmail)
    else if DiscordIdTaken(t, data.discordId) then Err(DuplicateDiscordId)
    else
      var u := User(t.lastId + 1, data.discordId, data.username, data.discriminator, data.avatar,
                    data.email, None, None, None, None);
      Ok((u, UserTable(t.rows + [u], t.lastId + 1)))
  }

  /** A created user can be found by its Discord id and by its id. */
  lemma CreatedUserIsFound(t: UserTable, data: NewUser)
    requires ValidTable(t)
    requires Create(t, data).Ok?
    ensures var (u, t') := Create(t, data).value;
            FindByDiscordId(t', data.discordId) == Ok(Some(u)) && FindById(t', u.id) == Some(u)
  {
    var (u, t') := Create(t, data).value;
    assert forall i :: 0 <= i < |t'.rows| - 1 ==> t'.rows[i] == t.rows[i];
    FirstMatchIsUnique(t', u);
  }

  /** In a valid table a row is the only one with its id and the only one
      with its Discord id, so both lookups find it. */
  lemma FirstMatchIsUnique(t: UserTable, u: User)
    requires ValidTable(t) && u in t.rows
    ensures FindById(t, u.id) == Some(u)
    ensures FindByDiscord(t.rows, u.discordId) == Some(u)
  {
    var k :| 0 <= k < |t.rows| && t.rows[k] == u;
    var r1 := FindById(t, u.id);
    var j1 :| 0 <= j1 < |t.rows| && t.rows[j1] == r1.value;
    assert j1 == k;
    var r2 := FindByDiscord(t.rows, u.discordId);
    var j2 :| 0 <= j2 < |t.rows| && t.rows[j2] == r2.value;
    assert j2 == k;
  }

  // ---------------------------------------------------------------------
  // update
  // ---------------------------------------------------------------------

  /** A property of a partial user object: absent (`undefined`), `null`, or
      a value. */
  datatype Maybe<T> = Undefined | Null | Defined(value: T)

  /** The partial user handed to `update`. */
  datatype Patch = Patch(
    username: Maybe<string>,
    discriminator: Maybe<string>,
    avatar: Maybe<string>,
    email: Maybe<string>,
    role: Maybe<string>,
    isBanned: Maybe<bool>,
    bannedUntil: Maybe<int>,
    banReason: Maybe<string>)

  /** The columns `update` can set, in the order it considers them. */
  datatype Column = UsernameCol | DiscriminatorCol | AvatarCol | EmailCol | RoleCol | IsBannedCol | BannedUntilCol | BanReasonCol

  function ColumnRank(c: Column): nat {
    match c
    case UsernameCol => 0
    case DiscriminatorCol => 1
    case AvatarCol => 2
    case EmailCol => 3
    case RoleCol => 4
    case IsBannedCol => 5
    case BannedUntilCol => 6
    case BanReasonCol => 7
  }

  function ColumnName(c: Column): string {
    match c
    case UsernameCol => "username"
    case DiscriminatorCol => "discriminator"
    case AvatarCol => "avatar"
    case EmailCol => "email"
    case RoleCol => "role"
    case IsBannedCol => "is_banned"
    case BannedUntilCol => "banned_until"
    case BanReasonCol => "ban_reason"
  }

  /** A bound parameter of a statement. */
  datatype SqlValue = SqlNull | SqlText(text: string) | SqlInt(number: int)

  function TextParam(v: Maybe<string>): SqlValue {
    match v
    case Defined(s) => SqlText(s)
    case _ => SqlNull
  }

  /** `username` and `discriminator` are set only when truthy. */
  predicate TruthyText(v: Maybe<string>) {
    v.Defined? && v.value != ""
  }

  /** One `column = ?` assignment and its parameter. */
  datatype Assignment = Assignment(column: Column, param: SqlValue)

  /** The assignments `update` collects, one per included property, in
      column order. `is_banned` is bound as 1 or 0, so `null` binds 0. */
  function Assignments(p: Patch): (r: seq<Assignment>)
    ensures |r| <= 8
    ensures r == [] <==> !TruthyText(p.username) && !TruthyText(p.discriminator) && p.avatar.Undefined?
                         && p.email.Undefined? && p.role.Undefined? && p.isBanned.Undefined?
                         && p.bannedUntil.Undefined? && p.banReason.Undefined?
  {
    UsernameSet(p) + DiscriminatorSet(p) + AvatarSet(p) + EmailSet(p)
    + RoleSet(p) + IsBannedSet(p) + BannedUntilSet(p) + BanReasonSet(p)
  }

  function UsernameSet(p: Patch): seq<Assignment> {
    if TruthyText(p.username) then [Assignment(UsernameCol, SqlText(p.username.value))] else []
  }

  function DiscriminatorSet(p: Patch): seq<Assignment> {
    if TruthyText(p.discriminator) then [Assignment(DiscriminatorCol, SqlText(p.discriminator.value))] else []
  }

  function AvatarSet(p: Patch): seq<Assignment> {
    if p.avatar.Undefined? then [] else [Assignment(AvatarCol, TextParam(p.avatar))]
  }

  function EmailSet(p: Patch): seq<Assignment> {
    if p.email.Undefined? then [] else [Assignment(EmailCol, TextParam(p.email))]
  }

  function RoleSet(p: Patch): seq<Assignment> {
    if p.role.Undefined? then [] else [Assignment(RoleCol, TextParam(p.role))]
  }

  function IsBannedSet(p: Patch): seq<Assignment> {
    if p.isBanned.Undefined? then [] else [Assignment(IsBannedCol, SqlInt(if p.isBanned == Defined(true) then 1 else 0))]
  }

  function BannedUntilSet(p: Patch): seq<Assignment> {
    match p.bannedUntil
    case Undefined => []
    case Null => [Assignment(BannedUntilCol, SqlNull)]
    case Defined(t) => [Assignment(BannedUntilCol, SqlInt(t))]
  }

  function BanReasonSet(p: Patch): seq<Assignment> {
    if p.banReason.Undefined? then [] else [Assignment(BanReasonCol, TextParam(p.banReason))]
  }

  /** The `SET` list and parameters of the statement `update` runs. */
  datatype UpdateSql = UpdateSql(setClauses: seq<string>, params: seq<SqlValue>)

  const TouchUpdatedAt: string := "updated_at = CURRENT_TIMESTAMP"

  /** The statement `update` runs for `p`, or `None` when no property is
      included and only a read happens. */
  function UpdateStatement(id: int, p: Patch): (r: Option<UpdateSql>)
    ensures r.None? <==> Assignments(p) == []
    ensures r.Some? ==>
      var n := |Assignments(p)|;
      && |r.value.setClauses| == |r.value.params| == n + 1
      && r.value.setClauses[n] == TouchUpdatedAt
      && r.value.params[n] == SqlInt(id)
      && (forall i :: 0 <= i < n ==>
            r.value.setClauses[i] == ColumnName(Assignments(p)[i].column) + " = ?"
            && r.value.params[i] == Assignments(p)[i].param)
  {
    var a := Assignments(p);
    if a == [] then None
    else
      Some(UpdateSql(
        seq(|a|, i requires 0 <= i < |a| => ColumnName(a[i].column) + " = ?") + [TouchUpdatedAt],
        seq(|a|, i requires 0 <= i < |a| => a[i].param) + [SqlInt(id)]))
  }

  function AsText(v: SqlValue): Option<string> {
    if v.SqlText? then Some(v.text) else None
  }

  function AsInt(v: SqlValue): Option<int> {
    if v.SqlInt? then Some(v.number) else None
  }

  /** What the database does with one assignment to a row. */
  function Assign(u: User, a: Assignment): User {
    match a.column
    case UsernameCol => u.(username := AsText(a.param).GetOr(u.username))
    case DiscriminatorCol => u.(discriminator := AsText(a.param))
    case AvatarCol => u.(avatar := AsText(a.param))
    case EmailCol => u.(email := AsText(a.param))
    case RoleCol => u.(role := AsText(a.param))
    case IsBannedCol => u.(isBanned := AsInt(a.param))
    case BannedUntilCol => u.(bannedUntil := AsInt(a.param))
    case BanReasonCol => u.(banReason := AsText(a.param))
  }

  function AssignAll(u: User, asg: seq<Assignment>): User
    decreases |asg|
  {
    if |asg| == 0 then u else AssignAll(Assign(u, asg[0]), asg[1..])
  }

  function Nullable<T>(v: Maybe<T>, current: Option<T>): Option<T> {
    match v
    case Undefined => current
    case Null => None
    case Defined(x) => Some(x)
  }

  /** The meaning of a partial update, property by property: an absent
      property keeps the column, `null` clears it, a value replaces it;
      `username` and `discriminator` change only to a non-empty value, and
      `is_banned` becomes 1 for `true` and 0 for `false` or `null`. */
  function ApplyPatch(u: User, p: Patch): (r: User)
    ensures r.id == u.id && r.discordId == u.discordId
  {
    User(
      u.id,
      u.discordId,
      if TruthyText(p.username) then p.username.value else u.username,
      if TruthyText(p.discriminator) then Some(p.discriminator.value) else u.discriminator,
      Nullable(p.avatar, u.avatar),
      Nullable(p.email, u.email),
      Nullable(p.role, u.role),
      if p.isBanned.Undefined? then u.isBanned else Some(if p.isBanned == Defined(true) then 1 else 0),
      Nullable(p.bannedUntil, u.bannedUntil),
      Nullable(p.banReason, u.banReason))
  }

  lemma {:induction false} AssignAllAppend(u: User, a: seq<Assignment>, b: seq<Assignment>)
    ensures AssignAll(u, a + b) == AssignAll(AssignAll(u, a), b)
    decreases |a|
  {
    if |a| == 0 {
      assert a + b == b;
    } else {
      assert (a + b)[1..] == a[1..] + b;
      AssignAllAppend(Assign(u, a[0]), a[1..], b);
    }
  }

  lemma AssignAllShort(u: User, a: seq<Assignment>)
    requires |a| <= 1
    ensures |a| == 0 ==> AssignAll(u, a) == u
    ensures |a| == 1 ==> AssignAll(u, a) == Assign(u, a[0])
  {
  }

  // Each column's assignments, run against a row, change exactly that
  // column the way the partial update says.

  lemma UsernameStep(u: User, p: Patch)
    ensures AssignAll(u, UsernameSet(p)) == u.(username := if TruthyText(p.username) then p.username.value else u.username)
  {
    AssignAllShort(u, UsernameSet(p));
  }

  lemma DiscriminatorStep(u: User, p: Patch)
    ensures AssignAll(u, DiscriminatorSet(p)) == u.(discriminator := if TruthyText(p.discriminator) then Some(p.discriminator.value) else u.discriminator)
  {
    AssignAllShort(u, DiscriminatorSet(p));
  }

  lemma AvatarStep(u: User, p: Patch)
    ensures AssignAll(u, AvatarSet(p)) == u.(avatar := Nullable(p.avatar, u.avatar))
  {
    AssignAllShort(u, AvatarSet(p));
  }

  lemma EmailStep(u: User, p: Patch)
    ensures AssignAll(u, EmailSet(p)) == u.(email := Nullable(p.email, u.email))
  {
    AssignAllShort(u, EmailSet(p));
  }

  lemma RoleStep(u: User, p: Patch)
    ensures AssignAll(u, RoleSet(p)) == u.(role := Nullable(p.role, u.role))
  {
    AssignAllShort(u, RoleSet(p));
  }

  lemma IsBannedStep(u: User, p: Patch)
    ensures AssignAll(u, IsBannedSet(p)) == u.(isBanned := if p.isBanned.Undefined? then u.isBanned else Some(if p.isBanned == Defined(true) then 1 else 0))
  {
    AssignAllShort(u, IsBannedSet(p));
  }

  lemma BannedUntilStep(u: User, p: Patch)
    ensures AssignAll(u, BannedUntilSet(p)) == u.(bannedUntil := Nullable(p.bannedUntil, u.bannedUntil))
  {
    AssignAllShort(u, BannedUntilSet(p));
  }

  lemma BanReasonStep(u: User, p: Patch)
    ensures AssignAll(u, BanReasonSet(p)) == u.(banReason := Nullable(p.banReason, u.banReason))
  {
    AssignAllShort(u, BanReasonSet(p));
  }

  /** Running the built assignments against a row has exactly the meaning
      of the partial update. */
  lemma AssignmentsImplementPatch(u: User, p: Patch)
    ensures AssignAll(u, Assignments(p)) == ApplyPatch(u, p)
  {
    var s1, s2, s3, s4 := UsernameSet(p), DiscriminatorSet(p), AvatarSet(p), EmailSet(p);
    var s5, s6, s7, s8 := RoleSet(p), IsBannedSet(p), BannedUntilSet(p), BanReasonSet(p);
    var u1 := AssignAll(u, s1);
    UsernameStep(u, p);
    var u2 := AssignAll(u1, s2);
    DiscriminatorStep(u1, p);
    var u3 := AssignAll(u2, s3);
    AvatarStep(u2, p);
    var u4 := AssignAll(u3, s4);
    EmailStep(u3, p);
    var u5 := AssignAll(u4, s5);
    RoleStep(u4, p);
    var u6 := AssignAll(u5, s6);
    IsBannedStep(u5, p);
    var u7 := AssignAll(u6, s7);
    BannedUntilStep(u6, p);
    var u8 := AssignAll(u7, s8);
    BanReasonStep(u7, p);
    AssignAllAppend(u, s1, s2);
    AssignAllAppend(u, s1 + s2, s3);
    AssignAllAppend(u, s1 + s2 + s3, s4);
    AssignAllAppend(u, s1 + s2 + s3 + s4, s5);
    AssignAllAppend(u, s1 + s2 + s3 + s4 + s5, s6);
    AssignAllAppend(u, s1 + s2 + s3 + s4 + s5 + s6, s7);
    AssignAllAppend(u, s1 + s2 + s3 + s4 + s5 + s6 + s7, s8);
  }

  /** The rows with primary key `id` replaced by `f` of themselves. */
  function UpdateWhereId(t: UserTable, id: int, f: User -> User): (r: UserTable)
    ensures |r.rows| == |t.rows| && r.lastId == t.lastId
    ensures forall i :: 0 <= i < |t.rows| ==> r.rows[i] == if t.rows[i].id == id then f(t.rows[i]) else t.rows[i]
  {
    UserTable(seq(|t.rows|, i requires 0 <= i < |t.rows| => if t.rows[i].id == id then f(t.rows[i]) else t.rows[i]), t.lastId)
  }

  /** `update`: with nothing to set only reads the row back; otherwise
      applies the assignments to the row with that id (none when it is
      missing) and reads it back. */
  function Update(t: UserTable, id: int, p: Patch): (r: (Option<User>, UserTable))
    ensures Assignments(p) == [] ==> r.1 == t
    ensures |r.1.rows| == |t.rows| && r.1.lastId == t.lastId
    ensures forall i :: 0 <= i < |t.rows| && t.rows[i].id != id ==> r.1.rows[i] == t.rows[i]
    ensures forall i :: 0 <= i < |t.rows| && t.rows[i].id == id ==> r.1.rows[i] == ApplyPatch(t.rows[i], p)
    ensures ValidTable(t) ==> ValidTable(r.1)
    ensures r.0 == FindById(r.1, id)
  {
    var a := Assignments(p);
    if a == [] then
      assert forall i :: 0 <= i < |t.rows| ==> ApplyPatch(t.rows[i], p) == t.rows[i];
      (FindById(t, id), t)
    else
      var t' := UpdateWhereId(t, id, u => AssignAll(u, a));
      forall i | 0 <= i < |t.rows| && t.rows[i].id == id
        ensures t'.rows[i] == ApplyPatch(t.rows[i], p)
      {
        AssignmentsImplementPatch(t.rows[i], p);
      }
      (FindById(t', id), t')
  }

  /** `update` reads back the patched row: there is one exactly when a row
      carries that id, and it is one of those rows with the patch applied. */
  lemma UpdateReadsPatchedRow(t: UserTable, id: int, p: Patch)
    ensures Update(t, id, p).0.Some? <==> exists i :: 0 <= i < |t.rows| && t.rows[i].id == id
    ensures Update(t, id, p).0.Some? ==>
              exists i :: 0 <= i < |t.rows| && t.rows[i].id == id && Update(t, id, p).0.value == ApplyPatch(t.rows[i], p)
  {
    var (r, t') := Update(t, id, p);
    if r.Some? {
      var i :| 0 <= i < |t'.rows| && t'.rows[i] == r.value;
      assert t.rows[i].id == id;
    }
  }
}
