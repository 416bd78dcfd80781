/** Discord OAuth setup and the login callback: whether the credentials are
    usable, the one-shot registration of the strategy, the upsert of the
    user from the Discord profile, the automatic promotion of the
    configured administrator, and what the session stores. The OAuth
    handshake is outside the model: the callback is handed the profile
    Discord returned. */
module Passport {
  import opened Wrappers
  import opened Users

  /** The environment variables read here. */
  datatype OAuthEnv = OAuthEnv(
    clientId: Option<string>,
    clientSecret: Option<string>,
    redirectUri: Option<string>,
    adminDiscordId: Option<string>)

  /** A truthy environment variable: present and non-empty. */
  predicate Present(v: Option<string>) {
    v.Some? && v.value != ""
  }

  const PlaceholderClientId: string := "placeholder_client_id"
  const PlaceholderClientSecret: string := "placeholder_client_secret"

  /** `isDiscordConfigured`: both credentials set and neither is the
      placeholder shipped in the example environment. */
  predicate IsDiscordConfigured(env: OAuthEnv) {
    && Present(env.clientId) && Present(env.clientSecret)
    && env.clientId.value != PlaceholderClientId
    && env.clientSecret.value != PlaceholderClientSecret
  }

  /** Registering the strategy further needs the redirect URI. */
  predicate StrategyUsable(env: OAuthEnv) {
    IsDiscordConfigured(env) && Present(env.redirectUri)
  }

  /** The module's `isPassportConfigured` flag, as the environment the
      registered strategy was built from (`None` while the flag is false). */
  datatype PassportState = PassportState(strategy: Option<OAuthEnv>)

  predicate Configured(st: PassportState) {
    st.strategy.Some?
  }

  /** Every registered strategy was built from usable credentials. */
  predicate Sound(st: PassportState) {
    st.strategy.Some? ==> StrategyUsable(st.strategy.value)
  }

  /** `configurePassport`: nothing once configured; otherwise registers
      the strategy when the credentials are usable and leaves the flag
      false when they are not. */
  function ConfigurePassport(st: PassportState, env: OAuthEnv): (r: PassportState)
    ensures Configured(st) ==> r == st
    ensures !Configured(st) ==> (Configured(r) <==> StrategyUsable(env))
    ensures !Configured(st) && StrategyUsable(env) ==> r.strategy == Some(env)
    ensures !Configured(r) ==> r == st
  {
    if Configured(st) then st
    else if StrategyUsable(env) then PassportState(Some(env))
    else st
  }

  /** Configuring keeps the registered strategy sound and, once it has
      succeeded, every later call, whatever the environment, is a no-op. */
  lemma ConfigureIsIdempotent(st: PassportState, env1: OAuthEnv, env2: OAuthEnv)
    ensures Sound(st) ==> Sound(ConfigurePassport(st, env1))
    ensures Configured(ConfigurePassport(st, env1)) ==>
              ConfigurePassport(ConfigurePassport(st, env1), env2) == ConfigurePassport(st, env1)
    ensures ConfigurePassport(ConfigurePassport(st, env1), env1) == ConfigurePassport(st, env1)
  {
  }

  /** A strategy is registered only for an environment `isDiscordConfigured`
      accepts; the converse fails when the redirect URI is missing. */
  lemma RegisteredImpliesDiscordConfigured(env: OAuthEnv)
    ensures Configured(ConfigurePassport(PassportState(None), env)) ==> IsDiscordConfigured(env)
    ensures IsDiscordConfigured(env) && !Present(env.redirectUri) ==>
              !Configured(ConfigurePassport(PassportState(None), env))
  {
  }

  // ---------------------------------------------------------------------
  // The verify callback
  // ---------------------------------------------------------------------

  /** The Discord profile fields the callback reads. */
  datatype Profile = Profile(
    id: string,
    username: string,
    discriminator: string,
    avatar: Option<string>,
    email: Option<string>)

  /** Why a login fails; each is handed to `done` as the error. */
  datatype LoginError =
    | LookupFailed(message: string)   // the profile id is not a valid Discord id
    | CreateFailed(reason: CreateError)
    | MissingUser                     // `update` read back no row

  /** `profile.avatar || undefined` for the stored avatar. */
  function ProfileAvatar(pr: Profile): Option<string> {
    if Present(pr.avatar) then pr.avatar else None
  }

  /** The update sent for a returning user: name, discriminator, avatar when
      truthy, email when present. */
  function ProfilePatch(pr: Profile): Patch {
    Patch(
      Defined(pr.username),
      Defined(pr.discriminator),
      if Present(pr.avatar) then Defined(pr.avatar.value) else Undefined,
      if pr.email.Some? then Defined(pr.email.value) else Undefined,
      Undefined, Undefined, Undefined, Undefined)
  }

  function PromotionPatch(): Patch {
    Patch(Undefined, Undefined, Undefined, Undefined, Defined("admin"), Undefined, Undefined, Undefined)
  }

  /** The row `create` is given for a first login. */
  function NewUserOf(pr: Profile): NewUser {
    NewUser(pr.id, pr.username, Some(pr.discriminator), ProfileAvatar(pr), pr.email)
  }

  /** Updates the user with the profile's Discord id, or creates one. A
      malformed id fails the lookup; a returning user in a valid table gets
      the profile patch on its own row and no other; a new user is what
      `create` makes of the profile, or its refusal. */
  function Upsert(t: UserTable, pr: Profile): (r: Result<(User, UserTable), LoginError>)
    ensures ValidTable(t) && r.Ok? ==> ValidTable(r.value.1)
    ensures ValidTable(t) && r.Ok? ==> r.value.0.discordId == pr.id
    ensures r.Ok? ==> r.value.0 in r.value.1.rows
    ensures !ValidateDiscordId(pr.id) ==> r == Err(LookupFailed("Invalid Discord ID format"))
    ensures ValidateDiscordId(pr.id) && FindByDiscord(t.rows, pr.id).None? ==>
              && (r.Ok? <==> Create(t, NewUserOf(pr)).Ok?)
              && (r.Ok? ==> r.value == Create(t, NewUserOf(pr)).value)
              && (r.Err? ==> r.error == CreateFailed(Create(t, NewUserOf(pr)).error))
    ensures ValidTable(t) && ValidateDiscordId(pr.id) && FindByDiscord(t.rows, pr.id).Some? ==>
              var u := FindByDiscord(t.rows, pr.id).value;
              && r.Ok?
              && r.value.0 == ApplyPatch(u, ProfilePatch(pr))
              && |r.value.1.rows| == |t.rows| && r.value.1.lastId == t.lastId
              && (forall i :: 0 <= i < |t.rows| && t.rows[i].discordId != pr.id ==> r.value.1.rows[i] == t.rows[i])
              && (forall i :: 0 <= i < |t.rows| && t.rows[i].discordId == pr.id ==> r.value.1.rows[i] == ApplyPatch(u, ProfilePatch(pr)))
  {
    ReturningRowIsTheUser(t, pr.id);
    match FindByDiscordId(t, pr.id)
    case Err(m) => Err(LookupFailed(m))
    case Ok(Some(u)) =>
      var (found, t') := Update(t, u.id, ProfilePatch(pr));
      if found.None? then Err(MissingUser)
      else
        UpdatedUserIsPatched(t, u, ProfilePatch(pr));
        Ok((found.value, t'))
    case Ok(None) =>
      match Create(t, NewUser(pr.id, pr.username, Some(pr.discriminator), ProfileAvatar(pr), pr.email))
      case Err(e) => Err(CreateFailed(e))
      case Ok(created) => Ok(created)
  }

  /** In a valid table the row with a Discord id is the only row with its
      primary key, so updating by that key touches exactly that row. */
  lemma ReturningRowIsTheUser(t: UserTable, discordId: string)
    ensures ValidTable(t) && FindByDiscord(t.rows, discordId).Some? ==>
              var u := FindByDiscord(t.rows, discordId).value;
              forall i :: 0 <= i < |t.rows| ==> (t.rows[i].id == u.id <==> t.rows[i].discordId == discordId)
    ensures ValidTable(t) && FindByDiscord(t.rows, discordId).Some? ==>
              var u := FindByDiscord(t.rows, discordId).value;
              forall i :: 0 <= i < |t.rows| && t.rows[i].id == u.id ==> t.rows[i] == u
  {
    if ValidTable(t) && FindByDiscord(t.rows, discordId).Some? {
      var u := FindByDiscord(t.rows, discordId).value;
      var k :| 0 <= k < |t.rows| && t.rows[k] == u;
      forall i | 0 <= i < |t.rows|
        ensures (t.rows[i].id == u.id <==> t.rows[i].discordId == discordId)
        ensures t.rows[i].id == u.id ==> t.rows[i] == u
      {
        if t.rows[i].id == u.id || t.rows[i].discordId == discordId {
          assert i == k;
        }
      }
    }
  }

  /** The configured administrator logs in without the admin role yet. */
  predicate ShouldPromote(env: OAuthEnv, pr: Profile, u: User) {
    Present(env.adminDiscordId) && pr.id == env.adminDiscordId.value && u.role != Some("admin")
  }

  /** The verify callback: upsert, then promote the administrator. */
  function VerifyLogin(t: UserTable, env: OAuthEnv, pr: Profile): (r: Result<(User, UserTable), LoginError>)
    ensures ValidTable(t) && r.Ok? ==> ValidTable(r.value.1)
  {
    match Upsert(t, pr)
    case Err(e) => Err(e)
    case Ok((u, t1)) =>
      if ShouldPromote(env, pr, u) then
        var (promoted, t2) := Update(t1, u.id, PromotionPatch());
        if promoted.None? then Err(MissingUser) else Ok((promoted.value, t2))
      else Ok((u, t1))
  }

  /** The role the user with this Discord id had before logging in; a new
      user starts with none. */
  function PriorRole(t: UserTable, discordId: string): Option<string> {
    match FindByDiscord(t.rows, discordId)
    case Some(u) => u.role
    case None => None
  }

  /** The upsert keeps the user's role. */
  lemma UpsertKeepsRole(t: UserTable, pr: Profile)
    requires ValidTable(t) && Upsert(t, pr).Ok?
    ensures Upsert(t, pr).value.0.role == PriorRole(t, pr.id)
  {
    match FindByDiscordId(t, pr.id)
    case Ok(Some(u)) =>
      UpdatedUserIsPatched(t, u, ProfilePatch(pr));
    case Ok(None) =>
  }

  /** In a valid table, updating a stored user by its id reads back that
      user with the patch applied. */
  lemma UpdatedUserIsPatched(t: UserTable, u: User, p: Patch)
    requires u in t.rows
    ensures ValidTable(t) && Update(t, u.id, p).0.Some? ==> Update(t, u.id, p).0.value == ApplyPatch(u, p)
  {
    if ValidTable(t) && Update(t, u.id, p).0.Some? {
      UpdateReadsPatchedRow(t, u.id, p);
      var i :| 0 <= i < |t.rows| && t.rows[i].id == u.id && Update(t, u.id, p).0.value == ApplyPatch(t.rows[i], p);
      var k :| 0 <= k < |t.rows| && t.rows[k] == u;
      assert i == k;
    }
  }

  /** The promotion update gives the user the admin role. */
  lemma PromotionGrantsAdmin(t: UserTable, id: int)
    requires Update(t, id, PromotionPatch()).0.Some?
    ensures Update(t, id, PromotionPatch()).0.value.role == Some("admin")
  {
    UpdateReadsPatchedRow(t, id, PromotionPatch());
  }

  /** After a login the user is the profile's, holds the admin role
      whenever the profile is the configured administrator's, and keeps
      the role it had otherwise. */
  lemma LoginRoles(t: UserTable, env: OAuthEnv, pr: Profile)
    requires ValidTable(t) && VerifyLogin(t, env, pr).Ok?
    ensures var u := VerifyLogin(t, env, pr).value.0;
            && (Present(env.adminDiscordId) && pr.id == env.adminDiscordId.value ==> u.role == Some("admin"))
            && (!(Present(env.adminDiscordId) && pr.id == env.adminDiscordId.value) ==> u.role == PriorRole(t, pr.id))
  {
    var (u, t1) := Upsert(t, pr).value;
    UpsertKeepsRole(t, pr);
    if ShouldPromote(env, pr, u) {
      PromotionGrantsAdmin(t1, u.id);
    }
  }

  /** A login keeps the number of users when the Discord id is known and
      adds exactly one user when it is not. */
  lemma LoginUpsertsOneUser(t: UserTable, env: OAuthEnv, pr: Profile)
    requires VerifyLogin(t, env, pr).Ok?
    ensures var t' := VerifyLogin(t, env, pr).value.1;
            |t'.rows| == if FindByDiscord(t.rows, pr.id).Some? then |t.rows| else |t.rows| + 1
  {
  }

  // ---------------------------------------------------------------------
  // Session serialisation
  // ---------------------------------------------------------------------

  /** `serializeUser`: the session keeps only the primary key, and that
      key finds the user again in any valid table that holds it. */
  function SerializeUser(u: User): (id: int)
    ensures forall t: UserTable | ValidTable(t) && u in t.rows :: FindById(t, id) == Some(u)
  {
    assert forall t: UserTable | ValidTable(t) && u in t.rows :: FindById(t, u.id) == Some(u) by {
      forall t: UserTable | ValidTable(t) && u in t.rows
        ensures FindById(t, u.id) == Some(u)
      {
        FirstMatchIsUnique(t, u);
      }
    }
    u.id
  }

  /** `deserializeUser`: the row read back by primary key. */
  function DeserializeUser(t: UserTable, id: int): Option<User> {
    FindById(t, id)
  }

  /** A stored user survives the round trip through the session. */
  lemma SessionRoundTrip(t: UserTable, u: User)
    requires ValidTable(t) && u in t.rows
    ensures DeserializeUser(t, SerializeUser(u)) == Some(u)
  {
    FirstMatchIsUnique(t, u);
  }
}
