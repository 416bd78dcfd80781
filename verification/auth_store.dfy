/** The client's authentication store: the signed-in user, the values
    derived from it, and how each request's outcome changes it. The HTTP
    requests themselves are outside the model: each operation is handed
    what its request returned. */
module AuthStore {
  import opened Wrappers
  import opened Text
  import Avatars

  /** The user object `/auth/me` returns. */
  datatype AuthUser = AuthUser(
    id: int,
    discordId: string,
    username: string,
    discriminator: Option<string>,
    avatar: Option<string>,
    email: Option<string>)

  /** The store's refs. */
  datatype AuthState = AuthState(user: Option<AuthUser>, loading: bool)

  /** What a `GET /auth/me` came back with: the body's `user` field (which
      may be null), or a failure with the HTTP status when there was a
      response at all. */
  datatype MeOutcome =
    | Answered(user: Option<AuthUser>)
    | Failed(status: Option<int>)

  const Unauthorized: int := 401

  /** The state the store is created in, before its first request. */
  const Initial: AuthState := AuthState(None, false)

  /** `isAuthenticated`: a user object is always truthy. */
  predicate IsAuthenticated(st: AuthState) {
    st.user.Some?
  }

  /** `avatarUrl`: the CDN URL of the user's own avatar, with no size. */
  function AvatarUrl(st: AuthState): (r: Option<string>)
    ensures r.None? <==> st.user.None? || st.user.value.avatar.None? || st.user.value.avatar.value == ""
    ensures r.Some? ==> StartsWith(r.value, Avatars.CdnBase + "/avatars/") && EndsWith(r.value, ".png")
  {
    match st.user
    case None => None
    case Some(u) =>
      if u.avatar.None? || u.avatar.value == "" then None
      else
        var url := Avatars.CdnBase + "/avatars/" + u.discordId + "/" + u.avatar.value + ".png";
        assert url == (Avatars.CdnBase + "/avatars/") + (u.discordId + "/" + u.avatar.value + ".png");
        assert url == (Avatars.CdnBase + "/avatars/" + u.discordId + "/" + u.avatar.value) + ".png";
        Some(url)
  }

  /** Where the store shows an avatar, it is the picture the marketplace
      shows for the same user, without the `?size=128` the marketplace asks
      for; the store shows none where the marketplace falls back to a
      default avatar. */
  lemma AvatarUrlMatchesMarketplace(st: AuthState)
    requires st.user.Some?
    ensures var u := st.user.value;
            && (AvatarUrl(st).Some? ==> Avatars.AvatarUrl(u.discordId, u.avatar) == AvatarUrl(st).value + "?size=128")
            && (AvatarUrl(st).None? ==> StartsWith(Avatars.AvatarUrl(u.discordId, u.avatar), Avatars.CdnBase + "/embed/avatars/"))
  {
    var u := st.user.value;
    if AvatarUrl(st).None? {
      var r := Avatars.AvatarUrl(u.discordId, u.avatar);
      assert r == (Avatars.CdnBase + "/embed/avatars/") + (Avatars.DefaultAvatarIndex(u.discordId) + ".png");
    }
  }

  /** `clearAuth`. */
  function ClearAuth(st: AuthState): (r: AuthState)
    ensures !IsAuthenticated(r) && AvatarUrl(r).None?
    ensures r.loading == st.loading
  {
    st.(user := None)
  }

  /** `checkAuthStatus`: the answer's user is stored and the result is
      true; on a failure the result is false and only a 401 signs the user
      out, any other failure leaving the store as it was. */
  function CheckAuthStatus(st: AuthState, outcome: MeOutcome): (r: (bool, AuthState))
    ensures r.0 <==> outcome.Answered?
    ensures outcome.Answered? ==> r.1 == st.(user := outcome.user)
    ensures outcome.Failed? && outcome.status == Some(Unauthorized) ==> r.1 == ClearAuth(st)
    ensures outcome.Failed? && outcome.status != Some(Unauthorized) ==> r.1 == st
  {
    match outcome
    case Answered(u) => (true, st.(user := u))
    case Failed(status) =>
      if status == Some(Unauthorized) then (false, ClearAuth(st)) else (false, st)
  }

  /** `fetchUser`: the answer's user is stored; any failure signs the user
      out. The loading flag, raised for the request, is down again after
      it. */
  function FetchUser(st: AuthState, outcome: MeOutcome): (r: AuthState)
    ensures !r.loading
    ensures outcome.Answered? ==> r.user == outcome.user
    ensures outcome.Failed? ==> !IsAuthenticated(r)
  {
    var during := st.(loading := true);
    var after :=
      match outcome
      case Answered(u) => during.(user := u)
      case Failed(_) => ClearAuth(during);
    after.(loading := false)
  }

  /** `logout`: the user is cleared whether or not the request succeeded. */
  function Logout(st: AuthState, requestSucceeded: bool): (r: AuthState)
    ensures !IsAuthenticated(r) && AvatarUrl(r).None?
    ensures r.loading == st.loading
  {
    ClearAuth(st)
  }

  /** The two ways of asking who is signed in agree on every outcome except
      a failure other than a 401, where `fetchUser` signs the user out and
      `checkAuthStatus` keeps the user it had. */
  lemma CheckAndFetchAgree(st: AuthState, outcome: MeOutcome)
    ensures (outcome.Answered? || outcome.status == Some(Unauthorized)) ==>
              CheckAuthStatus(st, outcome).1.user == FetchUser(st, outcome).user
    ensures (outcome.Failed? && outcome.status != Some(Unauthorized)) ==>
              CheckAuthStatus(st, outcome).1.user == st.user && FetchUser(st, outcome).user.None?
  {
  }

  /** After the store's start-up check the user is signed in exactly when
      `/auth/me` answered with a user. */
  lemma StartupSignsInOnlyOnAnswer(outcome: MeOutcome)
    ensures IsAuthenticated(CheckAuthStatus(Initial, outcome).1) <==> outcome.Answered? && outcome.user.Some?
  {
  }
}
