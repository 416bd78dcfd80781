/** The moderator side of the server: the staff gate every admin route sits
    behind, the pagination arithmetic of the list routes, the user
    moderation updates, and the overrides of the marketplace lifecycle
    (closing a listing, force-closing a trade) with the flagged-listing
    filter, and the action log each moderation route appends to. */
module Admin {
  import opened Wrappers
  import opened Text
  import opened Ledger
  import opened Users
  import Marketplace

  // ---------------------------------------------------------------------
  // requireAdmin
  // ---------------------------------------------------------------------

  /** What the gate does with a request. */
  datatype Gate = Proceed | Deny(status: int)

  predicate IsStaffRole(role: Option<string>) {
    role == Some("admin") || role == Some("moderator")
  }

  /** No session user (or id 0) is 401; a user who is missing or whose role
      is neither `admin` nor `moderator` is 403; staff proceed. */
  function RequireAdmin(sessionUserId: Option<int>, t: UserTable): (r: Gate)
    ensures r == Deny(401) <==> sessionUserId.None? || sessionUserId.value == 0
    ensures r.Deny? ==> r.status == 401 || r.status == 403
  {
    if sessionUserId.None? || sessionUserId.value == 0 then Deny(401)
    else match FindById(t, sessionUserId.value)
      case Some(u) => if IsStaffRole(u.role) then Proceed else Deny(403)
      case None => Deny(403)
  }

  /** In a valid table the gate lets through exactly the staff rows. */
  lemma RequireAdminAdmitsExactlyStaff(t: UserTable, id: int)
    requires ValidTable(t) && id != 0
    ensures RequireAdmin(Some(id), t) == Proceed <==>
              exists i :: 0 <= i < |t.rows| && t.rows[i].id == id && IsStaffRole(t.rows[i].role)
    ensures RequireAdmin(Some(id), t) != Proceed ==> RequireAdmin(Some(id), t) == Deny(403)
  {
    match FindById(t, id)
    case Some(u) =>
      FirstMatchIsUnique(t, u);
      var k :| 0 <= k < |t.rows| && t.rows[k] == u;
      if exists i :: 0 <= i < |t.rows| && t.rows[i].id == id && IsStaffRole(t.rows[i].role) {
        var i :| 0 <= i < |t.rows| && t.rows[i].id == id && IsStaffRole(t.rows[i].role);
        assert i == k;
      }
    case None =>
  }

  // ---------------------------------------------------------------------
  // Pagination of the list routes
  // ---------------------------------------------------------------------

  /** `parseInt(q) || default`: NaN and 0 fall back to the default. */
  function OrDefault(parsed: Option<int>, default: int): (r: int)
    ensures parsed.Some? && parsed.value != 0 ==> r == parsed.value
    ensures parsed.None? || parsed.value == 0 ==> r == default
  {
    if parsed.Some? && parsed.value != 0 then parsed.value else default
  }

  /** The page, page size and row offset of a list request. */
  datatype Paging = Paging(page: int, limit: int, offset: int)

  /** Reads `page` and `limit` from the query string (an absent parameter
      parses to NaN). Neither is bounded: a negative page gives a negative
      offset. */
  function PagingOf(pageQuery: Option<string>, limitQuery: Option<string>): (r: Paging)
    ensures r.page != 0 && r.limit != 0
    ensures pageQuery.None? ==> r.page == 1
    ensures limitQuery.None? ==> r.limit == 20
    ensures pageQuery.Some? ==> r.page == OrDefault(ParseIntLenient(pageQuery.value), 1)
    ensures limitQuery.Some? ==> r.limit == OrDefault(ParseIntLenient(limitQuery.value), 20)
    ensures r.offset == RowOffset(r.page, r.limit)
  {
    var page := OrDefault(if pageQuery.Some? then ParseIntLenient(pageQuery.value) else None, 1);
    var limit := OrDefault(if limitQuery.Some? then ParseIntLenient(limitQuery.value) else None, 20);
    Paging(page, limit, RowOffset(page, limit))
  }

  /** The rows before page `page` of `limit` rows each: the SQL `OFFSET`. */
  function RowOffset(page: int, limit: int): int {
    (page - 1) * limit
  }

  /** A page and a page size written as decimal numbers read back as
      those numbers, and a zero falls back to the defaults. */
  lemma PagingReadsBackNumbers(page: int, limit: int)
    requires page != 0 && limit != 0
    ensures var r := PagingOf(Some(IntToString(page)), Some(IntToString(limit)));
            r.page == page && r.limit == limit && r.offset == (page - 1) * limit
    ensures PagingOf(Some(IntToString(0)), Some(IntToString(0))) == Paging(1, 20, 0)
  {
    ParseIntLenientRoundTrip(page);
    ParseIntLenientRoundTrip(limit);
    ParseIntLenientRoundTrip(0);
  }

  /** `Math.ceil(count / limit)`, the number of pages reported. */
  function TotalPages(count: nat, limit: int): (r: int)
    requires limit != 0
    ensures limit > 0 ==> (r - 1) * limit < count <= r * limit
    ensures limit < 0 ==> r * limit <= count < (r - 1) * limit
  {
    if limit > 0 then (count + limit - 1) / limit
    else
      var m := 0 - limit;
      var q := count / m;
      assert count == q * m + count % m;
      0 - q
  }

  /** With a positive page size, every row of the result lies on exactly one
      of the reported pages, the page its index divided by the size names. */
  lemma {:induction false} PagesCoverRows(count: nat, limit: int, k: nat)
    requires limit > 0 && k < count
    ensures var p := k / limit + 1;
            && 1 <= p <= TotalPages(count, limit)
            && (p - 1) * limit <= k < (p - 1) * limit + limit
  {
    var p := k / limit + 1;
    var total := TotalPages(count, limit);
    assert (p - 1) * limit <= k < (p - 1) * limit + limit by {
      assert k == (k / limit) * limit + k % limit;
    }
    if p > total {
      assert false;
    }
  }

  // ---------------------------------------------------------------------
  // Moderating users
  // ---------------------------------------------------------------------

  predicate ValidRole(role: Option<string>) {
    role == Some("user") || role == Some("moderator") || role == Some("admin")
  }

  /** `PUT /users/:id/role`: 400 unless the role is one of the three; the
      update itself does not check that the user exists. */
  function UpdateRole(t: UserTable, targetId: int, role: Option<string>): (r: Result<UserTable, int>)
    ensures r.Ok? <==> ValidRole(role)
    ensures r.Err? ==> r.error == 400
    ensures r.Ok? ==>
      && |r.value.rows| == |t.rows| && r.value.lastId == t.lastId
      && (forall i :: 0 <= i < |t.rows| && t.rows[i].id == targetId ==> r.value.rows[i] == t.rows[i].(role := role))
      && (forall i :: 0 <= i < |t.rows| && t.rows[i].id != targetId ==> r.value.rows[i] == t.rows[i])
    ensures r.Ok? && ValidTable(t) ==> ValidTable(r.value)
  {
    if !ValidRole(role) then Err(400)
    else Ok(UpdateWhereId(t, targetId, (u: User) => u.(role := role)))
  }

  /** Hours to milliseconds. */
  const HourMillis: int := 60 * 60 * 1000

  /** `POST /users/:id/ban` at time `now`: a truthy duration (in hours) bans
      until `now` plus that many hours, a missing or zero one bans for
      good. */
  function Ban(t: UserTable, targetId: int, reason: Option<string>, duration: Option<int>, now: int): (r: UserTable)
    ensures |r.rows| == |t.rows| && r.lastId == t.lastId
    ensures forall i :: 0 <= i < |t.rows| && t.rows[i].id != targetId ==> r.rows[i] == t.rows[i]
    ensures forall i :: 0 <= i < |t.rows| && t.rows[i].id == targetId ==>
              && r.rows[i].isBanned == Some(1)
              && r.rows[i].banReason == reason
              && (duration.None? || duration.value == 0 ==> r.rows[i].bannedUntil.None?)
              && (duration.Some? && duration.value != 0 ==> r.rows[i].bannedUntil == Some(now + duration.value * HourMillis))
              && r.rows[i] == t.rows[i].(isBanned := r.rows[i].isBanned, bannedUntil := r.rows[i].bannedUntil, banReason := reason)
    ensures ValidTable(t) ==> ValidTable(r)
  {
    var until := if duration.Some? && duration.value != 0 then Some(now + duration.value * HourMillis) else None;
    UpdateWhereId(t, targetId, (u: User) => u.(isBanned := Some(1), bannedUntil := until, banReason := reason))
  }

  /** `POST /users/:id/unban`: the ban flag, expiry and reason are cleared. */
  function Unban(t: UserTable, targetId: int): (r: UserTable)
    ensures |r.rows| == |t.rows| && r.lastId == t.lastId
    ensures forall i :: 0 <= i < |t.rows| && t.rows[i].id != targetId ==> r.rows[i] == t.rows[i]
    ensures forall i :: 0 <= i < |t.rows| && t.rows[i].id == targetId ==>
              r.rows[i] == t.rows[i].(isBanned := Some(0), bannedUntil := None, banReason := None)
    ensures ValidTable(t) ==> ValidTable(r)
  {
    UpdateWhereId(t, targetId, (u: User) => u.(isBanned := Some(0), bannedUntil := None, banReason := None))
  }

  /** Unbanning erases every trace of a ban. */
  lemma UnbanUndoesBan(t: UserTable, targetId: int, reason: Option<string>, duration: Option<int>, now: int)
    ensures Unban(Ban(t, targetId, reason, duration, now), targetId) == Unban(t, targetId)
  {
    var a := Unban(Ban(t, targetId, reason, duration, now), targetId);
    var b := Unban(t, targetId);
    assert forall i :: 0 <= i < |t.rows| ==> a.rows[i] == b.rows[i];
  }

  // ---------------------------------------------------------------------
  // Lifecycle overrides
  // ---------------------------------------------------------------------

  /** `POST /listings/:id/close`: any listing, whatever its status and
      owner, becomes `closed`; an unknown id changes nothing and still
      succeeds. */
  function CloseListing(s: Store, id: Id): (r: Store)
    ensures id in s.listings ==> Marketplace.OnlyListingStatusChanged(s, r, id, Closed)
    ensures id !in s.listings ==> r == s
  {
    if id in s.listings then s.(listings := s.listings[id := s.listings[id].(status := Closed)]) else s
  }

  /** The join of `POST /trades/:id/force-close`: the trade exists and so do
      the listing and the offer it names. */
  predicate TradeJoins(s: Store, tradeId: Id) {
    && tradeId in s.trades
    && s.trades[tradeId].listingId in s.listings
    && s.trades[tradeId].offerId in s.offers
  }

  /** Cancels the trade, reopens its listing and puts its offer back to
      pending, whatever their statuses and confirmation slots were. */
  function ForceCloseTrade(s: Store, tradeId: Id): (r: Result<Store, Marketplace.Failure>)
    ensures r.Ok? <==> TradeJoins(s, tradeId)
    ensures r.Err? ==> r.error == Marketplace.NotFound
    ensures r.Ok? ==>
      var tr := s.trades[tradeId];
      && r.value.trades.Keys == s.trades.Keys
      && r.value.trades[tradeId] == tr.(status := Cancelled)
      && (forall t :: t in s.trades && t != tradeId ==> r.value.trades[t] == s.trades[t])
      && r.value.listings.Keys == s.listings.Keys
      && r.value.listings[tr.listingId] == s.listings[tr.listingId].(status := Active)
      && (forall l :: l in s.listings && l != tr.listingId ==> r.value.listings[l] == s.listings[l])
      && r.value.offers.Keys == s.offers.Keys
      && r.value.offers[tr.offerId] == s.offers[tr.offerId].(status := Pending)
      && (forall o :: o in s.offers && o != tr.offerId ==> r.value.offers[o] == s.offers[o])
  {
    if !TradeJoins(s, tradeId) then Err(Marketplace.NotFound)
    else
      var tr := s.trades[tradeId];
      Ok(Store(
        s.listings[tr.listingId := s.listings[tr.listingId].(status := Active)],
        s.offers[tr.offerId := s.offers[tr.offerId].(status := Pending)],
        s.trades[tradeId := tr.(status := Cancelled)]))
  }

  /** Closing a listing keeps the store well formed. */
  lemma CloseListingPreservesWellFormed(s: Store, id: Id)
    requires WellFormed(s)
    ensures WellFormed(CloseListing(s, id))
  {
  }

  /** Force-closing a trade keeps the store well formed. */
  lemma ForceClosePreservesWellFormed(s: Store, tradeId: Id)
    requires WellFormed(s)
    requires ForceCloseTrade(s, tradeId).Ok?
    ensures WellFormed(ForceCloseTrade(s, tradeId).value)
  {
    var s' := ForceCloseTrade(s, tradeId).value;
    assert forall o :: o in s'.offers ==> s'.offers[o].listingId == s.offers[o].listingId && s'.offers[o].bidder == s.offers[o].bidder;
    assert forall l :: l in s'.listings ==> s'.listings[l].owner == s.listings[l].owner;
    assert forall t :: t in s'.trades ==> s'.trades[t].offerId == s.trades[t].offerId && s'.trades[t].listingId == s.trades[t].listingId;
  }

  /** A closed listing takes no offers, whatever state it was in. */
  lemma ClosedListingTakesNoOffers(s: Store, id: Id, bidder: UserId, freshId: Id, req: Marketplace.OfferRequest)
    ensures Marketplace.CreateOffer(CloseListing(s, id), bidder, freshId, id, req) == Err(Marketplace.NotFound)
  {
  }

  /** Accepting an offer and then force-closing a trade for it reopens the
      listing and the accepted offer, but every other offer that acceptance
      rejected stays rejected. */
  lemma ForceCloseDoesNotReviveRejected(s: Store, caller: UserId, offerId: Id, tradeId: Id)
    requires WellFormed(s)
    requires Marketplace.AcceptOffer(s, caller, offerId).Ok?
    requires tradeId in s.trades && s.trades[tradeId].offerId == offerId
    requires s.trades[tradeId].listingId == s.offers[offerId].listingId
    ensures var s1 := Marketplace.AcceptOffer(s, caller, offerId).value;
            var lid := s.offers[offerId].listingId;
            var r := ForceCloseTrade(s1, tradeId);
            && r.Ok?
            && r.value.listings[lid].status == Active
            && r.value.offers[offerId].status == Pending
            && (forall o :: o in s.offers && o != offerId && s.offers[o].listingId == lid && s.offers[o].status == Pending
                  ==> r.value.offers[o].status == Rejected)
  {
  }

  // ---------------------------------------------------------------------
  // Flagged listings on the dashboard
  // ---------------------------------------------------------------------

  function RejectedOffers(s: Store, listingId: Id): set<Id> {
    set o | o in s.offers && s.offers[o].listingId == listingId && s.offers[o].status == Rejected
  }

  /** The listings the dashboard flags: those with more than three
      rejected offers. */
  function Flagged(s: Store): (r: set<Id>)
    ensures r <= s.listings.Keys
    ensures forall l :: l in s.listings ==> (l in r <==> |RejectedOffers(s, l)| >= 4)
  {
    set l | l in s.listings && |RejectedOffers(s, l)| > 3
  }

  lemma SubsetCardinality<T>(a: set<T>, b: set<T>)
    requires a <= b
    ensures |a| <= |b|
  {
    Marketplace.CardinalityOfDisjointParts(a, {}, b);
  }

  /** Resolving offers never clears a flag: a flagged listing stays flagged
      after any accept or reject. */
  lemma ResolvingKeepsFlags(s: Store, caller: UserId, offerId: Id)
    ensures Marketplace.AcceptOffer(s, caller, offerId).Ok? ==> Flagged(s) <= Flagged(Marketplace.AcceptOffer(s, caller, offerId).value)
    ensures Marketplace.RejectOffer(s, caller, offerId).Ok? ==> Flagged(s) <= Flagged(Marketplace.RejectOffer(s, caller, offerId).value)
  {
    if Marketplace.AcceptOffer(s, caller, offerId).Ok? {
      KeepsFlags(s, Marketplace.AcceptOffer(s, caller, offerId).value);
    }
    if Marketplace.RejectOffer(s, caller, offerId).Ok? {
      KeepsFlags(s, Marketplace.RejectOffer(s, caller, offerId).value);
    }
  }

  /** A store change that keeps every rejected offer rejected keeps every
      flag. */
  lemma KeepsFlags(s: Store, s': Store)
    requires s.listings.Keys <= s'.listings.Keys
    requires forall l :: RejectedOffers(s, l) <= RejectedOffers(s', l)
    ensures Flagged(s) <= Flagged(s')
  {
    forall l | l in Flagged(s)
      ensures l in Flagged(s')
    {
      SubsetCardinality(RejectedOffers(s, l), RejectedOffers(s', l));
    }
  }

  /** Rejecting the fourth offer on a listing flags it. */
  lemma FourthRejectionFlags(s: Store, caller: UserId, offerId: Id)
    requires Marketplace.RejectOffer(s, caller, offerId).Ok?
    requires |RejectedOffers(s, s.offers[offerId].listingId)| == 3
    ensures s.offers[offerId].listingId in Flagged(Marketplace.RejectOffer(s, caller, offerId).value)
  {
    var lid := s.offers[offerId].listingId;
    var s' := Marketplace.RejectOffer(s, caller, offerId).value;
    assert RejectedOffers(s', lid) == RejectedOffers(s, lid) + {offerId};
  }

  // ---------------------------------------------------------------------
  // Moderation routes and the action log
  // ---------------------------------------------------------------------

  /** What the `target_type` and `target_id` columns of a log row name. */
  datatype Target = UserTarget(userId: int) | ListingTarget(listingId: Id) | TradeTarget(tradeId: Id)

  /** A row of `admin_actions`; the JSON `details` column is not modelled. */
  datatype AdminAction = AdminAction(adminId: int, actionType: string, target: Target)

  /** A row of `user_warnings`. */
  datatype Warning = Warning(id: string, userId: int, adminId: int, warningType: Option<string>, message: Option<string>)

  /** What the moderation routes write: the users, the marketplace, the
      warnings and the action log. */
  datatype Console = Console(users: UserTable, store: Store, warnings: seq<Warning>, actions: seq<AdminAction>)

  /** A moderation request with the route parameter and body fields its
      handler reads; `warningId` is the random id the warn route draws. */
  datatype Moderation =
    | ChangeRole(user: int, role: Option<string>)
    | BanUser(user: int, reason: Option<string>, duration: Option<int>)
    | UnbanUser(user: int)
    | WarnUser(user: int, warningId: string, warningType: Option<string>, message: Option<string>)
    | CloseListingBy(listing: Id)
    | ForceClose(trade: Id)

  function TargetOf(m: Moderation): Target {
    match m
    case ChangeRole(u, _) => UserTarget(u)
    case BanUser(u, _, _) => UserTarget(u)
    case UnbanUser(u) => UserTarget(u)
    case WarnUser(u, _, _, _) => UserTarget(u)
    case CloseListingBy(l) => ListingTarget(l)
    case ForceClose(t) => TradeTarget(t)
  }

  /** The `action_type` each route logs. */
  function ActionType(m: Moderation): string {
    match m
    case ChangeRole(_, _) => "role_change"
    case BanUser(_, _, _) => "ban_user"
    case UnbanUser(_) => "unban_user"
    case WarnUser(_, _, _, _) => "warn_user"
    case CloseListingBy(_) => "close_listing"
    case ForceClose(_) => "force_close_trade"
  }

  predicate WarningIdTaken(ws: seq<Warning>, id: string) {
    exists i :: 0 <= i < |ws| && ws[i].id == id
  }

  /** Why a moderation request is refused: an unknown role (400), a trade
      that does not join (404), or a warning id that is already a primary
      key (500). */
  function Refusal(c: Console, m: Moderation): Option<int> {
    if m.ChangeRole? && !ValidRole(m.role) then Some(400)
    else if m.ForceClose? && !TradeJoins(c.store, m.trade) then Some(404)
    else if m.WarnUser? && WarningIdTaken(c.warnings, m.warningId) then Some(500)
    else None
  }

  /** A moderation route run by `adminId` at time `now`: the handler's
      update, then one log row naming the admin, the action and its
      target. A refused request writes nothing. */
  function Moderate(c: Console, adminId: int, m: Moderation, now: int): (r: Result<Console, int>)
    ensures r.Err? <==> Refusal(c, m).Some?
    ensures r.Err? ==> r.error == Refusal(c, m).value
    ensures r.Ok? ==> r.value.actions == c.actions + [AdminAction(adminId, ActionType(m), TargetOf(m))]
    ensures r.Ok? && m.ChangeRole? ==> r.value == c.(users := UpdateRole(c.users, m.user, m.role).value, actions := r.value.actions)
    ensures r.Ok? && m.BanUser? ==> r.value == c.(users := Ban(c.users, m.user, m.reason, m.duration, now), actions := r.value.actions)
    ensures r.Ok? && m.UnbanUser? ==> r.value == c.(users := Unban(c.users, m.user), actions := r.value.actions)
    ensures r.Ok? && m.WarnUser? ==>
              r.value == c.(warnings := c.warnings + [Warning(m.warningId, m.user, adminId, m.warningType, m.message)],
                            actions := r.value.actions)
    ensures r.Ok? && m.CloseListingBy? ==> r.value == c.(store := CloseListing(c.store, m.listing), actions := r.value.actions)
    ensures r.Ok? && m.ForceClose? ==> r.value == c.(store := ForceCloseTrade(c.store, m.trade).value, actions := r.value.actions)
  {
    if Refusal(c, m).Some? then Err(Refusal(c, m).value)
    else
      var logged := c.actions + [AdminAction(adminId, ActionType(m), TargetOf(m))];
      match m
      case ChangeRole(u, role) => Ok(c.(users := UpdateRole(c.users, u, role).value, actions := logged))
      case BanUser(u, reason, duration) => Ok(c.(users := Ban(c.users, u, reason, duration, now), actions := logged))
      case UnbanUser(u) => Ok(c.(users := Unban(c.users, u), actions := logged))
      case WarnUser(u, id, kind, message) =>
        Ok(c.(warnings := c.warnings + [Warning(id, u, adminId, kind, message)], actions := logged))
      case CloseListingBy(l) => Ok(c.(store := CloseListing(c.store, l), actions := logged))
      case ForceClose(t) => Ok(c.(store := ForceCloseTrade(c.store, t).value, actions := logged))
  }

  /** The log row a moderation appends names every user row it changed,
      and a request that names no user changes no user row. */
  lemma LogNamesChangedUsers(c: Console, adminId: int, m: Moderation, now: int, i: int)
    requires Moderate(c, adminId, m, now).Ok?
    requires 0 <= i < |c.users.rows|
    ensures var r := Moderate(c, adminId, m, now).value;
            |r.users.rows| == |c.users.rows|
            && (r.users.rows[i] != c.users.rows[i] ==> r.actions[|r.actions| - 1].target == UserTarget(c.users.rows[i].id))
  {
  }

  /** A run of moderation requests, each applied to the state the previous
      ones left; a refused request leaves the state as it was. Also
      returns how many were carried out. */
  function Replay(c: Console, adminId: int, ms: seq<Moderation>, now: int): (r: (Console, nat))
    ensures r.1 <= |ms|
    ensures |r.0.actions| == |c.actions| + r.1
    ensures r.0.actions[..|c.actions|] == c.actions
    ensures forall k :: |c.actions| <= k < |r.0.actions| ==> r.0.actions[k].adminId == adminId
    decreases |ms|
  {
    if |ms| == 0 then (c, 0)
    else
      match Moderate(c, adminId, ms[0], now)
      case Err(_) => Replay(c, adminId, ms[1..], now)
      case Ok(c1) =>
        var (c2, n) := Replay(c1, adminId, ms[1..], now);
        assert c1.actions[..|c.actions|] == c.actions;
        assert c2.actions[..|c.actions|] == c2.actions[..|c1.actions|][..|c.actions|];
        (c2, n + 1)
  }
}
