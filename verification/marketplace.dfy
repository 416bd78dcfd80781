/** The listing and offer handlers of the marketplace router, each one a pure
    transition from the store before the request to the store after it, or
    the HTTP error it answers with (in which case nothing was written). */
module Marketplace {
  import opened Wrappers
  import opened Ledger

  /** The error responses of the handlers. */
  datatype Failure =
    | BadRequest   // 400
    | NotFound     // 404
    | ServerError  // 500: the database refused a statement

  function StatusCode(f: Failure): int {
    match f
    case BadRequest => 400
    case NotFound => 404
    case ServerError => 500
  }

  /** JavaScript falsiness of an optional number: absent, null or 0. */
  predicate Falsy(v: Option<int>) {
    v.None? || v.value == 0
  }

  /** Every row of every table other than listing `id` is untouched, and
      listing `id` keeps all its columns except its status, which is now `st`. */
  predicate OnlyListingStatusChanged(s: Store, s': Store, id: Id, st: ListingStatus)
    requires id in s.listings
  {
    && s'.offers == s.offers
    && s'.trades == s.trades
    && s'.listings.Keys == s.listings.Keys
    && s'.listings[id] == s.listings[id].(status := st)
    && forall other :: other in s.listings && other != id ==> s'.listings[other] == s.listings[other]
  }

  // ---------------------------------------------------------------------
  // POST /listings
  // ---------------------------------------------------------------------

  /** The JSON body of a listing creation; `None` is an absent or null field. */
  datatype ListingRequest = ListingRequest(
    itemId: Option<int>,
    quantity: Option<int>,
    askingPrice: Option<int>,
    acceptsItems: Option<bool>,
    notes: Option<string>)

  /** The only validation the handler performs: each of the three fields must
      be truthy. No sign or range is checked. */
  predicate MissingRequiredField(req: ListingRequest) {
    Falsy(req.itemId) || Falsy(req.quantity) || Falsy(req.askingPrice)
  }

  /** Creates listing `freshId` (the random id the handler draws) for the
      caller. */
  function CreateListing(s: Store, caller: UserId, freshId: Id, req: ListingRequest): (r: Result<Store, Failure>)
    ensures MissingRequiredField(req) ==> r == Err(BadRequest)
    ensures r.Ok? <==> !MissingRequiredField(req) && freshId !in s.listings
    ensures r.Err? && !MissingRequiredField(req) ==> r.error == ServerError
    ensures r.Ok? ==>
      && r.value.offers == s.offers
      && r.value.trades == s.trades
      && r.value.listings.Keys == s.listings.Keys + {freshId}
      && (forall id :: id in s.listings ==> r.value.listings[id] == s.listings[id])
    ensures r.Ok? ==>
      var l := r.value.listings[freshId];
      && l.owner == caller
      && l.status == Active
      && l.itemId == req.itemId.value
      && l.quantity == req.quantity.value
      && l.askingPrice == req.askingPrice.value
      && (l.acceptsItems == 1 || l.acceptsItems == 0)
      && (l.acceptsItems == 1 <==> req.acceptsItems == Some(true))
      && (req.notes.None? ==> l.notes == "")
      && (req.notes.Some? ==> l.notes == req.notes.value)
  {
    if MissingRequiredField(req) then Err(BadRequest)
    else if freshId in s.listings then Err(ServerError)  // PRIMARY KEY violation
    else
      var accepts := if req.acceptsItems == Some(true) then 1 else 0;
      var row := InsertedListing(caller, req.itemId.value, req.quantity.value, req.askingPrice.value,
                                 Some(accepts), req.notes.GetOr(""));
      Ok(s.(listings := s.listings[freshId := row]))
  }

  // ---------------------------------------------------------------------
  // DELETE /listings/:id
  // ---------------------------------------------------------------------

  /** The `WHERE` clause of the ownership lookup. */
  predicate OwnsActiveListing(s: Store, caller: UserId, id: Id) {
    id in s.listings && s.listings[id].owner == caller && s.listings[id].status == Active
  }

  /** Soft-deletes a listing: only its owner, and only while it is active. */
  function RemoveListing(s: Store, caller: UserId, id: Id): (r: Result<Store, Failure>)
    ensures r.Ok? <==> OwnsActiveListing(s, caller, id)
    ensures r.Err? ==> r.error == NotFound
    ensures r.Ok? ==> OnlyListingStatusChanged(s, r.value, id, Removed)
  {
    if !OwnsActiveListing(s, caller, id) then Err(NotFound)
    else Ok(s.(listings := s.listings[id := s.listings[id].(status := Removed)]))
  }

  // ---------------------------------------------------------------------
  // POST /listings/:id/offers
  // ---------------------------------------------------------------------

  /** One entry of the `itemOffers` array of an offer body. */
  datatype ItemOfferRequest = ItemOfferRequest(itemId: Option<int>, quantity: Option<int>)

  /** The JSON body of an offer. */
  datatype OfferRequest = OfferRequest(
    coinOffer: Option<int>,
    itemOffers: Option<seq<ItemOfferRequest>>,
    message: Option<string>)

  /** An item entry is inserted when its `itemId` is truthy and its
      `quantity` is greater than zero. */
  predicate KeepsLine(x: ItemOfferRequest) {
    !Falsy(x.itemId) && x.quantity.Some? && x.quantity.value > 0
  }

  function LineOf(x: ItemOfferRequest): ItemLine
    requires KeepsLine(x)
  {
    ItemLine(x.itemId.value, x.quantity.value)
  }

  /** The item lines inserted for an offer, in input order. */
  function KeptLines(xs: seq<ItemOfferRequest>): (r: seq<ItemLine>)
    ensures |r| <= |xs|
    ensures forall i :: 0 <= i < |r| ==> r[i].itemId != 0 && r[i].quantity > 0
    ensures forall x :: x in xs && KeepsLine(x) ==> LineOf(x) in r
    decreases |xs|
  {
    if |xs| == 0 then []
    else
      var rest := KeptLines(xs[1..]);
      assert forall x :: x in xs[1..] ==> x in xs;
      if KeepsLine(xs[0]) then [LineOf(xs[0])] + rest else rest
  }

  /** Keeping lines commutes with concatenation, so the kept lines come out
      in the order the entries came in. */
  lemma {:induction false} KeptLinesAppend(a: seq<ItemOfferRequest>, b: seq<ItemOfferRequest>)
    ensures KeptLines(a + b) == KeptLines(a) + KeptLines(b)
    decreases |a|
  {
    if |a| == 0 {
      assert a + b == b;
    } else {
      assert (a + b)[1..] == a[1..] + b;
      KeptLinesAppend(a[1..], b);
    }
  }

  /** When every entry qualifies, every entry is kept, one line each, in order. */
  lemma {:induction false} KeptLinesAllValid(xs: seq<ItemOfferRequest>)
    requires forall i :: 0 <= i < |xs| ==> KeepsLine(xs[i])
    ensures |KeptLines(xs)| == |xs|
    ensures forall i :: 0 <= i < |xs| ==> KeptLines(xs)[i] == LineOf(xs[i])
    decreases |xs|
  {
    if |xs| > 0 {
      KeptLinesAllValid(xs[1..]);
    }
  }

  /** The `WHERE` clause of the listing lookup for an offer. */
  predicate IsActiveListing(s: Store, id: Id) {
    id in s.listings && s.listings[id].status == Active
  }

  /** Records an offer `freshId` by the caller on listing `listingId`. */
  function CreateOffer(s: Store, caller: UserId, freshId: Id, listingId: Id, req: OfferRequest): (r: Result<Store, Failure>)
    ensures !IsActiveListing(s, listingId) ==> r == Err(NotFound)
    ensures IsActiveListing(s, listingId) && s.listings[listingId].owner == caller ==> r == Err(BadRequest)
    ensures r.Ok? <==> IsActiveListing(s, listingId) && s.listings[listingId].owner != caller && freshId !in s.offers
    ensures r.Ok? ==>
      && r.value.listings == s.listings
      && r.value.trades == s.trades
      && r.value.offers.Keys == s.offers.Keys + {freshId}
      && (forall id :: id in s.offers ==> r.value.offers[id] == s.offers[id])
    ensures r.Ok? ==>
      var o := r.value.offers[freshId];
      && o.listingId == listingId
      && o.bidder == caller
      && o.status == Pending
      && (Falsy(req.coinOffer) ==> o.coinOffer == 0)
      && (!Falsy(req.coinOffer) ==> o.coinOffer == req.coinOffer.value)
      && (req.message.None? ==> o.message == "")
      && (req.message.Some? ==> o.message == req.message.value)
      && (req.itemOffers.None? ==> o.items == [])
      && (req.itemOffers.Some? ==> o.items == KeptLines(req.itemOffers.value))
  {
    if !IsActiveListing(s, listingId) then Err(NotFound)
    else if s.listings[listingId].owner == caller then Err(BadRequest)
    else if freshId in s.offers then Err(ServerError)  // PRIMARY KEY violation
    else
      var coins := if Falsy(req.coinOffer) then 0 else req.coinOffer.value;
      var row := InsertedOffer(listingId, caller, Some(coins), req.message.GetOr(""));
      var lines := match req.itemOffers
        case Some(xs) => KeptLines(xs)
        case None => [];
      Ok(s.(offers := s.offers[freshId := row.(items := lines)]))
  }

  // ---------------------------------------------------------------------
  // POST /offers/:id/accept and POST /offers/:id/reject
  // ---------------------------------------------------------------------

  /** The `WHERE` clause both resolution handlers use: the offer exists, its
      listing belongs to the caller, and it is still pending. */
  predicate CanResolve(s: Store, caller: UserId, offerId: Id) {
    && offerId in s.offers
    && s.offers[offerId].listingId in s.listings
    && s.listings[s.offers[offerId].listingId].owner == caller
    && s.offers[offerId].status == Pending
  }

  /** The status an offer has after `offerId` on listing `listingId` was
      accepted: the accepted one is `accepted`, every other pending offer on
      the same listing is `rejected`, the rest keep theirs. */
  function StatusAfterAccept(o: Offer, id: Id, offerId: Id, listingId: Id): OfferStatus {
    if id == offerId then Accepted
    else if o.listingId == listingId && o.status == Pending then Rejected
    else o.status
  }

  /** Accepts an offer: three statements run one after another, with no
      transaction around them. No trade confirmation row is inserted. */
  function AcceptOffer(s: Store, caller: UserId, offerId: Id): (r: Result<Store, Failure>)
    ensures r.Ok? <==> CanResolve(s, caller, offerId)
    ensures r.Err? ==> r.error == NotFound
    ensures r.Ok? ==>
      var lid := s.offers[offerId].listingId;
      && OnlyListingStatusChanged(s, r.value.(offers := s.offers), lid, Sold)
      && r.value.trades == s.trades
      && r.value.offers.Keys == s.offers.Keys
      && r.value.offers[offerId] == s.offers[offerId].(status := Accepted)
      && (forall id :: id in s.offers && id != offerId && s.offers[id].listingId == lid && s.offers[id].status == Pending
            ==> r.value.offers[id] == s.offers[id].(status := Rejected))
      && (forall id :: id in s.offers && id != offerId && !(s.offers[id].listingId == lid && s.offers[id].status == Pending)
            ==> r.value.offers[id] == s.offers[id])
  {
    if !CanResolve(s, caller, offerId) then Err(NotFound)
    else
      var lid := s.offers[offerId].listingId;
      var offers' := map id | id in s.offers :: s.offers[id].(status := StatusAfterAccept(s.offers[id], id, offerId, lid));
      var listings' := s.listings[lid := s.listings[lid].(status := Sold)];
      Ok(Store(listings', offers', s.trades))
  }

  /** Rejects an offer; the listing is left as it is. */
  function RejectOffer(s: Store, caller: UserId, offerId: Id): (r: Result<Store, Failure>)
    ensures r.Ok? <==> CanResolve(s, caller, offerId)
    ensures r.Err? ==> r.error == NotFound
    ensures r.Ok? ==>
      && r.value.listings == s.listings
      && r.value.trades == s.trades
      && r.value.offers.Keys == s.offers.Keys
      && r.value.offers[offerId] == s.offers[offerId].(status := Rejected)
      && (forall id :: id in s.offers && id != offerId ==> r.value.offers[id] == s.offers[id])
  {
    if !CanResolve(s, caller, offerId) then Err(NotFound)
    else Ok(s.(offers := s.offers[offerId := s.offers[offerId].(status := Rejected)]))
  }

  // ---------------------------------------------------------------------
  // Properties relating several handlers
  // ---------------------------------------------------------------------

  /** Every handler keeps foreign keys resolvable and never records an offer
      by a listing's own owner. */
  lemma HandlersPreserveWellFormed(s: Store, caller: UserId, freshId: Id, id: Id,
                                   lreq: ListingRequest, oreq: OfferRequest)
    requires WellFormed(s)
    ensures CreateListing(s, caller, freshId, lreq).Ok? ==> WellFormed(CreateListing(s, caller, freshId, lreq).value)
    ensures RemoveListing(s, caller, id).Ok? ==> WellFormed(RemoveListing(s, caller, id).value)
    ensures CreateOffer(s, caller, freshId, id, oreq).Ok? ==> WellFormed(CreateOffer(s, caller, freshId, id, oreq).value)
    ensures AcceptOffer(s, caller, id).Ok? ==> WellFormed(AcceptOffer(s, caller, id).value)
    ensures RejectOffer(s, caller, id).Ok? ==> WellFormed(RejectOffer(s, caller, id).value)
  {
    CreateListingKeepsWellFormed(s, caller, freshId, lreq);
    RemoveListingKeepsWellFormed(s, caller, id);
    CreateOfferKeepsWellFormed(s, caller, freshId, id, oreq);
    AcceptOfferKeepsWellFormed(s, caller, id);
    RejectOfferKeepsWellFormed(s, caller, id);
  }

  lemma CreateListingKeepsWellFormed(s: Store, caller: UserId, freshId: Id, lreq: ListingRequest)
    requires WellFormed(s)
    ensures CreateListing(s, caller, freshId, lreq).Ok? ==> WellFormed(CreateListing(s, caller, freshId, lreq).value)
  {
  }

  lemma RemoveListingKeepsWellFormed(s: Store, caller: UserId, id: Id)
    requires WellFormed(s)
    ensures RemoveListing(s, caller, id).Ok? ==> WellFormed(RemoveListing(s, caller, id).value)
  {
  }

  lemma CreateOfferKeepsWellFormed(s: Store, caller: UserId, freshId: Id, id: Id, oreq: OfferRequest)
    requires WellFormed(s)
    ensures CreateOffer(s, caller, freshId, id, oreq).Ok? ==> WellFormed(CreateOffer(s, caller, freshId, id, oreq).value)
  {
  }

  lemma AcceptOfferKeepsWellFormed(s: Store, caller: UserId, id: Id)
    requires WellFormed(s)
    ensures AcceptOffer(s, caller, id).Ok? ==> WellFormed(AcceptOffer(s, caller, id).value)
  {
  }

  lemma RejectOfferKeepsWellFormed(s: Store, caller: UserId, id: Id)
    requires WellFormed(s)
    ensures RejectOffer(s, caller, id).Ok? ==> WellFormed(RejectOffer(s, caller, id).value)
  {
  }

  /** Accepting is exclusive: afterwards no other offer on that listing is
      pending, so neither accepting nor rejecting any other offer on it can
      succeed, and no new offer can be made on the sold listing. */
  lemma AcceptIsExclusive(s: Store, caller: UserId, offerId: Id, other: Id, anyone: UserId,
                          freshId: Id, oreq: OfferRequest)
    requires AcceptOffer(s, caller, offerId).Ok?
    ensures var s' := AcceptOffer(s, caller, offerId).value;
            var lid := s.offers[offerId].listingId;
            && (forall id :: id in s'.offers && s'.offers[id].listingId == lid ==> s'.offers[id].status != Pending)
            && (other in s.offers && s.offers[other].listingId == lid ==>
                  AcceptOffer(s', anyone, other).Err? && RejectOffer(s', anyone, other).Err?)
            && CreateOffer(s', anyone, freshId, lid, oreq) == Err(NotFound)
  {
  }

  /** A removed listing takes no offers. */
  lemma RemovedListingTakesNoOffers(s: Store, owner: UserId, id: Id, bidder: UserId, freshId: Id, oreq: OfferRequest)
    requires RemoveListing(s, owner, id).Ok?
    ensures CreateOffer(RemoveListing(s, owner, id).value, bidder, freshId, id, oreq) == Err(NotFound)
  {
  }

  /** Acceptance leaves the accepted offer with no trade confirmation: starting
      from a store where no confirmation names the offer, none does after it
      is accepted. The `trade_confirmations` rows that the force-close route
      joins on are therefore never created for an accepted offer. */
  lemma AcceptCreatesNoConfirmation(s: Store, caller: UserId, offerId: Id)
    requires AcceptOffer(s, caller, offerId).Ok?
    requires forall t :: t in s.trades ==> s.trades[t].offerId != offerId
    ensures var s' := AcceptOffer(s, caller, offerId).value;
            s'.offers[offerId].status == Accepted && forall t :: t in s'.trades ==> s'.trades[t].offerId != offerId
  {
  }

  // ---------------------------------------------------------------------
  // getItemName
  // ---------------------------------------------------------------------

  /** An entry of the item definitions file; an empty name is falsy. */
  datatype ItemDef = ItemDef(id: int, name: string)

  /** `Array.prototype.find` on the item definitions: the first entry with
      the requested id. */
  function FindItem(defs: seq<ItemDef>, itemId: int): (r: Option<nat>)
    ensures r.Some? ==> r.value < |defs| && defs[r.value].id == itemId
    ensures r.Some? ==> forall j :: 0 <= j < r.value ==> defs[j].id != itemId
    ensures r.None? ==> forall j :: 0 <= j < |defs| ==> defs[j].id != itemId
    decreases |defs|
  {
    if |defs| == 0 then None
    else if defs[0].id == itemId then Some(0)
    else match FindItem(defs[1..], itemId)
      case Some(k) => Some(k + 1)
      case None => None
  }

  const UnknownItem: string := "Unknown Item"

  /** The display name used in notifications: the name of the first
      definition with that id, or `Unknown Item` when there is none or its
      name is empty. */
  function ItemName(defs: seq<ItemDef>, itemId: int): (r: string)
    ensures r != ""
    ensures (forall j :: 0 <= j < |defs| ==> defs[j].id != itemId) ==> r == UnknownItem
    ensures r != UnknownItem ==> exists j :: 0 <= j < |defs| && defs[j].id == itemId && defs[j].name == r
    ensures forall k :: 0 <= k < |defs| && defs[k].id == itemId && (forall j :: 0 <= j < k ==> defs[j].id != itemId) ==>
              r == if defs[k].name != "" then defs[k].name else UnknownItem
  {
    match FindItem(defs, itemId)
    case Some(k) => if defs[k].name != "" then defs[k].name else UnknownItem
    case None => UnknownItem
  }

  /** Definitions appended after the first one with an id never change its
      name; an id the first list lacks is named by the second. */
  lemma ItemNameAppend(a: seq<ItemDef>, b: seq<ItemDef>, itemId: int)
    ensures ItemName(a + b, itemId) == if FindItem(a, itemId).Some? then ItemName(a, itemId) else ItemName(b, itemId)
  {
    var ab := a + b;
    match FindItem(a, itemId)
    case Some(k) =>
      assert ab[k] == a[k];
      assert forall j :: 0 <= j < k ==> ab[j] == a[j];
    case None =>
      match FindItem(b, itemId)
      case Some(k) =>
        assert ab[|a| + k] == b[k];
        assert forall j :: 0 <= j < |a| + k ==> ab[j] == if j < |a| then a[j] else b[j - |a|];
      case None =>
        assert forall j :: 0 <= j < |ab| ==> ab[j] == if j < |a| then a[j] else b[j - |a|];
  }

  // ---------------------------------------------------------------------
  // GET /seller/:discordId statistics
  // ---------------------------------------------------------------------

  /** `Math.round(total_sales / total_listings * 100)`, or 0 with no listings,
      computed on exact rationals. */
  function SuccessRate(sales: nat, total: nat): (r: int)
    ensures total == 0 ==> r == 0
    ensures total > 0 ==> 2 * r * total - total <= 200 * sales < 2 * r * total + total
  {
    if total == 0 then 0
    else
      var n := 200 * sales + total;
      var d := 2 * total;
      var q := n / d;
      assert n == q * d + n % d;
      q
  }

  /** With no more sales than listings the rate is a percentage. */
  lemma SuccessRateIsPercentage(sales: nat, total: nat)
    requires sales <= total
    ensures 0 <= SuccessRate(sales, total) <= 100
  {
    if total > 0 {
      var r := SuccessRate(sales, total);
      assert 2 * r * total - total == (2 * r - 1) * total;
      assert 2 * r * total + total == (2 * r + 1) * total;
      if r > 100 {
        MulMonotone(201, 2 * r - 1, total);
        assert false;
      }
      if r < 0 {
        MulMonotone(2 * r + 1, -1, total);
        assert false;
      }
    }
  }

  lemma MulMonotone(a: int, b: int, c: nat)
    requires a <= b
    ensures a * c <= b * c
  {
  }

  datatype SellerStats = SellerStats(totalListings: nat, totalSales: nat, activeListings: nat, successRate: int)

  function ListingsOf(s: Store, seller: UserId): set<Id> {
    set id | id in s.listings && s.listings[id].owner == seller
  }

  function ListingsOfWith(s: Store, seller: UserId, st: ListingStatus): set<Id> {
    set id | id in s.listings && s.listings[id].owner == seller && s.listings[id].status == st
  }

  /** Two disjoint parts of a set together are no larger than the set. */
  lemma CardinalityOfDisjointParts<T>(a: set<T>, b: set<T>, all: set<T>)
    requires a !! b && a <= all && b <= all
    ensures |a| + |b| <= |all|
  {
    assert |a + b| == |a| + |b|;
    assert all == (a + b) + (all - (a + b));
    assert |all| == |a + b| + |all - (a + b)|;
  }

  /** The statistics block of a seller profile. */
  function Stats(s: Store, seller: UserId): (r: SellerStats)
    ensures r.totalListings == |ListingsOf(s, seller)|
    ensures r.totalSales == |ListingsOfWith(s, seller, Sold)|
    ensures r.activeListings == |ListingsOfWith(s, seller, Active)|
    ensures r.totalSales + r.activeListings <= r.totalListings
    ensures 0 <= r.successRate <= 100
    ensures r.successRate == SuccessRate(r.totalSales, r.totalListings)
  {
    var all := ListingsOf(s, seller);
    var sold := ListingsOfWith(s, seller, Sold);
    var active := ListingsOfWith(s, seller, Active);
    CardinalityOfDisjointParts(sold, active, all);
    SuccessRateIsPercentage(|sold|, |all|);
    SellerStats(|all|, |sold|, |active|, SuccessRate(|sold|, |all|))
  }
}
