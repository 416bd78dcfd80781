/** The marketplace tables of the SQLite database as immutable records in
    finite maps keyed by id, the column defaults the schema declares, and the
    process-wide database handle that `initializeDatabase`, `getDatabase` and
    `closeDatabase` manage. */
module Ledger {
  import opened Wrappers

  /** Listing, offer and trade ids are random hex tokens. */
  type Id = string
  /** Users are referenced by their integer primary key. */
  type UserId = int

  /** The `status` values the handlers write into `marketplace_listings`. */
  datatype ListingStatus = Active | Sold | Removed | Closed

  /** The `status` values of `marketplace_offers`. */
  datatype OfferStatus = Pending | Accepted | Rejected

  /** The `status` values of `trade_confirmations`. */
  datatype TradeStatus = TradePending | Completed | Cancelled

  /** A row of `marketplace_listings`; `acceptsItems` is the stored 0/1. */
  datatype Listing = Listing(
    owner: UserId,
    itemId: int,
    quantity: int,
    askingPrice: int,
    acceptsItems: int,
    notes: string,
    status: ListingStatus)

  /** A row of `marketplace_offer_items`, kept with its offer in insertion order. */
  datatype ItemLine = ItemLine(itemId: int, quantity: int)

  /** A row of `marketplace_offers` together with its item lines. */
  datatype Offer = Offer(
    listingId: Id,
    bidder: UserId,
    coinOffer: int,
    message: string,
    status: OfferStatus,
    items: seq<ItemLine>)

  /** A row of `trade_confirmations`: two confirmation slots and a status. */
  datatype Trade = Trade(
    offerId: Id,
    listingId: Id,
    sellerConfirmed: bool,
    buyerConfirmed: bool,
    status: TradeStatus)

  /** The marketplace part of the database. */
  datatype Store = Store(
    listings: map<Id, Listing>,
    offers: map<Id, Offer>,
    trades: map<Id, Trade>)

  /** Every foreign key of the schema points at an existing row. */
  predicate ReferencesResolve(s: Store) {
    && (forall o :: o in s.offers ==> s.offers[o].listingId in s.listings)
    && (forall t :: t in s.trades ==> s.trades[t].offerId in s.offers && s.trades[t].listingId in s.listings)
  }

  /** No offer was made by the owner of the listing it targets. */
  predicate NoSelfOffers(s: Store) {
    forall o :: o in s.offers && s.offers[o].listingId in s.listings ==>
      s.offers[o].bidder != s.listings[s.offers[o].listingId].owner
  }

  predicate WellFormed(s: Store) {
    ReferencesResolve(s) && NoSelfOffers(s)
  }

  /** The row an `INSERT INTO marketplace_listings` creates: `status` takes
      its default `'active'`, and `accepts_items` its default 0 when the
      statement leaves it out. */
  function InsertedListing(owner: UserId, itemId: int, quantity: int, askingPrice: int,
                           acceptsItems: Option<int>, notes: string): (l: Listing)
    ensures l.status == Active
    ensures acceptsItems.None? ==> l.acceptsItems == 0
    ensures acceptsItems.Some? ==> l.acceptsItems == acceptsItems.value
    ensures l.owner == owner && l.itemId == itemId && l.quantity == quantity
    ensures l.askingPrice == askingPrice && l.notes == notes
  {
    Listing(owner, itemId, quantity, askingPrice, acceptsItems.GetOr(0), notes, Active)
  }

  /** The row an `INSERT INTO marketplace_offers` creates: `status` defaults
      to `'pending'` and `coin_offer` to 0 when left out; the item lines are
      inserted afterwards. */
  function InsertedOffer(listingId: Id, bidder: UserId, coinOffer: Option<int>, message: string): (o: Offer)
    ensures o.status == Pending && o.items == []
    ensures coinOffer.None? ==> o.coinOffer == 0
    ensures coinOffer.Some? ==> o.coinOffer == coinOffer.value
    ensures o.listingId == listingId && o.bidder == bidder && o.message == message
  {
    Offer(listingId, bidder, coinOffer.GetOr(0), message, Pending, [])
  }

  /** The row an `INSERT INTO trade_confirmations` naming only the offer and
      listing creates: both slots unset and status `'pending'`. */
  function InsertedTrade(offerId: Id, listingId: Id): (t: Trade)
    ensures !t.sellerConfirmed && !t.buyerConfirmed && t.status == TradePending
    ensures t.offerId == offerId && t.listingId == listingId
  {
    Trade(offerId, listingId, false, false, TradePending)
  }

  // ---------------------------------------------------------------------
  // The module-level database handle.
  // ---------------------------------------------------------------------

  /** An open SQLite connection, told apart by the order in which it was opened. */
  datatype Handle = Handle(serial: nat)

  /** The module variable `db` and the number of connections opened so far. */
  datatype Connection = Connection(db: Option<Handle>, openCount: nat)

  /** The handle held, if any, is one of those already opened. */
  predicate ValidConnection(c: Connection) {
    c.db.Some? ==> c.db.value.serial < c.openCount
  }

  /** `initializeDatabase`: hands back the open handle when there is one;
      otherwise opens a new connection (and creates the tables) and keeps it. */
  function InitializeDatabase(c: Connection): (r: (Handle, Connection))
    requires ValidConnection(c)
    ensures ValidConnection(r.1)
    ensures r.1.db == Some(r.0)
    ensures c.db.Some? ==> r == (c.db.value, c)
    ensures c.db.None? ==> r.0.serial == c.openCount && r.1.openCount == c.openCount + 1
  {
    match c.db
    case Some(h) => (h, c)
    case None => (Handle(c.openCount), Connection(Some(Handle(c.openCount)), c.openCount + 1))
  }

  /** `getDatabase`: the open handle, initialising first when there is none. */
  function GetDatabase(c: Connection): (r: (Handle, Connection))
    requires ValidConnection(c)
    ensures ValidConnection(r.1) && r.1.db == Some(r.0)
    ensures c.db.Some? ==> r == (c.db.value, c)
    ensures c.db.None? ==> r.0.serial == c.openCount && r.1.openCount == c.openCount + 1
  {
    if c.db.None? then InitializeDatabase(c) else (c.db.value, c)
  }

  /** `closeDatabase`: closes the open handle, if any, and forgets it. */
  function CloseDatabase(c: Connection): (r: Connection)
    requires ValidConnection(c)
    ensures ValidConnection(r)
    ensures r.db.None? && r.openCount == c.openCount
  {
    c.(db := None)
  }

  /** Initialising twice opens one connection: the second call returns the
      handle of the first and changes nothing. */
  lemma InitializeIsIdempotent(c: Connection)
    requires ValidConnection(c)
    ensures var (h, c1) := InitializeDatabase(c);
            InitializeDatabase(c1) == (h, c1)
  {
  }

  /** After `closeDatabase` the next `getDatabase` opens a fresh connection,
      different from every handle handed out before. */
  lemma GetAfterCloseReopens(c: Connection, earlier: Handle)
    requires ValidConnection(c)
    requires earlier.serial < c.openCount
    ensures var (h, c1) := GetDatabase(CloseDatabase(c));
            h != earlier && c1.openCount == c.openCount + 1
  {
  }
}
