/** The client's marketplace composable: how the local `listings` and
    `userListings` arrays follow create, update and delete requests, and
    the display helpers. Each request's outcome is a parameter. */
module ClientMarketplace {
  import opened Wrappers
  import opened Text
  import opened Json
  import Avatars

  /** A listing as the client holds it: the JSON object the server sent. */
  type Obj = map<string, Json>

  /** `l.id === listingId`. */
  predicate HasId(l: Obj, id: string) {
    "id" in l && l["id"] == JString(id)
  }

  /** The composable's state the list operations touch. */
  datatype ClientState = ClientState(listings: seq<Obj>, userListings: seq<Obj>, error: Option<string>)

  /** A failed request, with the string fields `error` and `message` of
      `err.response.data`, each missing unless the server sent it. */
  datatype Failure = Failure(error: Option<string>, message: Option<string>)

  /** The body of a failed request as the marketplace server writes it:
      `{ error: text }` and nothing else. */
  function ServerFailure(text: string): Failure {
    Failure(Some(text), None)
  }

  /** `field || fallback` for a string field that may be missing. */
  function OrFallback(field: Option<string>, fallback: string): (r: string)
    ensures field.Some? && field.value != "" ==> r == field.value
    ensures field.None? || field.value == "" ==> r == fallback
  {
    if field.Some? && field.value != "" then field.value else fallback
  }

  /** `err.response?.data?.error || fallback`, what every request but the
      update shows. */
  function ErrorText(f: Failure, fallback: string): (r: string)
    ensures f.error.Some? && f.error.value != "" ==> r == f.error.value
    ensures f.error.None? || f.error.value == "" ==> r == fallback
  {
    OrFallback(f.error, fallback)
  }

  /** `err.response?.data?.message || fallback`, what the update shows. */
  function MessageText(f: Failure, fallback: string): (r: string)
    ensures f.message.Some? && f.message.value != "" ==> r == f.message.value
    ensures f.message.None? || f.message.value == "" ==> r == fallback
  {
    OrFallback(f.message, fallback)
  }

  // ---------------------------------------------------------------------
  // createListing
  // ---------------------------------------------------------------------

  /** The new listing goes to the front of both arrays; a failure records
      the message and leaves both arrays alone. */
  function CreateListing(st: ClientState, response: Result<Obj, Failure>): (r: ClientState)
    ensures response.Ok? ==> r.listings == [response.value] + st.listings
    ensures response.Ok? ==> r.userListings == [response.value] + st.userListings
    ensures response.Ok? ==> r.error.None?
    ensures response.Err? ==> r.listings == st.listings && r.userListings == st.userListings
    ensures response.Err? ==> r.error == Some(ErrorText(response.error, "Failed to create listing"))
  {
    match response
    case Ok(n) => ClientState([n] + st.listings, [n] + st.userListings, None)
    case Err(f) => st.(error := Some(ErrorText(f, "Failed to create listing")))
  }

  /** The created listing is found at index 0 and the earlier ones follow
      unchanged. */
  lemma CreatedListingComesFirst(st: ClientState, n: Obj)
    ensures var r := CreateListing(st, Ok(n));
            r.listings[0] == n && r.userListings[0] == n
            && r.listings[1..] == st.listings && r.userListings[1..] == st.userListings
  {
  }

  // ---------------------------------------------------------------------
  // updateListing
  // ---------------------------------------------------------------------

  /** `findIndex(l => l.id === id)`, or -1. */
  function FindIndex(xs: seq<Obj>, id: string): (i: int)
    ensures -1 <= i < |xs|
    ensures i >= 0 ==> HasId(xs[i], id) && forall j :: 0 <= j < i ==> !HasId(xs[j], id)
    ensures i == -1 ==> forall j :: 0 <= j < |xs| ==> !HasId(xs[j], id)
    decreases |xs|
  {
    if |xs| == 0 then -1
    else if HasId(xs[0], id) then 0
    else
      var k := FindIndex(xs[1..], id);
      assert forall j :: 1 <= j < |xs| ==> xs[j] == xs[1..][j - 1];
      if k == -1 then -1 else k + 1
  }

  /** `{ ...old, ...data }`: the response's properties win. */
  function Spread(old_: Obj, data: Obj): (r: Obj)
    ensures r.Keys == old_.Keys + data.Keys
    ensures forall k :: k in data ==> r[k] == data[k]
    ensures forall k :: k in old_ && k !in data ==> r[k] == old_[k]
  {
    old_ + data
  }

  /** Merges `data` into the first element with that id, if any. */
  function MergeFirst(xs: seq<Obj>, id: string, data: Obj): (r: seq<Obj>)
    ensures |r| == |xs|
    ensures FindIndex(xs, id) == -1 ==> r == xs
    ensures FindIndex(xs, id) >= 0 ==> r[FindIndex(xs, id)] == Spread(xs[FindIndex(xs, id)], data)
    ensures forall j :: 0 <= j < |xs| && j != FindIndex(xs, id) ==> r[j] == xs[j]
  {
    var i := FindIndex(xs, id);
    if i == -1 then xs else xs[i := Spread(xs[i], data)]
  }

  /** A response that keeps the listing's id. */
  predicate KeepsId(data: Obj, id: string) {
    "id" !in data || data["id"] == JString(id)
  }

  /** When the response keeps the id, merging it twice is merging it once:
      the same element is found again and already carries the data. */
  lemma MergeFirstIdempotent(xs: seq<Obj>, id: string, data: Obj)
    requires KeepsId(data, id)
    ensures MergeFirst(MergeFirst(xs, id, data), id, data) == MergeFirst(xs, id, data)
  {
    var i := FindIndex(xs, id);
    var ys := MergeFirst(xs, id, data);
    if i >= 0 {
      assert HasId(ys[i], id);
      assert forall j :: 0 <= j < i ==> ys[j] == xs[j];
      assert FindIndex(ys, id) == i;
      assert Spread(ys[i], data) == ys[i];
    } else {
      assert ys == xs;
    }
  }

  /** A successful update merges into both arrays; `error` is not reset by
      this request, so an earlier message survives a success. A failure
      shows the body's `message` field, not its `error` field. */
  function UpdateListing(st: ClientState, id: string, response: Result<Obj, Failure>): (r: ClientState)
    ensures response.Ok? ==> r.listings == MergeFirst(st.listings, id, response.value)
    ensures response.Ok? ==> r.userListings == MergeFirst(st.userListings, id, response.value)
    ensures response.Ok? ==> r.error == st.error
    ensures response.Err? ==> r == st.(error := Some(MessageText(response.error, "Failed to update listing")))
  {
    match response
    case Ok(data) => ClientState(MergeFirst(st.listings, id, data), MergeFirst(st.userListings, id, data), st.error)
    case Err(f) => st.(error := Some(MessageText(f, "Failed to update listing")))
  }

  /** The server answers a failure with `{ error }` only, so a failed update
      always shows the fixed fallback, whatever the server said, while a
      failed create shows the server's text. */
  lemma FailedUpdateHidesServerError(st: ClientState, id: string, text: string)
    requires text != ""
    ensures UpdateListing(st, id, Err(ServerFailure(text))).error == Some("Failed to update listing")
    ensures CreateListing(st, Err(ServerFailure(text))).error == Some(text)
  {
  }

  // ---------------------------------------------------------------------
  // deleteListing
  // ---------------------------------------------------------------------

  /** `filter(l => l.id !== id)`. */
  function RemoveId(xs: seq<Obj>, id: string): (r: seq<Obj>)
    ensures |r| <= |xs|
    ensures forall j :: 0 <= j < |r| ==> !HasId(r[j], id) && r[j] in xs
    ensures forall j :: 0 <= j < |xs| && !HasId(xs[j], id) ==> xs[j] in r
    decreases |xs|
  {
    if |xs| == 0 then []
    else
      var rest := RemoveId(xs[1..], id);
      assert forall j :: 1 <= j < |xs| ==> xs[j] in xs[1..];
      if HasId(xs[0], id) then rest else [xs[0]] + rest
  }

  /** Filtering distributes over concatenation, so the survivors keep
      their relative order. */
  lemma {:induction false} RemoveIdAppend(xs: seq<Obj>, ys: seq<Obj>, id: string)
    ensures RemoveId(xs + ys, id) == RemoveId(xs, id) + RemoveId(ys, id)
    decreases |xs|
  {
    if |xs| == 0 {
      assert xs + ys == ys;
    } else {
      assert (xs + ys)[1..] == xs[1..] + ys;
      RemoveIdAppend(xs[1..], ys, id);
    }
  }

  /** A list with no listing of that id is left exactly as it was, so
      deleting twice is deleting once. */
  lemma {:induction false} RemoveIdIdempotent(xs: seq<Obj>, id: string)
    ensures RemoveId(RemoveId(xs, id), id) == RemoveId(xs, id)
    decreases |xs|
  {
    if |xs| > 0 {
      RemoveIdIdempotent(xs[1..], id);
      var rest := RemoveId(xs[1..], id);
      if !HasId(xs[0], id) {
        assert ([xs[0]] + rest)[1..] == rest;
      }
    }
  }

  /** A successful delete filters both arrays and clears the error. */
  function DeleteListing(st: ClientState, id: string, response: Result<(), Failure>): (r: ClientState)
    ensures response.Ok? ==> r == ClientState(RemoveId(st.listings, id), RemoveId(st.userListings, id), None)
    ensures response.Err? ==> r.listings == st.listings && r.userListings == st.userListings
    ensures response.Err? ==> r.error == Some(ErrorText(response.error, "Failed to delete listing"))
  {
    match response
    case Ok(_) => ClientState(RemoveId(st.listings, id), RemoveId(st.userListings, id), None)
    case Err(f) => st.(error := Some(ErrorText(f, "Failed to delete listing")))
  }

  /** Creating a listing and then deleting it by its id gives back the
      arrays as they were, provided no listing already had that id. */
  lemma DeleteUndoesCreate(st: ClientState, n: Obj, id: string)
    requires HasId(n, id)
    requires forall j :: 0 <= j < |st.listings| ==> !HasId(st.listings[j], id)
    requires forall j :: 0 <= j < |st.userListings| ==> !HasId(st.userListings[j], id)
    ensures var r := DeleteListing(CreateListing(st, Ok(n)), id, Ok(()));
            r.listings == st.listings && r.userListings == st.userListings
  {
    RemoveIdAppend([n], st.listings, id);
    RemoveIdAppend([n], st.userListings, id);
    NothingToRemove(st.listings, id);
    NothingToRemove(st.userListings, id);
  }

  lemma {:induction false} NothingToRemove(xs: seq<Obj>, id: string)
    requires forall j :: 0 <= j < |xs| ==> !HasId(xs[j], id)
    ensures RemoveId(xs, id) == xs
    decreases |xs|
  {
    if |xs| > 0 {
      NothingToRemove(xs[1..], id);
      assert [xs[0]] + xs[1..] == xs;
    }
  }

  // ---------------------------------------------------------------------
  // Display helpers
  // ---------------------------------------------------------------------

  /** `authStore.user?.id === listing.user_id`. */
  predicate IsOwnListing(authUserId: Option<int>, listingUserId: int) {
    authUserId == Some(listingUserId)
  }

  /** A signed-out visitor owns nothing; a signed-in user owns exactly the
      listings carrying their id. */
  lemma IsOwnListingMeansSameUser(authUserId: Option<int>, listingUserId: int)
    ensures authUserId.None? ==> !IsOwnListing(authUserId, listingUserId)
    ensures authUserId.Some? ==> (IsOwnListing(authUserId, listingUserId) <==> authUserId.value == listingUserId)
  {
  }

  /** `getDiscordAvatarUrl`: the same URL the server builds; for a
      well-formed id without an avatar it names default avatar id mod 5. */
  function DiscordAvatarUrl(discordId: string, avatar: Option<string>): (r: string)
    ensures avatar.Some? && avatar.value != "" ==>
              r == (Avatars.CdnBase + "/avatars/" + discordId + "/") + (avatar.value + ".png?size=128")
    ensures (avatar.None? || avatar.value == "") && 0 < |discordId| && AllDigits(discordId) ==>
              r == (Avatars.CdnBase + "/embed/avatars/") + ([DigitChar(DigitsValue(discordId) % 5)] + ".png")
  {
    if (avatar.None? || avatar.value == "") && 0 < |discordId| && AllDigits(discordId) then
      Avatars.DefaultAvatarOfValidId(discordId);
      Avatars.AvatarUrl(discordId, avatar)
    else Avatars.AvatarUrl(discordId, avatar)
  }

  /** A discriminator that marks a legacy `name#1234` tag: present,
      non-empty and not `"0"`. */
  predicate LegacyDiscriminator(discriminator: Option<string>) {
    discriminator.Some? && discriminator.value != "" && discriminator.value != "0"
  }

  /** `formatDiscordUsername`. */
  function FormatDiscordUsername(username: string, discriminator: Option<string>): (r: string)
    ensures LegacyDiscriminator(discriminator) ==> r == username + "#" + discriminator.value
    ensures !LegacyDiscriminator(discriminator) ==> r == "@" + username
  {
    if LegacyDiscriminator(discriminator) then username + "#" + discriminator.value else "@" + username
  }

  /** A legacy tag splits back at its last `#` into the name and a
      discriminator without `#`; the handle form drops the leading `@`. */
  lemma FormatDiscordUsernameReadsBack(username: string, discriminator: Option<string>)
    requires LegacyDiscriminator(discriminator) ==> !Contains(discriminator.value, '#')
    ensures var r := FormatDiscordUsername(username, discriminator);
            LegacyDiscriminator(discriminator) ==>
              LastIndexOf(r, '#') == |username| && r[..|username|] == username && r[|username| + 1..] == discriminator.value
    ensures !LegacyDiscriminator(discriminator) ==> FormatDiscordUsername(username, discriminator)[1..] == username
  {
    var r := FormatDiscordUsername(username, discriminator);
    if LegacyDiscriminator(discriminator) {
      var d := discriminator.value;
      assert r[|username|] == '#';
      assert forall k :: |username| < k < |r| ==> r[k] == d[k - |username| - 1];
      assert r[..|username|] == username;
      assert r[|username| + 1..] == d;
    }
  }
}
