# Marketplace and news-feed core, modelled in Dafny

This project models the core of a game-community web application. Signed-in
players list items for sale on a marketplace, other players make offers of
coins and items, and sellers accept or reject them. The code also holds staff
routes that close listings, force-close trades, change roles and ban users,
and a plugin proxy, though the server as written never mounts them (see
below). Around that core sit:

- Discord login, with a user table kept by the passport strategy;
- Discord webhook notifications with a text sanitiser;
- the plugin proxy, which reads GitHub manifests;
- the browser-side composables, auth store and router guard;
- a separate news-feed generator that crawls archive pages, keeps a cache
  and publishes an RSS feed.

The database, the network, the clock and randomness are not modelled as
effects. The database is an immutable value (`Ledger.Store`). Every route
handler is a function from a store and a request to either a new store or
an error with its HTTP status. The network, the clock and random ids are
parameters. Each source file is one module:

| module | models |
|---|---|
| `Wrappers`, `Text`, `Json` | options and results; the JavaScript string helpers used (trim, `parseInt`, decimal rendering, prefixes); JSON values and JavaScript truthiness |
| `Ledger` | the tables of `apps/server/config/database.ts`: their record shapes and column defaults, and the single connection handle |
| `Marketplace` | the listing and offer handlers of `apps/server/routes/marketplaceRoute.ts`, and the seller profile statistics |
| `Admin` | the staff gate, the moderation handlers with the action log they append to, the paging of the list routes and the dashboard's flagged listings, of `apps/server/routes/admin.ts` |
| `Users` | `apps/server/models/User.ts`: find-or-create, profile refresh, the ban check |
| `Passport` | the Discord strategy and the session (de)serialisation of `apps/server/config/passport.ts` |
| `ServerConfig` | the CORS origin rule and the session cookie settings of `apps/server/index.ts` |
| `Notifications` | `apps/server/services/discordNotifications.ts`: the sanitiser, the embed fields and the send gate |
| `Plugins` | `apps/server/routes/plugins.ts`: the cache keys, the latest-release manifest with its stale-serving rules, the manifest entry lookup and the asset search by digest |
| `Avatars`, `ClientMarketplace`, `AuthStore`, `NavGuard` | the client composable `useMarketplace.ts`, the auth store and the router guard |
| `NewsTypes`, `NewsCache`, `NewsCrawler`, `RssFeed` | `apps/rss-generator/src`: the article record, the cache manager, the crawler and the feed generator |

The code carries parts of a two-sided trade confirmation that no handler
reaches. The `trade_confirmations` table (apps/server/config/database.ts:110-124)
is created, and the client calls `/trades/:id/confirm` and `/trades/:id/cancel`
(apps/client/src/composables/useMarketplace.ts:291-317), but the marketplace
router defines neither route and never writes the table. Accepting an offer
marks the listing `sold` right away and creates no confirmation
(`Marketplace.AcceptCreatesNoConfirmation`); only the admin force-close route
reads the table. The `users` table as created lacks the `role` and ban
columns that the admin routes and the user model read, and no
`admin_actions` or `user_warnings` table is created at all. The model
assumes these columns and tables exist, with no role set on a new row.

The server entry point mounts only two routers: `/auth` and
`/api/marketplace` (apps/server/index.ts:103-104). The admin router
(apps/server/routes/admin.ts) and the plugin router
(apps/server/routes/plugins.ts) are defined but never mounted, so in the
program as written no request reaches them. `Admin` and `Plugins` model
their handlers as if they were mounted. Each handler is modelled on its own
and none is linked to the server's URL space.

## Model

| member | source | states |
|---|---|---|
| Ledger.InsertedListing | apps/server/config/database.ts:66-79 | the schema's column defaults for a listing row, stated as a definition: it starts `active`, `accepts_items` defaults to 0 and the given columns are stored as given; `Marketplace.CreateListing` is the contract about what the route adds |
| Ledger.InsertedOffer | apps/server/config/database.ts:83-95 | the schema's column defaults for an offer row, stated as a definition: it starts `pending` with no item lines, and `coin_offer` defaults to 0; `Marketplace.CreateOffer` is the contract about what the route adds |
| Ledger.InsertedTrade | apps/server/config/database.ts:110-125 | the schema's column defaults for a trade confirmation row, stated as a definition: both confirmation slots unset and status `pending` |
| Ledger.InitializeDatabase | apps/server/config/database.ts:12-36 | an open handle is returned as it is; otherwise exactly one new connection is opened and kept |
| Ledger.GetDatabase | apps/server/config/database.ts:131-136 | an open handle is returned with nothing changed; with none, a new connection is opened with the next serial and kept |
| Ledger.CloseDatabase | apps/server/config/database.ts:138-143 | afterwards no handle is kept and no connection is opened |
| Ledger.InitializeIsIdempotent | apps/server/config/database.ts:12-15 | a second initialisation returns the first handle and opens nothing |
| Ledger.GetAfterCloseReopens | apps/server/config/database.ts:131-143 | after a close, the next get opens a new connection that differs from every earlier handle |
| Marketplace.CreateListing | apps/server/routes/marketplaceRoute.ts:43-59 | a falsy item id, quantity or price is a 400 that changes nothing, with no other bound checked; otherwise exactly one new `active` listing is added for the caller, with `accepts_items` as 1/0 and `notes` defaulting to empty; a clashing id is a 500 |
| Marketplace.RemoveListing | apps/server/routes/marketplaceRoute.ts:108-132 | succeeds exactly when the listing exists, is the caller's and is `active`, and then only that listing's status changes, to `removed`; otherwise 404 |
| Marketplace.KeptLines | apps/server/routes/marketplaceRoute.ts:292-301 | only item entries with a truthy id and a positive quantity become lines, and every such entry does |
| Marketplace.KeptLinesAppend | apps/server/routes/marketplaceRoute.ts:293-300 | the kept lines of a concatenation are the concatenation of the kept lines, so input order is preserved |
| Marketplace.KeptLinesAllValid | apps/server/routes/marketplaceRoute.ts:293-300 | when every entry qualifies, line i is entry i |
| Marketplace.CreateOffer | apps/server/routes/marketplaceRoute.ts:259-301 | a listing that is missing or not `active` gives 404, and the owner bidding gives 400, both with no row written; otherwise one `pending` offer is added with `coin_offer` defaulting to 0, `message` to empty, and the kept item lines |
| Marketplace.AcceptOffer | apps/server/routes/marketplaceRoute.ts:369-407 | succeeds exactly when the offer is `pending` and the caller owns its listing (else 404); then the offer is `accepted`, the listing `sold`, every other pending offer on that listing `rejected`, and nothing else changes |
| Marketplace.RejectOffer | apps/server/routes/marketplaceRoute.ts:458-482 | same authorisation as accepting; only that offer becomes `rejected` and the listing is unchanged |
| Marketplace.HandlersPreserveWellFormed | apps/server/routes/marketplaceRoute.ts:43-482 | every handler keeps foreign keys resolvable and never records an offer by the listing's owner |
| Marketplace.AcceptIsExclusive | apps/server/routes/marketplaceRoute.ts:402-407 | after an acceptance no offer on that listing is pending, no other offer on it can be accepted or rejected, and the sold listing takes no new offers |
| Marketplace.RemovedListingTakesNoOffers | apps/server/routes/marketplaceRoute.ts:266-275 | an offer on a removed listing is a 404 |
| Marketplace.AcceptCreatesNoConfirmation | apps/server/routes/marketplaceRoute.ts:388-407 | accepting inserts no trade confirmation for the accepted offer |
| Marketplace.FindItem | apps/server/routes/marketplaceRoute.ts:11-12 | the index of the first item definition with that id, or none when no entry has it |
| Marketplace.ItemName | apps/server/routes/marketplaceRoute.ts:11-14 | the name of the first definition with that id when it is truthy, `Unknown Item` when that name is empty or no definition has the id; never empty |
| Marketplace.ItemNameAppend | apps/server/routes/marketplaceRoute.ts:11-14 | definitions after the first one with an id never change its name, and an id the first list lacks is named by the second |
| Marketplace.SuccessRate | apps/server/routes/marketplaceRoute.ts:657 | 0 with no listings; otherwise the integer nearest to 100·sales/total (halves rounded up) |
| Marketplace.SuccessRateIsPercentage | apps/server/routes/marketplaceRoute.ts:657 | with no more sales than listings the rate lies in 0..100 |
| Marketplace.Stats | apps/server/routes/marketplaceRoute.ts:619-657 | the counts of all, sold and active listings of the seller, sold plus active never exceeding all, and a success rate that is sales over listings as a percentage rounded half up (0 with no listings), always in 0..100 |
| Admin.RequireAdmin | apps/server/routes/admin.ts:9-25 | 401 exactly when there is no (truthy) session user id; every other refusal is 403 |
| Admin.RequireAdminAdmitsExactlyStaff | apps/server/routes/admin.ts:18-25 | a signed-in request proceeds exactly when its user row exists with role `admin` or `moderator`, and is otherwise refused with 403 |
| Admin.PagingOf | apps/server/routes/admin.ts:145-147 | a present `page` or `limit` is its `parseInt` value unless that is NaN or 0, when it falls back to 1 or 20, as does an absent one; neither is ever 0, and the offset is (page-1)·limit |
| Admin.PagingReadsBackNumbers | apps/server/routes/admin.ts:145-147 | a nonzero page and page size written in decimal read back as themselves, with offset (page-1)·limit; `0` for both falls back to page 1 of 20 rows |
| Admin.TotalPages | apps/server/routes/admin.ts:181 | the ceiling of count/limit, stated by the bounds that define it for either sign of the limit |
| Admin.PagesCoverRows | apps/server/routes/admin.ts:145-181 | with a positive limit, row k lies on page k/limit+1, which is within the reported page count |
| Admin.UpdateRole | apps/server/routes/admin.ts:256-268 | succeeds exactly when the role is `user`, `moderator` or `admin` (else 400), and then sets that role on the target rows only |
| Admin.Ban | apps/server/routes/admin.ts:284-300 | the target rows are banned with the reason and an expiry of now plus the duration in hours, or none (permanent) when the duration is falsy; other rows are unchanged |
| Admin.Unban | apps/server/routes/admin.ts:316-326 | the target rows lose the ban flag, expiry and reason; other rows are unchanged |
| Admin.UnbanUndoesBan | apps/server/routes/admin.ts:291-326 | unbanning after a ban gives the same table as unbanning without it |
| Admin.CloseListing | apps/server/routes/admin.ts:417-428 | any existing listing, whatever its owner or status, becomes `closed` and nothing else changes; a missing id changes nothing |
| Admin.ForceCloseTrade | apps/server/routes/admin.ts:483-523 | 404 unless the trade and its listing and offer exist; otherwise the trade becomes `cancelled`, its listing `active`, its offer `pending`, whatever they were, and nothing else changes |
| Admin.CloseListingPreservesWellFormed | apps/server/routes/admin.ts:424-428 | closing keeps every reference resolvable |
| Admin.ForceClosePreservesWellFormed | apps/server/routes/admin.ts:504-523 | force-closing keeps every reference resolvable |
| Admin.ClosedListingTakesNoOffers | apps/server/routes/admin.ts:424-428 | an offer on a closed listing is a 404 |
| Admin.ForceCloseDoesNotReviveRejected | apps/server/routes/admin.ts:511-523 | after an acceptance and a force-close the listing is active and the accepted offer pending again, but the offers the acceptance rejected stay rejected |
| Admin.Moderate | apps/server/routes/admin.ts:256-534 | each moderation route (role change, ban, unban, warning, listing close, trade force-close) is refused exactly for an unknown role (400), a trade that does not join (404) or a warning id already taken (500), writing nothing; otherwise it makes its handler's change, and nothing else, and appends one `admin_actions` row naming the admin, the route's action type and its target |
| Admin.LogNamesChangedUsers | apps/server/routes/admin.ts:256-365 | a moderation keeps the number of user rows, and any user row it changes is the target named by the log row it appended |
| Admin.Replay | apps/server/routes/admin.ts:256-534 | a run of moderation requests by one admin only appends to the log, one row per request carried out and each naming that admin, and carries out at most as many requests as it is given |
| Admin.Flagged | apps/server/routes/admin.ts:104-113 | the dashboard's flag rule, stated as a definition: the flagged listings are exactly the existing listings with more than three rejected offers; `Admin.ResolvingKeepsFlags` and `Admin.FourthRejectionFlags` state how the set changes |
| Admin.ResolvingKeepsFlags | apps/server/routes/admin.ts:104-113 | accepting or rejecting an offer never removes a listing from the flagged set |
| Admin.FourthRejectionFlags | apps/server/routes/admin.ts:104-113 | rejecting a fourth offer on a listing puts it in the flagged set (more than three rejected offers) |
| Users.ValidateEmail | apps/server/models/User.ts:12-15 | an accepted address has at most 255 characters and contains `@` |
| Users.ValidateEmailMatchesPattern | apps/server/models/User.ts:12-15 | the check accepts exactly the strings of the `x@y.z` pattern (runs without white space or `@`) that have at most 255 characters |
| Users.ValidEmailMatches | apps/server/models/User.ts:13-14 | every accepted address splits into a local part, a domain part and a suffix around an `@` and the last `.` |
| Users.MatchIsValidEmail | apps/server/models/User.ts:13-14 | every string of the pattern's shape within 255 characters is accepted |
| Users.DiscordIdRange | apps/server/models/User.ts:4-6 | the decimal rendering of n is a valid Discord id exactly when 10^16 <= n < 10^19 (17 to 19 digits) |
| Users.FindById | apps/server/models/User.ts:46-53 | the row with that id, or none when no row has it |
| Users.FindByDiscordId | apps/server/models/User.ts:33-44 | a malformed id is refused before any lookup; otherwise the row with that Discord id, or none when no row has it |
| Users.FindByDiscord | apps/server/models/User.ts:39-43 | the row with that Discord id, or none when no row has it |
| Users.Create | apps/server/models/User.ts:55-79 | an invalid id, then an invalid username, then a present invalid email is refused in that order; otherwise one row is appended with the next id and the table stays valid |
| Users.CreatedUserIsFound | apps/server/models/User.ts:74-78 | the created user is what both lookups return afterwards |
| Users.FirstMatchIsUnique | apps/server/models/User.ts:39-51 | in a valid table each row is the one both lookups find by its keys |
| Users.Assignments | apps/server/models/User.ts:84-122 | at most eight assignments, and none exactly when username and discriminator are falsy and every other property is undefined |
| Users.UpdateStatement | apps/server/models/User.ts:120-130 | no statement when nothing is included; otherwise one `column = ?` per assignment in order, then `updated_at`, with the id as the last parameter |
| Users.ApplyPatch | apps/server/models/User.ts:87-118 | a patch never changes the id or the Discord id |
| Users.AssignmentsImplementPatch | apps/server/models/User.ts:87-130 | running the built assignments on a row gives exactly the property-by-property meaning of the patch: username and discriminator only when truthy, the others when defined, `is_banned` as 1/0 |
| Users.UpdateWhereId | apps/server/models/User.ts:127-130 | exactly the rows with that id are rewritten |
| Users.Update | apps/server/models/User.ts:81-133 | with nothing to set the table is unchanged; otherwise exactly the rows with that id get the patch, the table stays valid, and the result is what a lookup by id then finds |
| Users.UpdateReadsPatchedRow | apps/server/models/User.ts:120-133 | a row comes back exactly when one has that id, and it is that row patched |
| Passport.ConfigurePassport | apps/server/config/passport.ts:8-17 | once configured nothing changes; otherwise the strategy is registered exactly when both credentials are truthy and not placeholders and the redirect URI is truthy, and it is built from that environment |
| Passport.ConfigureIsIdempotent | apps/server/config/passport.ts:5-9 | a registered strategy always came from usable credentials, and after a successful registration every later call, with any environment, is a no-op |
| Passport.RegisteredImpliesDiscordConfigured | apps/server/config/passport.ts:11-17 | registration implies `isDiscordConfigured`, but not conversely: without a redirect URI nothing is registered although `isDiscordConfigured` holds |
| Passport.Upsert | apps/server/config/passport.ts:26-46 | a malformed Discord id fails the lookup; a returning user is patched with the profile in place, leaving every other row, the row count and the id counter as they were; a new user is created from the profile, or the creation failure is reported; a successful upsert keeps the table well formed |
| Passport.VerifyLogin | apps/server/config/passport.ts:24-58 | the verify callback keeps the user table well formed |
| Passport.UpsertKeepsRole | apps/server/config/passport.ts:29-46 | the profile update and the creation never touch the role: a returning user keeps theirs and a new user has none |
| Passport.UpdatedUserIsPatched | apps/server/config/passport.ts:31-36 | updating a stored user reads back that user with exactly the patch applied |
| Passport.PromotionGrantsAdmin | apps/server/config/passport.ts:51-53 | the promotion update gives the admin role |
| Passport.LoginRoles | apps/server/config/passport.ts:48-55 | after a login the configured administrator holds the admin role, and every other user keeps the role they had before |
| Passport.LoginUpsertsOneUser | apps/server/config/passport.ts:27-46 | a login adds a user exactly when no user has the profile's Discord id, and never more than one |
| Passport.SessionRoundTrip | apps/server/config/passport.ts:76-87 | a stored user comes back unchanged from the primary key kept in the session |
| Passport.SerializeUser | apps/server/config/passport.ts:76-78 | the key kept in the session finds the same user again in every valid table that holds that user |
| ServerConfig.CorsAllows | apps/server/index.ts:50-72 | a request without an origin is admitted; any other origin is admitted exactly when it is on the four-entry allow-list or is one of the strings the five origin patterns denote |
| ServerConfig.OriginPatternsMeanSpec | apps/server/index.ts:63-67 | the position-based reading of the five anchored patterns admits exactly the LAN hosts `10.0.0.N`, `192.168.A.B` and `172.16.A.B` on port 5173 and `localhost` or `127.0.0.1` on any numeric port |
| ServerConfig.NumberBetweenIff | apps/server/index.ts:63 | an origin matches `^p\d+s$` exactly when it is the prefix, a digit run and the suffix |
| ServerConfig.PairBetweenIff | apps/server/index.ts:64-65 | an origin matches `^p\d+\.\d+s$` exactly when it is the prefix, two digit runs around a dot, and the suffix |
| ServerConfig.Session | apps/server/index.ts:81-96 | start-up fails exactly in production without a truthy secret; otherwise the secret is the configured one or the development fallback, and the cookie is http-only, lives a day, and is secure and strict exactly in production |
| ServerConfig.ProductionSessionIsHardened | apps/server/index.ts:82-94 | a production server always runs on its configured secret with a secure, strict cookie |
| Notifications.MarketplaceUrl | apps/server/services/discordNotifications.ts:38-49 | the link is the frontend URL (default `http://localhost:5173`) plus `/marketplace`, bare when the listing id is falsy |
| Notifications.MarketplaceUrlRoundTrip | apps/server/services/discordNotifications.ts:46-49 | reading the `?listing=` parameter back gives exactly the listing id the link was built for, and nothing for a bare link |
| Notifications.FormatQuantity | apps/server/services/discordNotifications.ts:59-61 | -1 is shown as the infinity sign and every other quantity as its decimal form |
| Notifications.FormatQuantityReadsBack | apps/server/services/discordNotifications.ts:59-61 | a formatted finite quantity parses back to itself, and two quantities with the same text are equal |
| Notifications.EscapeMarkdown | apps/server/services/discordNotifications.ts:68 | the escaped text is a run of backslash-markdown pairs and non-markdown characters; text without markdown is unchanged; no `@` or `<` is introduced |
| Notifications.UnescapeEscape | apps/server/services/discordNotifications.ts:68 | escaping loses nothing: removing the inserted backslashes gives the input back |
| Notifications.WellEscapedIsEscaped | apps/server/services/discordNotifications.ts:68 | every well-escaped text is the escaping of some text, so the pass's outputs are exactly the well-escaped texts |
| Notifications.BreakMassMentions | apps/server/services/discordNotifications.ts:70 | the pass keeps the first character and leaves text without `@` unchanged |
| Notifications.BreakWordMentions | apps/server/services/discordNotifications.ts:71 | afterwards no `@` is followed by a word character, and text without `@` is unchanged |
| Notifications.MassMentionPassIsRedundant | apps/server/services/discordNotifications.ts:70-71 | running the `@everyone`/`@here` pass before the word-mention pass changes nothing in the output of the latter |
| Notifications.ReplaceTags | apps/server/services/discordNotifications.ts:73-77 | replacing tags with a placeholder never creates a bare mention, keeps the empty text empty, opens with the input's first character or the placeholder's, and leaves text without `<` unchanged |
| Notifications.ReplaceTagsLeavesNoTag | apps/server/services/discordNotifications.ts:73-77 | after a pass no tag of its own kind is left, and no tag of a kind the placeholder cannot extend is created where there was none |
| Notifications.ReplaceTagsKeepsEscapes | apps/server/services/discordNotifications.ts:68-77 | a tag pass with a markdown-free placeholder keeps every markdown character escaped |
| Notifications.BreakWordMentionsLeavesNoTag | apps/server/services/discordNotifications.ts:71 | the word-mention pass creates no channel, role or user tag |
| Notifications.BreakWordMentionsKeepsEscapes | apps/server/services/discordNotifications.ts:68-71 | the word-mention pass keeps every markdown character escaped |
| Notifications.TagLifts | apps/server/services/discordNotifications.ts:73-77 | a tag is recognised from its own characters alone: a text that agrees with a tagged text over the tag's length opens with a tag too |
| Notifications.TagFreePrefix | apps/server/services/discordNotifications.ts:73-79 | cutting a tag-free text leaves it tag-free |
| Notifications.WellEscapedPrefix | apps/server/services/discordNotifications.ts:68-79 | a cut of escaped text is escaped, or is escaped but for one lone backslash at its end |
| Notifications.MentionPasses | apps/server/services/discordNotifications.ts:70-71 | the two mention passes leave no `@` followed by a word character, change no text without `@`, add no `<`, and keep escaped text escaped and tag-free text tag-free |
| Notifications.TagPasses | apps/server/services/discordNotifications.ts:73-77 | after the channel, role and user tag passes no tag of any of the three kinds is left; they keep the absence of bare mentions, keep escaped text escaped, and leave text without `<` unchanged |
| Notifications.Sanitize | apps/server/services/discordNotifications.ts:63-80 | the result has at most 1000 characters, no `@` followed by a word character and no channel, role or user tag; every markdown character in it is escaped, except that the 1000-character cut may leave one lone backslash at the end; empty text stays empty; plain text of at most 1000 characters is returned unchanged |
| Notifications.CutToLimit | apps/server/services/discordNotifications.ts:79 | the cut is the first 1000 characters, or the whole text when shorter, and keeps the absence of bare mentions and tags; escaped text stays escaped but for a possible lone backslash at the end |
| Notifications.TagBecomes | apps/server/services/discordNotifications.ts:63-80 | a text that the escape and mention passes leave alone, and that the tag passes turn into a short placeholder, sanitises to that placeholder in either pass order |
| Notifications.ChannelTagIsReplaced | apps/server/services/discordNotifications.ts:73-74 | `<#digits>` sanitises to `[channel]`, in either pass order |
| Notifications.RoleTagIsReplaced | apps/server/services/discordNotifications.ts:75-76 | `<@&digits>` sanitises to `[role]`, in either pass order |
| Notifications.NicknameTagIsReplaced | apps/server/services/discordNotifications.ts:77 | `<@!digits>` sanitises to `[user]`, in either pass order |
| Notifications.InsertBeforeLast | apps/server/services/discordNotifications.ts:197 | inserting before the last field adds the new field second to last and keeps all other fields in order |
| Notifications.InsertBeforeLastIsSplice | apps/server/services/discordNotifications.ts:197 | that insertion is the general `splice(start, 0, x)` with start -1 |
| Notifications.ListingFields | apps/server/services/discordNotifications.ts:159-202 | after the notes are spliced in, the fields are the four listing facts, then the notes when they are truthy, then the link |
| Notifications.OfferReceivedFields | apps/server/services/discordNotifications.ts:373-387 | the two splices leave the coin offer, when non-zero, ahead of the message, when truthy, and both ahead of the link |
| Notifications.OfferResolvedFields | apps/server/services/discordNotifications.ts:409-437 | the accepted and declined embeds list the item, the coin offer when non-zero, then the link |
| Notifications.LinkFieldIsLast | apps/server/services/discordNotifications.ts:196-202 | in every one of the six embeds the link field is last and no other field is a link |
| Notifications.Deliveries | apps/server/services/discordNotifications.ts:83-141 | a bot token means a direct message first, followed by a content-less webhook post exactly when that message fails and a webhook is set; without a token the one request is a webhook post carrying the mention line; nothing is sent when neither is set |
| Notifications.DeliveriesReachUser | apps/server/services/discordNotifications.ts:83-141 | a configured service reaches the user unless the direct message fails with no webhook set, and a webhook post without the mention line is only ever the second request, after a failed direct message |
| Notifications.MentionLine | apps/server/services/discordNotifications.ts:208-492 | every webhook content line (built at lines 208, 276, 327, 392, 442 and 492) starts by pinging the notified user; the offer-received line, through the buyer mention of line 340, ends with the buyer's mention when the buyer has a Discord id, else with the buyer's name, and then `!` |
| Notifications.Notify | apps/server/services/discordNotifications.ts:144-211 | an unconfigured service does nothing at all; a configured one builds the event's embed and sends exactly the requests of the delivery rule for the notified user and the event's mention line |
| Notifications.NotifyReachesUser | apps/server/services/discordNotifications.ts:83-211 | a notification reaches the user exactly when the service is configured and the direct message, if tried, succeeds or has a webhook to fall back on |
| Notifications.UserTagSurvivesAsWritten | apps/server/services/discordNotifications.ts:71-77 | as written, `<@1>` comes out as `<@`, a zero-width space and `1>`, never `[user]`: the word-mention pass breaks the tag before the user-tag pass runs |
| Notifications.SanitizeTagsFirst | apps/server/services/discordNotifications.ts:63-80 | with the tag passes first, the result still has at most 1000 characters, no bare mention and no tag, and is escaped but for a possible lone backslash at the cut; it keeps empty text empty and returns short plain text unchanged |
| Notifications.UserTagIsReplaced | apps/server/services/discordNotifications.ts:76-77 | with the tag passes first, every `<@digits>` becomes `[user]` |
| Avatars.JsRemainder | apps/server/services/discordNotifications.ts:53 | JavaScript `%`: the remainder lies strictly between -b and b and takes the sign of the dividend |
| Avatars.DefaultAvatarIndex | apps/server/services/discordNotifications.ts:53 | `NaN` when the id has no leading number, else the rendered truncating remainder of that number by 5 |
| Avatars.AvatarUrl | apps/server/services/discordNotifications.ts:51-57 | with no truthy avatar hash, a default avatar under `/embed/avatars/` named by the id; otherwise the user's avatar under `/avatars/<id>/` at size 128 |
| Avatars.DefaultAndOwnAvatarsDiffer | apps/server/services/discordNotifications.ts:51-57 | a default-avatar URL never equals an own-avatar URL |
| Avatars.DefaultAvatarOfValidId | apps/server/services/discordNotifications.ts:52-54 | for an all-digit id the default avatar is the single digit (id mod 5) |
| Avatars.LeadingDigitsParse | apps/server/services/discordNotifications.ts:53 | `parseInt` of a non-empty digit string is its decimal value |
| ClientMarketplace.ErrorText | apps/client/src/composables/useMarketplace.ts:151 | the body's `error` field when it is truthy, else the fixed fallback |
| ClientMarketplace.MessageText | apps/client/src/composables/useMarketplace.ts:185 | the body's `message` field when it is truthy, else the fixed fallback |
| ClientMarketplace.CreateListing | apps/client/src/composables/useMarketplace.ts:142-153 | on success the new listing goes to the front of both arrays and the error is cleared; on failure both arrays are unchanged and the error is recorded |
| ClientMarketplace.CreatedListingComesFirst | apps/client/src/composables/useMarketplace.ts:147-148 | after a creation the new listing is at index 0 of both arrays and the earlier ones follow, shifted by one |
| ClientMarketplace.FindIndex | apps/client/src/composables/useMarketplace.ts:172 | the index of the first element with that id, or -1 when none has it |
| ClientMarketplace.Spread | apps/client/src/composables/useMarketplace.ts:174 | the merged object has the keys of both, and the response's value wins on every shared key |
| ClientMarketplace.MergeFirst | apps/client/src/composables/useMarketplace.ts:172-181 | only the first element with that id is merged with the response; an array without the id is unchanged |
| ClientMarketplace.MergeFirstIdempotent | apps/client/src/composables/useMarketplace.ts:172-181 | when the response keeps the id, merging it twice is merging it once |
| ClientMarketplace.UpdateListing | apps/client/src/composables/useMarketplace.ts:167-186 | on success both arrays are merged and the error is left as it was; on failure only the error changes, to the body's `message` field or the fallback |
| ClientMarketplace.FailedUpdateHidesServerError | apps/client/src/composables/useMarketplace.ts:151-185 | against a server that answers `{ error }`, a failed update always shows "Failed to update listing", while a failed create shows the server's text |
| ClientMarketplace.RemoveId | apps/client/src/composables/useMarketplace.ts:200-201 | the survivors carry no such id and come from the input, and every element without the id survives |
| ClientMarketplace.RemoveIdAppend | apps/client/src/composables/useMarketplace.ts:200-201 | filtering distributes over concatenation, so the survivors keep their order |
| ClientMarketplace.RemoveIdIdempotent | apps/client/src/composables/useMarketplace.ts:200-201 | filtering twice is filtering once |
| ClientMarketplace.DeleteListing | apps/client/src/composables/useMarketplace.ts:194-205 | on success both arrays are filtered and the error cleared; on failure the arrays are unchanged and the error recorded |
| ClientMarketplace.DeleteUndoesCreate | apps/client/src/composables/useMarketplace.ts:147-201 | creating a listing with a new id and then deleting it gives back both arrays |
| ClientMarketplace.NothingToRemove | apps/client/src/composables/useMarketplace.ts:200-201 | an array without the id is returned unchanged |
| ClientMarketplace.IsOwnListingMeansSameUser | apps/client/src/composables/useMarketplace.ts:407-409 | a signed-out visitor owns nothing; a signed-in user owns exactly the listings with their id |
| ClientMarketplace.DiscordAvatarUrl | apps/client/src/composables/useMarketplace.ts:419-426 | the same URLs the server builds, and for an all-digit id without an avatar the default numbered by id mod 5 |
| ClientMarketplace.FormatDiscordUsername | apps/client/src/composables/useMarketplace.ts:429-434 | `name#disc` when the discriminator is non-empty and not `0`, else `@name` |
| ClientMarketplace.FormatDiscordUsernameReadsBack | apps/client/src/composables/useMarketplace.ts:429-434 | a `name#disc` tag splits back at its last `#` into the name and the discriminator; the handle form minus its `@` is the name |
| AuthStore.AvatarUrl | apps/client/src/stores/auth.ts:21-25 | none exactly when there is no user or no truthy avatar; otherwise a `.png` URL under the CDN's `/avatars/` |
| AuthStore.AvatarUrlMatchesMarketplace | apps/client/src/stores/auth.ts:21-25 | the store's avatar plus `?size=128` is the marketplace's URL for the same user; where the store has none the marketplace shows a default avatar |
| AuthStore.ClearAuth | apps/client/src/stores/auth.ts:33-35 | afterwards nobody is signed in and there is no avatar |
| AuthStore.CheckAuthStatus | apps/client/src/stores/auth.ts:37-51 | returns true exactly when the server answered, storing its user; a 401 clears the user and any other failure changes nothing |
| AuthStore.FetchUser | apps/client/src/stores/auth.ts:53-67 | loading ends false; an answer stores its user and any failure signs the user out |
| AuthStore.Logout | apps/client/src/stores/auth.ts:75-83 | the user is signed out whether or not the request succeeded |
| AuthStore.CheckAndFetchAgree | apps/client/src/stores/auth.ts:37-67 | both requests leave the same user, except on a non-401 failure, where only `fetchUser` signs the user out |
| AuthStore.StartupSignsInOnlyOnAnswer | apps/client/src/stores/auth.ts:92-94 | after the start-up check the user is signed in exactly when the server answered with a user |
| NavGuard.Guard | apps/client/src/router/index.ts:42-58 | a guest-only route visited signed in goes to `/`; otherwise a route needing sign-in visited signed out goes to `/login`; every other navigation proceeds |
| NavGuard.MetaOf | apps/client/src/router/index.ts:9-38 | any meta a path carries is that of a declared route the path matches, ignoring ASCII case and one trailing slash as the router's default (neither strict nor sensitive) matching does |
| NavGuard.MetaOfTable | apps/client/src/router/index.ts:9-38 | read path by path, the table gives `requiresGuest` to exactly the paths that match `/login` (any case, optional trailing slash) and no meta to any other path |
| NavGuard.OnlyLoginIsGuarded | apps/client/src/router/index.ts:9-58 | only the login route is guest-only and no route needs sign-in, so the guard never sends anyone to `/login` and redirects exactly the signed-in visits to a path matching `/login`, such as `/LOGIN` or `/login/` |
| NavGuard.LoginPathSpellings | apps/client/src/router/index.ts:9-38 | a path reaches the login route exactly when, lower-cased, it is `/login` or `/login/`; `/LOGIN` and `/Login/` do, `/` and `/login//` do not |
| NavGuard.RedirectTargetProceeds | apps/client/src/router/index.ts:46-55 | the page any redirect lands on is let through by the guard, so redirects never loop |
| Plugins.KeySplitRoundTrip | apps/server/routes/plugins.ts:16 | a key joined with `::` from parts that hold no `::` and end in no `:` splits back into exactly those parts |
| Plugins.CacheSlotsAreDistinct | apps/server/routes/plugins.ts:19 | the manifest key never collides with an asset key, and two asset keys collide only for the same owner, repository and digest |
| Plugins.FindManifestAsset | apps/server/routes/plugins.ts:35 | the asset found is one named `manifest.json`, and none is found only when no asset has that name |
| Plugins.Recover | apps/server/routes/plugins.ts:53-64 | with no cached manifest the failure is passed on; a 304 re-arms the cached manifest for five minutes and serves it; any other failure serves the cached manifest exactly while it is unexpired, leaving the cache as it was |
| Plugins.FetchLatestReleaseManifest | apps/server/routes/plugins.ts:18-65 | a failed latest-release request goes to the catch block (`Plugins.Recover`); no `manifest.json` asset with a truthy download URL means no manifest and no cache change; a failed download goes to the catch block; a successful download is served as its raw text and cached for five minutes with its `ETag`; no other cache slot changes |
| Plugins.FreshManifestSurvivesFailures | apps/server/routes/plugins.ts:51-62 | a manifest stored or re-armed at some instant is served from the cache by every failing request in the following five minutes |
| Plugins.DownloadedManifestServedOnFailure | apps/server/routes/plugins.ts:49-62 | a manifest downloaded at some instant is served, re-serialised from its cached JSON, by a later failing latest-release request within five minutes, and by a `304` at any time |
| Plugins.ManifestRoute | apps/server/routes/plugins.ts:103-120 | 200 exactly when a manifest is obtained, sending its raw text and an `ETag` header exactly when its `ETag` is truthy; 404 with no manifest; 500 on a failure |
| Plugins.EntriesOf | apps/server/routes/plugins.ts:135 | an array manifest is its own entry list; for an object, a truthy `plugins` is used, else a truthy `entries`, else no entries; the value picked is the entry list when it is an array and makes the lookup throw when it is not |
| Plugins.ManifestShapesAgree | apps/server/routes/plugins.ts:133-135 | a bare array, an object with a `plugins` array and an object with an `entries` array carry the same entries; `plugins` wins over `entries`; an object with neither has none; a truthy non-array `plugins` throws |
| Plugins.FindEntry | apps/server/routes/plugins.ts:136 | the entry found is the first one whose owner matches and whose display or repository name matches; none is found only when no entry matches; the lookup throws exactly when a `null` entry comes before every match |
| Plugins.FindEntryAppend | apps/server/routes/plugins.ts:136 | searching a concatenation is searching the first list, and then the second only when the first neither matches nor throws |
| Plugins.PluginLookup | apps/server/routes/plugins.ts:126-143 | a failed manifest fetch is a 500 and a missing or falsy manifest a 404; otherwise a throwing entry list or search is a 500, no match is a 404, and the first match is fetched exactly when its `asset_sha` is truthy (else a 404) |
| Plugins.LookupOfArrayManifest | apps/server/routes/plugins.ts:134-143 | for an array manifest whose first match is preceded by no `null`, the route fetches that entry's asset exactly when its `asset_sha` is truthy and otherwise answers 404 |
| Plugins.FirstWithDigest | apps/server/routes/plugins.ts:86-95 | the reference search: the first asset of a flat list whose digest equals the sha, and none only when no asset has it |
| Plugins.AssetSearchIsFirstMatch | apps/server/routes/plugins.ts:86-95 | the nested loop over releases and their assets finds the first asset with the digest in the flattened release list |
| Plugins.FetchPluginAsset | apps/server/routes/plugins.ts:67-98 | an unexpired cached asset is served with no request; otherwise a failed releases request or download is an error with no cache change, no asset with the digest is `Asset not found`, and a successful download of the first asset with the digest is served and stored with no expiry |
| Plugins.FetchedAssetIsCachedForever | apps/server/routes/plugins.ts:91 | once downloaded, an asset is served from the cache at any later time whatever GitHub answers |
| NewsCache.CollectionsAreIndependent | apps/rss-generator/src/cache.ts:72-80 | replacing the article list leaves every stored page as it was, and storing a page leaves the articles as they were |
| NewsCache.UpdateArticles | apps/rss-generator/src/cache.ts:72-75 | every archive page reads back as before, and the statistics then count the new list and show the save time |
| NewsCache.Stats | apps/rss-generator/src/cache.ts:111-117 | the article count is zero exactly when the list is empty, the page count is zero exactly when no page is cached, and the time is the last save |
| NewsCache.UpdateArchivePage | apps/rss-generator/src/cache.ts:77-80 | the page becomes stored, no other page is added or dropped, the articles are kept, and the save stamps the time |
| NewsCache.ArchivePageReadsBack | apps/rss-generator/src/cache.ts:77-88 | a stored page reads back as stored whatever was there before, and every other page reads back as before |
| NewsCache.UpdateArchivePageCount | apps/rss-generator/src/cache.ts:77-80 | storing a page adds one to the page count exactly when that page was not stored yet |
| NewsCache.ClearedCacheIsEmpty | apps/rss-generator/src/cache.ts:97-117 | after clearing, the statistics count nothing and no page is stored |
| NewsCrawler.CollapseRuns | apps/rss-generator/src/crawler.ts:270-271 | the result is never longer than the input and is empty exactly when the input is; it opens with the replacement when the input opens inside the class, and with the input's first character otherwise |
| NewsCrawler.CollapseRunsSingle | apps/rss-generator/src/crawler.ts:270-271 | after collapsing, every class character is the replacement and no two of them are adjacent |
| NewsCrawler.CollapseRunsKeepsOthers | apps/rss-generator/src/crawler.ts:270-271 | when the replacement is in the class, the characters outside the class are kept, in order |
| NewsCrawler.CollapseRunsAbsent | apps/rss-generator/src/crawler.ts:270-271 | text with no class character is unchanged |
| NewsCrawler.CollapseRunsFixed | apps/rss-generator/src/crawler.ts:270-271 | text whose class runs are already single replacement characters is unchanged, so collapsing twice is collapsing once |
| NewsCrawler.CollapseRunsAppend | apps/rss-generator/src/crawler.ts:270-271 | collapsing text cut after a character outside the class is collapsing each piece and joining them |
| NewsCrawler.CollapseRunsOfRun | apps/rss-generator/src/crawler.ts:270-271 | a non-empty run of the class becomes exactly the one replacement character |
| NewsCrawler.CollapseRunsOfRunThen | apps/rss-generator/src/crawler.ts:270-271 | a leading run becomes one replacement character followed by the collapsed rest |
| NewsCrawler.CollapseRunsBetweenWords | apps/rss-generator/src/crawler.ts:270-271 | two class characters between two others become the one replacement, as `a  b` becomes `a b` |
| NewsCrawler.DropRunOfRun | apps/rss-generator/src/crawler.ts:270-271 | dropping the leading run of a class run followed by text that does not open in the class leaves exactly that text |
| NewsCrawler.CleanContent | apps/rss-generator/src/crawler.ts:269-274 | cleaned text has no whitespace at either end, only single plain spaces inside, and is no longer than the input |
| NewsCrawler.CleanContentKeepsText | apps/rss-generator/src/crawler.ts:269-274 | cleaning only removes or replaces whitespace: the other characters survive in order |
| NewsCrawler.CleanContentOfNormalised | apps/rss-generator/src/crawler.ts:269-274 | text already in the cleaned form is returned unchanged |
| NewsCrawler.CleanContentIdempotent | apps/rss-generator/src/crawler.ts:269-274 | cleaning twice is cleaning once |
| NewsCrawler.LineFeedPassIsIdentity | apps/rss-generator/src/crawler.ts:271-272 | after the whitespace pass no line feed is left, so the line-feed pass never changes anything |
| NewsCrawler.FirstYear | apps/rss-generator/src/crawler.ts:44 | a non-global match finds the year of the leftmost archive path, and finds none exactly when the text holds no archive path |
| NewsCrawler.YearMatchesDoNotOverlap | apps/rss-generator/src/crawler.ts:52 | two archive-path matches never overlap, so resuming a global match after each one loses none |
| NewsCrawler.AllYears | apps/rss-generator/src/crawler.ts:52-57 | the global match collects exactly the years of all archive paths in the text |
| NewsCrawler.LinkYears | apps/rss-generator/src/crawler.ts:39-49 | the years collected from the year links are exactly those of links whose `href` is truthy and holds an archive path |
| NewsCrawler.SortedYears | apps/rss-generator/src/crawler.ts:63 | de-duplicating through a set and sorting numerically gives a strictly increasing list of exactly the found years |
| NewsCrawler.AscendingListingIsUnique | apps/rss-generator/src/crawler.ts:63 | any two strictly increasing lists of the same years are equal, so the order of discovery does not matter |
| NewsCrawler.ArchiveYears | apps/rss-generator/src/crawler.ts:39-63 | the years are those of the year links, or else those in the page text; the call fails exactly when both are empty |
| NewsCrawler.ArchiveUrls | apps/rss-generator/src/crawler.ts:66-72 | twelve month pages per year, years in order and months 1 to 12 within each |
| NewsCrawler.MonthPathReadsBack | apps/rss-generator/src/crawler.ts:70 | the year a month page's path carries is the year the crawler's pattern reads back from it |
| NewsCrawler.AbsoluteUrl | apps/rss-generator/src/crawler.ts:150 | an `href` starting with `http` is kept as is, and any other is appended to the base URL, so every result ends with the `href` |
| NewsCrawler.AbsoluteUrlIsAbsolute | apps/rss-generator/src/crawler.ts:150 | with an `http` base every resulting link starts with `http`, and absolutising twice changes nothing |
| NewsCrawler.ArticleUrls | apps/rss-generator/src/crawler.ts:146-152 | every URL produced resolves some link of the page, there are never more URLs than links, and with all `href`s truthy none is lost |
| NewsCrawler.ArticleUrlsOfOneLink | apps/rss-generator/src/crawler.ts:147-151 | a link with a truthy `href` contributes exactly its absolute URL; a link without one contributes nothing |
| NewsCrawler.ArticleUrlsAppend | apps/rss-generator/src/crawler.ts:146-152 | the URLs of two runs of links are those of the first run followed by those of the second, so page order is kept and nothing is dropped or added |
| NewsCrawler.CrawlArticle | apps/rss-generator/src/crawler.ts:189-219 | an article exists exactly when the page was fetched and its trimmed title and body are non-empty; it keeps the URL and the trimmed title, its content is the cleaned trimmed body and is non-empty, its author is the trimmed author text when there is one, and its date falls back to the current time |
| NewsCrawler.RecrawlIsStable | apps/rss-generator/src/crawler.ts:189-219 | a page showing a crawled article's own title, body, date and author is crawled, at any time, back into that same article |
| NewsCrawler.LastWithUrl | apps/rss-generator/src/crawler.ts:112-118 | the URL map finds an article exactly when one has that URL, and with repeated URLs it is the last one |
| NewsCrawler.ResolveOne | apps/rss-generator/src/crawler.ts:118-128 | a cached article is used as it is; otherwise the article page is crawled |
| NewsCrawler.ResolvedUrlsComeFromPage | apps/rss-generator/src/crawler.ts:114-133 | every article a page yields carries one of that page's URLs |
| NewsCrawler.FullyCachedPageInOrder | apps/rss-generator/src/crawler.ts:114-133 | when every URL of a page is cached, the page yields one article per URL in the page's order |
| NewsCrawler.FullyCachedPageIsOffline | apps/rss-generator/src/crawler.ts:114-133 | a page whose articles are all cached gives the same result whatever the network answers and whatever the time |
| NewsCrawler.CrawlArchivePage | apps/rss-generator/src/crawler.ts:103-187 | a stored page is served from its stored URLs with the cache unchanged; an unstored page that fails to load yields nothing; otherwise its absolute article URLs are stored and resolved; no other page's entry changes and the article list is untouched |
| NewsCrawler.Take | apps/rss-generator/src/crawler.ts:85 | `splice(max)` keeps the first `max` elements, or all of them when there are fewer |
| NewsCrawler.CrawlPages | apps/rss-generator/src/crawler.ts:77-92 | the loop never returns more than the maximum, only appends, leaves the article list alone and touches no page outside its list |
| NewsCrawler.EarlyStopIsTruncation | apps/rss-generator/src/crawler.ts:77-92 | stopping at the first page that reaches the maximum gives exactly the first `max` articles of crawling every page |
| NewsCrawler.CrawlArchives | apps/rss-generator/src/crawler.ts:18-101 | a fresh cache with articles is served as it is; a failed archive fetch fails; the crawl fails exactly when no year is found; otherwise it returns the first `maxArticles` articles of the month pages of the sorted years and saves them as the article list |
| NewsCrawler.YearRange | apps/rss-generator/src/crawler.ts:349-351 | the fallback range runs from the first year to the current one, both included |
| NewsCrawler.MonthsWithArticles | apps/rss-generator/src/crawler.ts:360-381 | a month page is kept exactly when it loads and lists at least one article link, and order is kept |
| NewsCrawler.MonthsWithArticlesAppend | apps/rss-generator/src/crawler.ts:360-381 | the month pages are kept in the order listed: filtering two runs is filtering each and joining them, which fixes the order in which the article limit at apps/rss-generator/src/crawler.ts:386-395 cuts |
| NewsCrawler.MonthsWithArticlesOfOne | apps/rss-generator/src/crawler.ts:366-379 | one month page is kept exactly when it loads and lists an article link |
| NewsCrawler.NewArticles | apps/rss-generator/src/crawler.ts:403-407 | the filtered articles are exactly the crawled ones whose URL the cache lacks, and none remain exactly when the cache has every crawled URL |
| NewsCrawler.NewArticlesOfOne | apps/rss-generator/src/crawler.ts:407 | one crawled article is kept exactly when its URL is not cached |
| NewsCrawler.NewArticlesAppend | apps/rss-generator/src/crawler.ts:407 | filtering two runs of crawled articles is filtering each in turn, so crawl order is kept |
| NewsCrawler.MergeNew | apps/rss-generator/src/crawler.ts:411 | the merged list starts with the existing articles, covers every crawled URL, and holds nothing else |
| NewsCrawler.MergeIdempotent | apps/rss-generator/src/crawler.ts:401-416 | merging the same crawl again finds nothing new and leaves the list unchanged |
| NewsCrawler.MergeKeepsUrlsDistinct | apps/rss-generator/src/crawler.ts:404-411 | when the cache and the crawl each have distinct URLs, so does the merged list |
| NewsCrawler.CrawlAndUpdateCache | apps/rss-generator/src/crawler.ts:324-423 | a failed archive fetch changes nothing; otherwise the crawl covers the month pages with articles of the link years, or of 2020 to the current year; at most `maxArticles` are crawled; the cached list only grows at its end, by the new articles, and is saved when there are any |
| RssFeed.SortNewestFirst | apps/rss-generator/src/rss-generator.ts:23-25 | the sort is a permutation of the articles with dates never increasing |
| RssFeed.SortIsStable | apps/rss-generator/src/rss-generator.ts:23-25 | articles with the same date keep their relative order |
| RssFeed.GenerateFeed | apps/rss-generator/src/rss-generator.ts:23-38 | one item per article, in newest-first order, and the caller's array is left sorted |
| RssFeed.FeedIsTheArticles | apps/rss-generator/src/rss-generator.ts:23-38 | every article gives an item, every item comes from an article, and item dates never increase |
| RssFeed.TruncateContent | apps/rss-generator/src/rss-generator.ts:44-58 | content that fits is kept; longer content ends in `...` after a prefix of it, cut at the last space of the window when that lies past 80% of it and at the window's end otherwise |
| RssFeed.TruncateContentLength | apps/rss-generator/src/rss-generator.ts:44-58 | a truncation is at most three characters longer than the window and cuts at most a fifth of it |
| Text.ParseIntLenient | apps/server/services/discordNotifications.ts:53 | `parseInt` gives NaN when, after blanks and a sign, no digit follows, and also when a `0x` prefix is followed by no hex digit (`"0x"`, `"0xz"`); it gives a number for every other decimal or hex digit run |
| Text.ParseIntLenientRoundTrip | apps/server/services/discordNotifications.ts:53 | `parseInt` reads back every decimal rendering of an integer |
| Text.IntToStringRoundTrip | apps/server/services/discordNotifications.ts:60 | the decimal rendering of an integer reads back as that integer |
| Text.Trim | apps/rss-generator/src/crawler.ts:194-196 | the result is a slice of the input with only whitespace before and after it, and it neither starts nor ends with whitespace |

## Left out

- ClientMarketplace.UpdateListing: the client sends `PUT /listings/:id` (apps/client/src/composables/useMarketplace.ts:169), but the marketplace router (apps/server/routes/marketplaceRoute.ts:17-595) defines no `PUT` route, so against the server as written every update fails with the framework's default not-found answer, which has no `message` field, and shows the fallback. The model keeps the success branch as the composable codes it and leaves the server's answer a parameter.
- SQL text, connections and the `sqlite3` driver are not modelled. A handler's sequence of statements is one atomic store update. The source runs them without a transaction, so a failure halfway through can leave a partial write that the model cannot show.
- The admin dashboard and list routes (`/dashboard`, `/users`, `/users/:id`, `/listings`, `/trades`, `/actions`) and the marketplace read routes (`/listings`, `/listings/:id/offers`, `/listings/:id/offers/manage`, `/my-listings`, `/my-offers`) are SQL aggregations and joins. Only their paging arithmetic (`Admin.PagingOf`, `Admin.TotalPages`), the dashboard's flagged-listing filter (`Admin.Flagged`) and the seller statistics (`Marketplace.Stats`) are modelled.
- Admin.Flagged: gives the set of listings with at least four rejected offers. The dashboard query also joins each listing to its owner's `users` row (dropping a listing whose owner is gone), orders by the rejected count and keeps the first 10; none of the three is modelled.
- Admin.Moderate: the `details` JSON column of each `admin_actions` row (the new role, the ban reason and expiry, the warning text, the close reason) is not kept; a log entry records the admin, the action type and the target.
- Partial acceptance, trade confirmation and trade cancellation have no server route, so the matching client calls (`acceptPartialOffer`, `confirmTrade`, `cancelTrade`, `fetchPendingTrades`) have nothing to model. The same holds for the client fetch calls, which only copy a server answer into state.
- The network is a parameter: Discord OAuth, the Discord webhook POST, the GitHub API behind the plugin proxy, axios on the client, and fetch with cheerio in the crawler. The crawler sees each page as an abstract answer (`NewsCrawler.Net`), and a failed fetch is `None`. `parseDate` is abstracted as the page's date being present or absent.
- The crawler fetches each month page twice, once to check it and once to crawl it. The model gives both fetches the same answer.
- The crawler's concurrency and the scheduler that runs it are not modelled. Cache staleness (`isCacheStale`) is an input, as are the clock (`Date.now()`, ISO timestamps) and random ids (`randomBytes`). An id that collides with an existing row is the primary-key failure, a 500.
- Reading and writing the news cache file, and rendering the feed as XML, are not modelled.
- Floating point is not modelled. The seller success rate `Math.round((total_sales / total_listings) * 100)` (apps/server/routes/marketplaceRoute.ts:657) and the 80% test in `truncateContent` are modelled with exact rationals, so the model can differ from the source on a value that lands near a rounding boundary: for 29 sales out of 200 listings the source computes `0.145 * 100` as 14.499999999999998 and answers 14, while `Marketplace.SuccessRate` answers 15. `parseInt` on Discord ids of 17 to 19 digits is modelled as an exact integer, while the source loses precision above 2^53.
- Strings are sequences of Unicode scalar values, not UTF-16 code units. Lengths and slices can differ from the source's for characters outside the Basic Multilingual Plane.
- The client's `getOfferCount` is a placeholder that always answers 0, so it is not modelled. The login, logout and status routes of `apps/server/routes/auth.ts` are not part of this model. Only the Passport strategy and session handling they rely on are modelled.
- Client-side redirects (`login`, `handleAuthCallback`), the axios interceptor, Vue reactivity, and the `new Date()` timestamp on every embed are left out. So are the embed titles, descriptions and colours.
- The session store, cookie signing and express middleware ordering are left out. Only the CORS rule and the cookie settings are modelled.
- Notifications.Sanitize: models the sanitiser as written, in which `<@digits>` is never replaced (see Findings). The embeds are built with `Notifications.SanitizeTagsFirst` instead.
- Notifications.ListingFields: the listing's `notes`, the only field value the source sanitises here (apps/server/services/discordNotifications.ts:199 and 267), are cleaned with the corrected sanitiser `Notifications.SanitizeTagsFirst`, not with the one the source calls (see Findings). For notes such as `<@123>` the source as written sends `<@` + U+200B + `123>` where the model sends `[user]`; on every text without a user tag the two agree.
- Notifications.OfferReceivedFields: the buyer name (apps/server/services/discordNotifications.ts:354) and the offer message (apps/server/services/discordNotifications.ts:384) are both cleaned with `Notifications.SanitizeTagsFirst` for the same reason as `Notifications.ListingFields`, and differ from the source as written in the same way.
- Notifications.MentionLine: states the ping at the start of every line and the buyer at the end of the offer-received line. The wording between them for each event (apps/server/services/discordNotifications.ts:276, 327, 392, 442, 492) is not stated in the contract.
- Notifications.CutToLimit: as in the source, the 1000-character cut can fall between a backslash and the markdown character it escapes. The result then ends in a lone backslash, so the contracts of `Notifications.Sanitize` and `Notifications.SanitizeTagsFirst` promise escaping only up to that last character.
- NavGuard.MetaOf: the path is matched as given. The router's own parsing first (splitting off the query string and hash, decoding percent escapes) is not modelled.

## Findings

| source | as written | input that shows it | evidently intended | confidence | as-written member | corrected member |
|---|---|---|---|---|---|---|
| apps/server/services/discordNotifications.ts:71-77 | the pass that breaks `@word` mentions runs before the pass that replaces user tags. It puts a zero-width space after the `@` of `<@digits>`, so that tag no longer matches and never becomes `[user]` | `<@1>` sanitises to `<@` + U+200B + `1>` | `<@1>` becomes `[user]`, as the comment over the user-tag pass says | high; not executed | Notifications.UserTagSurvivesAsWritten | Notifications.UserTagIsReplaced |
