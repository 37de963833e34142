# BanArts core, modelled in Dafny

BanArts is an art-discovery site: an Express/SQLite server (`server.js`, `auth.js`) and
browser scripts for visitors (`script.js`, `notifications.js`, `settings.js`) and for the
admin console (`admin.js`). This project models the deterministic parts of that code, with
SQLite tables as in-memory sequences and sets and with time as an integer clock. It then
proves what those parts promise.

The modules are:

- `Js` (js.dfy): the JavaScript semantics the code relies on.
  - Truthiness and `||`.
  - ASCII `toLowerCase`/`toUpperCase`, `trim`, `includes`, `startsWith`.
  - `split`/`join`, `parseInt`, `Number()` on strings, `==` against a number.
- `NotificationStore`: the server's Notifications table, as a class `Store`.
  - Create, list (purge expired rows, filter, order, cap at 50), unread count, mark-all, mark-one, clear.
  - Its invariant: ids increase, and unread rows never carry an expiry.
- `NotificationCache`: the browser's notification cache of notifications.js, as a class `Cache`.
  - The cache is a list plus `unreadCount`; the invariant is that the counter equals the number of unread entries.
  - Also the stateless reload of script.js, and the badge and footer rules.
- `TextFormat`: `escapeHtml` (with an inverse that shows it loses nothing), the relative-age `formatTime` of notifications.js and the `HH:MM` `formatTime` of script.js.
- `Passwords`: `validatePassword` (identical in server.js and script.js) and the server's change-password handler.
- `Images`: `getImagePath` and the per-row `processImageFields` loop.
- `RowDefaults`: the gallery type, collection name and `is_featured` defaulting rules.
- `Events`: the artwork lists of POST and PUT `/events`. PUT interleaves uploaded files and existing URLs by a tag list.
- `UserUpdate`: the SET-clause builder of `PUT /users`.
- `SchemaProbe`: the missing-column computation of the start-up schema probe.
- `Memberships`: the `/save-artwork` and `/follow-artist` toggles, as classes over sets of pairs.
- `Navigation`: where a click on a notification leads, and which navigation link `setActiveNavLink` highlights.
- `SearchDropdown`: assembly of the search dropdown's matches, and its keyboard selection state (class `Dropdown`).
- `AdminFilters`: the admin list filters, the event sort and `isRecentCollection`.
- `AdminSubmit`: the admin form submit handler.
  - Type and URL derivation, and pre-submit checks.
  - Checkbox conversion (`FormData.set`).
  - The FormData→JSON merge loop, and the final request.
- `Settings`: the change-password form checks and the email fallback of settings.js, plus initials and the profile-image storage key.
- `Auth`: the LocalStrategy verify callback, `findOrCreateOAuthUser` over a Users table (class `UserStore`), session serialisation and `requireAuth`.

Database failures, a missing `io`, and a failed fetch are boolean parameters of the
operation they affect. `JSON.parse`/`JSON.stringify` and token verification are
function parameters. Clocks are integer parameters.

## Model

| member | source | states |
|---|---|---|
| NotificationStore.Purge | server.js:1064 | the purge DELETE keeps exactly the rows whose expiry is absent or not before now |
| NotificationStore.VisibleRows | server.js:1068-1069 | the listing's WHERE clause keeps exactly the rows with no expiry or an expiry after now |
| NotificationStore.Insert | server.js:1070 | inserting into the ORDER BY order keeps the multiset of rows |
| NotificationStore.InsertOrdered | server.js:1070 | inserting into an ordered list (unread first, newest first) keeps it ordered |
| NotificationStore.SortRows | server.js:1070 | ORDER BY is_read ASC, created_at DESC yields an ordered permutation of the rows |
| NotificationStore.SortedRowsFrom | server.js:1070 | the sorted rows are as many as the input, and each comes from it |
| NotificationStore.Listing | server.js:1063-1080 | the listing is ordered (unread first, newest first), holds only visible rows of the table, and has min(50, visible) rows |
| NotificationStore.ListingWithinVisible | server.js:1063-1080 | the listing repeats no row: its multiset lies within the visible rows |
| NotificationStore.MarkAll | server.js:1132-1140 | mark-all stamps only unread rows (is_read = 1, expiry now+2h); read rows are untouched |
| NotificationStore.MarkOne | server.js:1142-1150 | mark-one stamps the row with the id whatever its state; other rows are untouched |
| NotificationStore.StoredRelatedId | server.js:1027-1029 | the stored id is never 0: a truthy related id is kept as given, and NULL is stored only for an absent or 0 id |
| NotificationStore.NewRow | server.js:1027-1029 | an inserted row carries the given type, message and related type, the current time, no expiry, is unread, and never a related id of 0 |
| NotificationStore.Stamp | server.js:1133 | marking read sets is_read and an expiry two hours ahead, and changes no other column |
| NotificationStore.CountUnreadZero | server.js:1122-1130 | the unread count is 0 iff every row is read |
| NotificationStore.Store.constructor | server.js:990 | the table starts empty and satisfies the invariant |
| NotificationStore.Store.Create | server.js:1024-1061 | an insert adds one unread row with no expiry and the next id; the row is broadcast only when io is present and the fetch succeeds; a failed insert changes nothing |
| NotificationStore.Store.List | server.js:1063-1080 | the table becomes the purged table (unless the purge fails); the result is the listing, or [] on a select error |
| NotificationStore.Store.UnreadCount | server.js:1122-1130 | the count is the number of unread rows, which equals the unread rows that are visible at any time |
| NotificationStore.Store.MarkAllRead | server.js:1132-1140 | the table becomes MarkAll of the old table; afterwards nothing is unread |
| NotificationStore.Store.MarkRead | server.js:1142-1150 | the table becomes MarkOne of the old table; success does not depend on whether a row matched |
| NotificationStore.Store.Clear | server.js:1105-1114 | clear deletes every row and reports how many were deleted |
| NotificationStore.PurgeAndFilterAgree | server.js:1063-1080 | listing after the purge sees the same rows as filtering the unpurged table |
| NotificationStore.ListingIgnoresPurge | server.js:1063-1080 | the listing is the same with or without the preceding purge |
| NotificationStore.PurgePurge | server.js:1064 | purging twice is purging once |
| NotificationStore.PurgeIdsAbove | server.js:1064 | a purge never introduces a row below a lower bound on ids |
| NotificationStore.PurgeKeepsIdsIncreasing | server.js:1064 | a purge keeps the ids increasing |
| NotificationStore.PurgeKeepsValid | server.js:1064 | a purge preserves the store invariant |
| NotificationStore.UnreadRowsAreVisible | server.js:1122-1130 | since unread rows carry no expiry, the count without an expiry filter equals the count over visible rows |
| NotificationStore.InsertCountsUnread | server.js:1070 | sorting by insertion adds exactly the inserted row's unread contribution |
| NotificationStore.SortCountsUnread | server.js:1070 | ordering does not change the number of unread rows |
| NotificationStore.AllReadCountsZero | server.js:1122-1130 | a table with every row read has unread count 0 |
| NotificationStore.OrderedPrefixUnread | server.js:1070 | in the unread-first order, the first k rows hold min(k, unread) unread rows |
| NotificationStore.ListingShowsUnread | server.js:1063-1080 | the listing shows min(50, unread) unread rows |
| NotificationStore.ListingIsTopRows | server.js:1063-1080 | a visible row left out of the listing never precedes a listed row |
| NotificationStore.ExpiredNeverListed | server.js:1063-1080 | an expired row is neither listed nor kept by the purge |
| NotificationStore.ExpiryBoundary | server.js:1064-1069 | a row expiring exactly now survives the purge but is not listed |
| NotificationStore.MarkAllClearsUnread | server.js:1132-1140 | after mark-all nothing is unread and the invariant on expiry holds |
| NotificationStore.MarkOneIdempotent | server.js:1142-1150 | marking the same id twice at the same time is marking it once |
| NotificationStore.MarkOneCountsUnread | server.js:1142-1150 | mark-one lowers the unread count by one exactly when the id names an unread row |
| NotificationStore.OrderedHead | server.js:1070 | in an ordered list, a row that precedes every other is at the head |
| NotificationStore.NewestUnreadListedFirst | server.js:1024-1080 | a newly created unread notification heads the next listing |
| NotificationCache.BadgeFor | notifications.js:56-64 | the badge is hidden iff the count is <= 0; otherwise it shows "99+" above 99, else the number itself (1 to 3 chars) |
| NotificationCache.NatToStringShort | script.js:1365-1432 | a count up to 99 prints in at most two digits |
| NotificationCache.FooterAfter | script.js:1428 | the footer is never shown for an empty list, is shown for a non-empty list with unread rows, and otherwise keeps its state |
| NotificationCache.FindIndex | notifications.js:130-141 | the lookup finds an entry with the id, the first one, or reports that none has it |
| NotificationCache.AllRead | notifications.js:143-156 | every entry is marked read and nothing else changes |
| NotificationCache.AllReadClearsUnread | notifications.js:143-156 | after marking all read nothing is unread |
| NotificationCache.FlipCountsUnread | notifications.js:130-141 | flipping one unread entry lowers the unread count by one |
| NotificationCache.Cache.constructor | notifications.js:3-4 | the cache starts empty with a zero counter, consistent |
| NotificationCache.Cache.OnNewNotification | notifications.js:15-24 | a payload is prepended and the counter incremented; a null payload changes nothing; an unread push keeps counter = unread entries |
| NotificationCache.Cache.Load | notifications.js:36-47 | a successful load replaces the list and recounts, so the cache becomes consistent; a failed fetch changes nothing |
| NotificationCache.Cache.MarkAsRead | notifications.js:130-141 | the entry is flipped and the counter decremented only when the request succeeds and the id is found unread; consistency is kept and the counter stays non-negative |
| NotificationCache.Cache.MarkAllAsRead | notifications.js:143-156 | nothing happens when nothing is unread or a request fails; otherwise every entry is read and the counter is 0 |
| NotificationCache.MarkTwiceSameAsOnce | notifications.js:130-141 | repeating mark-as-read on the same id changes nothing more |
| NotificationCache.FindIndexAfterFlip | notifications.js:130-141 | marking an entry read does not change where its id is found |
| NotificationCache.FindIndexFirst | notifications.js:130-141 | the lookup returns the first index carrying the id |
| NotificationCache.ScriptLoad | script.js:1354-1432 | after a load the badge is hidden iff every fetched entry is read; a shown count up to 99 reads back (parseInt) as the number of unread entries; the footer shows only for a non-empty list and always when an entry is unread |
| NotificationCache.ClientCountMatchesServer | script.js:1354-1363 | loading the server listing, the badge counts min(50, unread rows) and is hidden iff the server has no unread row |
| TextFormat.EscapeChar | script.js:1463-1472 | a char other than the five special ones is kept as is |
| TextFormat.EscapeHtml | notifications.js:109-118 | the output contains none of < > " ' and is no shorter than the input |
| TextFormat.UnescapeCons | script.js:1463-1472 | decoding the escape of one char gives that char back, whatever follows |
| TextFormat.UnescapeEscape | script.js:1463-1472 | escaping loses nothing: decoding the entities gives back the original text |
| TextFormat.EscapePlain | script.js:1463-1472 | text without special chars is unchanged |
| TextFormat.RelativeAge | notifications.js:93-107 | the five buckets split the ages at 1 min, 1 h, 1 day and 7 days, and each count is the floor of the age in that unit |
| TextFormat.RelativeAgeMonotone | notifications.js:93-107 | an older notification never gets a younger bucket or a smaller count |
| TextFormat.RelativeText | notifications.js:93-107 | under a minute reads "Just now"; under an hour, a day and a week the text is the count of whole minutes, hours or days followed by its suffix, a count below 60, 24 or 7; older ages give the local date |
| TextFormat.CountTextParts | notifications.js:93-107 | a count text splits back into the decimal digits of the count and its suffix |
| TextFormat.Pad2 | script.js:1476-1477 | padStart(2, '0') of a number below 100 is two digits denoting it |
| TextFormat.NatSmallLength | script.js:1476-1477 | a number from 10 to 99 prints in two digits |
| TextFormat.LocalHour | script.js:1476 | the hour is below 24 |
| TextFormat.LocalMinute | script.js:1477 | the minute is below 60 |
| TextFormat.ClockText | script.js:1474-1479 | the text is HH:MM with digits denoting the hour and minute |
| TextFormat.ClockTextDaily | script.js:1474-1479 | times a day apart print the same |
| Passwords.FirstBroken | server.js:102-126 | the first broken rule in order, or none iff all hold |
| Passwords.ValidatePassword | server.js:102-126 | valid iff no rule is broken; otherwise the message of the first broken rule |
| Passwords.FirstBrokenRules | script.js:9-33 | the checks run length, upper, lower, digit, special, in this order |
| Passwords.ValidIffPolicy | server.js:102-126 | valid iff 8 <= length <= 32 and there is an upper, a lower, a digit and a special char |
| Passwords.MessageNamesRule | script.js:9-33 | a message names a broken rule, and every earlier rule holds |
| Passwords.NoUpperRejected | server.js:113-115 | any password of allowed length without an uppercase letter fails on that rule |
| Passwords.AlphanumericRejected | server.js:122-124 | any password of letters and digits only is invalid, and fails on the special-char rule once the earlier rules hold |
| Passwords.ChangePassword | server.js:1256-1300 | a missing field gives 400; a failed lookup 500; an unknown account 404; an OAuth account 403 naming its provider; a wrong current password 401; an invalid new one 400 with the validator's message; otherwise the change succeeds (and writes the new password) exactly when the UPDATE does not fail, and a failed UPDATE gives 500 |
| Images.GetImagePath | server.js:93-100 | falsy gives null; non-strings and http URLs are unchanged; other paths start with "/" and contain no backslash |
| Images.ReplaceAbsent | server.js:98 | replacing a char that does not occur changes nothing |
| Images.GetImagePathIdempotent | server.js:93-100 | normalising twice is normalising once |
| Images.MapImagePaths | server.js:141 | each URL of an image list is normalised in place, and the length is kept |
| Images.RewriteIsNormal | server.js:128-152 | a rewritten field is its normalised path, or a list of normalised paths |
| Images.RewriteField | server.js:134-151 | a column other than a JSON image list, and an image list that fails to parse, becomes getImagePath of its value (a normal path); a parsed list is written back as the stringified list of its normalised items; any other parsed value is kept |
| Images.ProcessImageFields | server.js:128-152 | a null row stays null; otherwise the keys are kept and each image field is rewritten while every other field is unchanged |
| Images.RewriteFields | server.js:134-151 | the forEach over distinct columns keeps the keys, rewrites each listed truthy column exactly once and leaves every other column as it was |
| Images.RewriteStep | server.js:135-150 | one iteration rewrites the next column and keeps every column already handled |
| Images.FieldsDistinct | server.js:130-133 | the image fields are distinct, so the loop rewrites each once |
| RowDefaults.GalleryType | server.js:1705-1707 | the type is always truthy and not "[object Object]"; a usable type is kept, otherwise "Art Gallery" |
| RowDefaults.GalleryTypeIdempotent | server.js:1705-1707 | defaulting twice is defaulting once |
| RowDefaults.CollectionName | server.js:2625 | the name is kept; else "<collector>'s Collection"; else "New Collection" |
| RowDefaults.FeaturedFlag | server.js:1461 | the stored flag is 0 or 1, and is 1 iff the value is loosely equal to 1 |
| RowDefaults.NumberOfDigits | server.js:1461 | a string of digits (with surrounding space) converts to its decimal value |
| RowDefaults.FeaturedNonText | server.js:1489 | a number or boolean is featured iff it is 1 or true |
| RowDefaults.BlankNotFeatured | server.js:1639 | an empty or all-space text is not featured |
| RowDefaults.WordNotFeatured | server.js:1753 | a text that does not start with a digit or sign after trimming (such as "true") is not featured |
| RowDefaults.FeaturedPadded | server.js:1598 | white space around a decimal number is ignored: " 1 " is featured, any other padded number is not |
| RowDefaults.FeaturedFlagOfDecimal | server.js:2005 | a decimal string is featured iff it denotes 1 |
| RowDefaults.TrimDigits | server.js:2031 | a digit string has no space to trim |
| Events.PickField | server.js:2341-2344 | the plain body field wins when truthy, then the bracketed one, then [] |
| Events.ListOf | server.js:2357-2358 | the plain key wins when it holds something; a single non-empty text becomes a one-entry list, a list is kept, and with nothing under either key the list is empty |
| Events.TitleAt | server.js:2262-2263 | the title at an index, or "Artwork i+1" when missing or empty |
| Events.ArtistAt | server.js:2262-2263 | the artist at an index, or "Unknown Artist" |
| Events.PostArtworks | server.js:2255-2266 | one artwork per uploaded file, in order, with the title and artist at its index |
| Events.CheckNewEvent | server.js:2268-2274 | accepted iff the name is present and there are at least 10 artworks; the name is checked first |
| Events.AssembleArtworks | server.js:2354-2379 | the loop's result is the tag-driven interleaving of files and existing URLs |
| Events.AssembleFromInputs | server.js:2354-2379 | every assembled artwork has a title and an artist, and its image is an uploaded file or a non-empty kept URL |
| Events.AssembleBound | server.js:2354-2379 | at most one artwork per tag |
| Events.AllNewIsPost | server.js:2354-2379 | with only "new" tags and a file for each, the result is the POST list |
| Events.EmptyUrlBlocks | server.js:2372 | an empty existing URL ends the existing queue |
| Events.UnknownTagsDropped | server.js:2354-2379 | tags other than "new" and "existing" add nothing |
| Events.FinalArtworksAsWritten | server.js:2341 | as written: the stored list is the assembled one whenever a source list is sent, and the stored value is kept only when nothing about artworks is sent |
| Events.ArtworksOnlyUpdateErases | server.js:2380-2386 | as written, an update carrying only `artworks` stores []; the corrected rule stores the sent list |
| Events.FinalArtworksIntended | server.js:2448-2459 | corrected: without a source list the artworks sent in the body are stored |
| Events.IntendedKeepsSentArtworks | server.js:2448-2459 | with the corrected rule, an update with a source list stores the assembled list, one without stores what was sent |
| UserUpdate.Chosen | server.js:3348-3355 | exactly the allowed fields defined in the body, no more than allowedFields holds |
| UserUpdate.ChosenInOrder | server.js:3348-3355 | the chosen fields are a subsequence of allowedFields (their order) and repeat none |
| UserUpdate.Assignments | server.js:3352 | one "field = ?" per chosen field |
| UserUpdate.Values | server.js:3353 | the parameters follow the chosen fields in the same order |
| UserUpdate.CollectFields | server.js:3350-3355 | the loop pushes one "field = ?" and one value per chosen field, in allowedFields order |
| UserUpdate.BuildUpdate | server.js:3345-3362 | no chosen field gives the 400 reply; otherwise the SET list and the parameters (with the id last) follow the chosen fields |
| UserUpdate.PlaceholdersAppend | server.js:3361 | placeholders of a concatenation add up |
| UserUpdate.PlaceholdersPlain | server.js:3361 | text with no '?' has no placeholder |
| UserUpdate.PlaceholdersOfAssignments | server.js:3361 | the joined SET list has one placeholder per field |
| UserUpdate.OneEach | server.js:3352 | each assignment carries one placeholder |
| UserUpdate.AllowedFieldsPlain | server.js:3348 | no allowed field name contains '?' |
| UserUpdate.PlaceholdersMatchParams | server.js:3345-3362 | the statement has exactly as many placeholders as parameters |
| SchemaProbe.Missing | server.js:741-781 | exactly the wanted columns whose names are absent, no more than are wanted |
| SchemaProbe.MissingInOrder | server.js:741-781 | the missing columns are a subsequence of the wanted ones (their order) and repeat none |
| SchemaProbe.Names | server.js:750 | the names of the columns, in order |
| SchemaProbe.ColumnDef | server.js:804 | an entry with a space is a full definition; a bare name gets " TEXT" |
| SchemaProbe.Alters | server.js:803-805 | one ALTER per missing column, in order |
| SchemaProbe.Probe | server.js:823-861 | a failed PRAGMA adds nothing; otherwise, in order, one `ALTER TABLE t ADD COLUMN` per missing column, with its entry (Users) or its ColumnDef (the other tables) |
| SchemaProbe.StartupAlters | server.js:741-861 | the Users statements come first and are always issued; a failed Artworks PRAGMA leaves exactly those; a failed Users PRAGMA still lets Artworks and Galleries run; otherwise Artworks then Galleries follow Users |
| SchemaProbe.GalleriesSkippedAfterArtworksFails | server.js:785-789 | after a failed Artworks PRAGMA, the Galleries table does not matter |
| SchemaProbe.MissingAfterAdding | server.js:741-781 | after adding the missing columns nothing is missing: the probe converges |
| SchemaProbe.NothingMissing | server.js:741-781 | a table already holding every column gets no ALTER |
| SchemaProbe.UsersNameThemselves | server.js:741-781 | each Users entry adds the column it is named after |
| SchemaProbe.ArtworksNameThemselves | server.js:783-821 | each Artworks entry adds the column it is named after |
| SchemaProbe.GalleriesNameThemselves | server.js:823-861 | each Galleries entry adds the column it is named after |
| SchemaProbe.UsersEntriesTyped | server.js:753-759 | every Users entry carries its own type |
| SchemaProbe.FreshTableGetsAll | server.js:741-781 | a table with no columns gets every wanted column |
| Memberships.ToggleSet | server.js:3508-3537 | toggling flips the membership of one pair and keeps every other |
| Memberships.ToggleToggle | server.js:3508-3537 | two toggles restore the original set |
| Memberships.SavedArtworks.constructor | server.js:3508-3537 | no artwork is saved at the start |
| Memberships.SavedArtworks.Toggle | server.js:3508-3537 | a non-numeric id gives 401 with no change; otherwise an absent pair is inserted (saved: true), a present one deleted (saved: false); a failed write changes nothing |
| Memberships.FollowedArtists.constructor | server.js:3452-3489 | nobody follows anyone at the start |
| Memberships.FollowedArtists.Toggle | server.js:3452-3489 | no user id gives 401 with no change; otherwise the pair is toggled and the reply says whether it is now followed |
| Memberships.SaveTwice | server.js:3508-3537 | saving twice returns opposite answers and restores the set |
| Memberships.FollowTwice | server.js:3452-3489 | following twice returns opposite answers and restores the set |
| Js.ParseIntIgnoresTrailingText | server.js:3509-3510 | parseInt of a number followed by text that is not a digit reads the number ("7abc" is 7) |
| Js.ParseIntWithoutDigits | server.js:3509-3510 | a text that starts (after space) with neither a digit nor a sign is not a number |
| Navigation.Navigate | script.js:1446-1461 | an unknown type stays; a known one goes to exactly `page?id=itemId` when the item id is a non-empty text, and to the bare page otherwise |
| Navigation.NavigateAsWritten | script.js:1446-1461 | as written, a click navigates iff its type is one of the five capitalised names, to that name's page |
| Navigation.NavigateIntended | script.js:1446-1461 | corrected, a click navigates iff its type is one of the five lowercase tags, to that tag's page |
| Navigation.ServerTagsNeverNavigate | script.js:1446-1461 | as written, no type the server writes (nor the empty one) navigates anywhere |
| Navigation.Capitalise | script.js:1447-1453 | capitalising keeps the length |
| Navigation.IntendedIsCapitalised | script.js:1447-1453 | the corrected map on a lowercase tag is the written map on the capitalised tag, and it navigates |
| Navigation.DataItemId | script.js:1395 | the data attribute is empty iff the related id is absent or 0 |
| Navigation.ClickAsWritten | script.js:1405-1424 | as written, a click leads somewhere only for a capitalised type, and a mobile click to the bare page |
| Navigation.Click | script.js:1405-1424 | corrected, a click leads somewhere iff the type has a page; a desktop click with a truthy id opens `page?id=id`, any other the bare page |
| Navigation.ServerNotificationsGoNowhere | script.js:1405-1424 | as written, clicking any notification the server creates leads nowhere, on both lists |
| Navigation.ArtistNotificationOpensArtist | script.js:1405-1424 | corrected, an artist notification opens the artist's page (with the id from the desktop list) |
| Navigation.CurrentPage | script.js:38 | the last path segment, or index.html when it is empty |
| Navigation.FirstKeyword | script.js:53-65 | the page of the first keyword the path contains, or none iff it contains none |
| Navigation.TargetPage | script.js:36-65 | the target is never empty; a current page that is not all digits highlights its list page when it is a detail page, else itself; an all-digit page highlights the page of the first keyword in the path, or falls back the same way when there is none |
| Navigation.IsActive | script.js:67-75 | an active link's last segment is the target page or index.html |
| Navigation.ActiveIsTarget | script.js:67-75 | a link is active iff its last segment is the target page |
| Navigation.TrailingSlashIsIndex | script.js:38 | a path ending in "/" highlights index.html |
| Navigation.DetailPagesMapToLists | script.js:41-49 | every detail page maps to a list page, which is not itself mapped |
| Navigation.AfterLastOfSuffix | script.js:38 | the last segment of a path ending in "/d" is d |
| Navigation.NoFirstCharNoMatch | script.js:53-65 | a keyword whose first char is absent is not contained |
| Navigation.DigitsHaveNo | script.js:53-65 | an all-digit segment contains no slash and no letter |
| Navigation.DigitsUnmapped | script.js:41-53 | a digit segment is never a detail page |
| Navigation.GalleryRouteHighlightsGalleries | script.js:53-65 | /gallery/<id> highlights galleries.html |
| Navigation.MuseumRouteHighlightsMuseums | script.js:53-65 | /museum/<id> highlights museums.html |
| SearchDropdown.MatchOf | script.js:726-772 | a match keeps its kind and name, has a truthy image, and its URL starts with the kind's route |
| SearchDropdown.MatchesOf | script.js:726-772 | one match per row, in order |
| SearchDropdown.SearchMatches | script.js:726-772 | at most ten matches, each with a truthy image and a URL on its kind's route |
| SearchDropdown.PushMatches | script.js:726-772 | the push loop appends the rows' matches to the list |
| SearchDropdown.AssembleMatches | script.js:726-772 | the matches are the four blocks in the order artworks, artists, museums, galleries |
| SearchDropdown.MatchesOfKind | script.js:726-772 | each block holds only its kind |
| SearchDropdown.ConcatBlocks | script.js:726-772 | in the concatenation, a position falls in the block of its kind |
| SearchDropdown.SearchMatchesShape | script.js:726-772 | at most 3 artworks, 3 artists, 2 museums and 2 galleries, in this order (at most 10) |
| SearchDropdown.Dropdown.constructor | script.js:679-680 | nothing is selected or shown at the start |
| SearchDropdown.Dropdown.SetSelectedIndex | script.js:839-850 | an in-range index is selected, any other gives -1; nothing else changes |
| SearchDropdown.Dropdown.Type | script.js:878-886 | typing keeps the text; a non-blank text hands its trimmed query to the search; a blank one hides the dropdown but keeps the selection and the items |
| SearchDropdown.Dropdown.Hide | script.js:852-855 | hiding clears the selection |
| SearchDropdown.Dropdown.SelectItem | script.js:817-835 | a signed-in user opens the match; otherwise the sign-up prompt; the dropdown closes and the input clears |
| SearchDropdown.Dropdown.KeyDown | script.js:896-927 | ArrowDown stops at the last item, ArrowUp at 0, Enter opens the selected match, Escape hides; the index stays in -1..items-1 |
| SearchDropdown.Dropdown.UpdateDropdown | script.js:707-815 | an empty query hides; a failed search shows no items; otherwise the items are the assembled matches and nothing is selected |
| SearchDropdown.EnterAfterArrows | script.js:896-927 | n ArrowDowns then Enter open match min(start+n, items-1) |
| AdminFilters.FieldText | admin.js:229-251 | the filter fails (None) exactly on a truthy non-string in a lowered field; a truthy verbatim field reads as its text; a lowered text has no uppercase letter left; a falsy field reads as "" |
| AdminFilters.RowMatches | admin.js:229-251 | a row matches iff one of its listed fields contains the term |
| AdminFilters.FilterRows | admin.js:229-251 | the result is the subsequence of exactly the matching rows |
| AdminFilters.Filter | admin.js:229-251 | a blank term keeps the list; otherwise the trimmed, lowercased term filters it |
| AdminFilters.LowerUpperChar | admin.js:233 | lowercasing an uppercased char is lowercasing it |
| AdminFilters.CaseOfInputIgnored | admin.js:233 | the case of the term does not matter |
| AdminFilters.LoweredContainsWord | admin.js:229-251 | a lowercased field still contains the lowercased word |
| AdminFilters.CapitalisedNameFound | admin.js:229-251 | a row whose name contains the word in capitals is found |
| AdminFilters.StatusRank | admin.js:857-868 | upcoming, current, past rank below anything else (ranks 1 to 4) |
| AdminFilters.Compare | admin.js:857-868 | negative iff the first event ranks lower, or ranks the same with a later date; zero iff rank and date are equal |
| AdminFilters.CompareConsistent | admin.js:857-868 | the comparator is antisymmetric and transitive |
| AdminFilters.OrderedMeansRankThenDate | admin.js:857-868 | in sorted order ranks ascend and equal ranks have descending dates |
| AdminFilters.InsertEvent | admin.js:857-868 | inserting keeps the multiset of events |
| AdminFilters.InsertEventOrdered | admin.js:857-868 | inserting into a sorted list keeps it sorted |
| AdminFilters.SortEvents | admin.js:857-868 | the sort yields a sorted permutation |
| AdminFilters.CeilDiv | admin.js:211 | the ceiling of n/d is the least q with n <= q*d |
| AdminFilters.IsRecentCollection | admin.js:206-213 | a missing date is never recent; a collection created now is |
| AdminFilters.RecentWithinThirtyDays | admin.js:206-213 | recent iff the date is within 30 days of now, in either direction |
| AdminSubmit.SubmitType | admin.js:2013-2020 | gallery-featured is kept; any other section drops its last char |
| AdminSubmit.RequestFor | admin.js:2063-2070 | PUT iff there is an id; the URL is the collection URL, extended by "/id" |
| AdminSubmit.SectionRoundTrip | admin.js:2013-2070 | for a plural section the request goes to "/section", or "/section/id" |
| AdminSubmit.ValuesOf | admin.js:2079-2090 | FormData.getAll: empty iff no entry has the name |
| AdminSubmit.ValuesOfSnoc | admin.js:2079-2090 | appending an entry extends the values of its name only |
| AdminSubmit.Get | admin.js:2024-2025 | FormData.get: null exactly when no entry has the name, otherwise the value of the first entry carrying it |
| AdminSubmit.ValidFileCount | admin.js:2039-2041 | zero iff no value is a non-empty file |
| AdminSubmit.PreSubmitCheck | admin.js:2022-2046 | gallery-featured needs a gallery id and a non-blank title; a new event needs 10 files; other forms proceed |
| AdminSubmit.WithoutName | admin.js:2047-2050 | removing a name leaves the other names' values |
| AdminSubmit.SetEntry | admin.js:2047-2050 | FormData.set leaves the one value under that name and keeps the others |
| AdminSubmit.ConvertCheckboxes | admin.js:2047-2050 | the loop sets every checkbox in turn |
| AdminSubmit.CheckboxSubmitted | admin.js:2047-2050 | each checkbox is submitted as "1" if checked, else "0" (the last box with a name wins) |
| AdminSubmit.CheckboxesLeaveOthers | admin.js:2047-2050 | fields that are not checkboxes are untouched |
| AdminSubmit.EntriesToJson | admin.js:2079-2090 | the loop builds the per-entry merge of the whole form |
| AdminSubmit.FirstTruthy | admin.js:2079-2090 | the first truthy value, or none iff none is truthy |
| AdminSubmit.FirstTruthySnoc | admin.js:2079-2090 | appending a value keeps an existing first truthy value |
| AdminSubmit.KeyResultSnoc | admin.js:2079-2090 | the per-key reference result follows the loop one entry at a time |
| AdminSubmit.FormJsonPerKey | admin.js:2079-2090 | a key is in the JSON iff the form has it, with the value the reference per-key rule gives |
| AdminSubmit.FormJson | admin.js:2079-2090 | the JSON holds exactly the names of the form |
| AdminSubmit.SingleAndRepeated | admin.js:2079-2090 | one value is a scalar; repeated truthy values become a list in order |
| AdminSubmit.EmptyThenFilled | admin.js:2079-2090 | an earlier falsy value is overwritten, not collected |
| AdminSubmit.Submit | admin.js:2010-2098 | a failed check stops or aborts; otherwise one request with the derived verb and URL, multipart iff a file is present, JSON of the converted form with the status select applied otherwise |
| AdminSubmit.CheckboxInJson | admin.js:2047-2090 | in the JSON body each checkbox appears as "1" or "0" |
| Settings.ProfileImageKey | settings.js:3-7 | the key is the prefix followed by the user id, else the email, else "default" |
| Settings.KeysSeparateUsers | settings.js:3-7 | different user ids give different keys |
| Settings.FirstChars | settings.js:124 | at most one char per word |
| Settings.Initials | settings.js:124 | the initials contain no lowercase letter |
| Settings.SingleWordInitial | settings.js:124 | a single word gives its uppercased first char |
| Settings.WordThenRest | settings.js:124 | a word followed by a space contributes its initial before the rest |
| Settings.Trimmed | settings.js:146-148 | the three password fields are trimmed and the button state is kept |
| Js.TrimIsSlice | settings.js:146-148 | a trimmed text is the slice between its leading and trailing runs of white space |
| Settings.TrimmedIdempotent | settings.js:146-148 | trimming the form twice is trimming it once |
| Settings.PasswordEmail | settings.js:170-179 | the email is localStorage, else sessionStorage, else the registered email; none iff all are empty |
| Settings.FirstFailing | settings.js:141-179 | the first failing client rule, or none iff all hold |
| Settings.CheckTrimmed | settings.js:141-195 | the first failing rule refuses with its message; otherwise the request is posted |
| Settings.FirstFailingUnfolded | settings.js:141-179 | the rules run button, fields, match, length, change, login, in this order |
| Settings.PostedMeansChecked | settings.js:141-195 | a request is sent iff every check passes, and it carries the email and the trimmed passwords |
| Settings.SubmitPasswordChange | settings.js:136-195 | a disabled button refuses with the third-party message; mismatching fields with the mismatch message; a posted request carries a non-empty email, the trimmed current password and the trimmed new password (equal to the trimmed confirmation) |
| Settings.ServerValidIsLongEnough | server.js:102-126 | a server-valid password is at least 4 chars |
| Settings.ClientLooserThanServer | settings.js:160-163 | a posted new password shorter than 8 is refused by the server on length |
| Settings.ShortRejected | server.js:1285 | the server refuses any new password shorter than 8 on length |
| Auth.FirstMatch | auth.js:89-114 | the first row matching the query, or none iff none matches |
| Auth.FirstMatchIs | auth.js:89-114 | a matching row with no earlier match is the first match |
| Auth.LocalVerify | auth.js:12-22 | an error is passed on; an unknown email gives "User not found"; a mismatch "Invalid password"; otherwise the user |
| Auth.OAuthEmail | auth.js:83 | the first profile email, else "<provider>-<id>@oauth.local" |
| Auth.PlaceholderEmailsDistinct | auth.js:83 | two profiles without emails and with different ids get different placeholder emails |
| Auth.DisplayName | auth.js:84 | displayName, else givenName, else "User" (never empty) |
| Auth.SplitName | auth.js:85 | first and second word; one word gives an empty last name |
| Auth.SplitNameWords | auth.js:85 | words after the second are dropped |
| Auth.Picture | auth.js:86-87 | the first photo's `value` when it is an object with a present value, the photo itself when it is a non-empty text, else none; a result is never empty |
| Auth.RefreshOr | auth.js:95 | the result is the new token or the stored one, and a stored refresh token is never lost |
| Auth.Coalesce | auth.js:94 | the result is the new value or the column, and a stored column is never replaced by null |
| Auth.Refreshed | auth.js:94-95 | a refresh stores the new access token, keeps a refresh token and a picture once stored, and changes no other column |
| Auth.LinkedRow | auth.js:106-107 | linking stores provider, id and both tokens, keeps a stored picture, and changes no other column |
| Auth.NewOAuthRow | auth.js:115-126 | a new user has no password, type visitor, role user, and the derived email, names and OAuth link |
| Auth.UserStore.constructor | auth.js:81-131 | the table starts empty |
| Auth.UserStore.FindOrCreateOAuthUser | auth.js:81-131 | a failure changes nothing; an OAuth match refreshes tokens and returns the row read before; else an email match is linked and re-read; else one user is inserted; the authenticated user is the first OAuth match afterwards |
| Auth.UserStore.SignInTwice | auth.js:81-131 | signing in twice yields the same user and inserts at most one row |
| Auth.Deserialize | auth.js:75-79 | the row with that id, or none iff there is none |
| Auth.SessionRoundTrip | auth.js:71-79 | with distinct ids, deserialising the stored id gives the user back |
| Auth.OAuthUserRejectedLocally | auth.js:12-22 | a user created through OAuth cannot sign in with a password |
| Auth.BearerToken | auth.js:150 | the second space-separated part of the header (which contains no space) |
| Auth.RequireAuth | auth.js:149-158 | no token gives "No token provided"; an unverifiable one "Invalid token"; a valid one attaches the payload |
| Auth.BearerHeader | auth.js:150 | "Bearer t" and "Bearer t rest" both give t |
| Auth.NoSchemeNoToken | auth.js:149-158 | a bare token without a scheme is refused as missing |

## Left out

- HTTP routing, middleware, response plumbing and server-rendered pages. The shadowed duplicate routes are dead code and are not modelled.
- SQLite itself: tables are sequences or sets, and SQL predicates are Dafny predicates. `LIKE` search and the dashboard counts are not modelled. SQLite type affinity is not modelled.
- Failures of individual queries are boolean parameters. Callback ordering and the async fan-in counters are not modelled.
- socket.io: the broadcast is an appended log in `NotificationStore.Store`, and client sockets are not modelled.
- Uploads (multer/Cloudinary) and the filesystem are not modelled. An uploaded file is its URL, or its size in the admin form.
- `JSON.parse`/`JSON.stringify` are function parameters. File values in a JSON body are not modelled, since stringify turns them into `{}`.
- Passport strategies, OAuth provider configuration, and jwt sign/verify are not modelled. Token verification is a function parameter.
- Auth.OAuthEmail: a profile email is its text; an email entry without a `value` (which the server would read as undefined) cannot be represented.
- SearchDropdown.Dropdown.Type: the 300 ms debounce timer is not modelled; the method returns the query the timer would pass to updateDropdown.
- passport's `done`/error plumbing is not modelled.
- Auth.UserStore.FindOrCreateOAuthUser: the SELECT after an insert, and the re-read after a link, are assumed to succeed whenever the write did.
- Dates, time zones and `toLocaleDateString` are not modelled: times are integer milliseconds (client) or seconds (server), and a local date string is a parameter.
- An event date that does not parse (NaN) is not modelled.
- Numbers are integers only; fractions and NaN are not modelled.
- RowDefaults.FeaturedFlag: `==` against 1 is modelled for texts, numbers, booleans and absent values only. Arrays and objects, which JavaScript converts to a primitive first (`[1] == 1` holds), and texts in fraction or exponent notation ("1.0", "1e0"), which `Number()` reads as 1, are not modelled; the model stores 0 for them where the server stores 1.
- Passwords.ChangePassword: the body fields are texts; non-string JSON values in the body are not represented.
- SchemaProbe.StartupAlters: the chain goes on after Galleries to the Museums probe, and a failed Artworks PRAGMA runs insertDefaultData; neither is part of this model.
- `toLowerCase`/`toUpperCase` are ASCII-only.
- String lengths count chars, not UTF-16 units.
- Object lookups ignore inherited prototype keys.
- Ties in SQL ORDER BY and in `Array.sort` are not modelled. Listing and sorting promise an order up to ties, not one particular tie order.
- AdminFilters.FieldText: a truthy non-string field that the source would pass to `toLowerCase` (a TypeError) yields None, and the whole filter reports it.
- SearchDropdown.Dropdown.Hide: only the selection and visibility are modelled; the rendered items are not.
- SearchDropdown.Dropdown.UpdateDropdown: a missing result list in the response is treated as empty.
- DOM rendering, modals, localStorage writes, alerts, and profile.js are not modelled.
- The settings profile-form submit is not modelled: it only writes localStorage and shows a message.
- The handling of the change-password response after the fetch is not modelled.
- Settings.Initials: no bound on the length of the initials is stated.
- The one-shot migration, maintenance and probe scripts are not modelled.

## Findings

| source | as written | input that shows it | evidently intended | confidence | as-written member | corrected member |
|---|---|---|---|---|---|---|
| server.js:2341 | `artwork_source` defaults to `[]`, which is truthy, so the `else if (req.body.artworks)` fallback at server.js:2380-2386 is dead and the final decision stores the assembled (empty) list | PUT /events/:id with a body carrying `artworks` and no `artwork_source` stores `[]`, erasing the event's artworks | store the artworks sent in the body when no source list is given | not executed | Events.FinalArtworksAsWritten | Events.FinalArtworksIntended |
| script.js:1446-1461 | the page map is keyed by capitalised type names (`Artist`, `Artwork`, ...), while the server writes lowercase `related_item_type` tags (server.js:1476) | clicking a notification with type `artist` and id 5 does nothing | open artist-details.html?id=5 | not executed | Navigation.ServerTagsNeverNavigate | Navigation.IntendedIsCapitalised |
