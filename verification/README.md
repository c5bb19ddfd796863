# XTube video-metadata store, modelled in Dafny

XTube is a small video-sharing site. Its Node server (`server.js`) keeps one
JSON store, `db = {users, videos, reactions}`, in memory. Every handler that
completes a view, a reaction change, a comment or a signup writes the whole
store back to `db.json`. A record that `getVideoMeta` creates on the way to an
error answer, or while listing comments, stays in memory until the next write.
This project models that store
and the request handlers that read and change it:

- the catalog synchroniser `syncVideos`;
- the auto-vivifying lookup `getVideoMeta`;
- the view, reaction and comment handlers;
- signup validation;
- the choice of identity key (`ensureGuestKey`).

It also models two pieces of client logic from `public/app.js`: HTML escaping,
and the once-per-video view registration with the liked percentage.

The store is the class `Server.Store`. Its fields are the three maps of `db`
plus `disk`, the last state that `persistDb` wrote. Each handler is a method.
The method's contract gives the new state through specification functions:

- `Metadata.SyncedVideos` and `Metadata.SyncedReactions` for a sync;
- `Metadata.WithEntry` for the lookup;
- `Ledger.Transition` and `Ledger.Reacted` for a reaction.

Lemmas about those functions carry what the server promises:

- after a sync the stored ids are exactly the catalog ids;
- surviving videos keep their counters and comments;
- syncing is idempotent;
- a removed video that is re-added starts from zero;
- every request keeps the like and dislike counters equal to the tally of
  reaction records, for every identity key that a JavaScript object stores
  as an own property. The key `__proto__` is not one of them; see
  "## Findings".

Every handler method also states whether the store was persisted before it
answers.

Modules, leaf first: `Api` (Option, Result, the error responses),
`Catalog` (the static `cloudVideos` list), `JsString` (`trim`, ASCII
`toLowerCase`, `slice`), `Escape`, `Metadata`, `Ledger`, `Listing` (the
summaries and the newest-first sort), `Accounts`, `Server`, `Client`.

`server.js` serves no byte ranges, and its catalog is the fixed three-entry
`cloudVideos` list, which `Catalog.CloudVideos` holds. The store takes its catalog
as a constructor argument, so the sync lemmas hold for any catalog whose ids are ordinary object keys.

## Model

| member | source | states |
|---|---|---|
| `JsString.Trim` | server.js:214 | `text.trim()` returns an infix of the input with only whitespace around it. It neither starts nor ends with whitespace. It is empty exactly when the input is all whitespace. |
| `JsString.SkipLeading` | server.js:214 | Every character skipped at the front is whitespace, and the scan stops at the first character that is not. |
| `JsString.SkipTrailing` | server.js:214 | Every character dropped at the end is whitespace, and what remains does not end with whitespace. |
| `JsString.AsciiLower` | server.js:109-111 | Lower-casing keeps the length and maps each character on its own. |
| `JsString.Prefix` | server.js:222 | `slice(0, 500)` gives the prefix of the text whose length is the smaller of 500 and the text's length: longer text is cut to exactly its first 500 characters, and shorter text is left whole. |
| `Escape.ReplaceAll` | public/app.js:402-406 | A global `replace` removes every occurrence of the replaced character unless the replacement contains it. It leaves text without that character unchanged. |
| `Escape.EscapeHtml` | public/app.js:400-407 | The five chained replacements, `&` first. The output contains no `<`, `>`, `"` or `'`, and it is never shorter than the input. |
| `Escape.EscapeHtmlChar` | public/app.js:402-406 | On one character the five-step chain yields exactly that character's entity. Because `&` is replaced first, the `&` of a later entity is not escaped again. |
| `Escape.EscapeHtmlAppend` | public/app.js:400-407 | Escaping distributes over concatenation. |
| `Escape.EscapeHtmlIsPerChar` | public/app.js:400-407 | The replacement chain equals escaping each character independently, left to right. |
| `Escape.EscapeHtmlSafe` | public/app.js:400-407 | The output contains no `<`, `>`, `"` or `'`, and every `&` in it begins `&amp;`, `&lt;`, `&gt;`, `&quot;` or `&#039;`. |
| `Escape.EscapeHtmlRoundTrip` | public/app.js:400-407 | Reading the entities back recovers the input, so every character survives in order. |
| `Escape.EscapeHtmlPlain` | public/app.js:400-407 | Text without any of the five special characters comes back unchanged. |
| `Metadata.Defaulted` | server.js:371-376 | A missing field becomes 0 or `[]`, and a present field keeps its value. |
| `Metadata.Settled` | server.js:364-376 | A catalog id's record after a sync is complete. A missing record becomes the zeroed one, and a complete record is kept as it is. |
| `Metadata.SyncedVideos` | server.js:363-377 | After a sync the metadata keys are exactly the catalog ids. |
| `Metadata.Purged` | server.js:356-361 | The purged ids are exactly those stored but absent from the catalog. |
| `Metadata.SyncedReactions` | server.js:356-361 | A sync drops the reaction map of exactly the purged ids and keeps every other one. |
| `Metadata.WithEntry` | server.js:404-406 | The lookup adds a zeroed record only when the id has none, and keeps every existing record. |
| `Metadata.PurgeThenSettle` | server.js:352-377 | Running the purge pass before the create-or-complete pass gives the same records as creating or completing from the original map. |
| `Metadata.SyncShape` | server.js:352-377 | After a sync the keys equal the catalog ids and every record is complete. A purged id has neither metadata nor reactions. Reaction maps of ids that are not purged survive unchanged. |
| `Metadata.SyncKeepsSurvivors` | server.js:363-377 | A surviving video keeps every present counter and its comments, and a complete record is unchanged. A video new to the store starts at 0/0/0 with no comments. |
| `Metadata.SyncIdempotent` | server.js:352-397 | Syncing a second time against the same catalog changes neither metadata nor reactions. |
| `Metadata.NoResurrection` | server.js:356-370 | A video dropped from the catalog and later re-added starts from a zeroed record with no reactions. |
| `Ledger.ParseReaction` | server.js:171-174 | Only `"like"` and `"dislike"` are accepted reaction types. |
| `Ledger.RecordsOf` | server.js:176 | The video's entry of `db.reactions`, or the empty map when it has none. |
| `Ledger.Transition` | server.js:177-193 | A repeat leaves the counters alone. Otherwise the requested counter rises by exactly one and the previously held one, if any, drops by one but not below zero. The total rises by at most one. |
| `Ledger.LedgerConsistent` | server.js:165-197 | The store invariant. Reaction maps exist only for videos with metadata, and every video's like and dislike counters are present. The empty store satisfies it. |
| `Ledger.SameCountersKeepLedger` | server.js:154-163 | Replacing a record by one with the same counters keeps the store consistent. A view does this, and so does a comment. |
| `Ledger.Holders` | server.js:184-194 | The holders of a reaction are exactly the identity keys whose record is that reaction. |
| `Ledger.TallyUpdate` | server.js:194 | Setting one identity's record moves that identity from its old tally to the new one and leaves every other tally alone. |
| `Ledger.TransitionKeepsTally` | server.js:176-194 | Counters equal to the tallies before a request equal the tallies after it. This covers repeats, first reactions and switches. |
| `Ledger.RepeatIsNoOp` | server.js:177-183 | Re-submitting the reaction an identity already holds changes neither the counters nor the records. |
| `Ledger.SwitchMovesOneVote` | server.js:184-193 | With consistent counters, a switch moves exactly one vote. The old counter drops by one, the zero floor is never reached, and the new counter rises by one. |
| `Ledger.Reacted` | server.js:176-194 | A reaction keeps the set of videos with metadata and gives the video a reaction map. |
| `Ledger.ReactKeepsLedger` | server.js:165-197 | Every reaction request keeps the store consistent: every video's counters equal the tally of its records. This is the corrected behaviour, with the records as a true map. |
| `Ledger.ReactedAsWritten` | server.js:176-194 | The react step on a plain JavaScript object. For any key other than `__proto__` it is `Reacted`. For `__proto__` the records are left as they were while the counters move. |
| `Ledger.ProtoKeyBreaksLedger` | server.js:177-194 | As written, a reaction under the guest key `__proto__` raises the requested counter by one and stores no record, so a consistent store becomes inconsistent. |
| `Ledger.SyncKeepsLedger` | server.js:352-377 | A sync keeps the store consistent. Purged videos lose metadata and reactions together, and new videos have no records. |
| `Ledger.WithEntryKeepsLedger` | server.js:399-408 | Creating a zeroed record keeps the store consistent. |
| `Ledger.IdentityKey` | server.js:332-346 | A signed-in user reacts under the user id. A guest reacts under the guest id the client holds after the response. A fresh guest id is issued whenever no guest cookie came, signed in or not. |
| `Listing.SummaryOf` | server.js:382-395 | A summary carries its entry's id, title, URLs and upload time. It also carries the stored counters and the number of stored comments. |
| `Listing.Summaries` | server.js:381-395 | There is one summary per catalog entry, in catalog order. |
| `Listing.Insert` | server.js:396 | Inserting into a newest-first list keeps it newest first and adds exactly one element. |
| `Listing.SortNewestFirst` | server.js:396 | The sort returns a newest-first rearrangement of its input. |
| `Listing.ListingShape` | server.js:381-396 | The list is a newest-first rearrangement of the catalog-order summaries. Every catalog entry's summary appears in it, each element is the summary of a catalog entry, and its `commentsCount` is that video's comment count. |
| `Listing.SyncedCovers` | server.js:363-392 | After a sync every catalog entry has a record with a comment list, so building the summaries cannot fail. |
| `Accounts.SignupError` | server.js:99-114 | A signup is accepted exactly when the username has 3 to 32 characters, the password has at least 6, and no account has the same username ignoring case. Errors are 400, or 409 exactly for a taken name. |
| `Accounts.SignupKeepsNamesUnique` | server.js:109-122 | An accepted signup, taken as one atomic step, keeps usernames unique up to case. |
| `Catalog.Ids` | server.js:353 | The catalog ids, one per entry in catalog order. |
| `Catalog.CloudCatalog` | server.js:34-62 | The deployed catalog `CloudVideos` has three entries with distinct ids, listed from the oldest upload to the newest. |
| `Server.LoadDb` | server.js:264-288 | A well-typed field of db.json is kept, and any other field becomes empty. An unreadable or unparseable file gives the empty store. |
| `Server.Store.constructor` | server.js:64-65 | Start-up loads db.json and syncs it. The store then holds the synced state, is complete and is persisted. It is consistent when the loaded store was, and always when there was no readable file. |
| `Server.Store.Persist` | server.js:274-276 | The stored copy becomes the whole current store. |
| `Server.Store.Sync` | server.js:352-397 | The new store is the synced store. Users are unchanged, the store is persisted and consistency is kept. The result is the newest-first list of catalog summaries. |
| `Server.Store.PurgeRemoved` | server.js:356-361 | The loop over the stored keys deletes exactly the purged ids from both maps. |
| `Server.Store.CompleteCatalog` | server.js:363-377 | The loop over the catalog ids creates or completes every catalog record. |
| `Server.Store.GetVideoMeta` | server.js:399-408 | An id outside the catalog gives `None` and leaves the store untouched. A catalog id gives its record, which is created zeroed only if it was missing. |
| `Server.Store.RecordView` | server.js:154-163 | An unknown video gives 404 with nothing changed. Otherwise views rise by exactly one, the new count is returned, and the store is persisted. |
| `Server.Store.React` | server.js:165-197 | An unknown video gives 404 and a bad type gives 400, in both cases before any counter or record changes. Otherwise the counters follow `Transition` and the identity's record becomes the requested type. A repeat is not persisted and anything else is. |
| `Server.Store.RecordReaction` | server.js:175-196 | This is the ledger step of the react handler. It updates only the one video's counters and the one identity's record, and keeps the store consistent. |
| `Server.Store.ListComments` | server.js:199-206 | An unknown video gives 404. Otherwise it returns the video's comments in insertion order. Consistency is kept. |
| `Server.Store.AddComment` | server.js:208-228 | A request without a user gives 401 and an unknown video gives 404. Blank text gives 400. Otherwise the trimmed text, cut to 500 characters, is appended as the last comment and the store is persisted. |
| `Server.Store.AppendComment` | server.js:225-226 | The comment becomes the last entry of the video's list. Nothing else changes, the store is persisted, and consistency is kept. |
| `Server.Store.Signup` | server.js:98-126 | A rejected signup returns the validation error with nothing changed. An accepted one appends exactly one account with no profile picture and persists. Between sequential signups, usernames stay unique up to case. |
| `Client.PostedAtMostOnce` | public/app.js:313-315 | Over any sequence of `registerView` calls, a view is posted at most once per id. It is posted exactly for the called ids not viewed at the start. |
| `Client.ViewTracker.RegisterView` | public/app.js:313-315 | A request is sent exactly when the id was not yet viewed. Afterwards the id is in the viewed set. |
| `Client.LikeRatio` | public/app.js:354-361 | The liked percentage is 100 with no votes. Otherwise it is the nearest integer to `100 * likes / total`, with halves rounded up. It is at most 100, is 100 with no dislikes, and is 0 with only dislikes. |
| `Client.RoundedRatio` | public/app.js:358 | The integer formula stays in 0..100 and lies within half a point of the exact percentage. |

## Left out

- Server.Store.React: reaction records are modelled as a map, not as a JavaScript object, so every identity key, `__proto__` included, is stored as an ordinary key. The source's behaviour for `__proto__` is modelled separately by `Ledger.ReactedAsWritten`; see "## Findings".
- Server.Store.RecordReaction: the same map modelling applies. For the key `__proto__` the source moves the counter and keeps no record, and this method instead stores the record.
- Ledger.ReactKeepsLedger: it states the corrected behaviour. In the source it fails for the guest key `__proto__`, as `Ledger.ProtoKeyBreaksLedger` proves.
- Counters are unbounded integers. In the source they are JavaScript doubles, exact only up to 2^53.
- The sync lemmas hold for any catalog whose ids are ordinary object keys. A catalog id that names an inherited property, such as `constructor` or `__proto__`, is read through the object's prototype in the source, and the model does not capture that. The deployed ids are 32-character hex strings.
- Express routing, middleware, static file serving and `app.listen` (server.js:67-89, 245-256) are framework plumbing. Each handler is a method of the store, and its request fields are parameters.
- Cookies and JWTs (`attachUser`, `requireAuth`, `setAuthCookie`, server.js:298-330) are not modelled. The signed-in user reaches a handler as an `Option<User>` parameter, the identity key as a string, and the guest cookie and a fresh guest id as strings.
- Login and logout (server.js:128-147) are not modelled, because the login check is the bcrypt library's password comparison.
- The profile-picture upload (server.js:230-243) and `publicUser` (server.js:290-296) are not modelled. They depend on multer's file handling and on `encodeURIComponent`, which are library behaviour.
- `bcrypt.hash` and `uuidv4` are library calls. Hashes and generated ids are parameters, and the model does not assume they are unique.
- `decodeId` (`decodeURIComponent`) is library behaviour. Ids arrive already decoded.
- `persistDb` and `loadDb` file I/O and JSON (de)serialisation are replaced by the `disk` field and the `StoredDb` value. A write error is not modelled.
- JSON typing is reduced to present or absent. `normalizeDb` also keeps an array where an object is expected. A null metadata entry is treated like a missing one. A reaction string other than like/dislike, and a counter that is negative, fractional or non-numeric, cannot appear in the model.
- `new Date()` and ISO date parsing are replaced by integer timestamps in seconds since the Unix epoch.
- Listing.SortNewestFirst: its contract states sortedness and permutation only. It does not state that ties keep catalog order. The insertion it uses does keep that order, matching the stable `Array.prototype.sort`.
- Client.LikeRatio: `Math.round((likes / total) * 100)` is modelled as exact rational rounding, halves up. Floating-point error at exact halves is not modelled.
- `formatCount` and `formatDate` (public/app.js:384-398), all DOM and `fetch` work, authentication forms and rendering in public/app.js are not modelled. They are display code, float formatting and locale formatting.
- String lengths count Unicode code points, where JavaScript counts UTF-16 code units. This affects the 3-32 username bound, the 6-character password bound and the 500-character comment cut for text outside the Basic Multilingual Plane.
- `toLowerCase` is modelled for the ASCII letters only.
- Concurrency is not modelled: each handler here is one atomic method call. In the source the signup handler is `async`. It awaits `bcrypt.hash` (server.js:115) between the duplicate-name check (server.js:109-114) and `db.users.push` (server.js:122). Two overlapping signups for the same name up to case can therefore both pass the check. The unique-name property of `Accounts.SignupKeepsNamesUnique` and `Server.Store.Signup` holds for signups that do not overlap. The other modelled handlers do not await anything.
- Request body fields are modelled as strings. In the source a non-string `username`, such as a number, has no `length`, so both bound comparisons at server.js:103 are false and the 3-32 check is skipped. Such a value is stored (server.js:118). Later signups and logins then fail at `u.username.toLowerCase()` (server.js:110, 131) when their search reaches it. The model cannot express such a value.
- The counters-equal-tallies invariant (`Ledger.LedgerConsistent`) also requires every reaction map to belong to a video with metadata. A sync purges only the reaction maps of ids that had metadata, so a stored reaction map for an id without metadata is kept. If that id is in the catalog, it then sits next to zeroed counters. Ordinary operation never creates such a map, and every handler keeps the invariant.

## Findings

| source | as written | input that shows it | evidently intended | confidence | as-written member | corrected member |
|---|---|---|---|---|---|---|
| server.js:176-194 | The records of a video are a plain object indexed by the identity key. A guest chooses that key through the `xtube_guest` cookie (server.js:333, 345). For the key `__proto__`, the read at line 177 yields the prototype, so nothing is decremented. The write at line 194 is ignored, so no record is kept, but line 190 still adds a like. | A guest with cookie `xtube_guest=__proto__` posting `{"type": "like"}` to a catalog video, repeatedly: each request adds one like and no record. | Each identity key holds at most one reaction, and the counters equal the tally of records, for example by using a `Map` or an object without a prototype. | high, from reading; not executed | `Ledger.ProtoKeyBreaksLedger` | `Ledger.ReactKeepsLedger` |
