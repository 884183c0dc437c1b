# TinyLink URL shortener — a Dafny model

This project models the core of a small URL-shortening service: an Express
backend (`server.js`) that stores link records in a PostgreSQL table `links`,
and the React dashboard's client-side bookkeeping of its list of links
(`frontend/src/pages/Dashboard.jsx`).

What is modelled:

- **Short codes** (module `ShortCode`): `generateShortCode`, which appends six
  characters drawn from the 62-character alphabet `A–Z a–z 0–9`, and the
  custom-code pattern `^[a-zA-Z0-9]{6,8}$`. The random draws are an input.
  The model proves that the draws and the six-character codes correspond one
  to one, and that a generated code also matches the custom-code pattern.
- **CORS origin policy** (module `Cors`): the allow-list is `ALLOWED_ORIGINS`
  split on `,`, or `["http://localhost:3000"]` when the setting is unset or
  empty. The `origin` callback admits a request with no Origin, and otherwise
  looks the Origin up with `indexOf`. Split and join are proved inverse. An
  Origin is proved admitted exactly when it fills a whole comma-delimited
  field of the setting, with no trimming.
- **The `links` table and its handlers** (modules `Links` and `Server`). The
  class `Server.LinkTable` holds the rows in insertion order, the next value
  of the SERIAL id sequence, and the latest database time it recorded. The
  methods `Create`, `List`, `Get`, `Delete` and `Redirect` model
  `POST /api/links`, `GET /api/links`, `GET /api/links/:code`,
  `DELETE /api/links/:code` and `GET /:code`. Each returns a
  `Response(status, body)`. Every state-changing handler keeps the table
  invariant `TableInvariant`:
  - short codes are unique
  - ids increase and stay below the next sequence value
  - rows are in creation order
  - every code matches the code pattern
  - no stored URL holds U+0000, which PostgreSQL text cannot hold
  - counters fit a PostgreSQL INT
  - timestamps are ordered and never ahead of the clock
- **Dashboard bookkeeping** (module `Dashboard`): `handleLinkCreated`
  prepends and `handleLinkDeleted` filters by code. Both are proved to agree
  with what reloading the list from the server would show after the matching
  server-side create or delete, when no two rows share a `created_at` (the
  comparison uses the model's own order for ties).

Validation order in create follows the code:
1. A missing, empty or unparsable `original_url` gives 400 "Invalid URL provided".
2. Otherwise a present, non-empty `custom_code` that does not match the
   pattern gives 400.
3. An absent or empty custom code falls back to a generated code.
4. A code already in the table gives 409. Generated codes are not retried.
5. Otherwise the row is inserted.

Every rejection leaves the table untouched.

Uniqueness of codes rests on a SELECT before the INSERT (server.js:97-104);
the UNIQUE constraint on `short_code` (server.js:41) is only the backstop.
The list endpoint omits `updated_at` (server.js:122). Delete answers with a
message, not the deleted row (server.js:164).

## Model

| member | source | states |
|---|---|---|
| ShortCode.GenerateShortCode | server.js:68-75 | the code has exactly 6 characters, each taken from the alphabet; character i is the alphabet entry at draw i |
| ShortCode.CharIndex | server.js:69 | every character of `[a-zA-Z0-9]` occurs in the alphabet, at the returned position |
| ShortCode.CharsAlphanumericAndDistinct | server.js:69 | the alphabet has 62 characters, all alphanumeric and pairwise distinct |
| ShortCode.GeneratedCodeMatchesPattern | server.js:68-75 | a generated code has length 6 and matches `^[a-zA-Z0-9]{6,8}$` |
| ShortCode.EveryCodeIsGenerated | server.js:68-75 | every 6-character alphanumeric code is produced by some valid draws |
| ShortCode.DrawsAreRecovered | server.js:68-75 | the draws can be read back from the code, so distinct draws give distinct codes |
| Cors.Split | server.js:15 | splitting yields at least one piece and no piece contains the separator |
| Cors.JoinSplit | server.js:15 | joining the pieces of a split with the separator gives back the setting |
| Cors.SplitJoin | server.js:15 | splitting the join of separator-free pieces gives back the pieces |
| Cors.SplitAtSeparator | server.js:15 | a split distributes over an occurrence of the separator |
| Cors.ListedIffField | server.js:14-16 | a string is in the split list iff it fills a whole separator-delimited field of the setting |
| Cors.IndexOf | server.js:23 | `indexOf` returns -1 iff the origin is absent, else the position of its first occurrence |
| Cors.CheckOrigin | server.js:19-28 | the callback allows iff there is no (or an empty) Origin or the Origin is listed; otherwise it rejects with "Not allowed by CORS" |
| Cors.OriginPolicy | server.js:14-28 | with ALLOWED_ORIGINS set, an Origin passes iff it is exactly one comma-delimited field of the setting |
| Cors.SplitKeepsBlanks | server.js:14-16 | "http://a.com, http://b.com" yields the list ["http://a.com", " http://b.com"], with the blank kept |
| Cors.NoTrimming | server.js:14-28 | under that setting "http://b.com" is rejected and " http://b.com" is admitted |
| Cors.AllowedOrigins | server.js:14-16 | the allow-list is the setting split on `,` when the setting is present and non-empty, and `["http://localhost:3000"]` otherwise; the list is never empty and no entry contains a comma |
| ShortCode.MatchesCodePattern | server.js:93 | a string matches `^[a-zA-Z0-9]{6,8}$`: 6 to 8 characters, each an ASCII letter or digit |
| Links.NewRow | server.js:41-46 | the row an INSERT of a code and URL creates: the given id, code and URL, 0 clicks, no last click, created and updated now |
| Links.Clicked | server.js:193 | the row after a click: clicks plus one, last click and update time set to now, every other column kept |
| Links.NewestFirst | server.js:122 | the rows, most recently inserted first, each without `updated_at`; as long as the table |
| Server.Truthy | server.js:87-93 | the JavaScript falsiness tests on `original_url` and `custom_code`: an absent value and the empty string are false |
| Links.Position | server.js:135-144 | the lookup by code finds nothing iff no row has the code, and otherwise finds the first row that has it |
| Links.PositionUnique | server.js:41 | under the UNIQUE constraint the row found is the only row with that code |
| Links.FindIndex | server.js:97-102 | the table scan returns -1 iff no row has the code, and otherwise the position of the matching row |
| Links.NewestFirstAt | server.js:122 | position k of the listing is the k-th most recently inserted row |
| Links.ListIsNewestFirst | server.js:122 | when rows were inserted in creation order, the listing is ordered by `created_at` descending |
| Links.ListIsPermutation | server.js:121-124 | the listing contains every row exactly once |
| Links.ListAfterInsert | server.js:106-109 | after an insert, the new row heads the listing and the old listing follows unchanged |
| Links.WithoutCode | server.js:155-158 | after the DELETE no row has the code, and no row is added |
| Links.WithoutAbsentCode | server.js:155-162 | deleting a code that no row has leaves the table as it was |
| Links.WithoutCodeRemovesOne | server.js:155-158 | under unique codes, deleting a present code removes exactly its row and keeps the others in order |
| Links.TotalClicksUpdate | server.js:192-195 | replacing one row changes the sum of counters by exactly that row's change |
| Server.Validate | server.js:85-95 | a bad URL gives 400 "Invalid URL provided" whatever the custom code; a bad non-empty custom code gives the other 400, but only when the URL is good; an accepted request's code matches the pattern, and is the custom code, or a generated code when the custom code is absent or empty |
| Server.RemovalKeepsInvariant | server.js:155-158 | removing a row keeps codes unique, ids increasing, creation order and row well-formedness |
| Server.ClickKeepsInvariant | server.js:192-195 | counting a click below the INT bound at a time not before the clock keeps the table invariant |
| Server.LinkTable.constructor | server.js:39-47 | a new table is empty, its id sequence starts at 1, and it satisfies the invariant |
| Server.LinkTable.Create | server.js:83-116 | rejections (400, 409, and 500 when the URL holds U+0000 or the id sequence is exhausted) leave the table unchanged. Success answers 201 with a new row: the requested code and URL, 0 clicks, no last click, created and updated now, and the next id. The table becomes the old one plus that row, with codes still unique |
| Server.LinkTable.List | server.js:119-129 | answers 200 with every row exactly once, without `updated_at`, ordered by `created_at` descending |
| Server.LinkTable.Get | server.js:132-149 | answers 500 when the code holds U+0000. Otherwise it answers 404 when no row has the code, and 200 with the row that has it, unchanged |
| Server.LinkTable.Delete | server.js:152-169 | an absent code answers 404 with the table unchanged, or 500 if it holds U+0000. A present code answers 200 "Link deleted successfully" and removes exactly that row. Afterwards no row has the code |
| Server.LinkTable.Redirect | server.js:173-206 | an absent code answers 404 with no change, or 500 if it holds U+0000. A present code answers 302 to its original URL. Only that row changes: clicks up by one, last click and update time set to now. The sum of counters grows by exactly one. A counter at the INT bound answers 500 with no change |
| Server.DeleteThenLookup | server.js:152-206 | after a delete, both a lookup and a redirect on the same code answer 404 (500 for a code holding U+0000, which no row can have) |
| Server.NoRowHasUnstorableCode | server.js:91-109 | a code holding U+0000 matches no stored row, because every code inserted is 6-8 alphanumerics |
| Server.ExampleScenario | server.js:83-206 | creating "ABC123" answers 201 with 0 clicks. Following it answers 302 to the URL. Reading it back then shows 1 click and a last click no earlier than creation |
| Dashboard.LinkCreated | frontend/src/pages/Dashboard.jsx:42-44 | the new link is at index 0, followed by the old list unchanged; the length grows by one |
| Dashboard.LinkDeleted | frontend/src/pages/Dashboard.jsx:46-48 | no remaining entry has the code; every entry with another code is kept, with its multiplicity |
| Dashboard.DeletedIsSubsequence | frontend/src/pages/Dashboard.jsx:47 | the result is a subsequence of the list: survivors keep their relative order |
| Dashboard.DeleteAbsentCode | frontend/src/pages/Dashboard.jsx:47 | deleting a code that no entry has returns the list unchanged |
| Dashboard.DeleteIdempotent | frontend/src/pages/Dashboard.jsx:47 | deleting the same code twice is the same as deleting it once |
| Dashboard.CreateThenDelete | frontend/src/pages/Dashboard.jsx:42-48 | deleting the code of a just-prepended link, when no other entry has that code, restores the previous list |
| Dashboard.DeleteAppend | frontend/src/pages/Dashboard.jsx:47 | filtering a concatenation filters each part |
| Dashboard.CreateAgreesWithReload | frontend/src/pages/Dashboard.jsx:42-44 | prepending the created link to a loaded list shows the same rows as reloading after the server's insert |
| Dashboard.DeleteAgreesWithReload | frontend/src/pages/Dashboard.jsx:46-48 | filtering a loaded list by a code gives the same list as reloading after the server's delete |

## Left out

- Express plumbing is not modelled because it is framework I/O: JSON body parsing, `res.status().json()`, `res.redirect`, `dotenv`, the pg pool, `app.listen` and the `/healthz` route (server.js:1-12, 33, 77-80, 209-217).
- `initializeDb` (server.js:36-55) is idempotent DDL. Its schema appears only as the `Link` record and the table invariant.
- `isValidUrl` (server.js:58-65) delegates to the WHATWG `URL` constructor. It is an uninterpreted `string -> bool` parameter.
- `Math.random` / `Math.floor` (server.js:72) are floating point. Each draw is an input index below 62, so uniformity and independence are not modelled.
- `NOW()` is a `now` parameter. The handlers require it to be no earlier than the latest time the table recorded, so the database clock is assumed monotone.
- Request bodies are modelled as strings or absent. Non-string JSON values (numbers, booleans, objects) for `original_url` and `custom_code` are not modelled. Absent and empty strings are both falsy, as in JavaScript.
- Concurrency is not modelled; each handler runs atomically. This leaves out two races: between the SELECT and the INSERT in create (server.js:97-109), and between concurrent click increments (server.js:192-195).
- Server.LinkTable.Redirect: the `UPDATE ... WHERE id = $1` is modelled as an update of the row the lookup found. This is the same row, because the invariant keeps ids unique.
- Server.LinkTable.List: rows with equal `created_at` are listed newest-inserted first. The contract promises only the order and the permutation, as `ORDER BY created_at DESC` does. Dashboard.CreateAgreesWithReload and Dashboard.DeleteAgreesWithReload compare with that model order, so for rows with equal `created_at` they say nothing about the order a real reload returns.
- The 500 catch blocks for foreign storage failures are not modelled, and neither is logging. Three deterministic failures are modelled: an INT overflow of `clicks`, an exhausted SERIAL sequence, and a code or URL holding U+0000, which PostgreSQL refuses as a text parameter. Each answers 500 and changes nothing.
- Route matching order is not modelled. Note that the custom code `healthz` passes validation, but `GET /healthz` is served by the health route and never redirects.
- Everything in the frontend except the two Dashboard callbacks is not modelled: fetching, rendering, the clipboard, alerts, navigation, URL truncation and the uppercasing of custom codes in the form.
- React's capture of `links` by each render is not modelled, so two updates before a re-render would lose one.
