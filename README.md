# React Boost server: cookie parsing, reaction selection, verification and batches

The server takes a Facebook cookie string, a post URL and a reaction kind. It drives a
headless browser to put that reaction on the post. This project models the parts of
`index.js` that decide what happens, and proves properties of them:

- **Cookie parsing** (`Cookies`). `parseCookies` splits the cookie string on `;`, trims
  each segment and cuts it at its first `=`. It keeps a record only when both the name and
  the value are non-empty, and stamps every record with the fixed `.facebook.com` attributes.
  The caller's check is also modelled: a string that gives no record fails the session with
  `Invalid cookies format` before any navigation. `ParseCookies` is the loop itself. It is
  proved equal to the functional definition `ParseCookieString`, and the lemmas are stated
  about that definition.
- **The JavaScript string operations** this code relies on (`Text`): `trim` over the
  ECMAScript whitespace set, one-character `split` and `join`, `includes`, and
  `toLowerCase`.
- **Reaction selection** (`Reactions`). There are two fixed tables, kind to
  label/selector/emoji and kind to click offset. Both are looked up with a `LOVE`
  fallback. `selectReaction` prefers the labelled control and otherwise clicks at the
  table offset from the Like button.
- **Verification** (`Verification`). The in-page scan returns true when some matched
  element passes one of four tests: its label contains `Reacted` or `reactions`, its text
  contains `Reacted`, or its lower-cased label contains the lower-cased kind. The first
  three tests are case-sensitive. `ScanPage` is that loop.
- **One session** (`Sessions`). `sendRealFacebookReaction` is a chain of steps, and the
  first failing step decides the result. The answers of the browser and the site (launch
  errors, page loads, whether a login form shows, button visibility, the reaction menu,
  the elements the scan reads) are gathered in a `World` value.
- **The `/api/batch` handler** (`Batch`). It validates the request, then loops over the
  posts in order. Each post gets a kind from a rotating list, and there is a pause between
  consecutive posts. The handler reports how many sessions succeeded. `RunPosts` is the
  loop. The session it runs for post `i` is a function parameter `send`, and
  `SessionsIn(env)` instantiates it with the session model above.

Two consequences of the code are worth stating on their own:

- Besides segments without `=`, the parser also drops segments whose name or value is
  empty (`a=` and `=v`). `SegmentAtFirstEquals` states exactly when a record is produced.
- Kind lookups are case-sensitive, so `Haha` is not a key and resolves to `LOVE`'s label
  and offset. Only the verification scan ignores case. `MixedCaseKindClicksLove` states
  what a session does with `Haha`, and `SingleCookieHahaScenario` states a session with
  the key `HAHA`.

## Model

| member | source | states |
|---|---|---|
| Text.Trim | index.js:482 | the result is the input with only whitespace removed before and after it (a slice of the input with whitespace on both sides), has no whitespace at either end, is empty exactly when the input is all whitespace, and leaves already-trimmed text unchanged |
| Text.Join | index.js:486 | the first piece starts the joined text, and the separator follows it when more pieces come |
| Text.Contains | index.js:458-461 | nothing longer than the text occurs in it |
| Text.Split | index.js:479 | at least one piece, no piece contains the separator, and joining the pieces with the separator gives back the input |
| Text.SplitJoin | index.js:485-486 | splitting the join of separator-free pieces gives those pieces back |
| Text.SplitCount | index.js:479 | there is exactly one more piece than there are separators |
| Text.Lower | index.js:461 | same length, and each character is lower-cased on its own |
| Cookies.ParseSegment | index.js:482-498 | a record comes only from a segment whose trimmed text has an `=`, carries the fixed attributes, and has a trimmed name and value |
| Cookies.ParseCookies | index.js:477-502 | the loop returns exactly the records of the `;`-segments that parse, in segment order |
| Cookies.ParseCookieString | index.js:477-502 | at most one record per `;`-segment |
| Cookies.SegmentAtFirstEquals | index.js:482-498 | a segment trimming to `n=v`, with `n` free of `=`, gives a record exactly when `n` and `v` are non-empty; the name is `n` trimmed and the value is `v` trimmed, later `=` included |
| Cookies.SegmentWithoutEquals | index.js:482-488 | a segment with no `=` (or a blank one) gives no record |
| Cookies.SegmentCookieWellFormed | index.js:482-497 | a record from a `;`-free segment has a trimmed non-empty name without `=` or `;`, a trimmed non-empty value without `;`, and the fixed attributes |
| Cookies.Origins | index.js:481-499 | each record comes from one segment, records keep segment order, and no segment that parses is dropped |
| Cookies.ParsedCookiesWellFormed | index.js:477-502 | every record of every cookie string is well formed |
| Cookies.BlankInputYieldsNothing | index.js:479-483 | input made only of whitespace and `;` (the empty string included) gives no record, and the session check reports `Invalid cookies format` |
| Cookies.FormatParses | index.js:482-497 | the segment `name=value` of a well-formed record parses back to that record |
| Cookies.RoundTrip | index.js:477-502 | parsing the `;`-joined `name=value` forms of well-formed records gives those records back |
| Cookies.LoadCookies | index.js:215-219 | it succeeds exactly when the parse gives a record, and then carries only well-formed records; otherwise it fails with `Invalid cookies format` |
| Reactions.LookupReaction | index.js:385-395 | the selector of the resolved entry is `[aria-label="<its label>"]` |
| Reactions.LookupOffset | index.js:421-431 | every resolved offset is 60 pixels up and a multiple of 50 between 0 and 300 along |
| Reactions.KindIndex | index.js:385-431 | the resolved position is the kind's own position when it is a key, and `LOVE`'s otherwise |
| Reactions.LookupsAgree | index.js:385-431 | both tables resolve a kind to the same key: the label is that key capitalised, and the offset is `(50 * i, -60)` for its position i |
| Reactions.LabelRow | index.js:385-393 | each label-table row's label is its key capitalised |
| Reactions.OffsetRow | index.js:421-429 | row i of the offset table is `(50 * i, -60)` |
| Reactions.TableKeys | index.js:385-429 | both tables have exactly the seven kinds as keys |
| Reactions.UnknownKindFallsBackToLove | index.js:395-431 | any string that is not a key gets `LOVE`'s entry and offset `(50, -60)` |
| Reactions.LowerCaseLetterMeansLove | index.js:385-395 | a kind containing a lower-case letter is not a key and resolves to the `Love` label |
| Reactions.SelectReaction | index.js:384-442 | a reaction is selected exactly when the labelled control is clickable or the Like button has a box; a label click only ever targets a clickable control |
| Reactions.SelectionStrategies | index.js:397-435 | the labelled control is preferred; otherwise the click lands at the Like button's corner plus the resolved kind's offset |
| Reactions.MixedCaseSelectsLove | index.js:395-409 | with the Love control present, `Haha` clicks the Love control |
| Verification.Indicates | index.js:453-463 | the four-part test on one element; for a non-empty kind, an element with neither label nor text never passes |
| Verification.ReactionShown | index.js:453-466 | some element passes the test, which needs a page with at least one element |
| Verification.ScanPage | index.js:449-467 | the loop answers true exactly when some element passes the label/text test |
| Verification.VerifyReaction | index.js:445-474 | a positive answer needs a page that was read and had at least one element; a failed scan answers false |
| Verification.LowerIdempotent | index.js:461-467 | lower-casing the already lower-cased kind again changes nothing |
| Verification.LabelNamingKindVerifies | index.js:453-463 | an element whose label equals the kind up to case makes the scan succeed |
| Verification.ReactedLabelVerifiesAnyKind | index.js:458-462 | an element labelled `Reacted` makes the scan succeed for every kind |
| Verification.EmptyKindMatchesAnyElement | index.js:461 | with an empty kind the scan succeeds exactly when the page has an element |
| Sessions.SendReaction | index.js:158-381 | a delivered report has parsed cookies, visited the landing page then the post, made the selection click and echoes the kind with the scan's answer; unparsable cookies fail before any navigation; a screenshot is taken only for the missing-button failure; a failure makes no selection click |
| Sessions.Visit | index.js:224-357 | the steps after the cookies are set: one screenshot exactly when the landing page and post load without a login form and no react button is visible; the landing page is always visited first; a delivered report made the selection click and carries the scan's answer |
| Sessions.DeliveredExactlyWhen | index.js:190-357 | delivery happens exactly when the launch, cookie check, landing page, login check, post load, button search and click all pass and a selection is possible |
| Sessions.NoCookieNoNavigation | index.js:215-219 | cookies giving no record fail with `Invalid cookies format`, with no navigation, screenshot or click |
| Sessions.LoginFormStopsBeforePost | index.js:236-243 | a login form on the landing page fails the session before the post is opened |
| Sessions.ScreenshotOnlyWhenButtonMissing | index.js:298-302 | one screenshot is taken exactly when every step up to the post load passed and no react button is visible |
| Sessions.VerificationIsAdvisory | index.js:336-357 | the scanned page never changes whether the session is delivered |
| Sessions.SingleCookieParses | index.js:477-502 | `sid=abc123` gives the single record `sid` = `abc123` |
| Sessions.HahaIgnoringCase | index.js:461-467 | `Haha` and `HAHA` lower-case to the same text |
| Sessions.HahaSelector | index.js:389 | `HAHA` resolves to the selector `[aria-label="Haha"]` |
| Sessions.SingleCookieHahaScenario | index.js:158-357 | with cookie `sid=abc123`, the Haha control in the menu and a `Haha`-labelled element, `HAHA` is delivered by a label click and verified |
| Sessions.MixedCaseKindClicksLove | index.js:327-357 | with usable cookies and the Love control present, kind `Haha` is delivered by clicking Love, and the result echoes `Haha` |
| Batch.AssignedReaction | index.js:116-120 | a post gets a kind exactly when the list in use is non-empty, and that kind comes from the list |
| Batch.SentReaction | index.js:120-124 | the session gets a kind from the list in use, or `LOVE` (the session's parameter default at index.js:158) when that list is empty |
| Batch.EntryFor | index.js:124-129 | an entry records its post, and its session ran with the recorded kind, or with `LOVE` when no kind was recorded |
| Batch.SuccessCount | index.js:140 | the tally is at most the number of results, equals it exactly when all were delivered, and is zero exactly when all failed |
| Batch.RunBatch | index.js:104-152 | a request without cookies or posts gets `Missing required parameters` and runs nothing; otherwise the response has one entry per post in order, the total, the tally and the delays |
| Batch.RunPosts | index.js:115-135 | the loop records, for each post in order, the post, its assigned kind and its session, and runs the sessions with pauses in between |
| Batch.ScheduleAlternates | index.js:118-135 | the events alternate between session i and a pause, with no pause after the last post |
| Batch.PausesSoFar | index.js:131-134 | after k iterations there have been k pauses, or n-1 once the loop over n posts is done |
| Batch.PausesBetweenPostsOnly | index.js:131-134 | n > 0 posts give 2n-1 events ending with the last session, and exactly n-1 pauses |
| Batch.RotationRepeats | index.js:116-120 | post i + (list length) gets the same kind as post i |
| Batch.FirstRoundInListOrder | index.js:116-120 | the first posts get the list's kinds in list order; the default list is LOVE, LIKE, HAHA, WOW |
| Batch.EmptyListSendsLove | index.js:116-124 | an empty list gives every post an undefined kind, and the session runs with LOVE |
| Batch.NoUsableCookieNoSuccess | index.js:137-141 | when every session fails, the tally is zero |
| Batch.UnparsableCookiesFailEverySession | index.js:215-219 | cookies giving no record make every session of the batch fail |

## Left out

- The Express plumbing: static files, CORS, the JSON body parser, the health, single-reaction and page routes, status codes and the listening port. The batch handler's request fields are parameters. A missing `posts`, `reactions` or `delay_between` is `None`, and a missing `cookies` is the empty string, which the handler rejects the same way.
- Puppeteer: launching and configuring the browser, the anti-detection script, the viewport, and closing the browser. Their outcomes are fields of `World`, or they are omitted when they cannot change the result.
- The delays inside a session (`delay(3000)`, the random hover and click pauses), the page-load time limits, and `Date.now`/`Math.random` session and reaction ids and timestamps. Only the batch pauses are recorded, as events.
- The react-button search over eight selectors is abstracted to one boolean, `buttonVisible`. Hover errors are swallowed by the source and not modelled.
- Errors thrown by `page.setCookie`, `page.screenshot`, `waitForSelector` and the mouse click inside `selectReaction` are abstracted into the `Menu` (which controls are clickable, whether the Like button has a box) or not modelled.
- The `error.toString()` field of a failed result. A failure carries its message only.
- The batch handler's `catch` path (status 500). It is reachable only through non-string input or a throwing getter, and the model's inputs are typed.
- Non-array `posts`, non-string cookies and non-array `reactions`. Types exclude them, and an absent value is `None`.
- Sessions.SendReaction: the result's `reaction_id`, `session_id` and `timestamp` fields are not modelled.
- Text.Lower: folds ASCII letters only. JavaScript's `toLowerCase` also folds other scripts.
- Reactions.LookupReaction: keys inherited from `Object.prototype` (such as `constructor`) would be found by the source's lookup. Only the seven own keys are modelled.
- Reactions.SelectReaction: click coordinates are integers. The source adds floating-point bounding-box coordinates.
- Batch.RunBatch: `send` is a parameter rather than a fixed call, so that one proof covers any session behaviour. `SessionsIn(env)` is the modelled session, with the `i`-th call seeing `env(i)`.
- Batch.RunBatch: a `delay_between` that is present is used as the pause length, and an absent one takes the default 5000. A non-numeric value is not modelled.
