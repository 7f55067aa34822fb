# Inventory monitor: a Dafny model of its stock-state machines

The monitor scrapes a hosting provider's cart page. It reads one product card
per `.card.cartitem` element and sends notifications when products come into
stock. The repository ships two independent variants, and this project models
the decision core of both:

- **server.js `check`** is a strict flip-flop on a persisted
  `{lastNotify, wasInStock}` record. A restock notice fires on the
  not-in-stock to in-stock edge, once more than `NOTIFY_GAP` has passed since
  the previous restock. A sold-out notice fires on the opposite edge and
  leaves `lastNotify` alone (module `FlipFlop`).
- **index.js `runTask`** is level-triggered. A stock alert goes out whenever
  something is in stock and `NOTIFY_COOLDOWN` has lapsed. A daily report and
  the `lastDailyDate` record are gated on the report hour and the date. The
  state file is a JSON object merged over defaults (module `Cooldown`).

Around the two engines sit the pure helpers they use:

- the page abstracted to cards (`Page`);
- JavaScript's `trim`, `\s`, `\d` and the digit-run value (`Text`);
- JavaScript's `parseInt` on environment variables (`Numbers`);
- `Array.prototype.filter`, characterised by order and multiplicity (`Seqs`);
- the two count-extracting regular expressions:
  - `/[:：(]?\s*(\d+)/` (`QuantityPattern`);
  - `/inventory\s*[：:]\s*(\d+)/i` (`InventoryPattern`);
- the login session, its 24-hour expiry and the `Cookie` header assembled
  from `Set-Cookie` (`Session`);
- the dashboard's newest-first log tail (`LogBuffer`);
- the `parseInt(env) || default` settings (`Settings`).

Each engine is a pure step function:
`(cards, stored record, clock, settings) -> (notices, record to write)`.
Each engine is also run over arbitrary sequences of cycles (`Replay`) to state
properties of whole runs:

- restock and sold-out notices alternate;
- restock notices are spaced by more than the gap;
- stock alerts are spaced by more than the cooldown;
- at most one report is sent per date.

The clock is given as numbers: `Date.now()`, plus the local hour and date for
index.js. Login is an abstract `Reply`.

Two facts of server.js shape its run properties:

- A restock needs both a clear flag and more than the gap since the last
  restock (server.js:189-191). An in-stock cycle inside the gap sends
  nothing and leaves the flag clear (`FlipFlop.SuppressedRestockRetries`).
- A sold-out notice clears the flag but keeps `lastNotify` (server.js:208-212),
  so the next restock still waits for the gap (`FlipFlop.SoldOutKeepsGap`).

## Model

| member | source | states |
|---|---|---|
| Text.Trim | server.js:167 | the name is the card heading with leading and trailing JavaScript white space removed: a contiguous slice of it, empty exactly when the heading is all white space, otherwise starting and ending with a non-space |
| Text.TrimIdempotent | server.js:167 | trimming a trimmed name changes nothing |
| Text.DecimalRoundTrip | server.js:169 | `parseInt` of the canonical decimal rendering of a count gives the count back |
| Text.LeadingZeroIgnored | server.js:169 | a leading zero does not change the count `parseInt` reads |
| Seqs.Filter | server.js:177 | `filter` keeps the accepted elements in their original order (a subsequence), each exactly as often as it occurs in the input, and nothing else |
| Seqs.FilterUnique | server.js:177 | order and multiplicity determine the filter: any subsequence keeping exactly the accepted elements with their counts is the filter's result |
| QuantityPattern.MatchAt | server.js:168 | a match attempt at index k captures a maximal digit run with no digit between k and it, and succeeds whenever a digit sits at k |
| QuantityPattern.Quantity | server.js:168-169 | there is no count exactly when the text holds no ASCII digit; otherwise the count is the value of the first maximal digit run |
| QuantityPattern.QuantityIsFirstDigitRun | server.js:168 | the capture is exactly the first maximal run of ASCII digits, whatever mark precedes it, and any count read off that run is the one returned |
| InventoryPattern.MatchAt | index.js:225 | a match reported at index k is a real match: `inventory` in any ASCII case, white space, one ASCII or full-width colon, white space, a maximal digit run |
| InventoryPattern.MatchAtUnique | index.js:225 | a match starting at a given index is unique, and it is the one the matcher reports there |
| InventoryPattern.InventoryIsLeftmostMatch | index.js:225 | the search fails exactly when no match exists, and otherwise returns a match no other match starts to the left of |
| InventoryPattern.Inventory | index.js:225-226 | there is a count exactly when some match exists, and it is the value captured by the leftmost match |
| InventoryPattern.InventoryReadsLeftmost | index.js:225-226 | any value captured by a leftmost match is the count returned, so the count is determined by the reference reading |
| InventoryPattern.NoColonNoMatch | index.js:225 | text without a colon yields no count |
| Page.InventoryParagraphs | index.js:225 | the `:contains("inventory")` selector keeps exactly the paragraphs holding the lower-case word, in document order, each as often as it occurs |
| Page.InventoryParagraphsIsFilter | index.js:225 | the selector is `filter` with the `:contains` test |
| FlipFlop.CardItem | server.js:167-169 | a card yields an item exactly when its trimmed name is non-empty and its text holds an ASCII digit; the item carries that name and the value of the first digit run |
| FlipFlop.Items | server.js:165-170 | the items are what the cards yield, in page order, skipping cards that yield nothing |
| FlipFlop.ItemsEmpty | server.js:165-172 | the item list is empty exactly when no card yields an item |
| FlipFlop.InStock | server.js:177-178 | the in-stock list holds exactly the items with a positive count, in page order, each as often as it occurs |
| FlipFlop.InStockIsFilter | server.js:177 | the in-stock list is `filter` with the positive-count test |
| FlipFlop.Decide | server.js:177-213 | a restock carrying the in-stock items fires iff something is in stock, the flag is clear and now - lastNotify > gap, and it stores (now, true); a sold-out fires iff nothing is in stock and the flag is set, and it stores (lastNotify, false); otherwise nothing is sent and the record is unchanged |
| FlipFlop.Check | server.js:165-215 | with no item the cycle sends nothing, writes nothing and publishes nothing; otherwise it decides on the loaded record, or the fresh record when none was read |
| FlipFlop.StepFacts | server.js:186-215 | a cycle sends at most one notice; the notice flips the flag; a restock moves lastNotify to now, past the gap; a silent cycle leaves the record as it was |
| FlipFlop.NoticesAlternate | server.js:186-213 | across any run, restock and sold-out notices strictly alternate, starting from the stored flag, and the flag records the last one sent |
| FlipFlop.RestocksSpaced | server.js:189-194 | across any run, lastNotify is the time of the last restock; restocks are more than the gap apart and the first is more than the gap after the initial record |
| FlipFlop.SuppressedRestockRetries | server.js:195-198 | an in-stock cycle inside the gap, with the flag clear, sends nothing and leaves the flag clear, so a later in-stock cycle past the gap sends the restock |
| FlipFlop.SoldOutKeepsGap | server.js:206-212 | after a sold-out, the next restock fires iff more than the gap has passed since the previous restock |
| Cooldown.Load | index.js:233-236 | the loaded record has both fields; file fields override the defaults; missing fields take their default values |
| Cooldown.LoadSaved | index.js:236 | a record written by a task loads back unchanged |
| Cooldown.CardEntry | index.js:224-226 | a card contributes an entry exactly when its trimmed name is non-empty and its inventory paragraphs match the pattern; the entry carries that name and the value captured by the leftmost match |
| Cooldown.Stocks | index.js:223-227 | a product is in `stocks` exactly when some card yields it and it is not `__proto__`; its count comes from the last card that yields it |
| Cooldown.CapitalisedLabelDropped | index.js:225 | "Inventory: 5" matches the case-insensitive pattern, but a card holding only that paragraph yields nothing, because the paragraph filter is case-sensitive |
| Cooldown.InStock | index.js:240-245 | the alert lists exactly the products with a positive count |
| Cooldown.SinceNotify | index.js:247 | the elapsed time is defined exactly when the stored time is a number, and then it is now minus it |
| Cooldown.Evaluate | index.js:240-277 | a stock alert is sent iff something is in stock and the cooldown has lapsed, and then lastNotifyTime becomes now; a report is sent iff the hour is the report hour, the stored date differs from today and the cooldown had lapsed before this task's alert; the date is recorded whenever the report is due, even if the report is held back; the alert comes before the report; every other field is written back unchanged |
| Cooldown.RunTask | index.js:223-277 | with no stock parsed, `runTask` sends nothing and writes nothing; otherwise it evaluates the merged record and saves the result |
| Cooldown.EvaluateAlerts | index.js:251-271 | a task sends at most a stock alert followed by a report; the first alert is a stock alert iff the cooldown allowed one, and the last is a report iff one was due and allowed |
| Cooldown.RealertsWhileInStock | index.js:252-256 | there is no in-stock flag: an alerted product still in stock is alerted again once the cooldown lapses |
| Cooldown.NothingInStockIsQuiet | index.js:251-260 | with nothing in stock, no stock alert is sent (only a report can be) and lastNotifyTime is unchanged |
| Cooldown.StepFileFacts | index.js:229-277 | one task records today's date iff it parsed stock and the report was due, and moves lastNotifyTime to now iff it alerted; a due date differs from the stored one, and an alert comes more than the cooldown after the stored time |
| Cooldown.DatesNeverRepeat | index.js:265-274 | across any run, no date is recorded twice in a row, and the stored date is the last one recorded |
| Cooldown.OneReportPerDate | index.js:265-274 | across any run whose tasks all see the same date, at most one date is recorded and at most one report is sent |
| Cooldown.ReplayAppend | index.js:233-277 | tasks chain only through the state file: a run split in two is its second part replayed on the file the first part left, with the alerts and recorded dates concatenated |
| Cooldown.DailyReportOncePerDate | index.js:263-274 | across any run, including one that crosses midnight, at most one daily report is sent on each date, as long as a date does not come back once the run has moved past it |
| Cooldown.AlertsSpaced | index.js:252-256 | across any run, stock alerts are more than the cooldown apart; the first comes more than the cooldown after the stored time, and never if that was not a number |
| Session.Expired | index.js:191 | a session without a usable cookie (none, or the empty string) must be renewed; one with a cookie must be renewed exactly when more than 24 hours have passed since its login |
| Session.ExpiryMonotone | index.js:191 | once a session needs renewing, it keeps needing it at every later time |
| Session.ServerShouldLogin | server.js:154 | server.js logs in before a check only when its site requires a login, and then exactly when the session needs renewing |
| Session.StartupLogsIn | server.js:89 | the session starts without a cookie, so the first check logs in iff the site requires a login |
| Session.Pair | server.js:144 | the pair kept from a Set-Cookie value is its longest prefix without `;` |
| Session.JoinRoundTrip | server.js:144 | joining `;`-free pieces with "; " and splitting the result again gives the pieces back |
| Session.CookieHeader | index.js:178 | with at least one cookie, splitting the header on `;` gives the first pair and then every further pair behind the single space of the "; " separator, so parsing it back gives every pair in order; the header is empty exactly when there is no cookie, or a single cookie with an empty pair |
| Session.CookieHeaderDetermined | index.js:178 | the `;`-split of the header determines it: any string that splits as the assembled header does is that header |
| Session.ServerLogin | server.js:139-150 | without a login requirement nothing changes; otherwise the login succeeds exactly when the reply carries a Set-Cookie header, even an empty one, and then stores the assembled cookie and the login time; a failed login keeps the session |
| Session.ServerLoginRenews | server.js:143-154 | after a successful server.js login at time t, the next check logs in again exactly when the stored header is empty or more than 24 hours have passed since t |
| Session.TaskLogin | index.js:168-187 | a login succeeds iff credentials are set and the reply carries a non-empty Set-Cookie list; on success the session is replaced, otherwise it is kept |
| Session.TaskLoginRenews | index.js:177-191 | after a successful index.js login at time t, the session needs renewing exactly when more than 24 hours have passed since t, or at once if the only cookie had an empty pair |
| Session.EmptySetCookieForcesRelogin | server.js:143-154 | an empty Set-Cookie list counts as a successful login, yet leaves no cookie, so the next check logs in again |
| LogBuffer.Push | server.js:102-103 | the new line comes first and the rest is a prefix of the old buffer; the buffer grows by one until it holds 100 lines, and a full buffer loses exactly its oldest line |
| LogBuffer.FeedKeepsNewest | server.js:102-103 | after any sequence of lines, the buffer holds the most recent 100 or fewer, newest first |
| Numbers.ParseInt | index.js:29 | `parseInt` of an unset variable, or of text without any ASCII digit, is NaN |
| Numbers.ParseIntReadsDecimal | index.js:29 | `parseInt` reads back a count written in decimal, whatever white space precedes it and whatever non-digit follows it, unless a lone 0 is followed by `x` or `X` |
| Numbers.ParseIntReadsNegative | index.js:29 | the same for a minus sign followed by a positive decimal number |
| Numbers.HexPrefixReadsHex | index.js:29 | without a radix, a `0x` prefix switches to base 16: "0x10" reads as 16 |
| Settings.OrDefault | server.js:65 | a parsed non-zero setting is used as is; NaN and 0 both fall back to the default |
| Settings.OrDefaultSettles | server.js:65 | with a non-zero default the result is never falsy, so applying the idiom to its own result changes nothing |
| Settings.Setting | index.js:28-30 | an unset variable, NaN and 0 give the default; a non-zero parsed value is used as is; in particular a variable holding a positive decimal number gives that number |
| Settings.ReportHourAsWritten | index.js:30 | as written, an unset or unparsable report hour and the setting "0" all give 12; every positive decimal hour is used as is |
| Settings.MidnightReportHourLost | index.js:30 | as written, a report hour of "0" becomes 12, so some hour of the day cannot be chosen |
| Settings.ReportHour | index.js:30 | as intended, any parsed report hour is used as is, so every decimal hour is read back; only an unset or unparsable setting falls back to 12 |
| Settings.EveryHourSelectable | index.js:30 | as intended, every hour of the day, midnight included, can be chosen for the report |
| Settings.ReportHourFixesOnlyZero | index.js:30 | the intended and as-written report hours differ exactly when the setting parses to 0 |
| Settings.StrategyFromEnv | index.js:29-30 | `runTask` runs with the parsed cooldown (unset, NaN or 0 give ten minutes) and the parsed report hour (unset, NaN or 0 give 12, so "0" gives 12) |
| Settings.IntendedStrategyFromEnv | index.js:29-30 | the same cooldown, with every parsed report hour used as is and only an unset or unparsable one giving 12 |
| Settings.StrategiesDifferOnlyAtMidnight | index.js:29-30 | the as-written and intended strategies differ exactly when the report hour parses to 0 |

## Left out

- Fetching the page: axios, cheerio selector matching, and the retry-after-login flow when no card is found. The page is a given list of cards, each a heading and its paragraph texts. Login is a given `Reply`.
- Notification transports (Telegram, SMTP) and message text. A notice records only its kind and payload.
- Encryption of the `.env` file, the Express servers and the dashboard page. These are I/O and UI.
- Time-zone conversion and date formatting. The local hour and the `YYYY-MM-DD` date are given per task.
- Log files, their size cap and rotation. Only the in-memory `WEB.logs` tail is modelled.
- `setInterval` scheduling and bootstrap. Overlapping runs are not modelled; a run is a sequence of whole cycles.
- JSON parsing and serialising of state files. A missing or unparsable file is `None`.
- FlipFlop.Check: a server.js state file whose fields are missing or of another type is not modelled. The stored record is typed `{lastNotify: int, wasInStock: bool}`, and extra fields, which server.js also writes back, are dropped.
- Cooldown.SinceNotify: JavaScript's coercion of a non-number `lastNotifyTime` (a numeric string, `null`, a boolean) is not modelled. Every non-number is treated as NaN, so no comparison with it holds.
- JavaScript number precision. Counts and times are unbounded integers.
- Strings are sequences of Unicode scalar values, not UTF-16 code units. No character outside the BMP plays a role in the patterns.
- The insertion order of `Object.entries` is not modelled. Stocks are a map, and the alert carries the in-stock map.
- Session.ServerLogin: the network error and non-2xx cases are folded into `NoReply`.
- Settings: `CHECK_INTERVAL` and `PORT` only feed the scheduler and the server, so they are not modelled. server.js's `NOTIFY_GAP` (server.js:65) is `Settings.Setting(raw, 600000)` and has no member of its own; `FlipFlop` takes the gap as a parameter.
- Numbers.ParseInt: JavaScript's `-0` is read as 0; both are falsy, so `Settings.Setting` treats them alike. Digits beyond the 53-bit precision of a JavaScript number are not rounded away.
- FlipFlop.NoticesAlternate: assumes every state write succeeds. If `writeFileSync` throws after a notice, the error is caught at server.js:216 and the old record stays on disk, so the next cycle can repeat the notice.
- FlipFlop.RestocksSpaced: assumes every state write succeeds. A failed write after a restock (caught at server.js:216) keeps the old `lastNotify`, so a second restock can follow within the gap.
- Cooldown.AlertsSpaced: assumes every state write succeeds. If `fs.writeFile` fails after an alert, the error is caught at index.js:279 and the old `lastNotifyTime` stays, so the next task can alert again within the cooldown.
- Cooldown.OneReportPerDate: assumes every state write succeeds. A failed write after a report (caught at index.js:279) keeps the old `lastDailyDate`, so the report can be sent again on the same date.
- Cooldown.DailyReportOncePerDate: assumes the dates of a run come one after another, as the Beijing date of a clock that never runs backwards does. If the system clock is set back across midnight, a date can come back and its report can be sent again. Like the other run lemmas, it also assumes every state write succeeds (index.js:277-279).
- Cooldown.DatesNeverRepeat: assumes every state write succeeds. After a failed write (caught at index.js:279) the same date can be recorded again by the next task.

## Findings

| source | as written | input that shows it | evidently intended | confidence | as-written member | corrected member |
|---|---|---|---|---|---|---|
| index.js:30 | the parsed `DAILY_REPORT_HOUR` falls back to 12 whenever it is falsy, and hour 0 is falsy | `DAILY_REPORT_HOUR=0` gives a report at 12:00 instead of 00:00 | every hour 0-23 can be chosen; only an unset or non-numeric value falls back to 12 (`Settings.IntendedStrategyFromEnv` builds the strategy this way, `Settings.StrategyFromEnv` as written) | medium, not executed | Settings.MidnightReportHourLost | Settings.ReportHour |
