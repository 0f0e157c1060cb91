# Verification of the sustainability declaration consumer

These Dafny modules model the deterministic logic of the consumer library (`consumer/src`) and of
the reference servers and scripts beside it (`example-scripts`, `schemas-validators`), and prove
what that logic promises.

* **Time and periods.** `Calendar` and `DateTimes` build the proleptic Gregorian calendar and the
  date-time grammar of section 5.6 of RFC 3339, with instants as integer nanoseconds. `Periods` and
  `CalendarTiling` hold the half-open periods and the calendar units. Four independent
  implementations of the same questions are compared with them: the bounds of a query (`Queries`),
  the JavaScript and PHP servers (`ReferenceServer`, `ServerCalendar`, `CodePointOrder`, `Answers`,
  `PhpOrder`, `Encoding`, `QueryStrings`, `Exchanges`) and the Python script (`IsoDates`,
  `LegacyCheck`).
* **Upstream walk.** `Transport` is the redirect loop, `Upstream` the recursive walk as a function of
  its shared state, `UpstreamWalks` the object that updates that state in place, and
  `UpstreamSafety`, `UpstreamRepeats`, `TrueReports` and `UpstreamReports` the properties of whole
  walks on every network, cyclic ones included.
* **Cache.** `Client` is the revalidating cache as a class; `ClientProtocol` interleaves its gets
  with evictions and a server that changes at any moment.
* **JSON.** `JsonText` and `JsonScanning` relate the one-pass scanner for repeated names to the parse
  tree of the text; `JsonValues`, `JsonTraversals` and `JsonDifferences` relate the explicit-stack
  loops to recursive meanings.
* **Totals and export.** `Totals`, `TotalsProofs`, `TotalsOutcomes` and `Csv`.
* **Older forms and signatures.** `Sentinel` is the compatibility reading; `SentinelProofs`,
  `SentinelPeriods`, `SentinelTokens` and `LegacyUnits` say what it makes of an object. `Jws` is the
  choice of key and its trust, `Signature` and `Substitution` the substitution of verified payloads.

Code that updates state in place is a class, an array or a method with a loop, proved against a
function of the old state; the theorems are about those functions. The network, the resolver, the
cryptography, a reading of a body as declarations and the equality of targets are parameters.

Where the code does less than one would expect, the exact condition under which it does hold is
proved, with an input that shows the rest:

* `differingMembers` reads members through the prototype, so a `__proto__` member that holds an empty
  object is not told from an absent one (`JsonDifferences.ListIsExactIff`).
* A redirect target that fails or redirects on is not added to `visited`, so a walk can request it
  again (`UpstreamRepeats.EveryWalkAsksOnceIff`, `UpstreamRepeats.OnlyLostHopsRepeat`).
* Two texts of one origin have two cache entries (`Client.TwoTextsOfOneOrigin`), and so have a target with
  a lone surrogate and the same with U+FFFD (`Client.LoneSurrogateCollides`), and so may two calls of an
  origin that itself gives a parameter, though they send one request (`Client.KeysTellRequestsApartIff`).
* The daily test of the scripts uses functions that read years 0 to 99 (JavaScript) or 0 to 100 (PHP)
  as other years, and the order of the PHP script uses them too (`ServerCalendar.DailyTestAgreesIff`,
  `PhpOrder.PhpOrdersAlikeIff`). The PHP script refuses year 0000 (`ServerCalendar.PhpRefusesYearZero`).
* The server drops digits of a fraction past the ninth; the consumer refuses them
  (`ReferenceServer.ConsumerAcceptsIff`).
* The cache keeps its bound only where the bound is at least one (`Client.BoundIsKeptIff`).
* `overlapsRange` against an empty or reversed range does not mean a shared instant
  (`Periods.OverlapsIffSharedInstant`, `CalendarTiling.TheRangeBetweenTwoDays`).
* No calendar period ends after 9999-12-31, because its end cannot be written
  (`CalendarTiling.YearPeriodExists`). The consumer refuses that date; the Python script raises an
  exception on a pair that ends there, in any spelling it reads (`LegacyCheck.CrashesIffLastDate`), and
  converts the label to a period whose end is no date-time (`LegacyCheck.LastLabelIsConverted`).
* A fiscal year that ended before year 1001 has no period, because the year before it is written
  without leading zeros (`SentinelProofs.FiscalYearExistsIff`).
* A label of year 0000 can be a `start` but not an `end`, and is refused as though it ended after
  9999-12-31 (`Queries.OtherBoundIs`).
* An empty target is sent and not honored, and a target with a lone surrogate is sent as another text
  (`Exchanges.ServerReadsTheQueryIff`, `Exchanges.EmptyTargetIsNotHonored`,
  `Exchanges.LoneSurrogateIsReplaced`).

## Model

| member | source | states |
|---|---|---|
| `Calendar.DayNumberOrder` | consumer/src/period.ts:177-191 | The proleptic Gregorian calendar (leap years as in Appendix C of RFC 3339): counting days orders dates as year, month and day do, and no two dates share a number. |
| `Calendar.FromDayNumberInverse` | consumer/src/period.ts:177-191 | Every day number names exactly one real date and every real date comes back from its number. |
| `Calendar.NextDayIsSuccessor` | consumer/src/period.ts:182-191 | Rolling over by hand at the end of a month and of a year is the same as adding one day in the calendar. |
| `Calendar.AddMonthsClamps` | consumer/src/period.ts:177-191 | Adding months reaches the month so many on and keeps the day, or takes the last day of that month where it has no such day. |
| `DateTimes.UtcFormReadsBack` | consumer/src/period.ts:104 | For every instant in UTC years 0000 to 9999, its UTC form is a `utc-date-time` that reads back as that instant. |
| `DateTimes.QueryValueNamesTheInstant` | consumer/src/period.ts:97-104 | For every date-time, `toUtcQueryValue` has the `utc-date-time` form exactly when the UTC year is 0000 to 9999; it then names the same instant and is its own query value. |
| `DateTimes.PrintEquallyIffSameInstant` | consumer/src/period.ts:101-104 | Two date-times print equally exactly when they compare equal, whatever their offsets and fractions, expanded years included. |
| `DateTimes.UtcYearOfDateTime` | consumer/src/period.ts:58-74 | The UTC year of a date-time is the year it is written in or a neighbour of it. |
| `Periods.CanonicalKeyIffSamePeriod` | consumer/src/period.ts:162 | Two periods share a canonical key exactly when both bounds are the same instants. |
| `Periods.OverlapsIffSharedInstant` | consumer/src/period.ts:147-152 | A period shares an instant with a range exactly when `overlapsRange` holds and the range is not empty; against an empty or reversed range the comparison alone does not decide. |
| `Periods.AnEmptyRangeOverlaps` | consumer/src/period.ts:147-152 | A range that ends where it starts, inside a period, overlaps it by the comparison and shares no instant with it. |
| `Periods.WholeInAtMostOneUnit` | consumer/src/period.ts:177-196 | A period is whole in a unit exactly when `wholeCalendarUnit` answers that unit: no period is whole in two. |
| `CalendarTiling.YearPeriodExists` | consumer/src/period.ts:230-234 | In every fixed offset a year has a period exactly for 1 to 9998, and it is whole as a year. |
| `CalendarTiling.MonthPeriodExists` | consumer/src/period.ts:236-240 | A month has a period exactly when it is real and its end can be written, and it is whole as a month. |
| `CalendarTiling.DayPeriodExists` | consumer/src/period.ts:242-248 | A day has a period exactly when its year is at least 1 and the day after it can be written, and it is whole as a day. |
| `CalendarTiling.YearIsItsMonths` | consumer/src/period.ts:230-240 | The twelve months tile the year, in every year 1 to 9998 and every fixed offset. |
| `CalendarTiling.QuarterIsItsMonths` | consumer/src/period.ts:236-254 | Each quarter is tiled by its three months. |
| `CalendarTiling.MonthIsItsDays` | consumer/src/period.ts:236-248 | The days of a month tile it. |
| `CalendarTiling.TilesPartition` | consumer/src/period.ts:199-254 | Tiles partition the whole: an instant lies in it exactly when it lies in one part, and then in no other. |
| `CalendarTiling.TheRangeBetweenTwoDays` | consumer/src/period.ts:147-152 | An input of that kind: the range from 2025-01-02T00:00:00Z to the same instant, against the period of 1 and 2 January 2025. |
| `Queries.SentBoundIsHonored` | consumer/src/fetch.ts:203-216 | Every bound `queryBound` produces is a `utc-date-time` without a leap second, names the instant given, and is its own bound. |
| `Queries.DateTimeBoundIs` | consumer/src/fetch.ts:203-216 | A date-time can be sent exactly where it has no leap second and its instant lies in years 0000 to 9999 of UTC; each refusal is told so, and what is sent is the same instant. |
| `Queries.OtherBoundIs` | consumer/src/fetch.ts:219-234 | A label that names a date can be sent as `start`, as its first midnight, and as `end`, as the midnight after it, where it is of year 1 or later and that midnight can be written; otherwise its end is refused as past the last year. Any other text is no bound. |
| `Queries.FirstInstantOfLabel` | consumer/src/fetch.ts:219-234 | The first instant of a calendar label is real exactly when the label names a date, and is that date's midnight in UTC. |
| `Queries.LabelsAreWritten` | consumer/src/period.ts:264-271 | Every year and every month, written with four and two digits, is a label, of the first day of it. |
| `Queries.PeriodOfLabel` | consumer/src/period.ts:264-271 | A label that names a date of year 1 or later has a period exactly when the date after it can be written, from its first instant to the first instant after it. |
| `Queries.BoundsOfALabelAreItsPeriod` | consumer/src/fetch.ts:203-234 | One label as `start` and as `end` asks for exactly the period of that label. |
| `QueryStrings.HonoredQuery` | example-scripts/security.js:212-229 | The two loops over the raw query compute the specified map of honored parameters: each known name given once with a valid value, and nothing else; parts with malformed escapes or ill-formed UTF-8 are passed over. |
| `QueryStrings.IllFormedIsPassedOver` | example-scripts/security.js:214-223 | The value `%FF` is no UTF-8, and the part that holds it names nothing. |
| `QueryStrings.WrittenParametersAreHonored` | example-scripts/security.js:197-229 | Of the distinct parameters a client percent-encodes into a query, the server honors exactly the valid ones, each with the value that was written. |
| `QueryStrings.SentBoundIsValidValue` | example-scripts/security.js:183-195 | Every bound the consumer sends is one the server honors. |
| `QueryStrings.ServerHonorsIff` | example-scripts/security.js:183-195 | The bounds that the server honors are the `utc-date-time`s that the consumer takes, but for fractions of more than nine digits. |
| `QueryStrings.EscapeIsRead` | example-scripts/security.js:212-223 | An escape is read by its two hexadecimal digits, in either letter case. |
| `ReferenceServer.ShownIffReal` | example-scripts/security.js:65-87 | Setting a JavaScript date and reading it back shows the numbers set exactly when they name a real date. |
| `ReferenceServer.ConsumerAcceptsIff` | example-scripts/security.js:65-87 | The consumer accepts exactly the date-times the server accepts with at most nine digits of fraction; further digits the server drops and the consumer refuses. |
| `ReferenceServer.ServerReadsAsConsumer` | example-scripts/security.js:65-87 | What both accept, both read as the same instant, date and midnight. |
| `ServerCalendar.DailyTestAgreesIff` | example-scripts/security.js:171-181 | The day-difference test agrees with the calendar on all dates of two years exactly when those years are read with their lengths and distance kept. |
| `ServerCalendar.JsAgreesOnWholePeriods` | example-scripts/security.js:171-181 | The JavaScript test decides whole calendar periods as the consumer does, in any two offsets: months and years in every year, days in years 0100 to 9999. |
| `ServerCalendar.PhpAgreesOnWholePeriods` | example-scripts/security.php:115-130 | The PHP script reads a bound exactly from year 0001 on, and then decides months and years as the consumer does, and days from year 0101 on. |
| `ServerCalendar.PhpRefusesYearZero` | example-scripts/security.php:41-50 | Year 0000 is a whole year for the consumer, and the PHP script refuses its start. |
| `ServerCalendar.PhpMissesADay` | example-scripts/security.php:115-130 | The period of 0100-02-28 is a whole day for the consumer and for JavaScript, and not for PHP. |
| `ServerCalendar.JsMovesACentury` | example-scripts/security.js:179-180 | The period of 0099-12-31 is a whole day for the consumer and not for JavaScript, which takes the one that ends in 2000 for a day. |
| `CodePointOrder.CompareCodePoints` | example-scripts/security.js:116-125 | The loop gives the first difference of the two code point sequences, or of their lengths. |
| `CodePointOrder.BytesKeepOrder` | example-scripts/security.php:81-95 | Comparing UTF-8 bytes (section 3 of RFC 3629) orders every two sequences of scalar values as comparing the values does. |
| `CodePointOrder.ServersOrderTargetsAlike` | example-scripts/security.php:81-95 | The PHP and the JavaScript server order every two well-formed targets alike. |
| `Answers.ServerOrdersInstants` | example-scripts/security.js:89-90 | The server's comparison of two date-times has the sign of the consumer's. |
| `Answers.OrderMeans` | example-scripts/security.js:133-139 | Objects are ordered by the instants of start and end as the consumer orders periods, and then by the code points of the target. |
| `PhpOrder.PhpOrdersAlikeIff` | example-scripts/security.php:85-95 | The PHP server orders all date-times of two years, in any offsets, as the JavaScript server does if and only if `gmmktime` reads the years at the same distance, three or more counting as two, and a year as one of its own length. |
| `PhpOrder.ServersOrderObjectsAlike` | example-scripts/security.php:85-95 | The two servers order two objects alike whenever the years of their starts and of their ends keep their order so. |
| `PhpOrder.ServersSortAlike` | example-scripts/security.php:198-210 | On such objects the two servers sort to the same array. |
| `PhpOrder.ServersSortAlikeFrom101` | example-scripts/security.php:198-210 | In particular on objects of years 0101 to 9999. |
| `Answers.AnswerIsTheSatisfyingPart` | example-scripts/security.js:251-276 | The answer holds each object exactly as often as it is held if it satisfies the query and not at all if it does not, and it is sorted. |
| `Answers.CompareWithRequest` | consumer/src/fetch.ts:260-292 | The loop over the objects received fills `honored` and `notAsRequested` as specified, complaint by complaint in order. |
| `Answers.NoComplaintIffHonored` | consumer/src/fetch.ts:260-292 | Nothing is reported as not requested exactly when every parameter asked is reported honored. |
| `Answers.ServerAndConsumerAgree` | consumer/src/fetch.ts:260-292 | For one rule of targets, the server selects an object for a query exactly when the consumer finds that it fits. |
| `Answers.AnswersAreHonored` | consumer/src/fetch.ts:395-405 | Every answer of an extended server leaves `notAsRequested` empty and is in ascending order of start, so no `not-ascending` warning follows. |
| `Encoding.LeftAsItIsIff` | consumer/src/fetch.ts:238 | Replacing each surrogate that is not half of a pair by U+FFFD, as a query does, gives a text whose surrogates all stand in pairs, and leaves a text as it is exactly when it was one already. |
| `Encoding.WrittenReadsBack` | example-scripts/security.js:212-223 | Every text is written as UTF-8 (RFC 3629), and those bytes are read as the text with its lone surrogates replaced. |
| `Encoding.IsUtf8Iff` | example-scripts/security.js:212-223 | Bytes are UTF-8 exactly when they are what some text without a lone surrogate is written as. |
| `Exchanges.ServerReads` | example-scripts/security.js:197-229 | From the query string that the client writes for any query, the server reads the same bounds and granularity, and the target with its lone surrogates replaced, or no target where it is empty. |
| `Exchanges.ServerReadsTheQueryIff` | example-scripts/security.js:197-229 | The server reads exactly the query that the client wrote if and only if the target is absent, or is not empty and has no lone surrogate. |
| `Exchanges.GranularitiesAreHonored` | consumer/src/fetch.ts:242-246 | The granularities that the client sends are exactly those that the server honors. |
| `Exchanges.SentMeansTheCall` | consumer/src/fetch.ts:237-246 | The request names the target and granularity of the call and, for each bound that it gives, the instant of that date-time or the midnight that the label stands for, and no other bound. |
| `Exchanges.ExchangeIsHonored` | consumer/src/fetch.ts:237-292 | End to end: for every call whose bounds can be sent and whose target comes through so, the answer of an extended server to its query string leaves nothing reported as not requested and is in ascending order. |
| `Exchanges.EmptyTargetIsNotHonored` | example-scripts/security.js:197-202 | Whatever else a query asks, an empty target is written into it and ignored by the server. |
| `Exchanges.LoneSurrogateIsReplaced` | consumer/src/fetch.ts:238 | The target that is one high surrogate is read as U+FFFD. |
| `Exchanges.LoneSurrogateIsComplainedOf` | consumer/src/fetch.ts:282-289 | Where both sides compare targets as texts, every object that a server answers to a target with a lone surrogate is reported as naming another target. |
| `LegacyCheck.LabelsAreConvertedAlike` | schemas-validators/check-live.py:58-77 | For every label the consumer reads as a period, the script's hand-written rollover gives the same period, character for character. |
| `LegacyCheck.DatesAreConvertedAlike` | schemas-validators/check-live.py:47-57 | For every ordered pair of real full-dates the consumer reads, the script gives the same period. |
| `IsoDates.WeeksOfTheYear` | schemas-validators/check-live.py:52 | A year has, in the library that reads the end, exactly the weeks whose Thursdays fall in it, numbered in order. |
| `IsoDates.WeekDayOf` | schemas-validators/check-live.py:52 | A week date names the day of its number, from Monday as one to Sunday as seven, in its week, and a date exactly where that falls in years 1 to 9999. |
| `IsoDates.ReadAsLastDateIff` | schemas-validators/check-live.py:52 | A text of ten characters is read as 9999-12-31 exactly when it is that date, the week date 9999-W52-5, or either without separators before two characters that are passed over. |
| `LegacyCheck.CrashesIffLastDate` | schemas-validators/check-live.py:47-57 | Converting a pair raises an exception that is not caught if and only if both are ten characters long and the end is one of those spellings of the last date. |
| `LegacyCheck.LastLabelIsConverted` | schemas-validators/check-live.py:58-77 | The label 9999-12-31 is converted to a period that ends 10000-01-01T00:00:00Z, where the consumer refuses it. |
| `Transport.SecureGet` | consumer/src/transport.ts:300-386 | The redirect loop computes the specified chain of requests and its outcome. |
| `Transport.GetFollowsTheRules` | consumer/src/transport.ts:319-385 | One get makes at most six requests, each to a URL that is permitted and each the redirect target of the one before; no redirect is followed onto a barred URI; the answer reported is that of the last request. |
| `Transport.RefusedIffNotPermitted` | consumer/src/transport.ts:213-259 | A hop is refused exactly when its own scheme, user information or host is against the options, and for the first rule that it breaks: `https` unless `allowInsecure`, no user name or password, and, unless `allowPrivateAddresses` is true, no literal address but a public unicast one, or a loopback one that the insecure option lets through. |
| `Transport.GetEnds` | consumer/src/transport.ts:319-385 | How every get ends is told from what it sent: refused before anything is sent, for a failure, with a final answer, or at a redirect that is the sixth answer, names no URL, or names one that is barred or against the rules. Any other redirect is followed. |
| `Transport.TooManyIffSixthRedirects` | consumer/src/transport.ts:343-347 | `too-many-redirects` is the reason exactly where six requests were made and the last answer redirects. |
| `UpstreamReports.ReportIsTrue` | consumer/src/upstream.ts:291-469 | The report of a whole walk has one comparison for each entry, in order, at every level, and the retrievals of the walk are shared out among them: an entry's own are one of its URL and, only where that gave a document with some `extended` object but none for the period, one of the URL with the period set. Figures are shown if and only if one of them gave a valid document with an object for the same two instants; the object compared is that one, tenant-scoped if the document holds such a one; the verdict is `under-reported` exactly when it is tenant-scoped and an admitted metric, energy or carbon on one basis, falls short by more than one part in 10^9, and not comparable exactly when it is not tenant-scoped or shares no admitted metric. Otherwise the reason given is the true one: too deep, not resolvable, not https, visited by then, no budget by then, no document and why, or no such object. |
| `Upstream.RestatingKeepsJudgement` | consumer/src/upstream.ts:164-171 | Restating either side in other units never changes the verdict, its ground or the note on carbon. |
| `Upstream.SamePeriodObject` | consumer/src/upstream.ts:358-361 | The object matched is for the same two instants; there is none only if no object is; a tenant-scoped one is preferred. |
| `Upstream.FetchedIsForPeriod` | consumer/src/upstream.ts:358-383 | Whatever the retrievals give, a declaration is compared only with one for the same two instants. |
| `TrueReports.ReadIsDocumentOrWrong` | consumer/src/upstream.ts:216-246 | A response is read as its declarations exactly where it is a 200 of the media type whose body is a valid document of no more objects than allowed, and otherwise for the first thing that is wrong with it. |
| `UpstreamSafety.NoUriIsRetrievedTwice` | consumer/src/upstream.ts:327-374 | Over the whole walk of any network, across all levels: the URIs asked for and answered differ from one retrieval to the next and from those visited at the start. |
| `UpstreamSafety.VisitedIsWhatWasRetrieved` | consumer/src/upstream.ts:195-214 | In the end exactly the URIs visited before, asked for or answered count as visited. |
| `UpstreamSafety.BudgetCountsRetrievals` | consumer/src/upstream.ts:332-374 | The budget spent is the number of retrievals, never more than the limit, and the requests of a walk are at most six for each. |
| `UpstreamSafety.EveryRetrievalIsLawful` | consumer/src/upstream.ts:290-341 | Every retrieval of a walk is at depth one to three, makes at most six requests to permitted URLs, follows no redirect onto a URI visited by then, and follows every other redirect onto a permitted URL. |
| `UpstreamSafety.EveryRequestIsPermitted` | consumer/src/transport.ts:319-385 | Every request that a walk puts on the wire goes to a URL permitted by its own scheme, user information and host; and what a retrieval asks for is sent exactly where it is permitted. |
| `UpstreamRepeats.OnlyLostHopsRepeat` | consumer/src/upstream.ts:195-214 | On every network, a URI is sent a second request only where an earlier one was to a redirect target whose response failed or redirected on. |
| `UpstreamRepeats.EveryWalkAsksOnceIff` | consumer/src/upstream.ts:195-214 | Where answers are fixed, every walk, of any declaration, depth and budget, sends each URI at most one request if and only if no URL that can be named and passes the rules redirects onto another such URL whose own answer is a failure or a redirect. |
| `UpstreamRepeats.TheHopIsLost` | consumer/src/upstream.ts:195-214 | The two networks below meet the conditions of that equivalence, and whenever their hop gives no answer they have a redirect of that kind. |
| `UpstreamRepeats.AHopIsRequestedTwice` | consumer/src/upstream.ts:195-214 | A network on which an intermediate hop is requested on two roads, because it is never added to `visited`. |
| `UpstreamRepeats.AFailedTargetIsRequestedTwice` | consumer/src/upstream.ts:195-214 | A network on which a redirect target that fails is requested twice, as the last request of both retrievals. |
| `UpstreamWalks.UpstreamWalk.constructor` | consumer/src/upstream.ts:279-288 | A walk starts with the URIs already retrieved as visited and the whole budget. |
| `UpstreamWalks.UpstreamWalk.RetrieveUri` | consumer/src/upstream.ts:195-246 | One retrieval, updating the shared visited set and budget in place, refines `Upstream.Retrieve`. |
| `UpstreamWalks.UpstreamWalk.FetchForPeriod` | consumer/src/upstream.ts:338-383 | The retrieval and the second, scoped one refine `Upstream.FetchMatch`. |
| `UpstreamWalks.UpstreamWalk.CompareUpstream` | consumer/src/upstream.ts:279-472 | The loop over the entries, recursive through the graph, refines `Upstream.WalkEntries` and terminates on every network. |
| `UpstreamWalks.UpstreamWalk.CompareEntry` | consumer/src/upstream.ts:296-472 | One entry, from the decision to the nested walk, refines `Upstream.WalkEntry`. |
| `JsonText.RefuseRepeatedNames` | consumer/src/json.ts:62-89 | The one pass over the text, with its stack of name sets, computes the specified first repeat. |
| `JsonText.StringEnd` | consumer/src/json.ts:62-89 | The search for the closing quote stops at the end of the string, escapes skipped. |
| `JsonScanning.ScannerDecidesRepeats` | consumer/src/json.ts:62-89 | On every JSON text (RFC 8259), whatever its white space, escapes and nesting, the scanner finds a repeat exactly when some object of the parse tree holds two members of one decoded name (section 2.3 of RFC 7493), and finds the first. |
| `JsonScanning.FirstRepeatIffRepeats` | consumer/src/json.ts:62-89 | The first repeat of a tree exists exactly when some object in it repeats a name. |
| `JsonScanning.UnescapeIsDecoded` | consumer/src/json.ts:62-89 | Decoding a string as it is spelt in the text gives the string of the tree. |
| `JsonText.EscapesMean` | consumer/src/json.ts:62-89 | The two-character escapes stand for what section 7 of RFC 8259 says. |
| `JsonText.HexMeans` | consumer/src/json.ts:62-89 | Four hexadecimal digits, in either letter case, stand for the unit of that number. |
| `JsonValues.MembersEqualIff` | consumer/src/compare.ts:41-48 | Two objects of one size are equal, in any order of members, exactly when each member of the one has its equal in the other. |
| `JsonTraversals.DeepEqual` | consumer/src/compare.ts:30-52 | The explicit-stack loop terminates and answers true exactly when the values mean the same up to the order of members. |
| `JsonTraversals.NestingDepth` | consumer/src/body.ts:14-24 | The worklist gives the recursive depth. |
| `JsonDifferences.DifferingMembers` | consumer/src/compare.ts:56-68 | The loop over the sorted names lists exactly the specified differences, in order. |
| `JsonDifferences.ListIsExactIff` | consumer/src/compare.ts:56-68 | The list holds exactly the members that differ, for every two objects, if and only if no `__proto__` member is hidden by the prototype of the other. |
| `JsonDifferences.ListIsEmptyIff` | consumer/src/compare.ts:56-57 | The list is empty exactly for equal objects and for those whose one difference is hidden in that way. |
| `JsonDifferences.ReplacingTheListedMembers` | consumer/src/compare.ts:56-68 | That replacing members makes two objects equal exactly when all those listed are replaced holds of every two objects if and only if no `__proto__` member is hidden. |
| `JsonDifferences.AHiddenMemberIsMissed` | consumer/src/compare.ts:63-66 | `{}` and `{"__proto__": {}}` differ and nothing is listed. |
| `Client.SameKeySameRequest` | consumer/src/client.ts:87-96 | Calls that share a cache key send the same request, or neither sends one, however an origin resolves to a URL. |
| `Client.SpellingsShareAKey` | consumer/src/client.ts:86-96 | Of two date-times that can be sent as one bound, the keys are the same exactly where they are one instant, however they are spelt. |
| `Client.TwoTextsOfOneOrigin` | consumer/src/client.ts:95 | Two texts that resolve to one URL are two keys, though they send one request. |
| `Client.IllFormedTargetCollides` | consumer/src/client.ts:87-96 | A call whose target has a lone surrogate sends the request of the call with U+FFFD in its place, under another key. |
| `Client.LoneSurrogateCollides` | consumer/src/client.ts:95 | A lone high surrogate and U+FFFD as targets are two keys and one request, at every origin that resolves. |
| `Client.KeysTellRequestsApartIff` | consumer/src/client.ts:87-96 | For one origin text, over the calls whose targets have no lone surrogate, different keys mean different requests if and only if the URL it resolves to gives none of the four parameters a value that such a call could send. |
| `Client.StoreKeepsOthers` | consumer/src/client.ts:150-171 | Storing an entry keeps keys distinct and every other entry as it was, but for the oldest where room had to be made. |
| `Client.BoundIsKeptIff` | consumer/src/client.ts:150-155 | A cache within its bound stays within it whatever is stored, if and only if the bound is at least one. |
| `Client.SustainabilityClient.constructor` | consumer/src/client.ts:78-85 | A client starts with an empty cache. |
| `Client.SustainabilityClient.BeginGet` | consumer/src/client.ts:99-124 | The part of a get before its await captures the entry of its key and sends that entry's validators. |
| `Client.SustainabilityClient.FinishGet` | consumer/src/client.ts:126-173 | The part after it replays the captured entry on a 304, stores a new one and evicts the oldest, and nothing else. |
| `ClientProtocol.EveryResultIsTruthful` | consumer/src/client.ts:99-173 | For every interleaving of gets, evictions and server changes, if the server keeps sections 8.8.3 and 13.1.2 of RFC 9110: a get is `ok` if and only if the server answered 200 with what it held, or 304, and what it held reads as a valid document. It reports that document, with the validators served or, on a 304, those of the entry captured; no raw 304 reaches the caller. |
| `ClientProtocol.CompletedGetKeeps` | consumer/src/client.ts:150-171 | A completed get keeps a full, valid answer that has a validator under its key, with the document and validators served; other entries stay but for the oldest where a new key meets a full cache; any other answer leaves the cache as it is. |
| `ClientProtocol.AnUnchangedEntryIsRevalidated` | consumer/src/client.ts:103-108 | The server may answer 304 exactly where it holds a representation with the validator of the captured entry, its entity tag if it has one; each validator of the entry that is not empty is sent; a client that follows upstreams sends none. |
| `ClientProtocol.ReplaysIffRevalidated` | consumer/src/client.ts:126-149 | A 304 replays the captured entry exactly where a validator of that entry was sent; any other 304 goes to the caller. |
| `ClientProtocol.CacheStaysBounded` | consumer/src/client.ts:150-155 | In every run the cache holds at most `maxCacheEntries` entries, or one where that is lower. |
| `ClientProtocol.ReplayIsCurrent` | consumer/src/client.ts:126-149 | A 304 for the validators of a captured entry means that the entry is what the server holds. |
| `ClientProtocol.StepKeepsInvariant` | consumer/src/client.ts:99-173 | Every step, by client or server, keeps the invariant that entries and pending gets come from representations the server held. |
| `Totals.Total` | consumer/src/transform.ts:246-322 | `total` refines the specification: sort, refusals in order, then the summary. |
| `Totals.AddUp` | consumer/src/transform.ts:277-321 | The loop over the five metrics fills the sums and the two lists as specified. |
| `Sorting.SortedFirst` | consumer/src/transform.ts:249 | The sort is stable: among elements of any kind, the first of the sorted order is the first, as given, of those that none precedes. |
| `TotalsOutcomes.OutcomeIs` | consumer/src/transform.ts:246-275 | Over the objects as given, with the one that starts first: `mixed-targets` exactly where some target is not the one of that object, `mixed-accounting` exactly where targets agree and two accounting values differ, `overlapping-periods` exactly where these agree and two objects share an instant, and a summary in every other case. |
| `TotalsOutcomes.OnlyNoneIsNoObjects` | consumer/src/transform.ts:247 | `no-objects` is the refusal exactly where there is none, and there is a first object wherever there is one. |
| `TotalsOutcomes.SummaryNames` | consumer/src/transform.ts:284-294 | A summary names the target and start of the object that starts first, the accounting value of all, the target type they share if they share one, and each unit exactly where a figure is stated in it. |
| `TotalsOutcomes.UnitsAreThoseOf` | consumer/src/transform.ts:277-282 | The unit of a sum is the one asked for, or else that of the first object, by period, that states energy or, for carbon, the footprint or a scope. |
| `TotalsOutcomes.SumsInBaseUnits` | consumer/src/transform.ts:297-320 | A metric is summed exactly where some object states it and every unit involved is known; the sum in watt-hours or grams is then what the objects add, each converted from its own unit, energy and footprint below zero left out; and the lists of what is incomplete or not summable are exact. |
| `TotalsProofs.OrderDoesNotMatter` | consumer/src/transform.ts:246-322 | Where `total` accepts, it gives the same summary for the objects in any other order. |
| `TotalsProofs.RefusesIffSomeShare` | consumer/src/transform.ts:267-275 | Over objects of one target and accounting value it refuses with `overlapping-periods` exactly when some two objects, neighbours or not, share an instant, and accepts exactly when none do and there is one. |
| `TotalsProofs.DisjointIffNoNeighboursOverlap` | consumer/src/transform.ts:267-275 | Of objects sorted by start and end, no neighbours overlap exactly when each ends before every later one starts. |
| `TotalsProofs.RangeIsSmallest` | consumer/src/transform.ts:229-230 | The period stated holds every object's period, starts where some object starts and ends where some object ends. |
| `TotalsProofs.ContiguousIffCoveredOnce` | consumer/src/transform.ts:284-289 | The coverage is `contiguous` exactly when every instant of the range lies in one object's period and in one only. |
| `TotalsProofs.SumsAreExact` | consumer/src/transform.ts:297-316 | A metric is in the summary exactly when some object reports it and every reported figure has a known unit; its figure is the exact sum of the converted figures of the objects as given. |
| `TotalsProofs.SumsRearranged` | consumer/src/transform.ts:297-316 | The sum and the number of reporting objects do not depend on the order. |
| `TotalsProofs.FiguresAddUp` | consumer/src/transform.ts:297-316 | However the objects are split in two, with the units fixed, the figures of the parts add up to those of the whole. |
| `TotalsProofs.ListsAreExact` | consumer/src/transform.ts:296-320 | `incomplete` and `notSummable` list exactly the metrics that lack an object or a known unit, and `objects` counts all. |
| `Csv.ToCsvRows` | consumer/src/transform.ts:54-81 | The rows are the header and one row for each object, each cell quoted where it must be. |
| `Csv.CellsStandUnderTheirColumns` | consumer/src/transform.ts:62-78 | Every cell of a row stands under the column of its name, and is empty where the member is absent. |
| `Csv.RowsReadBack` | consumer/src/transform.ts:55-79 | A reader of CSV (section 2 of RFC 4180, with LF as record separator) gives back every cell of every record. |
| `Csv.ExportReadsBack` | consumer/src/cli.ts:502 | The rows joined by line feeds read back as the header and exactly the thirteen cells of each object in order, whatever commas, quotes and line breaks they hold. |
| `Sentinel.CompatibilityReading.ReadPeriodMember` | consumer/src/sentinel.ts:131-149 | A label, alone or beside a fiscal year, or a pair of full-dates is replaced by its period in place and reported; anything else is left. |
| `Sentinel.CompatibilityReading.ReadFunctionalUnitMember` | consumer/src/sentinel.ts:158-175 | An older unit is renamed and its score rescaled, or both are dropped, with the report of just that. |
| `Sentinel.CompatibilityReading.ReadRoleMembers` | consumer/src/sentinel.ts:185-192 | The loop over the upstream entries drops exactly the roles outside today's set and reports each by its index. |
| `Sentinel.CompatibilityReading.Apply` | consumer/src/sentinel.ts:215-223 | The six readers in order turn the object and both lists of the report into what the specification says. |
| `SentinelProofs.EachReader` | consumer/src/sentinel.ts:131-199 | Each reader changes members of its own only, changes something exactly when it reports, and finds nothing left to read afterwards. |
| `SentinelProofs.ReadingIsIdempotent` | consumer/src/sentinel.ts:215-223 | Reading what was read changes nothing and reports nothing. |
| `SentinelProofs.ReportsIffChanged` | consumer/src/sentinel.ts:201-204 | Something is reported exactly when something changed. |
| `SentinelProofs.CurrentObjectsAreLeftAlone` | consumer/src/sentinel.ts:201-205 | An object whose members are in the forms that validation accepts is left exactly as it is, with nothing reported. |
| `SentinelProofs.OtherMembersAreAsServed` | consumer/src/sentinel.ts:10-16 | No member is touched but those of the six forms. |
| `SentinelProofs.OldFormsAreGone` | consumer/src/sentinel.ts:151-199 | After the reading no method, functional unit, carbon unit, role or target type has an older spelling left. |
| `SentinelProofs.RescaledScoreIsTheSame` | consumer/src/tokens.ts:167-181 | A score that goes with a converted unit, times the factor the unit was scaled by, is the score that was stated. |
| `SentinelProofs.FiscalYearExistsIff` | consumer/src/sentinel.ts:94-98 | A fiscal year that ended on a date has a period if and only if the date is real, of year 1001 or later, and the day after it can be written; it then runs from the day after the same date a year earlier through that date, and starts before it ends. |
| `SentinelProofs.TheYear1000HasNone` | consumer/src/sentinel.ts:94-98 | The fiscal year that ended on 1000-12-31 has no period; the one that ended a year later has one. |
| `SentinelPeriods.ServedPeriodIsRead` | consumer/src/sentinel.ts:140-141 | A period served is replaced exactly where it holds two real full-dates in order, by the period from the midnight of the first to the midnight of the day after the second, and is left otherwise; a label or extension beside it is left. |
| `SentinelPeriods.ServedLabelIsRead` | consumer/src/sentinel.ts:131-146 | A label with no fiscal year beside it that names a real year, month or day is replaced by the period from its first midnight to the one after it; any other label is left. |
| `SentinelPeriods.LabelBesideFiscalYearIsRead` | consumer/src/sentinel.ts:135-139 | A label beside a fiscal year is replaced by that year, to the day, exactly where it is the year of its last day and the fiscal year exists; the extensions then lose the basis and nothing else but what that leaves empty. Otherwise both are left. |
| `SentinelTokens.TokensAreRead` | consumer/src/sentinel.ts:151-156 | A method that is no token becomes `third-party-modeled`, a target type that is none is dropped, `mtCO2e` becomes `tCO2e`, and all else stays. |
| `SentinelTokens.RolesAreRead` | consumer/src/sentinel.ts:185-192 | The upstream entries stay in order, each without its role where that is a string and no token, and otherwise as served. |
| `SentinelTokens.UnitsAreRead` | consumer/src/sentinel.ts:158-175 | A functional unit in an older spelling becomes its token, with a numeric score divided by the factor of that spelling; one that no spelling explains is dropped with its score; a token stays. |
| `SentinelTokens.ReportIsExact` | consumer/src/sentinel.ts:131-199 | The report lists as converted and as disregarded exactly the members that the served object gives reason to. |
| `LegacyUnits.LegacyUnitIff` | consumer/src/tokens.ts:117-175 | A unit of an earlier revision is read as a token and a factor exactly when, in some letter case, it is storage over time or an optional "per-", an optional scale, an optional "api-", a noun and an optional "s". |
| `Jws.VerifyUnderAny` | consumer/src/jws.ts:279-286 | The loop gives the first key the signature verifies under, or why the last one failed. |
| `Jws.VerifyCompact` | consumer/src/jws.ts:201-276 | The order of refusals and the choice of key refine the specification, the search among held keys included. |
| `Jws.ValidKeyIsTrustedAs` | consumer/src/jws.ts:249-276 | With any key held a signature is valid only under a held key, with the trust it is held with; with none, only under the key the header carries, anchored only where its chain is; the algorithm is accepted and fits the key. |
| `Jws.ValidUnderSomeHeldKey` | consumer/src/jws.ts:265-270 | With held keys and no header key, validity depends neither on `kid` nor on the order of the keys: some held key takes the algorithm and verifies. |
| `Jws.ValidUnderHeaderKey` | consumer/src/jws.ts:249-276 | A header key is refused with `pin-mismatch` exactly when keys are held and none has its thumbprint; with such held keys the signature is valid only if one of them verifies it, and is if all do; with none held it is valid exactly when the header's key verifies it. |
| `Jws.NeverValidUnder` | consumer/src/jws.ts:201-250 | Nothing verifies under a header whose algorithm, media type or critical parameters are not acceptable, whose `x5c` or `jwk` cannot be read, whose `jwk` is not the key of its chain, or whose `jwk` is private; `malformed`, `private-key-in-header` and `no-key` are told exactly so. |
| `Jws.RefusedFor` | consumer/src/jws.ts:212-236 | Each reason told before any key is looked at is given exactly where its check, and none before it, fails: `none` and the MAC algorithms in any letter case, algorithms not supported or allowed, the media type, critical parameters. |
| `Signature.SubstitutePayloads` | consumer/src/fetch.ts:434-446 | The loop replaces array slots in place by exactly the objects specified, one outcome for each. |
| `Signature.ReportedIsValidAndCovered` | consumer/src/signature.ts:153-180 | What is reported of a valid object is a valid object, and its target, start and end are those recorded before any signature was looked at; this rests on the compatibility reading leaving valid objects alone. |
| `Signature.ReportMatchesCovers` | consumer/src/fetch.ts:407-408 | The same for every object of a response against the recorded `covers`. |
| `Signature.ReplacedOnlyUnderTrustedKey` | consumer/src/fetch.ts:425-446 | A served object is replaced only under a key the caller holds or, where it holds none, under an anchored chain, and only by a signature that verified. |
| `Signature.ReportedMembers` | consumer/src/fetch.ts:444-446 | Where the payload takes precedence, every member reported is the payload's but for the served `signed`, and the payload is what was signed, read as the document was, agreeing on the five members. |
| `Signature.DeclarationKeyNeverReplaces` | consumer/src/signature.ts:177-180 | A key trusted no further than the declaration replaces nothing, and never verifies where the caller holds a key. |
| `Substitution.VerifiedIffSigned` | consumer/src/signature.ts:124-180 | An object is verified exactly where its `signed` text is a JWS that verifies, whose payload, read as the document was, is a valid object that is not itself signed and agrees with it on the five members; the outcome holds that key and that payload. |
| `Substitution.NotVerifiedFor` | consumer/src/signature.ts:124-170 | An object is unsigned exactly where `signed` is no string, and each failure is told exactly where the signature fails or signs no declaration. |
| `Substitution.PayloadIsReportedIff` | consumer/src/fetch.ts:444-446 | An object is reported with the members of the payload it signs, and its own `signed`, exactly where the key is held or anchored; any other object is reported as served. |
| `Signature.ReplayOf` | consumer/src/signature.ts:107-117 | A replay is suspected exactly when some held reading of the same subject, over the same two instants, was updated later, and the first such reading is reported. |

## Left out

- Figures are exact rational numbers: the rounding of `tidy`, `toPrecision` and `scale` and the reading of a JSON number as binary64 are not part of this model.
- IANA time zones and daylight saving: a zone is a fixed offset of less than a day.
- Message texts, warnings other than `not-ascending`, and the `converted` and `disregarded` lists inside an upstream comparison, which only copy what `Sentinel` reports.
- Sockets, timeouts, caps on bodies, DNS and the address check at connection time: a request that does not get an answer is one outcome of the network. The branch for a `fetch` that followed redirects itself and the `sameOrigin` option of `secureGet` are left out.
- The JTD schema engine and most rules of `validate.ts`: a valid object is one whose members mentioned here are in their forms and for which every other rule, given as a parameter that does not look at `signed`, holds.
- JOSE, X.509 and JWK parsing: a header is given as its members were read, and a signature check and a thumbprint as a value; a header key whose thumbprint cannot be computed, and the normalization of `cty`, are not modelled. `verifyJws` without a required `cty` is not modelled.
- `modifiedAfterSigning` and `modifiedMembers` of a verified result: they are `deepEqual` and `differingMembers` of the payload and the object, which are proved on their own.
- Answers.AnswersAreHonored: the rule by which a target matches is one parameter of both sides, because the scripts and the consumer use different host patterns.
- ClientProtocol.EveryResultIsTruthful: a get is split at its await into `BeginGet` and `FinishGet`, and its network as steps of a server; a get whose bound is refused sends nothing and is not a step.
- QueryStrings.HonoredQuery: the raw query is taken to be ASCII, as a request line holds it; `honoredQuery` of the PHP script, which keeps ill-formed UTF-8, is not modelled.
- UpstreamRepeats.EveryWalkAsksOnceIff: of the resolution of references it takes that a URL it gives can be named from any base, and that a URL stays one after a period is set in its query.
- Client.SameKeySameRequest: how the text of an origin resolves to a URL is a parameter, and a query is a map, so a parameter that the URL gives twice is not modelled.
- LegacyCheck.ConvertDates: of which texts without separators the last two characters are passed over is a parameter, because it differs between releases of Python.
- LegacyCheck.LabelsAreConvertedAlike: labels the consumer refuses are not compared, such as those that Python's `int` takes with signs, spaces or underscores.
- The PHP scripts' `$` in patterns, which lets a final line feed pass.
- A member named `__proto__` in an object that the compatibility reading rewrites: assigning it sets the prototype. The paths of its report are structured values here and not texts.
- The noise and the random key of the servers, `security.py`, the publisher, the gateway, the conformance battery, disclosure, attestation, the HTML index and the command line, which would add easier members.
