# A model of the four-language data service

The repository implements one REST contract four times: in C, C++, JavaScript and Python, over one
PostgreSQL database and one Redis. This project models the hand-written algorithms and protocols of
those services in Dafny and proves what they promise.

- **Session tokens of the C service.** base64url against a bit-string reference (`Bits`, `Base64Url`,
  `Base64UrlEncoder`, `Base64UrlDecoder`), compact HS256 tokens (`Jwt`), the cookie scanners of C and C++
  (`Cookie`), the claims that login prints and the `strstr` scanners that read them (`Claims`, `Expiry`,
  `Session`, `CurrentUser`, `SessionRoundTrip`), the same claims read as a JSON document (`ClaimsJson`), the
  user agent that stores the cookie and sends it back (`UserAgent`), and the role gate (`Roles`, `RoleGate`).
  HMAC-SHA256 is an arbitrary function with 32-byte results.
- **JSON output of the C service.** Escaping (`JsonText`), the growable buffer (`StringBuffer`), a reader for
  section 7 strings, numbers, arrays and objects of RFC 8259 (`JsonReader`), the row serializers (`Rows`),
  and ids and cache keys (`Ids`).
- **Cache-aside over shared Redis and PostgreSQL** (`CacheAside`, `CacheGuarantees`): a step system with any
  number of requests in flight in any service, where every call may fail, abandoned cache commands may
  still arrive, and entries expire or are evicted at any time. `Handlers` has the C handlers call by call, with
  any steps of all other requests between the calls, and shows that each of them is one request's path through
  that system. `CachedText` connects the values of the protocol with the text that is cached.
- **The rotating access log** (`AccessLog`, `LogGuarantees`, `LogLines`, `Subsequence`) on a modelled directory.
- **The migration runner** (`Migrations`, `MigrationRaces`, `MigrationOrder`), alone and against other runners
  that crash and misread.
- **The Redis connection manager of the Node service** (`RedisClient`), cut at its awaits.

`CStrings` and `Decimal` hold what the C library does with strings and numbers, `Arithmetic` and `Sequences`
facts about division and concatenation. A `char` pointer into a string is the suffix that it points at; a C
string is the text before the first NUL.
`dafny verify dfyconfig.toml` checks everything.

## What turned out not to hold

Each of these is a theorem with the exact condition under which the promise does hold.

- `README.md:226` says that rows created through one service are immediately visible to the others. For
  single rows that is true (`CommittedRowIsReadable`); for the list it is true if and only if the cached list
  is gone, expired or has the row, and no fill that was read before the row is still under way
  (`AlwaysListedIff`, `FreshAfterDel`). `CreateCanStayHidden` is a run that breaks it, and a list can be
  outdated by any age (`StalenessIsUnbounded`) unless fills are prompt (`StalenessIsBounded`).
- A login is meant to last an hour. The search for `"exp"` stops in the email if its printed text ends in the
  word `exp` as a whole JSON string or behind an escaped quote (for an email without quotes and
  backslashes: if it is `exp`), and in a role likewise; then the expiry is never, or some number that is not
  the claim (`ExpiresOnTimeIff`).
- The claims are read back without unescaping: the email survives exactly when it needs no escaping and fits
  its field (`EmailReadIff`), the roles exactly when none holds a `]` and they fit (`RolesReadIff`). The id
  survives always. Together: the whole round trip holds for a user if and only if `Survives` does
  (`RoundTripsIff`).
- The role gate scans what is read back of the printed roles. It opens for exactly the granted roles, whichever
  are wanted, if and only if every granted role needs no JSON escaping and holds no `]`, and their printed array
  has less than 256 bytes (`RoleGate.GateIsExactIff`). The roles `a]` and `admin` leave it shut for `admin`
  (`BracketShutsGate`), the one role `x","admin` opens it (`QuoteOpensGate`).
- `apps/js/src/cache.js:48` speaks of a brief cooldown before retrying. Requests that the cooldown rejects
  count as failures themselves. In every run from a client that is down, it tries to reconnect if and only if
  some request comes a whole cooldown after the last request, error event or failed call
  (`ReconnectsIffLate`); steady traffic keeps it disconnected (`SteadyTrafficStarves`).
- `json_escape` returns an `int`: a longer escaped text fits the buffer, but its length does not fit the result.
  The string buffer then gives up or keeps the wrong length; a printed list is whole if and only if all
  escaped lengths are ints (`SerializeRowsArray`). Half a gigabyte of control bytes is enough for either
  (`TooLongToCount`).
- A log file that this process opened empty outgrows its limit if and only if some write finds it full and either its `stat` fails, or the
  rename of the current file fails while the reopening works (`SizesAreBoundedIff`, `FullFileOutgrows`). A
  file is never rotated out too small, whatever fails (`RotatedFilesAreFull`).
- `db/migrate.sh:11` promises version order; the loop follows the order of the file names. A version is listed
  before one with more digits if and only if it is below the number that as many leading digits of the other
  form (`ListedByPrefix`): versions of one width are applied in order (`PaddedVersionsApplyInOrder`), and
  `V10` is applied before `V9` (`TenAppliesBeforeNine`).

## Model

| member | source | states |
|---|---|---|
| Base64Url.AlphabetLookup | apps/c/src/auth.c:15-16 | the alphabet string and the decoding case analysis number the 64 characters alike |
| Base64Url.EncodeShape | apps/c/src/auth.c:18-24 | encoding n bytes gives ceil(4n/3) characters of the alphabet, so the size computed beforehand is exact |
| Base64Url.RoundTrip | apps/c/src/auth.c:18-79 | decoding the encoding of any byte string gives it back |
| Base64Url.EncodeIsCanonical | apps/c/src/auth.c:18-46 | the encoding of any byte string is canonical |
| Base64Url.Canonical | apps/c/src/auth.c:62-79 | a text over the alphabet is what encoding its decoded bytes gives if and only if its length mod 4 is not 1 and its unused trailing bits are zero (section 3.5 of RFC 4648); it decodes to floor(6n/8) bytes |
| Base64UrlEncoder.GroupsEncode | apps/c/src/auth.c:27-44 | the shift-and-mask groups of three bytes are the encoding of the bit string |
| Base64UrlEncoder.EncodeInto | apps/c/src/auth.c:18-46 | succeeds exactly when the text and its NUL fit; then the buffer starts with the encoding and a NUL, and the rest is untouched |
| Base64UrlDecoder.ShiftKeepsLowBits | apps/c/src/auth.c:68 | shifting a sextet into the unmasked 32-bit accumulator keeps every bit that can still reach the output, wrap-around or not |
| Base64UrlDecoder.DecodeInto | apps/c/src/auth.c:62-79 | succeeds exactly when all characters are in the alphabet and the decoded bytes fit; then it has written them |
| Jwt.HeaderIsEncoded | apps/c/src/auth.c:91-93 | the precomputed header constant is the encoding of the JSON header beside it |
| Jwt.CutUnique | apps/c/src/auth.c:163-178 | a token has one cut at its first two dots |
| Jwt.AcceptedIff | apps/c/src/auth.c:158-218 | a cut token is acceptable exactly when header and signature are the expected ones, the claims decode within capacity and have not expired; no other claims part can be accepted for it |
| Jwt.SignedTokenAccepted | apps/c/src/auth.c:95-218 | a token signed with a secret is acceptable under it exactly while its claims fit and have not expired |
| Jwt.Sign | apps/c/src/auth.c:95-147 | writes the signed token exactly when both buffers are allocated, the HMAC is computed and the token and its NUL fit (and its length fits an int); otherwise -1 |
| Jwt.AcceptedUntilExpiry | apps/c/src/auth.c:207-216 | a signed token that fits is acceptable at every time when its claims hold no positive expiry, in particular without the key, and otherwise exactly before the expiry |
| Jwt.TokenIsCompactJws | apps/c/src/auth.c:95-147 | cut at its dots, a signed token is the encoded JSON header, the encoded claims, and the encoded HMAC over exactly the text before the last dot (section 7.1 of RFC 7515) |
| Jwt.SameBytes | apps/c/src/auth.c:149-156 | the comparison that looks at every byte decides equality |
| Jwt.Verify | apps/c/src/auth.c:158-218 | returns 0 if and only if the HMAC can be computed and the token is acceptable, and then the buffer holds the decoded claims as a C string |
| Cookie.FindsFirstSession | apps/c/src/auth.c:222-250 | in a header of well-formed pairs joined by "; " the scan finds the value of the first pair named session, ignoring case, or nothing |
| Cookie.SessionNameIff | apps/c/src/auth.c:240 | the names taken for the session are those of its seven letters, each in either case |
| Cookie.ScanPair | apps/c/src/auth.c:228-248 | a pair is read up to the first semicolon of its value, whatever its name holds besides `=`: a piece without `=` is taken for the beginning of the next name |
| Cookie.PaddingIsSkipped | apps/c/src/auth.c:229-230 | any blanks and semicolons in front do not matter |
| Cookie.NoPairNoSession | apps/c/src/auth.c:233-235 | a header without `=` holds no session |
| Cookie.GetSession | apps/c/src/auth.c:222-250 | for any header at all: the scanned value exactly when it fits its buffer, else -1 and an untouched buffer |
| Cookie.GetSessionUnbounded | apps/cpp/src/auth.cpp:168-194 | the C++ scanner computes the same function of every header, so both agree wherever the value fits |
| CStrings.StrStrFinds | apps/c/src/auth.c:208 | the search finds the first match, if there is one |
| Claims.SkipWord | apps/c/src/auth.c:208 | a search for a quoted key can match inside a printed string only at its very end |
| Claims.PastEmail | apps/c/src/handlers.c:510-565 | however odd the email, a search for a later key passes over it unless its printed string ends in that key |
| Claims.FindExp | apps/c/src/auth.c:208-216 | where the search for the expiry leads: the email, a role, or the claim |
| Claims.SubRead | apps/c/src/handlers.c:514-534 | the id is read back for every email and every roles text |
| Claims.EmailIsUpToQuote | apps/c/src/handlers.c:535-552 | the email is read as its printed text up to the first quote, or as empty when that does not fit |
| Claims.RolesAreUpToBracket | apps/c/src/handlers.c:553-565 | for every escaped email, the roles are read as the array up to its first closing bracket, or as empty when that does not fit |
| Claims.NothingWithoutKey | apps/c/src/handlers.c:514-566 | without a key nothing is read for it; without an id the payload is nobody's |
| ClaimsJson.ClaimsAreJson | apps/c/src/handlers.c:655-658 | for every user the claims are a JSON object of exactly the id as a string, the email, the array of the granted roles, the issue time, and the time an hour later |
| Expiry.ClaimRead | apps/c/src/auth.c:208-216 | otherwise the expiry that verification reads is the issue time plus 3600 |
| Expiry.EmailHidesExpiry | apps/c/src/auth.c:208-216 | behind an email that ends in the key the expiry reads as 0: the token never expires |
| Expiry.RoleHidesExpiry | apps/c/src/auth.c:208-216 | behind a role that ends in the key the expiry reads as the issue time, or as a number that does not depend on it |
| Expiry.ExpiresOnTimeIff | apps/c/src/handlers.c:655-658 | the token is valid for exactly an hour, whenever it is issued, if and only if neither the email's printed string nor a role's ends in the key |
| Session.TokenFits | apps/c/src/handlers.c:665-681 | claims that fit their 1024 bytes give a token and a cookie line that fit theirs, so those error branches are dead |
| Session.ClaimsAreWhole | apps/c/src/handlers.c:645-659 | the printed claims hold no NUL, so the C string that is verified later is all of them |
| Session.IssueCookie | apps/c/src/handlers.c:637-681 | login succeeds exactly when there is a secret, the two bounded buffers suffice, every allocation is granted and the HMAC is computed; a user agent then stores its cookie line as `session` with the token over the user's claims, for the token's lifetime, `Secure` exactly when asked |
| Session.CookieIsStored | apps/c/src/handlers.c:276-280 | read as section 5.2 of RFC 6265 says, the cookie line gives the pair of `session` and the token, `HttpOnly`, `SameSite=Strict`, a `Max-Age` of exactly the token's lifetime, and `Secure` exactly when asked |
| CurrentUser.Current.ReadSub | apps/c/src/handlers.c:514-534 | fills the id with what the scanner function says |
| CurrentUser.Current.Parse | apps/c/src/handlers.c:510-567 | the zeroed record is filled with exactly the claims that the scanners find, and is present exactly for a positive id |
| CurrentUser.Current.Extract | apps/c/src/handlers.c:569-588 | succeeds if and only if the HMAC can be computed and the header authenticates someone, and then the record holds who |
| SessionRoundTrip.EmailReadIff | apps/c/src/handlers.c:535-552 | the email that login signs is read back exactly when it needs no JSON escape and has fewer than 256 bytes |
| SessionRoundTrip.RolesReadIff | apps/c/src/handlers.c:553-565 | the printed roles are read back exactly when no role holds a closing bracket and they have fewer than 256 bytes |
| SessionRoundTrip.CarriedIsFound | apps/c/src/auth.c:222-250 | a token among other cookies is found, when no other session cookie stands before it |
| SessionRoundTrip.SessionExact | apps/c/src/handlers.c:569-680 | for any user and any time: a header that carries login's cookie authenticates exactly the identity that its claims read back as, until their expiry; the id is always the user's |
| SessionRoundTrip.ClaimsFit | apps/c/src/handlers.c:645-663 | fields that fit the record also fit the claims buffer |
| SessionRoundTrip.SessionRoundTrip | apps/c/src/handlers.c:569-681 | for an email below 256 bytes that needs no escape and is not exp, and roles that fit, hold no closing bracket and do not end in exp: login succeeds, and a request that sends the stored cookie back at time t comes from exactly that id, email and roles if t is before now + 3600, and from nobody after |
| SessionRoundTrip.RoundTripsIff | apps/c/src/handlers.c:569-681 | whenever the user logs in and whoever asks, login succeeds and the cookie that it sets stands for exactly this user and exactly an hour, if and only if the email and the roles are of that kind |
| Roles.ScanSeesRoles | apps/c/src/auth.c:282-304 | the words that the scan takes out of a printed array are its printed roles if and only if none of them holds a quote |
| Roles.ScanIsExactIff | apps/c/src/auth.c:282-304 | scanning a whole printed array decides exactly, whichever roles are wanted, under the same condition |
| Roles.WordsLackLast | apps/c/src/auth.c:288-302 | a character that only ends the text, like the closing bracket of the slice, is in no scanned word |
| RoleGate.RolesAtGateAre | apps/c/src/handlers.c:553-565 | the gate receives the whole printed array exactly when no role holds a closing bracket and it has less than 256 bytes; it receives nothing when only the latter fails |
| RoleGate.GateIsExactIff | apps/c/src/handlers.c:823-829 | with the roles that are granted in the database, read back from the claims: the gate opens exactly when a wanted role was granted, whichever are wanted, if and only if every granted role needs no escaping and holds no closing bracket and their printed array has less than 256 bytes |
| RoleGate.BracketShutsGate | apps/c/src/handlers.c:823-829 | the granted roles `a]` and `admin` leave the gate shut for writer and admin |
| RoleGate.QuoteOpensGate | apps/c/src/handlers.c:823-829 | the one role `x","admin` opens the gate for writer or admin, though neither was granted |
| RoleGate.GateForPlainRoles | apps/c/src/handlers.c:823-829 | for plain roles that fit, the gate opens for any list of wanted roles exactly when some granted role equals some wanted one |
| RoleGate.MayWrite | apps/c/src/handlers.c:823-829 | the gate in front of a create lets exactly writers and admins pass |
| RoleGate.NoArrayNoRoles | apps/c/src/handlers.c:658 | a user without a role array is printed as one without roles |
| Roles.ContainsAny | apps/c/src/auth.c:282-304 | the nested loops answer whether some scanned word equals some wanted one |
| JsonText.ReadBodyOfEscape | apps/c/src/handlers.c:42-101 | reading an escaped text (section 7 of RFC 8259) gives the text back, for all bytes |
| JsonText.EscapeInjective | apps/c/src/handlers.c:42-101 | different texts are escaped differently |
| JsonText.EscapeIsShortest | apps/c/src/handlers.c:52-91 | no shorter text reads as the same character |
| JsonText.EscapeIsClean | apps/c/src/handlers.c:42-101 | the output holds no control byte, hence no NUL, and no quote that could end a string |
| JsonText.PlainIsUnchanged | apps/c/src/handlers.c:42-101 | escaping leaves exactly the texts without quotes, backslashes and control bytes alone |
| JsonText.EscapeInto | apps/c/src/handlers.c:42-101 | succeeds exactly when the escaped text and its NUL fit, and writes nothing else |
| StringBuffer.GrownTwice | apps/c/src/handlers.c:182-184 | making room step by step ends at the same capacity as making it at once |
| StringBuffer.LargerCapacity | apps/c/src/handlers.c:182-184 | the doubling loop ends at 256 times a power of two within a size_t, and at least doubles |
| StringBuffer.Buffer.Reserve | apps/c/src/handlers.c:176-193 | makes room exactly when the allocator grants the doubled size, keeps the contents, and keeps the capacities given up below the current one |
| StringBuffer.Buffer.Append | apps/c/src/handlers.c:195-205 | the contents become the old ones followed by the text, with a NUL behind; otherwise the buffer is out of memory and unchanged |
| StringBuffer.Buffer.AppendEscaped | apps/c/src/handlers.c:207-217 | the room for six bytes a character always suffices; only a length that is no int can still fail |
| StringBuffer.Buffer.AppendQuoted | apps/c/src/handlers.c:207-219 | appends the quoted, escaped text; the closing quote needs no further growth |
| StringBuffer.Buffer.AppendLong | apps/c/src/handlers.c:221-226 | appends the decimal text of a long |
| Rows.ReadRow | apps/c/src/handlers.c:230-239 | a printed row is read back as its id, content and time, whatever follows |
| Rows.ReadSerialized | apps/c/src/handlers.c:241-249 | a JSON reader takes a printed list for exactly its rows, for any number and any contents |
| Rows.SerializationInjective | apps/c/src/handlers.c:230-249 | different row lists are printed differently |
| Rows.CachedTextIsWhole | apps/c/src/handlers.c:354 | a printed list holds no NUL, so caching it as a C string loses nothing |
| Rows.SerializeRow | apps/c/src/handlers.c:230-239 | unless the buffer runs out of memory it grows by the stored length, and by exactly the printed row when the escaped lengths are ints; a length that comes back negative exhausts it; nothing else does while the allocator grants what six times the row's length can need |
| Rows.StoredLengthIs | apps/c/src/handlers.c:207-239 | what a row leaves in the buffer is as long as the printed row if and only if both its escaped lengths are ints, and otherwise shorter |
| Rows.SerializeRowsArray | apps/c/src/handlers.c:241-249 | unless the buffer runs out of memory it has gained exactly the printed list if and only if all escaped lengths are ints; it runs out exactly as for single rows |
| Rows.AppendText | apps/c/src/handlers.c:207-219 | a negative escaped length exhausts the buffer whatever room there is; otherwise it gains that length, and the whole text when the length is an int |
| Rows.TooLongToCount | apps/c/src/handlers.c:100 | the escaped length of 2^29 control bytes comes back negative, that of 715827882 of them and four letters as 0 |
| CachedText.ListTextReadsBack | apps/c/src/handlers.c:342-354 | the cached text of any list that a request is served reads back, as a C string, as one object per row of some past table, with its id, content and printed time |
| CachedText.ItemTextReadsBack | apps/c/src/handlers.c:413-424 | the cached text of any item that a request is served reads back as the id, content and printed time of the row of that id |
| CachedText.ListTextInjective | apps/c/src/handlers.c:230-249 | different row lists are cached as different texts, when different times are printed differently |
| Decimal.StrToLPrintLong | apps/c/src/handlers.c:530 | strtol undoes printing for every long, whatever non-digit follows |
| Decimal.StrToLLaw | apps/c/src/auth.c:212 | blanks, a sign, digits and anything behind them: what is read, saturated to a long |
| Decimal.DecNumberOf | apps/c/src/handlers.c:16-36 | a digit text without a needless zero is the decimal text of its number |
| Ids.ParsePositiveLong | apps/c/src/handlers.c:16-36 | accepts exactly the canonical decimal texts of 1 to LONG_MAX, and no intermediate value overflows |
| Ids.BuildItemKey | apps/c/src/cache.c:30-35 | writes the key exactly when it fits; 32 bytes always suffice |
| Ids.KeysAreDistinct | apps/c/src/cache.c:30-42 | ids, id texts and item keys correspond one to one, and no item key is that of the list |
| CacheAside.StepKeepsInv | apps/js/src/app.js:185-269 | every step of any request, failure, expiry or late command keeps every cached, pending and served value right |
| CacheAside.RunKeepsInv | apps/cpp/src/handlers.cpp:160-252 | in every reachable state a list value is the exact table at a past commit, an item value the row of its id, and a hit was live when read |
| Handlers.Service.HandleList | apps/c/src/handlers.c:308-368 | whatever calls and allocations fail and whatever other requests do between the calls: the database, Redis and the reply are those of a run in which this request takes exactly the calls listed, in that order; the reply is an error exactly in the listed cases; undisturbed, a live entry is served whatever the database does, and a fill is stored for the configured lifetime |
| Handlers.Service.HandleOne | apps/c/src/handlers.c:370-438 | the same for one row; a text that is no id changes nothing, and a missing row is not cached |
| Handlers.LiveEntryIsServed | apps/c/src/handlers.c:379-396 | for every key: a lookup that does not fail finds the entry until its lifetime ends, and the database is not asked |
| Handlers.Service.HandleCreate | apps/c/src/handlers.c:450-498 | the same for a create: the row commits before the cached list is deleted, a failing cache call does not fail the request, and an empty content changes nothing; undisturbed, exactly the row is added and the list deleted |
| Handlers.PathKeepsInv | apps/c/src/handlers.c:308-498 | so the guarantees of all reachable states hold behind every handler |
| CacheGuarantees.RepliesAreRight | apps/js/src/app.js:185-239 | every list reply is the whole table of some past instant, newest first, every item reply the row asked for; a reply from the cache is what was stored less than its lifetime before |
| CacheGuarantees.FillIsServedForItsTtl | apps/js/src/app.js:185-239 | for every key, what a SET stored is what requests are served until the last instant of its lifetime and not a moment longer, unless it is replaced, deleted or evicted |
| CacheGuarantees.AlwaysListedIff | apps/js/src/app.js:185-208 | a committed row is on every list requested from now on if and only if the cached list is gone, expired or has it, and every fill under way has it |
| CacheGuarantees.FreshAfterDel | apps/c/src/handlers.c:457-473 | after a create's DEL went through, that holds if and only if no fill under way was read before the row |
| CacheGuarantees.DatabaseRepliesAreFresh | apps/cpp/src/handlers.cpp:172-178 | whatever is stale in the cache, a list that a request reads from the database has every row committed before the request |
| CacheGuarantees.CommittedRowIsReadable | apps/js/src/app.js:210-239 | a request for a committed id is never told that it is missing, and gets nothing but that row |
| CacheGuarantees.StalenessIsBounded | apps/c/src/cache.c:181-189 | if fills reach Redis within some delay of their SELECT, a cached list has every row committed at least the delay plus the TTL before it was served |
| CacheGuarantees.StalenessIsUnbounded | apps/js/src/app.js:196-205 | for every age, a run in which a list served from the cache lacks a row committed that long before |
| CacheGuarantees.CreateCanStayHidden | README.md:226 | a run after whose create and DEL a later list can still lack the row |
| AccessLog.Log.Rotate | apps/c/src/access_log.c:42-58 | the loop does the renames one by one from the oldest on, then moves and reopens the current file |
| AccessLog.Log.WriteLine | apps/c/src/access_log.c:60-82 | rotates exactly when the file has reached its size, then appends the line and a missing newline |
| LogGuarantees.ShiftMovesUp | apps/c/src/access_log.c:47-53 | what every file is at each point of the loop, as a function of the files before it |
| LogGuarantees.MidRotation | apps/c/src/access_log.c:47-53 | even in the middle of a rotation nothing but the oldest file is missing |
| LogGuarantees.RotationDropsOldest | apps/c/src/access_log.c:42-58 | a rotation drops exactly the oldest file, and that only when another takes its place |
| LogGuarantees.LogIsSuffix | apps/c/src/access_log.c:42-82 | over a run without failing renames and reopenings the files end to end are the end of what they were, followed by every line written |
| LogGuarantees.LogIsSuffixInRotation | apps/c/src/access_log.c:42-82 | and so they are after any such run at every point inside the next rotation, up to the reopening |
| LogLines.WrittenLines | apps/c/src/access_log.c:73-77 | splitting what a run writes at the newlines gives back exactly its lines, in order |
| LogLines.LogReadsAsLines | apps/c/src/access_log.c:42-82 | read line by line, the log is the end of the lines it held, followed by exactly the lines written: rotation never cuts a line |
| LogLines.LastLineIsThere | apps/c/src/access_log.c:60-77 | the last line of the log is the last one written |
| LogGuarantees.LogLosesOnly | apps/c/src/access_log.c:42-82 | whatever fails, nothing is repeated or reordered |
| LogGuarantees.RotatedFilesAreFull | apps/c/src/access_log.c:68-77 | whatever fails, a file that this process opened empty and rotated out has reached the limit |
| LogGuarantees.SizesAreBoundedIff | apps/c/src/access_log.c:42-77 | at every point of the run no such file had reached the limit before its last line, if and only if no write finds its file full while its `stat` fails, or the rename of the current file fails and the reopening works |
| LogGuarantees.FullFileOutgrows | apps/c/src/access_log.c:42-77 | either fault is enough, on the second line into a full file |
| LogGuarantees.FilesAreBounded | apps/c/src/access_log.c:49-57 | at most backups + 1 files are in use, whatever fails |
| Migrations.MissingCompletes | db/migrate.sh:54-73 | applying what is missing leaves every listed version recorded, and applies none that was |
| Migrations.NothingMissing | db/migrate.sh:58-64 | nothing is left to apply exactly when every version is recorded, so a second run does nothing |
| Migrations.Database.Transaction | db/migrate.sh:66-69 | the migration and its tracker row commit together, once a version |
| Migrations.Database.Up | db/migrate.sh:54-73 | succeeds exactly when psql and the tracker table are there and no check of a recorded version and no transaction of a missing one fails; success applies the missing ones in listed order, failure leaves what a shorter list would |
| MigrationOrder.ListedByPrefix | db/migrate.sh:58 | a version with no more digits than another is listed before it if and only if its number is below that of as many leading digits of the other |
| MigrationOrder.PaddedVersionsInOrder | db/migrate.sh:11 | versions of one width are listed in version order |
| MigrationOrder.TenBeforeNine | db/migrate.sh:58 | V9 is not listed before V10 |
| MigrationOrder.AppliedAsListed | db/migrate.sh:58-71 | a run applies what is missing in the order of the listing |
| MigrationOrder.PaddedVersionsApplyInOrder | db/migrate.sh:11 | when all versions have one width, a run applies them by increasing number |
| MigrationOrder.TenAppliesBeforeNine | db/migrate.sh:11 | where both are missing, a run applies V10 before V9 |
| MigrationRaces.CommitIsNext | db/migrate.sh:61-69 | the transaction that gets through is the next one that a lone runner would commit |
| MigrationRaces.RunnersActAsOne | db/migrate.sh:33-73 | any number of runners, with crashes and wrong noes, take the database only through the states of one undisturbed runner; each version commits at most once, and a runner that finishes leaves nothing missing |
| MigrationRaces.NewRunnerFinishes | db/migrate.sh:54-73 | from any state a new runner can finish by its own steps, and then what was missing has been applied in listed order |
| RedisClient.RunKeepsInv | apps/js/src/cache.js:45-113 | the callbacks of a connect only ever meet their own connection in the shared variables |
| RedisClient.SuccessIsUsed | apps/js/src/cache.js:50-92 | after a connect has succeeded, until a failing call drops the connection or its socket closes, every request gets exactly this connection and no other connect starts |
| RedisClient.FailureDropsConnection | apps/js/src/cache.js:98-111 | a failing call disconnects the connection, and nobody gets it again |
| RedisClient.ReconnectDiscipline | apps/js/src/cache.js:50-92 | at most one connect is in flight, and k attempts that fail span at least k - 1 cooldowns |
| RedisClient.StartsAreCooled | apps/js/src/cache.js:50-113 | in every run, a connect starts at least a cooldown after every failure recorded before it, of a connect or an operation, an error event or a rejection |
| RedisClient.ReconnectsIffLate | apps/js/src/cache.js:48-113 | in every run from a client that is down, whatever else happens in it, a connect starts if and only if some request comes a whole cooldown after the last request, error event or failed call |
| RedisClient.SteadyTrafficStarves | apps/js/src/cache.js:48-56 | a client that is down stays down and starts no connect while each request comes less than a cooldown after the one before |

## Left out

- HTTP frameworks, SQL, the Redis protocol, TLS, bcrypt and HMAC-SHA256: opaque; HMAC is any function with 32-byte results that may fail to be computed.
- The request parser (`mg_json_get`, `crow::json::load`): the model starts from the extracted fields.
- `reply_json_with_cookie`: the client is taken to receive the cookie line whole.
- Handlers.Service.HandleCreate: starts behind the size check and the parsing of the body; building the reply text is left to `Rows`.
- Claims.RolesText: an array with NULL elements, which PostgreSQL prints as `null` without quotes, is not modelled; roles are printed with the escapes of `JsonText.Escape`.
- Route dispatch, API keys, health, logout, `/auth/me`: short, they would add easy members.
- The Python service, the C++ token functions and the C++ access log: the same logic again.
- `apps/c/src/cache.c` connection handles: each call frees what it replaces; easy members only.
- Signed overflow: a left shift into the sign bit of the decoder's accumulator and a narrowing conversion to `int` are modelled as two's-complement wrap-around.
- Rows.SerializeRowsArray: which request an allocator refuses first is stated for single appends only, and so is what is kept of a text whose escaped length is no `int`.
- The JSON reader: `\u` escapes of 0x80 and above and numbers with a fraction or an exponent are not read; the serializers print neither.
- Cache-aside: an insert either commits and reports it or does neither; one clock times entries and commits; a request that times out on a cache call goes on as after a failure.
- AccessLog.Log.Rotate: path names of 512 bytes and more, short writes and other processes that touch the files are not modelled.
- MigrationRaces.RunnersActAsOne: all runners list the same files; the racing creation of the tracker table is not modelled.
- MigrationOrder.ListedByPrefix: `sort` compares character codes, as in the C locale.
- RedisClient.ReconnectDiscipline: `close()`, and what `isOpen` means beyond open or closed, are left out; the clock does not run backwards.
- JavaScript numbers: ids are integers of any size in the step system.
