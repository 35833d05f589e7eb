# Intrusion-detection middleware, modelled in Dafny

The repository is a small Flask intrusion-detection middleware in two near-identical
variants. `IDS.py` keeps everything in memory: a per-IP list of request times
(`ip_requests`), a blocklist (`BLOCKED_IPS`) and a list of the 50 most recent attacks
(`recent_attacks`). `IDS_Network.py` keeps the blocklist and the attack log in two
database tables (`BlockedIP`, `Attack`) and the per-IP windows in memory.

Before every request, `monitor_request` does the following:

1. It answers 403 "Access blocked" to a blocklisted IP and changes nothing.
2. It runs the signature matcher over the body, then the query string, then the
   header block. The first hit is recorded and answered with 403 "<label> detected".
3. Otherwise it slides the IP's one-minute window. If the window holds more than 20
   requests, the IP is blocklisted, a "Brute-force" attack is recorded and the answer
   is 429 "Too many requests".
4. Otherwise the request goes through.

The matcher (`detect_signature_attack`) checks SQL-injection tokens first and
script-injection tokens second, ignoring case.

Layout:

- `wrappers.dfy` (`Wrappers`): the `Option` type.
- `signature.dfy` (`Signature`): the token tables and a substring search proved equal to
  an index-based definition. It also holds `Detect`, the first-hit function `FirstHit`
  over the request surfaces, and `ScanSources`, the scanning loop.
- `window.dfy` (`Window`): window eviction (`Fresh`), `Slide` and the threshold, with
  lemmas about single calls and about bursts of calls.
- `recent_attacks.dfy` (`RecentAttacks`): the insert-at-front, pop-past-50 buffer, and its
  relation to the newest 50 entries of an append-only log.
- `events.dfy` (`Events`): the request's four strings, the attack record, the responses.
- `ids.dfy` (`Ids`): `IDS.py`. The pure step functions `BruteforceStep`, `MonitorStep` and
  `Run` specify the class `Ids.Middleware`, whose methods update the three fields in place.
- `ids_network.dfy` (`IdsNetwork`): `IDS_Network.py`, built the same way. The `BlockedIP`
  table is a sequence of IPs and the `Attack` table an append-only sequence.
- `variants.dfy` (`Variants`): from corresponding states both variants give the same
  response and reach corresponding states. There, the `IDS.py` buffer is the newest 50
  rows of the `Attack` table, newest first.

Three details of the source's order and answers:

- The blocklist check comes before the signature scan.
- The rate-limit answer is "Too many requests".
- A blocked IP's request goes through no window accounting.

## Model

| member | source | states |
|---|---|---|
| Signature.OccursIff | IDS.py:32 | the left-to-right search finds a token exactly when it occurs at some index of the text (regex `search` semantics for a literal) |
| Signature.MatchesAnyIff | IDS.py:19-20 | an alternation of literal tokens matches exactly when one of its tokens occurs in the lower-cased text |
| Signature.Detect | IDS.py:31-36 | SQL label iff some SQL token occurs (ignoring ASCII case), even if an XSS token also does; XSS label iff no SQL token and some XSS token occurs; None iff neither |
| Signature.UnionSelectIsSql | IDS_Network.py:38-40 | "UNION SELECT * FROM users" is classified as SQL Injection despite upper case |
| Signature.DropTableBodyIsSql | IDS_Network.py:30 | the body "1; DROP TABLE users;--" is classified as SQL Injection |
| Signature.FirstHitIsFirst | IDS.py:65-68 | the scan result is None iff no surface is flagged; otherwise it is surface i's label and text, and no surface before i is flagged |
| Signature.ScanSources | IDS_Network.py:71-74 | the loop over the surfaces stops at, and returns, the first flagged surface with its text |
| Window.Fresh | IDS.py:40 | eviction keeps exactly the timestamps with now - t < 60, each with its multiplicity, and no others |
| Window.FreshAppend | IDS_Network.py:47 | eviction preserves the original order (it distributes over concatenation) |
| Window.FreshKeepsRecent | IDS.py:40 | a window whose entries are all younger than 60 seconds is kept whole |
| Window.GapRestartsCount | IDS_Network.py:46-49 | after 60 quiet seconds the window is just [now] and the IP is not flagged |
| Window.FirstSightingNotFlagged | IDS.py:41-45 | a first-seen IP gets window [now] and is not flagged |
| Window.BurstIsKept | IDS_Network.py:46-48 | non-decreasing requests within one minute of the first leave every timestamp in the window, in order |
| Window.TwentyFirstRequestIsFirstFlagged | IDS.py:42-45 | within such a burst from a new IP the k-th call is flagged iff k > 20, so the 21st call is the first True |
| RecentAttacks.Push | IDS.py:70-72 | insert-at-front then pop keeps at most 50 entries: the new record followed by the first at most 49 old ones |
| RecentAttacks.PushNewest | IDS.py:79-81 | pushing onto the newest-50 view of a log gives the newest-50 view of the log with the record appended |
| RecentAttacks.PushAllKeepsNewest | IDS.py:70-71 | after n insertions into the empty buffer it holds the min(n, 50) most recent records, newest first |
| Ids.BruteforceUpdatesOnlyItsWindow | IDS.py:38-42 | `ip`'s list becomes its old entries with now - t < 60 followed by now; every other IP's list is unchanged; the result is true iff the new length exceeds 20 |
| Ids.BruteforceGrowsBlocklist | IDS.py:42-45 | the blocklist never loses members, gains at most `ip`, and contains `ip` afterwards iff it did before or the call returned true |
| Ids.BlockedRequestIsInert | IDS.py:57-59 | a blocklisted IP gets 403 "Access blocked" and the windows, blocklist and buffer are unchanged |
| Ids.SignatureHitIsRecordedOnce | IDS.py:64-74 | on the first flagged surface: 403 "<label> detected", exactly one record (label, that surface's text) at index 0 followed by at most 49 old ones, windows and blocklist untouched |
| Ids.CleanRequestIsRateChecked | IDS.py:76-83 | with no signature, the IP's window slides; more than 20 entries gives 429, blocklisting and a Brute-force/"Too many requests" record at the front; otherwise the request is allowed and buffer and blocklist are unchanged |
| Ids.RecentStaysBounded | IDS.py:70-72 | over any sequence of requests the buffer never exceeds 50 entries |
| Ids.BlocklistIsPermanent | IDS.py:43 | over any sequence of requests no IP leaves the blocklist |
| Ids.Middleware.constructor | IDS.py:23-28 | the state starts with no windows, an empty blocklist and an empty buffer |
| Ids.Middleware.DetectBruteforce | IDS.py:38-45 | updates the fields in place exactly as BruteforceStep says and returns its verdict |
| Ids.Middleware.RecordAttack | IDS.py:79-81 | inserts at the front and pops past 50, keeping the buffer bound |
| Ids.Middleware.MonitorRequest | IDS.py:48-83 | returns the response and leaves the state that MonitorStep gives, keeping the buffer bound |
| IdsNetwork.BruteforceKeepsRowsUnique | IDS_Network.py:45-54 | the guarded insert keeps the `BlockedIP` column duplicate-free; the rows change only by appending `ip` when the call flags and `ip` is absent; `ip`'s window slides, other IPs' windows and the `Attack` table are unchanged; the result is true iff the window exceeds 20 |
| IdsNetwork.BlockedRequestIsInert | IDS_Network.py:65-68 | a blocklisted IP gets 403, no `Attack` row is added and its window is not updated |
| IdsNetwork.SignatureHitAppendsOneRow | IDS_Network.py:70-79 | the first flagged surface appends exactly one `Attack` row with that label and surface text and returns 403; windows and blocklist are untouched |
| IdsNetwork.CleanRequestIsRateChecked | IDS_Network.py:81-87 | the IP's window slides in both cases; past the threshold: 429, one Brute-force row, IP appended to the blocklist; otherwise allowed with that new timestamp as the only change |
| IdsNetwork.RowsStayUnique | IDS_Network.py:22-24 | over any sequence of requests the blocklist stays duplicate-free and never loses a row |
| IdsNetwork.AttacksAreAppendOnly | IDS_Network.py:75-77 | over any sequence of requests the old `Attack` rows stay a prefix and at most one row is added per request |
| IdsNetwork.Middleware.constructor | IDS_Network.py:26-35 | empty tables and no windows |
| IdsNetwork.Middleware.DetectBruteforce | IDS_Network.py:45-54 | updates the window and the blocklist in place exactly as BruteforceStep says, keeping the column unique |
| IdsNetwork.Middleware.MonitorRequest | IDS_Network.py:57-87 | returns the response and leaves the state that MonitorStep gives, keeping the column unique |
| Variants.StepsAgree | IDS_Network.py:58-87 | from corresponding states both variants give the same response and reach corresponding states (same windows, same blocklist as a set, IDS.py buffer = newest 50 `Attack` rows) |
| Variants.RunsAgree | IDS.py:48-83 | from their initial states, both variants stay in correspondence over any sequence of requests |

## Left out

- Flask wiring is not modelled: request field extraction, the `/`, `/login` and `/dashboard` routes, and the HTML templates. A request is its IP, body, query and header block as plain strings. A missing `remote_addr` (Python `None`) is not modelled.
- The SQLAlchemy/sqlite layer is not modelled. This covers commits, commit failures, the auto-increment `id` column and the dashboard query. The tables are plain sequences.
- File logging and `print` alerts are left out because they are I/O only.
- The matplotlib chart and its `type_counts` are left out because they are presentation.
- bot_traffic_monitor.py is not part of this model. It is a tkinter display fed by random simulated traffic, and no user-agent or timing-based bot classifier exists in the source, so none is modelled.
- Signature.Detect: case is ignored for ASCII letters only. Python's IGNORECASE also folds some non-ASCII characters onto ASCII letters (such as the long s, U+017F), and those matches are not modelled. General regex semantics are not needed, because every alternative is a literal string.
- Time is one integer `now` per request. The source reads a float clock separately for the window and for each record's timestamp.
- Concurrency is left out. The source has no synchronisation, so each request is one sequential step.
- Growth of the window map is not bounded. Entries for idle IPs are never removed, in the source or in the model.
