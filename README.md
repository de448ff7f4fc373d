# Attendance presence service — token scheme and presence engine

This project models the core of a small attendance backend (`main.py`).
Each member gets two QR codes, one for check-in (IN) and one for check-out (OUT).

**Tokens.** Each QR code carries a short-lived token:
- it is the HMAC-SHA256 of the text `member_id:action:index` under a shared secret;
- `index` counts the whole 10-second windows since the epoch;
- the digest is written in URL-safe base64 (section 5 of RFC 4648) with the `=` padding stripped (section 3.2 of RFC 4648).

A scan sends the member id, the action and the token. The service accepts a token for the current window or the previous one.

**Scans.** An accepted scan does three things:
- appends an attendance event to the log;
- sets the member's presence flag;
- sets the time of the member's last check-in or last check-out.

Queries list the members with their status and return a member's recent events, newest first.

The model has four modules.

- `Outcomes`: `Option` and `Result`, plus the closed set of HTTP errors the core raises, with their status codes.
- `Encoding`:
  - Python's `str(int)` rendering of the window index, with its parser and round trip;
  - the URL-safe base64 encoder, padded and unpadded, with its decoder, round trip and injectivity.
- `Tokens`:
  - `generate_token` (`GenerateToken`) and `verify_token` (`VerifyToken`, a method with the source's two-candidate loop, specified by the predicate `Verifies`);
  - the comparison exactly as the source makes it (`VerifyAsWritten`);
  - the window, binding and expiry properties.
- `Presence`:
  - the store class holding the member map and the attendance log, with `create_member`, `list_members`, `get_member_qrs`, `scan2` and `member_attendance`;
  - the retired `/api/scan`;
  - the invariant that ties every member document to the log.

How the environment is handled:
- **Secret, window length and MAC.** These are a `Config` value. `Config.mac` is any function from (key, message) to a 32-byte digest; HMAC-SHA256 itself is not modelled.
- **Collision-freedom.** A global "the MAC is injective" assumption is unsatisfiable, because there are more messages than 32-byte digests. So each lemma that needs the MAC to tell inputs apart assumes it only for the pairs it compares (`Tokens.NoCollision`, `Tokens.CandidatesCollisionFree`).
- **The clock.** It is a parameter of whole seconds. `scan2` reads it twice: once inside `verify_token` (main.py:130) and once for the event (main.py:195). So `Scan2` takes `verifyNow` and `recordNow`. `get_member_qrs` reads it once per token and takes `inNow` and `outNow`.
- **The ObjectId parser.** `oid` (main.py:31-35) is an abstract `IdParser`: `oid(s)` is the id the string `s` denotes, or `None` when parsing fails and the service answers 400 "Invalid member id". Member documents are keyed by that id. Attendance events keep the `member_id` string exactly as it was sent, as the source does.
- **The database.** It is a `map` of member documents and a `seq` of attendance events in insertion order.

The behaviour of the code is reproduced as written, rough edges included:
- `scan2` does not check that the member exists. The event is appended at main.py:203, before the member update at main.py:211.
  - An id that parses but names no member is logged, updates nothing, and the scan still returns ok.
  - An id that does not parse is logged first, then answered with 400 (a partial commit).
- A repeated IN or a repeated OUT is never refused.
- `verify_token` is declared to return a bool (main.py:129). As written, it raises on a token holding a non-ASCII character (see Findings).

## Model

| member | source | states |
|---|---|---|
| Outcomes.Error.Status | main.py:119 | every error maps to 400, 401, 404 or 500; 400 exactly for an invalid action, an invalid member id, or a missing member id on the retired endpoint |
| Encoding.DigitChar | main.py:123 | the character written for a digit is a decimal digit with that value |
| Encoding.NatToDecimal | main.py:123 | `str(n)` for a natural number is non-empty, all digits, and has no leading zero |
| Encoding.IntToDecimal | main.py:123 | `str(i)` is non-empty and colon-free, and starts with `-` exactly when `i` is negative (the previous window index is -1 during the first window) |
| Encoding.DecimalRoundTrip | main.py:123 | reading back the digits of `str(n)` gives `n` |
| Encoding.IntRoundTrip | main.py:123 | parsing `str(i)` gives `i`, for negative `i` too |
| Encoding.IntToDecimalInjective | main.py:123 | different window indices are rendered differently |
| Encoding.Symbol | main.py:125 | every 6-bit value maps to a character of the URL-safe alphabet (`A-Z a-z 0-9 - _`) |
| Encoding.SymbolValue | main.py:125 | reading a character back gives a 6-bit value |
| Encoding.SymbolValueOfSymbol | main.py:125 | decoding the character for a 6-bit value gives that value back |
| Encoding.Base64UrlPadded | main.py:125 | `base64.urlsafe_b64encode`: four characters per full 3-byte group, and a final group of one or two bytes written as two or three characters padded with `=` to four |
| Encoding.Base64UrlPaddedLength | main.py:125 | `urlsafe_b64encode` output has 4 characters per started 3-byte group |
| Encoding.Base64UrlAlphabet | main.py:125 | the unpadded encoding uses only the URL-safe alphabet, so it holds no `=` |
| Encoding.Base64UrlLength | main.py:125 | the unpadded encoding of n bytes has (4n+2)/3 characters |
| Encoding.RStrip | main.py:125 | `str.rstrip("=")`: drops every trailing `=` and nothing else |
| Encoding.Base64Url | main.py:125 | the padding-free encoding of section 3.2 of RFC 4648, the reference the stripped encoder is proved equal to |
| Encoding.StripPaddingIsUnpadded | main.py:125 | `urlsafe_b64encode(d).rstrip("=")` equals the encoding without padding |
| Encoding.RStripAfterPrefix | main.py:125 | stripping trailing `=` never reaches past a prefix that does not end in `=` |
| Encoding.GroupRoundTrip | main.py:125 | the four characters of one 3-byte group decode to those bytes |
| Encoding.Base64UrlWellFormed | main.py:125 | an encoding holds only alphabet characters and never leaves a single character over |
| Encoding.Base64UrlNoSingleLeftOver | main.py:125 | an encoding's length is never 1 more than a multiple of 4 |
| Encoding.DecodeGroupOf | main.py:125 | four characters carrying the first three bytes, followed by text carrying the rest, decode to the whole |
| Encoding.DecodeShortGroup | main.py:125 | a final group of two or three characters decodes to the one or two bytes it carries |
| Encoding.RoundTripOneByte | main.py:125 | a one-byte tail (two characters, no padding) decodes back |
| Encoding.RoundTripTwoBytes | main.py:125 | a two-byte tail (three characters, no padding) decodes back |
| Encoding.RoundTripGroup | main.py:125 | if the rest decodes back, so does the rest with one more group in front |
| Encoding.DecodeGroupsRoundTrip | main.py:125 | the groups of any encoding decode to the bytes encoded |
| Encoding.Base64UrlRoundTrip | main.py:125 | decoding the unpadded encoding of any byte sequence gives it back |
| Encoding.Base64UrlInjective | main.py:125 | different digests give different tokens |
| Tokens.WindowIndexBounds | main.py:122 | the window index `now // W` is the window holding `now`: index*W <= now < index*W + W |
| Tokens.WindowIndex | main.py:122 | the window index `int(now) // W` of a whole number of seconds |
| Tokens.Message | main.py:123 | the signed text `member_id:action:index`, the index written as `str` writes it |
| Tokens.TokenFor | main.py:123-125 | the token of a member, action and window index: the MAC under the secret of the message, base64url encoded with the padding stripped |
| Tokens.TokenShape | main.py:124-125 | a token is the unpadded encoding of its digest: 43 characters, all from the URL-safe alphabet |
| Tokens.GenerateToken | main.py:117-126 | fails with "Invalid action" (400) exactly when the action is not IN or OUT, producing no token; otherwise the token has 43 URL-safe characters and is accepted by verification at the time it was issued |
| Tokens.VerifyToken | main.py:129-138 | returns true exactly when the token equals the one for the current window or for the window before |
| Tokens.CompareDigest | main.py:136 | `hmac.compare_digest` on two str values raises unless both are ASCII, and otherwise answers whether they are equal |
| Tokens.SearchAsWritten | main.py:132-138 | the loop of `verify_token` over its window indices as written: true on the first match, false when none matches, and the TypeError of `compare_digest` escaping uncaught |
| Tokens.VerifyAsWritten | main.py:129-138 | `verify_token` as written: the search over the current window index and the one before |
| Tokens.NonAsciiTokenRaises | main.py:132-138 | as written, a token holding a non-ASCII character makes verification raise an uncaught error instead of returning false |
| Tokens.TokenIsAscii | main.py:135 | every recomputed token is ASCII |
| Tokens.AsciiTokenAgrees | main.py:132-138 | on ASCII tokens the service's verification returns exactly what `Verifies` decides |
| Tokens.SearchTwoAscii | main.py:132-138 | with ASCII candidates and token, the loop answers whether either candidate matches, without raising |
| Tokens.NonAsciiTokenRejected | main.py:132-138 | under the corrected verification, a non-ASCII token is rejected without raising |
| Tokens.SplitAtLastColon | main.py:123 | `x:y` with a colon-free `y` determines both `x` and `y` |
| Tokens.MessageInjective | main.py:123 | `member_id:action:index` determines all three parts when the action holds no colon, even if the member id holds colons |
| Tokens.ColonInActionCollides | main.py:118-123 | with a colon in the action the message would not be injective, so the action check must come first |
| Tokens.TokenDeterminesInputs | main.py:123-125 | if the MAC does not collide on the two inputs, equal tokens mean equal secrets, member ids, actions and window indices |
| Tokens.AcceptedOnlyForItsInputs | main.py:131-137 | a token is accepted only with the secret, member and action it was made for, and only in its own window or the next |
| Tokens.AcceptedInIssueAndNextWindow | main.py:122-137 | a token issued at t is accepted at every t' whose window is t's window or the next one |
| Tokens.AcceptedForOneWindowLength | main.py:122-137 | in particular it is accepted at every t' with t <= t' < t + W |
| Tokens.WindowIndexBetween | main.py:122 | t lies in [i*W, (i+2)*W) exactly when its window index is i or i+1 |
| Tokens.AcceptedExactlyInTwoWindows | main.py:122-137 | if the MAC does not collide, a token issued at t is accepted at t' if and only if t' lies in t's window or the next |
| Tokens.RejectedOutsideItsWindows | main.py:131-138 | if the MAC does not collide, verification returns false two window lengths after issue, and before the issuing window |
| Tokens.TwoWindowsLater | main.py:122-131 | two window lengths after t, the window index has moved on by at least two |
| Tokens.AcceptanceSpan | main.py:131-137 | an accepted token was issued at t with t - W < t' < t + 2W |
| Tokens.TwoWindowSpan | main.py:122-131 | a time in t's window or the next lies in (t - W, t + 2W) |
| Tokens.SameWindowSameToken | main.py:122-126 | the token depends on the time only through its window index |
| Tokens.ActionBinding | main.py:123-133 | if the MAC does not collide, a token issued for IN is never accepted for OUT, and vice versa |
| Tokens.IdentityBinding | main.py:123-133 | if the MAC does not collide, a token issued for one member is never accepted for another |
| Tokens.WrongSecretRejected | main.py:124-134 | if the MAC does not collide, a verifier holding a different secret returns false |
| Tokens.DefaultSettingsScenario | main.py:113-114 | with the default secret and a 10-second window, a token issued at second 1000 is accepted at 1005 and 1015 and refused at 1025 |
| Presence.Action.Text | main.py:188 | the wire spelling of an action passes the IN/OUT check |
| Presence.ParseAction | main.py:188-189 | only "IN" and "OUT" are actions, and each reads back to its own spelling |
| Presence.NewMember | main.py:82-86 | a new member is absent and has no last check-in or check-out |
| Presence.Apply | main.py:206-211 | IN sets the flag and the last check-in time and keeps the last check-out; OUT clears the flag and sets the last check-out time and keeps the last check-in; the name is unchanged |
| Presence.Replay | main.py:206-211 | the member document after a sequence of accepted scans, each applied in log order; the name never changes and no events leave the member as it was |
| Presence.ReplayFromNew | main.py:207-211 | after any events a new member is present exactly when the last event is IN, and its last times are those of the last IN and the last OUT (last writer wins) |
| Presence.RepeatedActionKeepsFlag | main.py:207-211 | repeating an action is accepted and leaves the flag as one application does; only the timestamp moves |
| Presence.Status | main.py:103 | the status is "Present" exactly when the flag is set, and "Absent" otherwise |
| Presence.EventsForAppend | main.py:203-211 | appending an event adds it to a member's events exactly when its id parses to that member |
| Presence.Consistent | main.py:203-211 | the presence invariant: every member document is what its creation document and the events logged for it since then make of it |
| Presence.UpdatePresence | main.py:211 | the member update never adds or removes member documents |
| Presence.RecordPreservesConsistency | main.py:203-211 | logging an event and applying it keeps every member equal to the replay of its events since creation |
| Presence.RecordKeepsMember | main.py:203-211 | the same, for one member |
| Presence.Matching | main.py:220 | the filter keeps exactly the events whose member_id equals the argument, each as many times as it occurs in the log, and keeps nothing else |
| Presence.PrependNewest | main.py:220 | an event at least as new as a newest-first sequence can lead it |
| Presence.HeadIsNewest | main.py:220 | the first event of a newest-first sequence is at least as new as every other |
| Presence.Insert | main.py:220 | inserting into a newest-first sequence keeps it newest first and adds exactly that event |
| Presence.SortNewestFirst | main.py:220 | the descending sort on timestamp is newest first and a permutation of its input |
| Presence.LogStaysOldestFirst | main.py:195-203 | logging a scan whose recording time is no older than the log keeps the log's timestamps non-decreasing |
| Presence.SortOfOldestFirst | main.py:220 | when timestamps never decrease along the log, the descending sort is the log reversed: within one second the later scan comes first, as the stored sub-second times order it |
| Presence.MatchingAppend | main.py:220 | filtering a log made of two parts filters each part |
| Presence.MatchingOldestFirst | main.py:220 | filtering keeps timestamps non-decreasing |
| Presence.SameSecondLead | main.py:195-220 | after an IN and then an OUT of the member in the same second, the newest-first listing starts with the OUT and then the IN |
| Presence.NewestPrefix | main.py:220 | the first n of a newest-first sequence are newest first, and everything cut off is no newer than the last one kept |
| Presence.NewestOfMatching | main.py:220 | the first n of the sorted matching events are matching events from the log, newest first, and any matching event left out is no newer than the last one kept |
| Presence.Store.constructor | main.py:9 | the configured database: the store starts with no members and an empty log, and the invariant holds |
| Presence.Store.Valid | main.py:203-211 | the store keeps the presence invariant over its member map and attendance log |
| Presence.Store.CreateMember | main.py:78-92 | inserts exactly one absent member, with no times set, under a fresh id; the log is unchanged and the invariant is kept |
| Presence.Store.ListMembers | main.py:95-104 | every member and only those, each with "Present" exactly when its flag is set and "Absent" exactly when it is not |
| Presence.Store.StatusFollowsLastEvent | main.py:203-211 | the reported status is "Present" exactly when the last event logged for the member since its creation is IN, and "Absent" when there is none or the last one is OUT |
| Presence.Store.GetMemberQrs | main.py:141-159 | 400 for an unparsable id, 404 for an unknown one, otherwise an IN token and an OUT token for the id as given, each accepted at its own clock reading, and the window length |
| Presence.Store.QrsAcceptedAtSecondReading | main.py:152-156 | when the two clock readings are less than a window apart, both tokens are accepted at the later one |
| Presence.Store.Scan2 | main.py:181-213 | 400 for an invalid action and 401 for a token that fails verification, both leaving members and log unchanged; otherwise exactly one event (id as sent, action, recording time) is appended, then 400 with the event kept for an unparsable id, or ok with the member's flag and one time overwritten; other members are untouched and an unknown id updates nothing; the invariant is kept |
| Presence.Store.MemberAttendance | main.py:216-223 | at most `limit` events, all from the log with exactly this member_id, newest first; there are min(limit, matches) of them, and any match left out is no newer than the last one returned |
| Presence.Store.AttendanceIsLatestLoggedFirst | main.py:216-223 | with a clock that never runs backwards, the answer is the member's events latest-logged first, cut at `limit` |
| Presence.Store.SameSecondLatestFirst | main.py:216-223 | an IN scan and then an OUT scan recorded in the same second are listed OUT first, then IN |
| Presence.Scan | main.py:163-172 | the retired scan endpoint always answers 400 |

## Left out

- The FastAPI application, CORS, the `/` and `/test` endpoints, and the 500 "Database not configured" answers (main.py:80-81 and the same check in every handler). These are transport and configuration plumbing; the model's store always exists.
- MongoDB. The collections are a map and a sequence. `insert_one` is an append and `update_one` with `$set` is a map update. `find`, `sort` and `limit` are a filter, a sort and a prefix.
- Presence.Store.MemberAttendance: requires `limit > 0`, with `limit` a `nat` and no default. The endpoint accepts any `int` and defaults to 50. MongoDB reads `limit(0)` as "no limit", and PyMongo reads a negative limit as a single batch of at most that many documents. Those library rules are not modelled, so a zero or negative limit is outside the model.
- Presence.SortNewestFirst: times are whole seconds, and events of the same second are ordered latest-logged first. This is the order the stored sub-second datetimes give while the clock does not run backwards. Events whose stored datetimes are exactly equal have no order in the code; the model puts them latest-logged first too.
- The bson ObjectId parser. It is the abstract `IdParser`; how strings are parsed is not modelled.
- HMAC-SHA256. It is any function to 32-byte digests.
- Tokens.TokenDeterminesInputs: the binding lemmas assume the MAC does not collide, and only for the pairs they compare. This is the cryptographic assumption, stated per call rather than globally.
- HMAC's own key handling, where keys that differ only by trailing zero bytes give equal MACs. This falls under the MAC being opaque.
- UTF-8 encoding of the key and the message: both are kept as strings.
- `hmac.compare_digest`'s constant-time behaviour. Timing is not expressible; the comparison is equality.
- Presence.Store.Scan2: a token holding a non-ASCII character is answered with 401, where the code as written raises and answers 500 (see Findings). The log and the members are unchanged either way.
- `os.getenv("QR_SECRET")` and `datetime.now`. The secret is a `Config` field and each clock reading is a parameter.
- Times are whole seconds (`nat`). Stored timestamps are datetimes with sub-second precision and the window index is `int(now.timestamp())`; negative or fractional epoch times are not modelled.
- `created_at` and `updated_at` on members and events. They do not affect any decision.
- The `_id` strings added to responses (main.py:91, 101, 222).
- Concurrent requests. The code takes no locks; each operation is modelled as atomic.
- `schemas.py`. It declares request and record shapes with no behaviour; `Member` and `Event` follow its fields.

## Findings

| source | as written | input that shows it | evidently intended | confidence | as-written member | corrected member |
|---|---|---|---|---|---|---|
| main.py:136 | `hmac.compare_digest(expected, token)` on two str values raises TypeError when either holds a non-ASCII character; `verify_token` does not catch it, so `scan2` answers 500 | a scan2 body with action "IN" and token "é" | `verify_token` returns False for any token that is not a valid one, so the scan answers 401 | not executed | Tokens.NonAsciiTokenRaises | Tokens.NonAsciiTokenRejected |
