# Verified model of the StackConnect core

A Dafny model of the parts of `stack_core` that carry arithmetic, shared state or a format, and
proofs about them. Run `dafny verify dfyconfig.toml` in this folder to check everything.

| file | module | models |
|---|---|---|
| `Calendar.dfy` | `Calendar` | the closed-form civil date of `now_iso8601`, against a calendar that counts years, months and days one at a time |
| `Timestamp.dfy` | `Timestamp` | the RFC 3339 string of a second count, its parser and its order |
| `Utf8.dfy` | `Utf8` | UTF-8 (RFC 3629): encoding, strict and lossy decoding, character boundaries |
| `Pem.dfy` | `Pem` | `normalize_p8_pem`, the PEM rewrapper |
| `TokenCache.dfy` | `TokenCache` | `AppStoreAuthenticator::bearer_token`, and any number of interleaved callers of it |
| `Handovers.dfy` | `Handovers` | tasks that hand items over to one receiver in any interleaving, the step system that flushes and replays share |
| `LogBuffers.dfy` | `LogBuffers` | `LogBuffer`, and any interleaving of logging and overlapping flushes |
| `Sync.dfy` | `Sync` | `SyncService::sync_apps`, the two blob stores, and the buffered `FrbSyncService::sync_apps` |
| `Replays.dfy` | `Replays` | any interleaving of buffered syncs replaying their blobs onto one host store |
| `Scexport.dfy` | `Scexport` | the `.scexport` frame, its key derivations, `encrypt` and `decrypt` |
| `AccountExports.dfy` | `AccountExports` | the credential key renaming, account export and import |
| `Common.dfy` | `Common` | shared value types |

## How the source is represented

- A Rust `str` is a Dafny `string`: a Dafny `char` is a Unicode scalar value. Its bytes are
  `Utf8.Encode`; `from_utf8` and `from_utf8_lossy` are the decoders proved in `Utf8`, so nothing
  about UTF-8 is assumed.
- AES-GCM, PBKDF2, HKDF, SHA-256 and JSON are function values in `Scexport.Primitives`. Where a
  result needs a law of theirs it requires `Lawful`: opening inverts sealing, a sealed message is 16
  bytes longer than the plain one, reading JSON inverts writing it. ES256 signing is a function
  value for each attempt, so every attempt may fail or draw fresh randomness.
- Clock readings, the random salt and nonce, the account id, the fetched apps and the order in which
  a hash map is iterated are parameters, and the results hold for all of them.
- An operation that updates state in place is a method of a class, or a method with a loop, whose
  postcondition ties it to a specification function. Interleavings are step systems over those same
  functions: a lock-protected section, or the code between two suspension points, is one step.

## Where code and documentation differ

The model follows the code.

- `normalize_p8_pem` says it removes ASCII white space, taken here as the `White_Space` characters
  below U+0080; `split_whitespace` removes every character with that property. The promise holds
  exactly for texts whose white space is all ASCII and in which no character straddles a chunk end
  (`Pem.DocumentedBodyIff`, `Pem.DocumentedIff`); a key with a no-break space breaks it
  (`Pem.NoBreakSpaceDropped`).
- A bare key is said to be re-wrapped. A base64 body that happens to spell `BEGIN` is returned
  untouched (`Pem.BeginKeyNotRestored`); `Pem.StripThenNormalize` gives the exact condition.
- `now_iso8601` emits four-digit years only before the year 10000; from then on string order and time
  order part. `Timestamp.StringOrderExactly` says when one output sorts before another,
  `Timestamp.StringOrderHoldsBelowIff` that 253402300800 is the exact limit.
- `decrypt` documents an unsupported-version error for any unknown version byte. It is reported only
  from 49 bytes on (`Scexport.OutcomeClasses`); shorter input is called truncated
  (`Scexport.ShortUnknownVersion`).
- `remap_schema_to_ios` is called the inverse of `remap_ios_to_schema`. It is so exactly on maps
  that hold none of the three iOS keys (`AccountExports.RoundTripIff`); a map with `issuerID` does
  not come back (`AccountExports.IosKeyNotRestored`).
- Flushing after each call is said to preserve the order across calls. A run keeps the order exactly
  when no flush hands over a line while an earlier one has lines left (`LogBuffers.InOrderIff`), so
  flushes that do not overlap keep it (`LogBuffers.SerialFlushesKeepOrder`), and while two of them
  have lines left some possible next line loses it (`LogBuffers.OrderKeptIffOneActive`).

## Model

| member | source | states |
|---|---|---|
| Calendar.ClosedFormIsSteppedCalendar | crates/stack_core/src/frb_api.rs:361-376 | for every day count the closed form is the date reached by stepping the calendar that many days from 1 January 1970; for a negative count, the date that reaches 1 January 1970 in that many steps |
| Calendar.NextDayCount | crates/stack_core/src/frb_api.rs:367-376 | for every day count the next count's date is the calendar successor, across month ends, leap days, century years and eras |
| Calendar.CivilFromDaysCounts | crates/stack_core/src/frb_api.rs:367-376 | every computed date is a valid Gregorian date, and counting its years, months and days one at a time gives the day count back |
| Calendar.CivilFromDaysInverts | crates/stack_core/src/frb_api.rs:367-376 | every valid date is the computed date of its own day count, so the conversion is a bijection |
| Calendar.DateOrderIsDayOrder | crates/stack_core/src/frb_api.rs:367-376 | dates compare by year, month, day exactly as their day counts do |
| Calendar.EraIsFloor | crates/stack_core/src/frb_api.rs:367-369 | with truncating division the negative branch makes the era the floor quotient, so day-of-era is in 0..146096 |
| Calendar.YearOfEraBrackets | crates/stack_core/src/frb_api.rs:370 | the nested quotient is the year-of-era in 0..399 whose days include day-of-era |
| Calendar.DayOfYearRange | crates/stack_core/src/frb_api.rs:372 | day-of-year is the offset from the year's first day, at most 364, or 365 when the year ends in a leap February |
| Calendar.MonthIndexBrackets | crates/stack_core/src/frb_api.rs:373-374 | the month index is in 0..11 and its month contains the day |
| Timestamp.ClockFields | crates/stack_core/src/frb_api.rs:363-376 | date and time of day are valid, not before 1970, and count back to the second count |
| Timestamp.NothingOverflows | crates/stack_core/src/frb_api.rs:361-376 | for every u64 second count each intermediate value of the date computation fits in i64 |
| Timestamp.Length | crates/stack_core/src/frb_api.rs:356-378 | the string has 20 characters exactly for second counts below 253402300800, and never fewer |
| Timestamp.Form | crates/stack_core/src/frb_api.rs:349-378 | below that limit the string has the date-time form of section 5.6 of RFC 3339: separators in their places, digits elsewhere |
| Timestamp.PaddedValue | crates/stack_core/src/frb_api.rs:378 | a zero-padded number reads back as itself and has the minimal width exactly when it fits |
| Timestamp.ParseInvertsFormat | crates/stack_core/src/frb_api.rs:349-379 | reading the string with the reference calendar gives the second count back |
| Timestamp.FormatInvertsParse | crates/stack_core/src/frb_api.rs:349-379 | every UTC date-time string from 1970 on is the output for the second it names |
| Timestamp.StringOrderIsTimeOrder | crates/stack_core/src/frb_api.rs:378 | below the limit, string order is time order |
| Timestamp.StringOrderExactly | crates/stack_core/src/frb_api.rs:378 | for all pairs of times: with years of equal width string order is time order; of two years of different width the narrower sorts first exactly when it is at most the wider one's leading digits |
| Timestamp.StringOrderAgreesIff | crates/stack_core/src/frb_api.rs:378 | the later of two times sorts after the earlier exactly when its year is no wider or its leading digits are at least the earlier year |
| Timestamp.StringOrderHoldsBelowIff | crates/stack_core/src/frb_api.rs:378 | string order is time order on all times below n exactly when n is at most 253402300800 |
| Timestamp.YearTenThousandSortsFirst | crates/stack_core/src/frb_api.rs:378 | every second of the year 10000 sorts before every second below the limit, and not after it |
| Utf8.DecodeInvertsEncode | crates/stack_core/src/crypto.rs:222-223 | strict decoding returns the string whose bytes it is given |
| Utf8.EncodeInvertsDecode | crates/stack_core/src/crypto.rs:222-223 | well-formed bytes are the bytes of the string they decode to |
| Utf8.SliceWellFormed | crates/stack_core/src/auth/es256.rs:60-65 | a non-empty slice of a string's bytes is well-formed exactly when no character straddles either end |
| Utf8.BoundaryIsPrefixLength | crates/stack_core/src/auth/es256.rs:60-65 | a byte offset is a character boundary exactly when some number of whole characters takes that many bytes |
| Utf8.DecodeEncodedPrefix | crates/stack_core/src/auth/es256.rs:50 | lossy decoding reads a well-formed prefix exactly, whatever bytes follow |
| Utf8.AsciiStandsAlone | crates/stack_core/src/auth/es256.rs:50 | in lossy decoding an ASCII byte is its own character, and any other character takes bytes outside ASCII only |
| Utf8.Replaced | crates/stack_core/src/auth/es256.rs:50 | where no character stands, lossy decoding puts one U+FFFD for the longest start of a character that is there, or for one byte, and goes on behind it |
| Utf8.Rfc3629Examples | crates/stack_core/src/auth/es256.rs:50 | the encodings of characters of one to four bytes that RFC 3629 gives as examples |
| Pem.NormalizeP8Pem | crates/stack_core/src/auth/es256.rs:49-74 | the chunk loop, which only tests bytes, builds header, the 64-byte chunks that no character straddles, in order, and footer; a key that mentions BEGIN comes back untouched |
| Pem.DetectedInBytes | crates/stack_core/src/auth/es256.rs:49-53 | for every byte string, the decoded text mentions BEGIN exactly when the bytes spell it |
| Pem.ContainsInBytes | crates/stack_core/src/auth/es256.rs:49-53 | the same for every ASCII word: replacement characters neither hide nor make an occurrence |
| Pem.NoByteLostIffAligned | crates/stack_core/src/auth/es256.rs:55-69 | for any text the kept lines are the text without white space exactly when no character straddles a chunk end |
| Pem.StripsAgreeIff | crates/stack_core/src/auth/es256.rs:44-55 | removing white space is removing ASCII white space exactly on texts without any other; on the others fewer bytes are left |
| Pem.DocumentedBodyIff | crates/stack_core/src/auth/es256.rs:44-69 | the rebuilt body is the text without its ASCII white space exactly when there is no other white space and no character straddles a chunk end |
| Pem.DocumentedIff | crates/stack_core/src/auth/es256.rs:44-74 | the result is the documented one if the key mentions BEGIN or has only ASCII white space, and only then if the documented result loses no character |
| Pem.NoBreakSpaceDropped | crates/stack_core/src/auth/es256.rs:44-55 | a key with a no-break space loses it and is not normalised as documented |
| Pem.CutHidesTheDifference | crates/stack_core/src/auth/es256.rs:60-65 | with a character across the first chunk end both results can be empty, so the alignment in DocumentedIff is needed |
| Pem.AsciiKeyRebuilt | crates/stack_core/src/auth/es256.rs:44-69 | an ASCII key loses only its white space: ceil(n/64) non-empty lines, all of 64 bytes except possibly the last, that concatenate to the key |
| Pem.ArmorReadsBack | crates/stack_core/src/auth/es256.rs:58-71 | a rebuilt PEM with ASCII lines, read line by line, is header, body lines and footer, and ends in a newline |
| Pem.ArmorText | crates/stack_core/src/auth/es256.rs:29-32 | header and footer letter by letter, each on its own line |
| Pem.WhitespaceList | crates/stack_core/src/auth/es256.rs:55 | the 25 white-space characters that are removed |
| Pem.NormalizedTwice | crates/stack_core/src/auth/es256.rs:49-53 | normalising twice is normalising once, for every byte string |
| Pem.StripThenNormalize | crates/stack_core/src/auth/es256.rs:38-48 | stripping a canonical PEM and normalising it restores it byte for byte exactly when the body does not spell BEGIN and no line spells END |
| Pem.BeginKeyNotRestored | crates/stack_core/src/auth/es256.rs:49-53 | the key BEGIN is returned bare, so stripping and normalising do not restore its PEM |
| TokenCache.AppStoreAuthenticator.BearerToken | crates/stack_core/src/auth/es256.rs:137-153 | a token returned is the cached one and is not within 60 s of expiry at the caller's reading; a usable cached token is returned as it is, any other was issued at that reading and its signature is what the signer gave for its own key, header and claims; the call fails exactly when no cached token is usable and the signer fails; a re-mint raises the expiry by at least 1140 s and a failure changes nothing |
| TokenCache.ServeOrMintOutcome | crates/stack_core/src/auth/es256.rs:85-107 | when no cached token is usable, the signer is asked for the normalised PEM, an ES256 header with the key id and claims from now to now + 1200 for the App Store audience; token, cache and the two failure messages follow its answer |
| TokenCache.EveryRun | crates/stack_core/src/auth/es256.rs:85-165 | in every run with any callers and any clock, signings are spaced by 1140 s of expiry; every answer is a token signed for these credentials for 1200 s with more than 60 s left, and is the token the cache holds right after that step; no answer expires before an earlier one; a failure leaves the cache alone; each signature was given by some call's signer for exactly the token's own key, header and claims |
| TokenCache.ExpiryNeverFalls | crates/stack_core/src/auth/es256.rs:137-153 | between any two moments of any run the cached expiry rises by at least 1140 s for each signing in between and never falls |
| TokenCache.SigningBound | crates/stack_core/src/auth/es256.rs:135-153 | clock readings within [a, b] lead to at most (b - a)/1140 + 1 signings, however many callers ask |
| TokenCache.SigningBoundReached | crates/stack_core/src/auth/es256.rs:135-153 | for every interval some run reaches that bound |
| TokenCache.FreshTokens | crates/stack_core/src/auth/es256.rs:11-13 | when the shared clock never goes back, no answer expires more than 1200 s after the clock at that moment |
| LogBuffers.LogBuffer.Log | crates/stack_core/src/frb_api.rs:2941-2948 | appends one line and touches nothing else |
| LogBuffers.LogBuffer.Flush | crates/stack_core/src/frb_api.rs:2928-2938 | an undisturbed flush hands over every pending line in order and empties the buffer |
| LogBuffers.EveryRun | crates/stack_core/src/frb_api.rs:2930-2948 | under every interleaving the taken batches followed by the pending lines are the log, delivered, in-flight and pending lines together are the logged ones as a multiset, each flush has handed over a prefix of its batch, and the history holds exactly the lines sent, each from its place |
| LogBuffers.Drained | crates/stack_core/src/frb_api.rs:2928-2938 | once all flushes are done and nothing is pending, exactly the logged lines were delivered |
| LogBuffers.SerialFlushesKeepOrder | crates/stack_core/src/frb_api.rs:2908-2911 | without overlapping flushes the m-th delivered line is the m-th logged one, so at every moment the log is the delivered lines, then those in flight, then the pending ones |
| LogBuffers.InOrderIff | crates/stack_core/src/frb_api.rs:2908-2938 | a run delivers in log order exactly when no flush hands over a line while an earlier one has lines left |
| Handovers.NextKeepsOrderIff | crates/stack_core/src/frb_api.rs:2928-2938 | while lines come in log order, the next line of a flush keeps the order exactly when every earlier flush has finished |
| LogBuffers.OrderKeptIffOneActive | crates/stack_core/src/frb_api.rs:2908-2938 | in any run in order so far, every possible next line keeps the order exactly when at most one flush has lines left |
| LogBuffers.OrderReads | crates/stack_core/src/frb_api.rs:2928-2938 | while lines come in log order the log is the received lines, then those in flight, then the pending ones; when the logged lines are pairwise different the received text alone shows the order |
| Handovers.InOrderSplits | crates/stack_core/src/frb_api.rs:2928-2938 | in order by position, all items taken are those received followed by those that remain |
| LogBuffers.OverlapLosesOrder | crates/stack_core/src/frb_api.rs:2908-2938 | a five-step run with two overlapping flushes that delivers the second line and not the first |
| Sync.InMemoryStore.Save | crates/stack_core/src/service/sync.rs:117-120 | inserts or replaces the entry under type name and id |
| Sync.BufferingBlobStore.Save | crates/stack_core/src/frb_api.rs:2970-2975 | records the save after the earlier ones |
| Sync.BufferingBlobStore.Take | crates/stack_core/src/frb_api.rs:2963-2966 | returns the recorded saves in order and leaves none |
| Sync.BlobStore.Save | crates/stack_core/src/ports.rs:22-24 | reaches the store behind the port and only that one |
| Sync.SyncService.SyncApps | crates/stack_core/src/service/sync.rs:80-96 | saves one blob for each app in order up to the first that does not serialise; a failed fetch is passed on, the fetched apps come back exactly when all serialise, and otherwise the error names the first that does not and its own failure |
| Sync.FrbSyncService.SyncApps | crates/stack_core/src/frb_api.rs:2849-2867 | the host store receives the replayed saves on success and nothing on an error; a failed fetch is passed on, the apps come back exactly when all serialise; pending debug lines are flushed either way |
| Sync.FrbSyncService.Persist | crates/stack_core/src/frb_api.rs:2863-2865 | the replay loop leaves the host with all saves applied in order |
| Sync.SyncedStore | crates/stack_core/src/service/sync.rs:67-96 | afterwards each fetched id, bare, holds the serialised base fields of the last app with that id plus the account, and every other entry is untouched |
| Sync.ReplayTwice | crates/stack_core/src/service/sync.rs:80-96 | repeating the same saves changes nothing |
| Sync.BufferedRefinesDirect | crates/stack_core/src/frb_api.rs:2837-2867 | replaying the recorded saves leaves the store that saving app by app leaves when every app serialises; otherwise the direct sync has persisted exactly the apps before the first bad one and the buffered one nothing |
| Replays.EveryRun | crates/stack_core/src/frb_api.rs:2863-2865 | under every interleaving of replays the host has all blobs handed over so far saved in the order they came, and each replay has handed over a prefix of its saves |
| Replays.HostHolds | crates/stack_core/src/frb_api.rs:2863-2865 | at every moment a key holds what the replay that saved it last has handed over last under it, and an untouched key its old value |
| Replays.FinishedWinner | crates/stack_core/src/frb_api.rs:2863-2865 | once all replays have finished, a key holds the last value of one of the replays that save it |
| Replays.SerialIff | crates/stack_core/src/frb_api.rs:2849-2867 | finished replays leave the store of a given serial order exactly when on every key the last to come wrote what the last in that order writes |
| Replays.TwoReplaysSerialIff | crates/stack_core/src/frb_api.rs:2849-2867 | two finished replays leave the store of one order of the two exactly when the second of that order came last on every key they disagree about |
| Replays.EveryOrderIff | crates/stack_core/src/frb_api.rs:2849-2867 | finished replays leave the store of every serial order exactly when no two of them disagree about a key |
| Replays.SyncsContestedIff | crates/stack_core/src/frb_api.rs:2849-2867 | two syncs disagree about a key exactly when both fetched an app with that bare id and its blobs differ |
| Replays.RepeatedSyncs | crates/stack_core/src/frb_api.rs:2849-2867 | any number of overlapping syncs of the same apps leave what one buffered sync leaves |
| Replays.SerialReplays | crates/stack_core/src/frb_api.rs:2849-2867 | replays that do not overlap leave the store of their saves in the order they began |
| Replays.CrossingLosesBothOrders | crates/stack_core/src/frb_api.rs:2863-2865 | two replays that cross over on two keys leave a store that neither order leaves |
| Scexport.BigEndianRoundTrip | crates/stack_core/src/crypto.rs:275 | the four header bytes of any u32 read back as it |
| Scexport.BigEndianInverse | crates/stack_core/src/crypto.rs:176-181 | any four bytes are the header bytes of the number read from them |
| Scexport.ParseIffPrinted | crates/stack_core/src/crypto.rs:154-204 | the parser accepts exactly the printed valid v1, v2 and v3 frames and returns the frame printed |
| Scexport.FrameLayout | crates/stack_core/src/crypto.rs:7-14 | where magic, version, big-endian iteration count, salt, nonce and sealed payload stand in a frame's bytes |
| Scexport.AppSalt | crates/stack_core/src/crypto.rs:44-47 | the app-level salt is the 32 bytes that iOS has |
| Scexport.OutcomeClasses | crates/stack_core/src/crypto.rs:154-204 | with ParseIffPrinted, which outcome every other input gets, by length, magic and version |
| Scexport.ShortUnknownVersion | crates/stack_core/src/crypto.rs:154-168 | an unknown version byte in fewer than 49 bytes is reported as truncated |
| Scexport.Decrypt | crates/stack_core/src/crypto.rs:154-230 | the cursor never leaves the buffer on any byte string, the result is that of opening the parsed frame, and a payload returned has name, provider type and credentials |
| Scexport.OpenedOutcome | crates/stack_core/src/crypto.rs:222-230 | for a frame that opens: not UTF-8 and JSON that does not parse are refused, then the first missing field of name, providerType and credentials is named, and nothing else is refused |
| Scexport.V1FileOpens | crates/stack_core/src/crypto.rs:309-327 | a payload sealed under HKDF of SHA-256 of app salt and password, with the v1 info string, is read back from the file's bytes |
| Scexport.V2FileOpens | crates/stack_core/src/crypto.rs:296-306 | a payload sealed under PBKDF2 of the password over app salt and file salt, 600000 rounds, 32 bytes, is read back from the file's bytes |
| Scexport.V3FileOpens | crates/stack_core/src/crypto.rs:24-25 | the same with the round count that the file's own header carries |
| Scexport.Encrypt | crates/stack_core/src/crypto.rs:245-280 | the assembled buffer is the printed v3 frame of the sealed payload, or the first failure |
| Scexport.EncryptedFile | crates/stack_core/src/crypto.rs:245-306 | the file is the nine literal header bytes, salt, nonce and what the cipher gives for the payload's JSON under the PBKDF2 key of the password; otherwise the first missing field or failing primitive, in order |
| Scexport.EncryptOutcome | crates/stack_core/src/crypto.rs:245-294 | with Encrypt, a file results exactly when name, provider type and credentials are present and serialising and sealing succeed |
| Scexport.DecryptInvertsSealing | crates/stack_core/src/crypto.rs:199-230 | a payload sealed into a frame of any version, under that version's key and header, is read back from its bytes |
| Scexport.DecryptInvertsEncrypt | crates/stack_core/src/crypto.rs:154-280 | decrypting undoes encrypting for every payload, password, salt and nonce |
| Scexport.OtherPassword | crates/stack_core/src/crypto.rs:148-149 | another password that derives the same key gives the payload, and an encrypted file fails to authenticate exactly when the cipher refuses the sealed bytes under the key of the password tried |
| Scexport.OnlyItsPassword | crates/stack_core/src/crypto.rs:148-149 | when different passwords derive different keys and a sealed message opens under no other key, every other password fails to authenticate |
| Scexport.V2IsV3WithDefaultIterations | crates/stack_core/src/crypto.rs:21-25 | a v2 file and the v3 file with 600000 in the header give the same payload or the same failure under every password |
| Scexport.AuthFailureIff | crates/stack_core/src/crypto.rs:199-220 | an authentication failure is reported exactly for a valid frame that does not open under the password |
| AccountExports.Remap | crates/stack_core/src/frb_api.rs:333-347 | the insertion loop builds the renamed map for the order the entries come in |
| AccountExports.FindRename | crates/stack_core/src/frb_api.rs:339-343 | the search yields the first entry's new name, or the key itself |
| AccountExports.RoundTripIff | crates/stack_core/src/frb_api.rs:289-329 | for any invertible mapping and any orders, renaming and renaming back is the identity exactly when the map holds none of the new names |
| AccountExports.RenamingKeepsEntries | crates/stack_core/src/frb_api.rs:331-347 | on such maps the renaming is one to one and keeps the entry count; it never leaves an old name on any map |
| AccountExports.OrderIrrelevantIff | crates/stack_core/src/frb_api.rs:338-345 | the result is the same for every iteration order exactly when no two entries with different values are renamed to one key |
| AccountExports.RenamingDeterministicIff | crates/stack_core/src/frb_api.rs:333-347 | for an invertible mapping the order is irrelevant exactly when no entry's old and new name are both in use for different values |
| AccountExports.RenamingDeterministic | crates/stack_core/src/frb_api.rs:333-347 | on a map without new names every two orders give the same result |
| AccountExports.AppMappings | crates/stack_core/src/frb_api.rs:291-329 | the two mappings of the app are invertible and each other's inverse, and their new names are the three iOS keys |
| AccountExports.Names | crates/stack_core/src/frb_api.rs:291-329 | which iOS key is paired with which schema key, entry by entry, in both mappings |
| AccountExports.ImportCorresponds | crates/stack_core/src/frb_api.rs:289-309 | in any order, without schema names, issuerID, privateKeyID and privateKey are found under issuerId, keyId and privateKeyP8, every other key keeps its value, and nothing else is there |
| AccountExports.ExportCorresponds | crates/stack_core/src/frb_api.rs:311-329 | in any order, without iOS names, issuerId, keyId and privateKeyP8 are found under issuerID, privateKeyID and privateKey, every other key keeps its value, and nothing else is there |
| AccountExports.ImportedAccount | crates/stack_core/src/frb_api.rs:216-235 | an import keeps name, type and app scope; credentials correspond key by key for provider type apple and are unchanged for every other |
| AccountExports.ExportedCredentials | crates/stack_core/src/frb_api.rs:251-273 | the exported file's credentials correspond key by key for provider type apple and are unchanged for every other |
| AccountExports.ExportDeterministic | crates/stack_core/src/frb_api.rs:311-329 | credentials without the three iOS keys are exported the same whatever the order |
| AccountExports.IosKeyNotRestored | crates/stack_core/src/frb_api.rs:289-329 | a credential under issuerID comes back under issuerId, whatever the orders |
| AccountExports.ImportInvertsExport | crates/stack_core/src/frb_api.rs:216-273 | an exported file imports with the same password and gives the account back exactly when it is not an Apple account with an iOS-named credential |
| AccountExports.ReexportKeeps | crates/stack_core/src/frb_api.rs:216-273 | importing a file and exporting it again keeps name, provider type and app scope, renews id and time, drops role, rules and expiry, and keeps the credentials exactly when it is not an Apple file with a schema-named credential |
| AccountExports.ExportedFile | crates/stack_core/src/frb_api.rs:238-270 | the written payload keeps name, provider type and app scope, has the timestamp of the export's second, which before the year 10000 reads back as that second, no role, rules or expiry, and for an Apple account no schema-named credential |
| AccountExports.ExportOutcome | crates/stack_core/src/frb_api.rs:253-273 | an export succeeds exactly when the required fields are there and serialising and sealing succeed; any failure is a decode error |
| AccountExports.ImportErrors | crates/stack_core/src/frb_api.rs:216-287 | an import fails with an authentication error exactly for a well-formed frame that does not open, and otherwise with a decode error |
| AccountExports.RefusedFrames | crates/stack_core/src/crypto.rs:77-99 | which message the host gets for a file refused by length, magic or version, the version in two lower-case hex digits |
| AccountExports.RefusedPayloads | crates/stack_core/src/crypto.rs:150-153 | for a frame that opens to text: the message for JSON that does not parse and for each missing field, in order; every other payload is imported |
| AccountExports.WrongPasswordText | crates/stack_core/src/frb_api.rs:275-287 | a file that does not open is an authentication error with its message |
| AccountExports.RefusedAccounts | crates/stack_core/src/crypto.rs:283-294 | an account without name, type or credentials is refused with the message for the first that is missing |
| AccountExports.ErrorTexts | crates/stack_core/src/crypto.rs:77-99 | the text of every error of the container |

## Left out

- The App Store Connect client, provider, facade and capability wrappers: they delegate one call each; `providers/appstore/client.rs` is not part of this model.
- Secrecy and unforgeability: the ciphers, key derivations and signatures are uninterpreted. What a wrong password gives is what the cipher answers (`Scexport.OtherPassword`); that it always fails follows only from stated laws of an ideal cipher and key derivation (`Scexport.OnlyItsPassword`).
- The JSON text itself: field names, optional fields and escaping are inside the uninterpreted JSON functions.
- Machine integers in the token cache: `now + 1200` is taken without the i64 limit, which a clock reaches only within 20 minutes of its last representable second. In the calendar nothing overflows (`Timestamp.NothingOverflows`).
- Texts of library errors, which the core appends to its own messages, appear only where they are passed through.
- The buffers that the key derivations fill in place: salt and key are sequences here, passed to and returned by the uninterpreted functions.
- Cancelled flushes: a flush dropped between two lines abandons the lines it has left, so the step system has no such step.
- Sync.FrbSyncService.SyncApps: its contract shows one sync alone. Other syncs between its persisted blobs are the subject of `Replays`, other users of the shared log buffer that of `LogBuffers`.
- Sync.FrbSyncService.Persist: its contract shows one replay with nothing in between; every interleaving of replays is covered by `Replays.EveryRun`, `Replays.HostHolds` and `Replays.SerialIff`.
- Blob-store reads and deletes, the in-memory credential store, the registry and the credential schema: they would only add easy members.
- A poisoned mutex: the source carries on with the data it guards, as the model does.
