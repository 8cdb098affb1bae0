# IronAuth verification

A Dafny model of the parts of IronAuth whose correctness is a matter of whole runs, exact arithmetic or exact text:

- the certificate-expiry sweep and the mail it leads to (`CertificateExpiry`, `CertificateNotices`);
- the watchdog that owns, observes and cleans up one command's processes (`Watchdog`);
- backup retention: calendar, object keys, bounded passes and the listing scanner (`Calendar`, `BackupKeys`,
  `BackupKeyBytes`, `BoundedPasses`, `BackupRetention`, `ListingScanner`);
- the injection of configuration into the console's meta tags (`MetaTags`);
- the compatibility check of the event registry (`SchemaCompat`);
- time-boxed access requests, AuthZEN decisions and batches (`AccessRequests`, `AuthZen`);
- the backup wake-up, the brand promotion wall and the four-shard test plan (`BackupTrigger`, `Brands`, `ShardPlan`).

`Text` and `Keyset` hold what these share: substring search, facts about sequences, and listings read a page at a time.

Code that updates state step by step is a class or a method proved against a function of the old state. Protocols with
several actors are step functions over a system state, and the theorems speak of every sequence of steps. Clocks, stores,
process censuses and the network enter as parameters: a pass takes the events that happen around it, a cleanup takes the
censuses it will see and how each signal is answered. Nothing here is executed; `dafny verify dfyconfig.toml` checks it.

## What the code does where its documentation says otherwise

The model follows the code. Each difference has a lemma with a concrete input or a family of inputs, and a lemma that says
exactly when the promise does hold.

- The sweep: a ledger row leaves with its certificate, so announcements add up to the ledger exactly while every announced
  certificate is pinned (`SweepsAnnounceOnce`). A scope that fails half way keeps the notices it sent, and the report of the
  pass does not count them (`FailedScopeUnderreports`); the report is right exactly when no scope fails past its first due
  pair (`TallyExact`). One pair that always fails stops every pair behind it, so passes drain a due set exactly when the limit
  is positive and no due pair always fails (`SweepDrainsExactly`).
- The notices: the rate budget is asked before the deduplication key, so redelivery to a contact already mailed can be rate
  limited rather than collapsed (`RedeliveryDefersMailedContact`, and `RedeliveryExactly` for when). With a page size above the
  store's cap plus one the first, short-looking page would be taken for the last (`SendTriesAll`); the shipped size is far below.
- Retention: a key is read by its stamp alone. The date directory is never compared with it, a field may carry a plus sign,
  and 31 February or hour 99 is accepted, so some keys nobody printed are pruned (`LookalikeAccepted`; `OwnershipExact` says
  which keys were printed). Keys from the year 10000 on are foreign (`LateKeyIsForeign`, `KeyRoundTrips`). A window reaching
  before the epoch panics (`PruneSetPanics`), and so does a stamp cut inside a character (`TornStampPanics`,
  `StampPanicsExactly`, `PassPanicsExactly`). Passes over one listing page converge exactly when no outdated key stands behind
  a full page of keys that stay (`StuckForever`, `PruneConvergesExactly`); a bucket of own keys always converges
  (`RetentionConverges`).
- The watchdog: the census that ends a cleanup is not registered, so a live child of an exited process can be missed
  (`CleanCanMissAChild`; `CleanMeansNobodyAlive` says exactly when none is).
- The compatibility check: it does not look at `maximum` or at newly described `items`, it takes 1 and true for the same
  listed value, and it reports dropping a list of values, or raising a bound of another type, although nothing is refused
  (`CheckOverlooks`, `DroppedEnumFlagged`, `RaisedLengthReal`). `InclusionExact` and `PayloadInclusionExact` decide for every
  two schemas whether anything is refused, whether or not the check reports something.
- Access requests: a sweep whose clock is ahead ends access early (`SweepAheadEndsAccess`); `SweepsMatterExactly` says exactly
  when sweeps make a difference to access. With a page size of zero no role is found (`RoleDefined`).
- The backup trigger: a handler dropped between its record and its signal leaves the request to the interval, and a retry is
  replayed without a signal (`DroppedHandlerWaits`; `WakeUpIsServed` says exactly when the runner alone catches up).
- AuthZEN: resource type and action are joined with a dot, so with a dot in the action two questions can ask for one
  permission (`SlugAmbiguous`; `SlugsAgreeExactly` says exactly when).
- Brands: the management door measures a slot before it is sanitized, the promotion wall after. What the door stores passes
  the wall exactly when sanitizing kept every value within the cap (`StoredPassesWall`).
- The shard plan: a command that names neither the library nor a test selects every target. A shard without tests therefore
  runs the whole package again (`EmptyShardsRunAll`); `ShardsCoverExactly` says exactly when everything runs once.

## Model

| member | source | states |
|---|---|---|
| Calendar.DaysFromCivilCounts | crates/ironauth-admin/src/backup_s3.rs:132-143 | for every valid date, before and after the epoch, the closed form equals a day count defined from leap years and month lengths alone |
| Calendar.CivilThenDays | crates/ironauth-admin/src/log_shipper.rs:1443-1459 | every day number becomes a valid date, and that date's day number is the one it came from |
| Calendar.DaysThenCivil | crates/ironauth-admin/src/backup_s3.rs:130-143 | every valid date comes back from its day number: the two algorithms are inverse both ways |
| Calendar.EpochIsDayZero | crates/ironauth-admin/src/backup_s3.rs:130-143 | 1 January 1970 is day zero |
| Calendar.DaysFromCivilRefuses | crates/ironauth-admin/src/backup_s3.rs:132-135 | only a month outside 1 to 12 or a day outside 1 to 31 is refused |
| Calendar.NextDayAddsOne | crates/ironauth-admin/src/backup_s3.rs:132-143 | the civil day after a valid date is valid and has the next number, across months, leap days and years |
| Calendar.DaysOrdered | crates/ironauth-admin/src/backup_s3.rs:132-143 | a valid date is before another exactly when its number is smaller |
| BackupKeys.KeyRoundTrips | crates/ironauth-admin/src/backup_s3.rs:101-128 | for every prefix and every instant from the epoch, parsing the printed key gives the instant floored to seconds before the year 10000, and nothing from then on |
| BackupKeys.KeyOrder | crates/ironauth-admin/src/backup_s3.rs:43-47 | before the year 10000, character order of two keys under one prefix is the order of their seconds |
| BackupKeys.ParseExactly | crates/ironauth-admin/src/backup_s3.rs:115-120 | a field is read exactly when it is digits, or a plus sign and digits, and as their decimal value |
| BackupKeys.OwnershipExact | crates/ironauth-admin/src/backup_s3.rs:96-128 | of the keys the parser accepts, exactly those with digit fields, a real date and time and the matching directory were printed by `object_key` |
| BackupKeys.LookalikeAccepted | crates/ironauth-admin/src/backup_s3.rs:101-114 | under any other eight-digit directory the stamp of any instant still parses, though no instant prints that key |
| BackupKeys.LateKeyIsForeign | crates/ironauth-admin/src/backup_s3.rs:105-107 | a key printed from the year 10000 on is not recognised |
| BoundedPasses.PassProgresses | crates/ironauth-admin/src/backup_s3.rs:56-62 | while a bucket with no blocked key holds a stale one, a pass lowers the number of stale keys and leaves none blocked |
| BoundedPasses.PassesConverge | crates/ironauth-admin/src/backup_s3.rs:56-62 | such a bucket is pruned within as many passes as it has stale keys |
| BoundedPasses.PassesKeep | crates/ironauth-admin/src/backup_s3.rs:68-94 | any number of passes keeps every key that is not stale, in order |
| BoundedPasses.PassesStayBlocked | crates/ironauth-admin/src/backup_s3.rs:56-62 | a stale key behind a full page of keys that stay is never reached |
| BoundedPasses.PruneConvergesExactly | crates/ironauth-admin/src/backup_s3.rs:56-62 | some number of passes prunes the bucket if and only if no stale key stands behind a full page of keys that stay |
| BackupRetention.WindowIsExact | crates/ironauth-admin/src/backup_s3.rs:49-94 | a listed backup is selected exactly when its second is before the second the window begins in; never at or inside the window, always a second or more outside |
| BackupRetention.PruneSetPanics | crates/ironauth-admin/src/backup_s3.rs:81-89 | the pass panics exactly when the window begins before the epoch and the subtraction is still representable; where it is not, nothing is pruned |
| BackupRetention.OwnBucketUnblocked | crates/ironauth-admin/src/backup_s3.rs:56-62 | in a sorted bucket of own keys no outdated key is blocked, whatever the page size |
| BackupRetention.RetentionConverges | crates/ironauth-admin/src/backup_s3.rs:49-94 | over own keys, at most as many passes as outdated keys leave none of them, and no number of passes deletes a key at or inside the window |
| BackupRetention.StuckForever | crates/ironauth-admin/src/backup_s3.rs:56-62 | for every prefix, page size and backup: a sorted bucket of keys under the listed prefix in which that many foreign keys come first, and any number of passes leaves the outdated backup |
| BackupKeyBytes.StampPanicsExactly | crates/ironauth-admin/src/backup_s3.rs:109-120 | reading a stamp panics if and only if it has the shape and a character lies across the cut at byte 4, 6, 11 or 13 with every field before that cut a number |
| BackupKeyBytes.KeyPanicsExactly | crates/ironauth-admin/src/backup_s3.rs:101-120 | a key panics if and only if it has the layout under the prefix and its stamp does |
| BackupKeyBytes.KeyReadsSame | crates/ironauth-admin/src/backup_s3.rs:101-128 | for every key and prefix, reading bytes and reading characters find the same time or both none |
| BackupKeyBytes.PassPanicsExactly | crates/ironauth-admin/src/backup_s3.rs:90-93 | a pass over a listing panics if and only if one listed key does, and otherwise deletes what the reading of characters says |
| BackupKeyBytes.TornStampPanics | crates/ironauth-admin/src/backup_s3.rs:115-115 | under every prefix and directory, a stamp whose fourth character takes two bytes panics |
| ListingScanner.KeysFromListing | crates/ironauth-admin/src/backup_s3.rs:160-176 | the scanning loop ends on every body and returns what the recursive reading of the entries returns; a body with no entry is refused, never an empty list |
| ListingScanner.ListingRoundTrips | crates/ironauth-admin/src/backup_s3.rs:145-176 | entries rendered around filler without the tags, with keys without an angle bracket, read back as exactly those keys in order |
| CertificateExpiry.SweepsAnnounceOnce | crates/ironauth-admin/src/certificate_expiry.rs:138-212 | in every interleaving of passes, pins and unpins: no pair is announced twice, the passes' counts add up to the notices, which are the ledger plus the rows withdrawn with their certificate, and each finished pass accounts for every pair it read |
| CertificateExpiry.SweepDrainsExactly | crates/ironauth-admin/src/certificate_expiry.rs:138-212 | repeated undisturbed passes empty a due set if and only if it is empty, or the limit is positive and no due pair always fails |
| CertificateExpiry.ItemsAccount | crates/ironauth-admin/src/certificate_expiry.rs:157-212 | a pass returns a report exactly when no item it meets fails; then announced, taken and vanished add up to the due list, and the announced count is bounded by the new notices |
| CertificateExpiry.CountersExact | crates/ironauth-admin/src/certificate_expiry.rs:157-212 | each counter, over the worlds in which the items had their turn: vanished counts those whose certificate was not pinned, taken those pinned and already in the ledger, announced all the others |
| CertificateExpiry.OnceExactly | crates/ironauth-admin/src/certificate_expiry.rs:138-212 | one pass: a clock out of range or a failed query ends it untouched; otherwise a report with exactly those three counts if and only if no due pair fails, and else the error of the first that does |
| CertificateExpiry.RecordExactly | crates/ironauth-admin/src/certificate_expiry.rs:157-212 | a pair is recorded, with its one notice, exactly where its certificate is pinned and it is not in the ledger; nothing else changes |
| CertificateExpiry.TakeIsInitial | crates/ironauth-admin/src/certificate_expiry.rs:154-155 | the due query returns an initial segment in order of expiry, certificate and lead, as long as the limit and the due set allow |
| CertificateExpiry.DueMembers | crates/ironauth-admin/src/certificate_expiry.rs:154-155 | each returned pair is of a pinned certificate and an asked lead, not in the ledger, not yet expired and expiring within the lead |
| CertificateExpiry.DueOrder | crates/ironauth-admin/src/certificate_expiry.rs:154-155 | the pairs come by expiry, then certificate, then lead, each strictly before the next |
| CertificateExpiry.DueCut | crates/ironauth-admin/src/certificate_expiry.rs:154-155 | a due pair is left out only where the page is as long as the limit clamped to 0 and 1001, and every pair on it expires no later |
| CertificateExpiry.AlertStore.RunOnce | crates/ironauth-admin/src/certificate_expiry.rs:138-212 | the loop with its counters leaves the world and gives the result of the recursive description, with any events between its steps |
| CertificateExpiry.RunPass | crates/ironauth-admin/src/certificate_expiry.rs:287-322 | every scope is swept whatever the others did, each store ends as its own pass leaves it, and with no leads nothing is touched |
| CertificateExpiry.TallyCounts | crates/ironauth-admin/src/certificate_expiry.rs:287-322 | swept and failed scopes add up to all scopes, and no failure is reported exactly when every scope returned a report |
| CertificateExpiry.FailedScopeUnderreports | crates/ironauth-admin/src/certificate_expiry.rs:287-322 | a scope that sends one notice and then fails reports none |
| CertificateExpiry.TallyExact | crates/ironauth-admin/src/certificate_expiry.rs:287-322 | for every list of undisturbed scopes, the report falls short of the notices added by exactly those failing scopes sent first; it is right if and only if no scope fails past its first due pair |
| CertificateExpiry.LeadsFromDays | crates/ironauth-admin/src/certificate_expiry.rs:246-257 | the leads are exactly the positive days in seconds, strictly descending, so each once |
| CertificateExpiry.ZeroLeadNeverDue | crates/ironauth-admin/src/certificate_expiry.rs:221-224 | whatever is due has a positive lead |
| CertificateNotices.NobodyMailedTwice | crates/ironauth-admin/src/certificate_notices.rs:112-308 | in every run of deliveries, crashes, redeliveries, other mail and edits, no key is accepted twice |
| CertificateNotices.CompletionToldEveryone | crates/ironauth-admin/src/certificate_notices.rs:112-308 | in every run, when a delivery completes with nobody deferred, for each technical contact with a usable address listed from its beginning to its end there is a message of kind saml_certificate_expiring to that address with this notice's discriminator, or the address was suppressed when its turn came |
| CertificateNotices.AnswerExactly | crates/ironauth-admin/src/certificate_notices.rs:242-308 | each of the four answers exactly on its condition over the messages: suppressed first, then the budget, then whether a message with this kind, address and discriminator was sent; only an accepted one is added, at the end |
| CertificateNotices.UsedCounts | crates/ironauth-admin/src/certificate_notices.rs:242-308 | the budget counts each message to the address inside the window, and of the kind where the budget is per kind |
| CertificateNotices.NewMessages | crates/ironauth-admin/src/certificate_notices.rs:209-308 | every message a delivery adds is of this kind and notice, dated now, to a technical contact of the list |
| CertificateNotices.UndeferredToldEveryone | crates/ironauth-admin/src/certificate_notices.rs:112-308 | a delivery over a list that ends in success leaves such a message, or a suppressed address, for every technical contact of it with a usable address |
| CertificateNotices.StepEffects | crates/ironauth-admin/src/certificate_notices.rs:112-308 | each step of a run happens exactly on its own condition and changes exactly what it is for |
| CertificateNotices.StepsAreTheLoop | crates/ironauth-admin/src/certificate_notices.rs:209-308 | mailing any stretch of a page one step at a time leaves the ledger and the deferred count of the page loop over it |
| CertificateNotices.PageIsListed | crates/ironauth-admin/src/certificate_notices.rs:150-190 | a page a run may read is exactly the store's page of the ordered listing behind that cursor |
| CertificateNotices.EveryContactTried | crates/ironauth-admin/src/certificate_notices.rs:209-308 | whatever was answered for the contacts before, every mailable contact of a list is tried once, in order |
| CertificateNotices.UndeferredMeansSettled | crates/ironauth-admin/src/certificate_notices.rs:209-308 | a delivery over a list that deferred nobody leaves every mailable contact of it mailed or suppressed, and only adds messages |
| CertificateNotices.MessageStore.MailPage | crates/ironauth-admin/src/certificate_notices.rs:209-308 | the page loop has the ledger, the failure and the deferred count of the delivery over that page |
| CertificateNotices.MessageStore.Send | crates/ironauth-admin/src/certificate_notices.rs:149-201 | for every page size from one up the loop ends with the ledger and the verdict of one delivery over the reached list in order; where a page read fails, with those of the delivery up to that page and the read failure, unless the store failed before |
| CertificateNotices.SendTriesAll | crates/ironauth-admin/src/certificate_notices.rs:41-63 | a delivery without failures tries every mailable contact once, in order, exactly when its pages fit the store's cap or nobody listed past the cap can be mailed |
| CertificateNotices.RedeliveryExactly | crates/ironauth-admin/src/certificate_notices.rs:192-199 | redelivery to contacts who were all mailed leaves the ledger alone, defers exactly those not suppressed whose budget is used up, and completes if and only if there are none |
| CertificateNotices.RedeliveryDefersMailedContact | crates/ironauth-admin/src/certificate_notices.rs:112-308 | with a budget of one, a delivery that told its one contact is deferred when redelivered in the same second |
| CertificateNotices.PreimageInjective | crates/ironauth-admin/src/certificate_notices.rs:325-342 | two notices hash the same bytes only if certificate and lead agree |
| CertificateNotices.MailNamesItsNotice | crates/ironauth-admin/src/certificate_notices.rs:310-342 | where the truncated digest separates two preimages, two notices share a key exactly when they are the same notice |
| CertificateNotices.BodyStatesTimeLeft | crates/ironauth-admin/src/certificate_notices.rs:357-387 | the stated days are the nearest whole number of days left and at least one; the two other sentences appear only when expired or within a day |
| Watchdog.DescendantsLeast | scripts/outbox-chaos-watchdog.py:61-69 | the identities whose parent chain in a census reaches a known one, with the known ones, are the least set closed under parenthood |
| Watchdog.OnRows | scripts/outbox-chaos-watchdog.py:57-78 | on the rows: a group is live where a row not in state Z carries a known id and start time; it is proven when above 1 with every such member known |
| Watchdog.ShowsExactly | scripts/outbox-chaos-watchdog.py:57-69 | a parent link is a row whose parent id is filed in the same census, identified by that row's id and start time |
| Watchdog.ReusedPidOwnsNobody | scripts/outbox-chaos-watchdog.py:57-69 | where no row carries a known process id and start time together, nothing is added |
| Watchdog.Watchdog.Register | scripts/outbox-chaos-watchdog.py:61-69 | the loop ends for every census and any order of rows with exactly those identities if and only if no interrupt lands before the last of them; an interrupt leaves some part of them |
| Watchdog.Watchdog.RegisterOnce | scripts/outbox-chaos-watchdog.py:61-69 | one turn over the rows registers only descendants, every row whose parent was known before it among them, and reports a change exactly when there was one |
| Watchdog.RegisteredAreOwned | scripts/outbox-chaos-watchdog.py:61-69 | whatever part is registered from a seen census is joined to the root by parent links that seen censuses show |
| Watchdog.OwnedGroups | scripts/outbox-chaos-watchdog.py:72-78 | the live groups of known processes in ascending order, refused exactly when one is at most 1 or has a live member not known |
| Watchdog.Watchdog.SignalAll | scripts/outbox-chaos-watchdog.py:86-91 | the groups are signalled in order until one call is refused, each logged with the census and the known set that prove it |
| Watchdog.Watchdog.Round | scripts/outbox-chaos-watchdog.py:83-91 | one unproven group means no signal in the round; a completed round signalled every live known group once and no other |
| Watchdog.FullRoundMeans | scripts/outbox-chaos-watchdog.py:83-91 | on the rows: a full round sent its signal once to each group with a live known member, and to no other |
| Watchdog.Watchdog.Cleanup | scripts/outbox-chaos-watchdog.py:81-103 | completes if and only if both rounds pass, nobody known is alive in the last census and the child is reaped; still alive and not reaped each exactly on its condition; no kill is sent where the terminations failed; a completed one terminated and after that killed every live known group |
| Watchdog.Watchdog.Observe | scripts/outbox-chaos-watchdog.py:187-209 | the loop ends in exactly the turn, and for exactly the reason, that the turns determine; the known identities are those of the censuses read; the log holds the output up to its cap |
| Watchdog.CompletesExactly | scripts/outbox-chaos-watchdog.py:187-209 | the loop completes if and only if no limit, interrupt or failure came up to its last turn and there the command had exited with its output ended |
| Watchdog.Watchdog.Settle | scripts/outbox-chaos-watchdog.py:230-237 | clean if and only if the settling census was read and the cleanup passes on what it registered; then every live known group was terminated and after that killed, and nobody known is alive in the last census; a completed run becomes a leak exactly when a descendant is alive in the settling census |
| Watchdog.Watchdog.Judge | scripts/outbox-chaos-watchdog.py:249-258 | a completed run with exit code zero stays completed exactly when the stages, if asked for, were read and are complete; missing and unreadable are told apart; nothing else is looked at |
| Watchdog.Watchdog.RunOnce | scripts/outbox-chaos-watchdog.py:155-269 | passed if and only if, on what the run meets alone: bound, fully registered, a turn completes, the settling census shows nobody alive, the cleanup passes, exit zero and, if asked, the stages; clean if and only if nothing was spawned or the cleanup passed; every signal went to a group above 1 with all live members joined to the root by observed parent links |
| Watchdog.CleanMeansNobodyAlive | scripts/outbox-chaos-watchdog.py:98-101 | where rows are filed under their own process id and no row has an unknown exited parent, a finished cleanup has no descendant alive if and only if no live row of the last census has a known parent |
| Watchdog.CleanCanMissAChild | scripts/outbox-chaos-watchdog.py:98-101 | a census in which the last check finds nobody although a descendant lives |
| Watchdog.DeadlineConservative | scripts/outbox-chaos-watchdog.py:106-123 | with both times truncated by less than a second and an answer within the request, the recorded deadline is over one second before the true one, and less than three and the trip |
| Watchdog.ClockExactly | scripts/outbox-chaos-watchdog.py:106-123 | a clock is recorded if and only if the answer is prompt, fresh and not paged, exactly one listed job is the own one, and more than the reserve and at most the job limit is left; then with that deadline |
| Watchdog.StepEndsInsideJob | scripts/outbox-chaos-watchdog.py:142-148 | a step is granted exactly on the same boot, after the observation and before the reserve; it is positive, within the step bound and ends the reserve before the true deadline |
| MetaTags.EscapeAttribute | crates/ironauth-admin-ui/src/lib.rs:370-383 | the loop writes the escaped text, one character after the other |
| MetaTags.EscapeRoundTrips | crates/ironauth-admin-ui/src/lib.rs:370-383 | decoding the five character references gives back every value |
| MetaTags.EscapeInjective | crates/ironauth-admin-ui/src/lib.rs:370-383 | different values escape differently |
| MetaTags.EscapeInert | crates/ironauth-admin-ui/src/lib.rs:364-383 | no quote of either kind and no angle bracket is left |
| MetaTags.SetMetaContent | crates/ironauth-admin-ui/src/lib.rs:330-362 | the index arithmetic replaces the first content value after the first mention of the name and inside its tag, and leaves the document alone where there is none |
| MetaTags.SetOwn | crates/ironauth-admin-ui/src/lib.rs:330-362 | after a replacement the same tag is found with the new text as its content, and everything before and after the value is as it was |
| MetaTags.SetOther | crates/ironauth-admin-ui/src/lib.rs:330-362 | a tag apart from the replaced one is found where it was, shifted, with its content unchanged |
| MetaTags.SetTwice | crates/ironauth-admin-ui/src/lib.rs:330-362 | a second replacement leaves what it alone would have left |
| MetaTags.SetsCommute | crates/ironauth-admin-ui/src/lib.rs:330-362 | replacements in two tags come to the same in either order |
| MetaTags.InjectedReads | crates/ironauth-admin-ui/src/lib.rs:312-328 | for any list of names whose tags are in place, each injected tag reads as its value and each other one as before |
| MetaTags.InjectedReplaces | crates/ironauth-admin-ui/src/lib.rs:312-328 | a full injection after any part of another leaves what it alone would have left |
| MetaTags.OrderFree | crates/ironauth-admin-ui/src/lib.rs:312-328 | all six orders of the three replacements give the same document |
| MetaTags.InjectRuntimeConfig | crates/ironauth-admin-ui/src/lib.rs:312-328 | the tags named ironauth-admin-issuer, ironauth-console-client-id and ironauth-management-audience of a ready document read as the issuer path, the client id and the audience |
| MetaTags.ShippedIsReady | crates/ironauth-admin-ui/src/lib.rs:312-328 | a document that carries every tag once in the shipped shape is ready |
| MetaTags.InjectionOnShipped | crates/ironauth-admin-ui/src/lib.rs:312-328 | on such a document every tag reads as its value, and a second injection, whatever its values, leaves what it alone would have left |
| MetaTags.ReplacesTag | crates/ironauth-admin-ui/src/lib.rs:330-362 | a text around a shipped tag becomes the same text around the tag with the new content |
| MetaTags.InjectedPage | crates/ironauth-admin-ui/src/lib.rs:312-328 | any four pieces of text around the three shipped tags, in any order of the tags, become the same pieces around the same tags with the escaped values: no other character changes |
| MetaTags.PageSpelled | crates/ironauth-admin-ui/src/lib.rs:312-328 | that page written out: the four pieces with the three tags between them |
| SchemaCompat.ConstraintBreaks | scripts/event-registry-compat.py:84-109 | nothing is reported exactly when no looked-at keyword became narrower at any depth both versions describe, so nothing of an unchanged schema; each kind of report at a path appears exactly when its cause does, a bound where the newer version has it and the older none or a smaller one |
| SchemaCompat.SchemaBreaks | scripts/event-registry-compat.py:112-128 | nothing is reported exactly when every property stays and is compatible and none becomes required, so nothing of an unchanged schema; removals, new requirements and changed types are reported exactly |
| SchemaCompat.RaisedFields | scripts/event-registry-compat.py:100-103 | each of the three bounds is raised exactly when the newer one is present and the older is absent or smaller |
| SchemaCompat.Unchanged | scripts/event-registry-compat.py:84-109 | a schema is compatible with itself, at every depth |
| SchemaCompat.LooselyEqualExactly | scripts/event-registry-compat.py:91-95 | two values compare equal exactly when they are the same once truth values, at any depth, are written as 0 and 1 |
| SchemaCompat.TypesNamed | scripts/event-registry-compat.py:88-89 | the values each type name admits, and that a list of names admits what one of them does |
| SchemaCompat.Witness | scripts/event-registry-compat.py:84-109 | the search for a refused value is sound: what it finds is accepted by the older schema and refused by the newer |
| SchemaCompat.WitnessComplete | scripts/event-registry-compat.py:84-109 | the search is complete for every two schemas, over all types, listed values, bounds and nested items |
| SchemaCompat.InclusionExact | scripts/event-registry-compat.py:84-109 | for every two schemas, whatever is reported of them, the newer accepts all the older did if and only if the search finds nothing |
| SchemaCompat.ShelteredIncludes | scripts/event-registry-compat.py:84-109 | a clean check means inclusion where the newer version adds no maximum or items and loses no listed value |
| SchemaCompat.RaisedLengthReal | scripts/event-registry-compat.py:100-103 | a raised least length refuses something exactly when the type admits texts and the older bound allowed a shorter one |
| SchemaCompat.CheckOverlooks | scripts/event-registry-compat.py:91-107 | three concrete pairs of schemas that pass the check and narrow: an added maximum, newly described items, a listed 1 that becomes true |
| SchemaCompat.DroppedEnumFlagged | scripts/event-registry-compat.py:91-95 | dropping any list of values is a break to the check, though it accepts all that was accepted |
| SchemaCompat.PayloadInclusionExact | scripts/event-registry-compat.py:112-128 | for every two payload schemas, some declared payload is newly refused if and only if the older accepts any and something became required, or a kept property has a refused value, or a removed one has a value and the newer schema is closed |
| AccessRequests.RunKeepsInv | crates/ironauth-admin/src/access_requests.rs:562-673 | every run keeps each row showing exactly the one decision written for it, or none, and only adds decisions |
| AccessRequests.RaiseExactly | crates/ironauth-admin/src/access_requests.rs:373-500 | a raised request is pending with the asked organization, subject and role under its requester, every other is as before, and a taken id changes nothing |
| AccessRequests.GrantingWasApprovedOnce | crates/ironauth-admin/src/access_requests.rs:589-673 | in every run a request that grants was decided once, by an approval of a principal other than its requester, with a deadline after its decision, unless the clock is at its end, and at most thirty days later |
| AccessRequests.SweepExactly | crates/ironauth-store/src/access_request.rs:96-117 | after a sweep a request grants at an instant exactly when it did before and the sweep did not relabel it with a clock at or past its deadline |
| AccessRequests.SweepsMatterExactly | crates/ironauth-store/src/access_request.rs:96-117 | in every run, leaving out all sweeps changes what a request grants at an instant if and only if some sweep with a clock at or past the deadline relabelled it while it granted at that instant |
| AccessRequests.SweptInTime | crates/ironauth-store/src/access_request.rs:96-117 | no sweep does so where none read a clock past the instant |
| AccessRequests.SweepAheadEndsAccess | crates/ironauth-store/src/access_request.rs:162-200 | a sweep with a clock past the deadline ends access that an earlier clock still grants |
| AccessRequests.NeverGrantsAgain | crates/ironauth-store/src/access_request.rs:96-117 | a decided request that does not grant never does later, after any steps |
| AccessRequests.RequestStore.Decide | crates/ironauth-admin/src/access_requests.rs:589-673 | each reply exactly on its condition, the body one of one second to thirty days for an approval or none for a denial; only a success changes anything, only the decision fields of the one row, and it then grants exactly before the clock plus that duration, or never after a denial |
| AccessRequests.RoleDefined | crates/ironauth-admin/src/access_requests.rs:313-348 | the paging loop ends and finds a role exactly when some role has the slug and the page size is not zero |
| AuthZen.AgentIsIntersection | crates/ironauth-admin/src/authzen.rs:537-649 | an agent is allowed exactly when it may call the tool and its person, asked as a user about the tool with the same action, is allowed |
| AuthZen.AgentUnderCeiling | crates/ironauth-admin/src/authzen.rs:537-649 | whatever the agent question, an allow means the profile is on, the resource names a tool, the agent may call it and its person is allowed it |
| AuthZen.PrincipalDecision | crates/ironauth-admin/src/authzen.rs:431-489 | a user, or a service account, is allowed if and only if it is one of the scope and its own effective permissions in the organization hold type, dot, action; each other answer exactly on its condition |
| AuthZen.OtherSubjectsRefused | crates/ironauth-admin/src/authzen.rs:448-482 | a subject type is unsupported exactly when it is neither of these nor an agent with the profile on |
| AuthZen.AgentDecision | crates/ironauth-admin/src/authzen.rs:537-649 | an agent of the scope is allowed a named tool if and only if it belongs to the organization, is active, lists the tool, and its linked person can authenticate and holds tool, dot, name, dot, action; denied exactly when one of these fails |
| AuthZen.AgentRefusals | crates/ironauth-admin/src/authzen.rs:537-649 | another resource type, a missing tool name, an unknown agent and a failed read are each refused exactly so; a missing agent is denied |
| AuthZen.DecidedInItsOrganization | crates/ironauth-admin/src/authzen.rs:656-668 | a question is decided in the organization its own context names, and not at all where that is missing, blank or unknown |
| AuthZen.SlugsAgreeExactly | crates/ironauth-admin/src/authzen.rs:431-489 | two questions share a permission if and only if they are the same, or one kind extends the other by a dot and a middle that opens the other's action |
| AuthZen.SlugInjective | crates/ironauth-admin/src/authzen.rs:431-489 | with dot-free actions two questions share a permission only if they are the same |
| AuthZen.SlugAmbiguous | crates/ironauth-admin/src/authzen.rs:431-489 | every dotted action has a twin question with the same permission |
| AuthZen.Evaluations | crates/ironauth-admin/src/authzen.rs:386-421 | a success is the single evaluations of the merged entries, all of them or through the first deny; an error is the first failing single evaluation the batch comes to; too large exactly over the limit |
| AuthZen.OwnValuesWin | crates/ironauth-admin/src/authzen.rs:386-421 | an entry's own subject, resource, action and context are taken before the shared ones, and a value missing from both is named |
| AuthZen.EarlyStopIsPrefix | crates/ironauth-admin/src/authzen.rs:386-421 | the short answer is a prefix of the full one |
| BackupTrigger.NoSignalLost | crates/ironauth-admin/src/backups.rs:144-170 | in every interleaving each recorded request was seen by a pass that began after it, or a wake-up is due, or its handler is about to signal or was dropped; once signalled only the first two |
| BackupTrigger.WakeUpIsServed | crates/ironauth/src/main.rs:9784-9801 | with no interval the runner comes to see everything recorded exactly when a wake-up is due or all is seen |
| BackupTrigger.IntervalServes | crates/ironauth/src/main.rs:9784-9801 | the interval leads to a pass that sees everything recorded, and loses no stored wake-up |
| BackupTrigger.DroppedHandlerWaits | crates/ironauth-admin/src/backups.rs:144-170 | after a handler dropped between record and signal, a retry finishes as a replay and the runner alone never sees the request |
| BackupTrigger.Trigger.Signal | crates/ironauth-admin/src/backup_trigger.rs:37-47 | afterwards a wake-up is pending, by a chosen waiter or by the one stored permit |
| BackupTrigger.Trigger.Wait | crates/ironauth-admin/src/backup_trigger.rs:49-52 | a wait is over at once exactly when a wake-up was pending, and takes it |
| BackupTrigger.Trigger.GiveUp | crates/ironauth-admin/src/backup_trigger.rs:49-52 | dropping a wait keeps a pending wake-up pending |
| Brands.SanitizeToFixedPoint | crates/ironauth-oidc/src/branding/sanitize.rs:190-204 | whatever the budget, the result is empty or unchanged by another cleaning |
| Brands.FirstFixedPoint | crates/ironauth-oidc/src/branding/sanitize.rs:190-204 | where cleaning comes to a text it leaves alone within the budget, the result is the first such text |
| Brands.NoFixedPoint | crates/ironauth-oidc/src/branding/sanitize.rs:190-204 | where it does not, the result is empty |
| Brands.SanitizeIdempotent | crates/ironauth-oidc/src/branding/sanitize.rs:206-222 | sanitizing twice is sanitizing once, for every cleaning step that keeps the empty text empty |
| Brands.CheckedSlots | crates/ironauth-admin/src/brands.rs:184-202 | accepted exactly when every key is known and every value within the cap, and then the pairs are exactly the submitted ones |
| Brands.ValidatedSlots | crates/ironauth-admin/src/brands.rs:206-208 | stored are the sanitized values that are not empty, under their keys |
| Brands.StoredPassesWall | crates/ironauth-admin/src/brands.rs:184-208 | what the management door stores passes the promotion wall exactly when sanitizing kept every value within the cap |
| Brands.BrandFaults | crates/ironauth-admin/src/brands.rs:246-282 | a brand has no fault of its own exactly when its tokens, dark tokens and slots pass |
| Brands.PromotedBrandFaults | crates/ironauth-admin/src/brands.rs:241-307 | no fault exactly when every brand passes, canonical hosts are pairwise distinct and at most one brand is default; every clash named is between two brands of the document |
| ShardPlan.SelectFeatures | scripts/oidc-dual-tests.py:31-37 | the loop ends with the least set that holds the initial features and every local feature listed under one of its members |
| ShardPlan.ClosureUnique | scripts/oidc-dual-tests.py:31-37 | there is only one such set |
| ShardPlan.ClosedOnLists | scripts/oidc-dual-tests.py:33-37 | a selection is closed exactly when it holds every local feature listed under one of its members |
| ShardPlan.SortsByName | scripts/oidc-dual-tests.py:25-28 | the sorted roster is a permutation of the targets whose names are the sorted names |
| ShardPlan.Plan | scripts/oidc-dual-tests.py:18-71 | accepted exactly when the inventory is, which does not depend on the shard, and the shard is one of four; the argument lists are that shard's |
| ShardPlan.AcceptedMeans | scripts/oidc-dual-tests.py:18-50 | an accepted inventory has the fixed policy, lists every integration and example target as often as the metadata has it, and the selected features once each in order |
| ShardPlan.ExamplesNotTested | scripts/oidc-dual-tests.py:44-51 | in an accepted inventory every target is a library, a test or an example; tests are enabled, examples only compile |
| ShardPlan.ReadCommands | scripts/oidc-dual-tests.py:63-71 | read as a command line, a shard's first argument list names exactly its library and its tests, the second only the doctests |
| ShardPlan.ShardsRun | scripts/oidc-dual-tests.py:40-71 | of an accepted inventory the four shards run each target whose features are selected once, and once more for every shard whose command names nothing; no other name; the library and the doctests as often |
| ShardPlan.ShardsCoverExactly | scripts/oidc-dual-tests.py:40-71 | the four shards of an accepted inventory run each such target, the library and the doctests exactly once and nothing else if and only if shards 1, 2 and 3 each name a test |
| ShardPlan.EmptyShardsRunAll | scripts/oidc-dual-tests.py:52-71 | an inventory with three shards that name no test is accepted, and everything runs four times |
| ShardPlan.RunCommands | scripts/oidc-dual-tests.py:74-80 | zero exactly when every command returned zero; otherwise the first failure, with a signal as 1 |
| Keyset.SkippedTo | crates/ironauth-admin/src/certificate_notices.rs:150-190 | in an ordered listing the cursor of a row leads to the row behind it |
| Keyset.PageFrom | crates/ironauth-admin/src/access_requests.rs:317-343 | the page behind a row is the next stretch of the listing, as long as the capped limit and the listing allow |
| Keyset.LessExactly | crates/ironauth-admin/src/certificate_notices.rs:150-190 | rows are compared by creation time and, at the same time, by identifier |

## Left out

- HTTP handlers, JSON decoding and rendering, event envelopes, authentication and the console's proxy: plumbing over libraries.
- The store's SQL, row-level security, sealing and audit rows: only what a query selects, orders, limits and refuses is modelled. The store's `crates/ironauth-store/src/repository.rs` (due query at 82983, message enqueue at 27066, decide and expire at 90628-90812, role listing at 55254) is followed for those, and cited through the code that calls it.
- Request signing, SHA-256 and the digest truncation: the message key stands for its digest, taken as collision free, and the truncated discriminator is an arbitrary function.
- Process spawning, signal delivery, selectors and the reading of `/proc`: a run takes its censuses and outcomes as given.
- Watchdog.Watchdog.Register: keeps the known identities as a set, not the copy of the row the source stores beside each.
- Watchdog.DeadlineConservative: is over exact reals and does not model floating-point rounding of the clock.
- CertificateNotices.NobodyMailedTwice: the source keys a message on a digest; two recipients or notices whose digests collide would share a key.
- CertificateNotices.MessageStore.Send: is over a contact list that nobody edits meanwhile; edits are in CertificateNotices.CompletionToldEveryone.
- MetaTags.SetMetaContent: works on characters rather than UTF-8 bytes; every text searched for is ASCII.
- SchemaCompat.PayloadInclusionExact: payloads use declared properties only, and keywords other than the registry's own, boolean `items` among them, are not modelled.
- The registry-level comparison of the compatibility script (versions, retired events, reading the base revision).
- The HTML cleaner, host canonicalisation and the token grammar of brands: arbitrary functions.
- The closure of effective permissions over groups: an arbitrary set of slugs per person and organization.
- The listing of access requests and its truncation, raising's checks on the reason and the subject, and certificate retirement: easy or decided in the store.
- The other scripts, generators, SDK bindings and crates.
