# TheReposterminator, modelled in Dafny

TheReposterminator is a moderation bot that finds reposted images in a
subreddit. For every image submission it computes a 64-bit difference hash. It
compares that hash with the stored hashes of the same subreddit. If between 1
and 10 stored images score strictly above 88% similarity, it reports the
submission with a table of the originals. It then stores the new hash and
records the submission so that it is never handled again. Moderators add a
subreddit by inviting the bot. A new subreddit is first backfilled from its
top listings (all time, year, month) without reporting. After that, its new
posts are scanned with reporting on. Being removed as a moderator drops the
subreddit.

This project models the core of `TheReposterminator/bot.py`:

- `fingerprint.dfy` — module `Fingerprint`. The similarity score of two
  hashes (exclusive or, bit count, percentage rounded down) and the match
  threshold.
- `urls.dfy` — module `Urls`. The text operations the bot relies on:
  - substring and prefix tests;
  - ASCII lower-casing;
  - replacement of every occurrence;
  - the imgur URL normalisation;
  - the image extension filter.
- `records.dfy` — module `Records`. Submissions, rows of the submission
  table and rows of the fingerprint table.
- `matcher.dfy` — module `Matcher`. The per-subreddit fingerprint query and
  the match generator.
- `reporting.dfy` — module `Reporting`. `do_report`: looking the originals
  up, classifying them as Removed, Deleted or Active, and counting. It
  includes the loop itself, as a method.
- `processor.dfy` — module `Processor`. `handle_submission` as a transition
  of a `Store`, which holds:
  - the in-memory id set;
  - the fingerprint table;
  - the submission table;
  - the log of issued reports.

  It also holds `Scan`, the same transition over a whole listing, and the
  invariant that relates the id set to the two tables.
- `communities.dfy` — module `Communities`. The subreddit table and its
  three updates: insert-if-absent, set-indexed and delete. Each is proved
  against a map view of the table.
- `inbox.dfy` — module `Inbox`. Routing of direct messages and their effect
  on the subreddit table.
- `bot.dfy` — module `Bot`. The class `BotClient` holds the fields the
  Python object updates in place, plus the three tables behind its database
  connection. Each of its methods is proved to perform the transition that
  the functions above describe:
  - `HandleSubmission` is proved against `Processor.Handle`;
  - `ScanListing` is proved against `Processor.Scan`;
  - `HandleDms` is proved against `Inbox.ApplyDms`;
  - `WalkList`, the `for` loop of `run`, is proved against the ghost
    function `Loop`;
  - `RunPass`, one iteration of `run`'s endless loop, is proved against
    the ghost function `Pass`.

  The lemmas about `Loop` and `Pass` state what a pass keeps: the tables
  only grow, the invariant holds, names stay unique, and a pass with no
  messages leaves every tracked subreddit indexed, as long as reloads keep
  the rows in order.

The outside world enters as data. An `Arrival` carries:

- the submission;
- the outcome of fetching and hashing its media;
- the platform's live view of the original posts;
- whether the platform calls of a report succeed.

A `Feed` carries the listings of one subreddit, and a pass receives a
function from subreddit names to feeds. The inbox is the sequence of unread
messages each `handle_dms` call finds.

How the code treats a submission that yields no image:

- **Non-image submissions.** When the URL has none of the accepted
  extensions, or the downloaded media does not decode, `fetch_media`
  returns `False`. `handle_submission` then returns from inside its `try`
  (lines 135-136) before anything is written. Such a submission leaves no
  row, is not added to the id set, and is examined again the next time it
  is listed. `Processor.Handle` and `Processor.HandleEffect` model this.
- **Submission rows on failure.** An exception raised during fetching,
  hashing, the fingerprint query or reporting is caught, and the
  submission is recorded with `processed = false`. A failure of the
  `media_storage` insert (lines 157-159) would do the same after a report
  may already have been issued; the model assumes database writes succeed
  (see "Left out").

Other behaviour of the code that the model states as it is:

- `run` calls `handle_dms` outside the loop over the subreddit list only
  while its initial check is due, and that check is due only until the
  first pass that starts with an empty list. Once it is done, every call
  comes from inside the loop, so a bot whose list is then empty never
  reads its messages again. `Bot.BotClient.RunPass` states both: the check
  stays due exactly when it was due and the pass started with a non-empty
  list, and with the check done a pass over an empty list changes nothing.
- The mobile imgur host is replaced before the URL is lower-cased. An
  upper-case `M.IMGUR.COM` is therefore lower-cased but not rewritten.
- An invite-routed message that names no subreddit makes `accept_invite`
  raise, and nothing catches the exception. `Inbox.ApplyDms` models this as
  a crash that ends the pass.
- `run` reads `sub.indexed` from the row it fetched before calling
  `scan_new_sub`. A subreddit that has just been backfilled is therefore
  not scanned for new posts in the same step.
- `run` walks the live list by position. Inside the loop, `update_subs`
  clears and refills that list in place, so any reload of the list,
  including the one after a backfill, can shift which rows the rest of the
  pass visits. The model keeps each row in its place across an update and
  moves rows only on an invite or a removal (see "Left out").

## Model

| member | source | states |
|---|---|---|
| Fingerprint.Distance | TheReposterminator/bot.py:148-149 | two 64-bit hashes differ in at most 64 bit positions |
| Fingerprint.Score | TheReposterminator/bot.py:148-149 | the percentage of equal bits is at most 100, and is exactly 100 only when no bit differs |
| Fingerprint.Similarity | TheReposterminator/bot.py:148-149 | the similarity of two hashes is a whole percentage, at most 100 |
| Fingerprint.SimilaritySymmetric | TheReposterminator/bot.py:148-149 | distance, similarity and matching do not depend on which hash is the candidate |
| Fingerprint.SimilarityReflexive | TheReposterminator/bot.py:148-150 | a hash compared with itself has distance 0, scores 100 and matches |
| Fingerprint.SimilarityHundredIffEqual | TheReposterminator/bot.py:148-149 | a score of 100 happens exactly for identical hashes |
| Fingerprint.ScoreAboveThreshold | TheReposterminator/bot.py:148-150 | 7 differing bits score 89 and 8 score 87; a score is above the threshold of 88 exactly when at most 7 bits differ |
| Fingerprint.IsMatch | TheReposterminator/bot.py:148-150 | two hashes match exactly when their Hamming distance is at most 7 |
| Fingerprint.SevenLowBitsMatch | TheReposterminator/bot.py:148-150 | hashes differing in their 7 lowest bits, such as 0 and 0x7F, score 89 and match |
| Fingerprint.EightLowBitsMiss | TheReposterminator/bot.py:148-150 | hashes differing in their 8 lowest bits, such as 0 and 0xFF, score 87 and do not match |
| Urls.ContainsIffOccurs | TheReposterminator/bot.py:54 | the substring scan finds a text exactly when it occurs at some index |
| Urls.Contains | TheReposterminator/bot.py:54 | a text found in a string is no longer than it, and the empty text is always found |
| Urls.Lower | TheReposterminator/bot.py:132 | lower-casing keeps the length and maps each character to its lower-case form |
| Urls.LowerIsLower | TheReposterminator/bot.py:132 | a lower-cased string has no upper-case letter, and lower-casing is idempotent |
| Urls.LowerKeepsContains | TheReposterminator/bot.py:132 | every occurrence survives lower-casing, lower-cased |
| Urls.ReplaceAbsent | TheReposterminator/bot.py:132 | a URL without the mobile host is left as it is by the replacement |
| Urls.ReplaceAll | TheReposterminator/bot.py:132 | replacing by a text of the same length keeps the length; a longer replacement never shortens, a shorter one never lengthens |
| Urls.NormalizeUrl | TheReposterminator/bot.py:132 | the fetched URL has the original's length and no upper-case letter |
| Urls.MobileLinkRewritten | TheReposterminator/bot.py:132 | a mobile imgur link normalises to the lower-cased direct-host link |
| Urls.UpperExtensionAccepted | TheReposterminator/bot.py:132-135 | an upper-case .JPG, .PNG or .JPEG anywhere in a URL, mobile imgur links included, passes the extension filter after normalisation |
| Urls.ReplaceChangesOnlyFirst | TheReposterminator/bot.py:132 | replacing the mobile host by the direct host changes only 'm' characters, each into an 'i', and every other character stays in place |
| Urls.ReplaceKeepsOccurrence | TheReposterminator/bot.py:132 | the host replacement keeps every occurrence of a text without an 'm', such as an upper-case extension |
| Urls.HasImageExtension | TheReposterminator/bot.py:54 | the filter accepts a URL exactly when ".jpg", ".png" or ".jpeg" occurs somewhere in it, which needs at least 4 characters |
| Records.SubmissionRowOf | TheReposterminator/bot.py:163-176 | the submission row keeps the post's id, subreddit and original URL, carries the processed flag, and is marked deleted exactly when the author is "[deleted]" |
| Matcher.RowsOf | TheReposterminator/bot.py:141-143 | the query returns exactly the stored rows of the candidate's subreddit |
| Matcher.GetMatches | TheReposterminator/bot.py:145-151 | every match scores above the threshold and comes from a stored row; every stored row above the threshold gives a match |
| Matcher.GetMatchesConcat | TheReposterminator/bot.py:145-151 | matches come out in stored-row order |
| Matcher.RowsOfConcat | TheReposterminator/bot.py:141-143 | the query keeps table order |
| Matcher.FindMatches | TheReposterminator/bot.py:137-151 | every match belongs to the candidate's subreddit, scores above the threshold and comes from a stored row; every stored row of that subreddit that matches gives a match |
| Matcher.FindMatchesScoped | TheReposterminator/bot.py:137-151 | a newly appended row of another subreddit changes no match; one of the same subreddit adds at most its own match, at the end |
| Matcher.DuplicateIsFound | TheReposterminator/bot.py:145-151 | an identical stored image of the same subreddit is found with similarity 100 |
| Reporting.Classify | TheReposterminator/bot.py:192-197 | removal is checked before deletion; a post is Active exactly when it is neither removed nor by "[deleted]" |
| Reporting.FindSubmission | TheReposterminator/bot.py:186-189 | the lookup returns a table row with the requested id, and finds nothing exactly when no row has that id |
| Reporting.FindSubmissionAppend | TheReposterminator/bot.py:186-189 | appending a submission row changes lookups only for an id that was not found before |
| Reporting.RemovedOrDeletedCount | TheReposterminator/bot.py:209-210 | matches minus active originals equals the number of Removed plus Deleted originals |
| Reporting.ComposeCounts | TheReposterminator/bot.py:209-210 | the report counts every match, has one row per match, and its removed/deleted figure is at most the match count and counts exactly the Removed and Deleted rows |
| Reporting.Compose | TheReposterminator/bot.py:180-210 | a report is composed exactly when every original is in the table and live; it names the submission, counts every match and has one row per match, with that match's id and similarity |
| Reporting.ComposeRows | TheReposterminator/bot.py:182-208 | the loop succeeds exactly when every original is found in the table and on the platform; its active count and rows are those of the composed report |
| Processor.FetchMedia | TheReposterminator/bot.py:52-61 | a URL without an accepted extension is not an image and is not fetched; a URL with one gets exactly the fetch's outcome |
| Processor.Handle | TheReposterminator/bot.py:127-178 | the store only grows; at most the post's id is added to the set, and each table and the report log gain at most one row |
| Processor.HandleImage | TheReposterminator/bot.py:137-178 | the id is added; the fingerprint row is added or nothing; the submission row is appended, processed exactly when the fingerprint was stored; a report is appended only together with the fingerprint, and at most one |
| Processor.HandleEffect | TheReposterminator/bot.py:127-178 | the store is unchanged exactly for self posts, known ids and non-images; otherwise one submission row and the id are added, and the fingerprint row is added exactly when the row is marked processed |
| Processor.HandleReports | TheReposterminator/bot.py:153-155 | a report is logged exactly when reporting is on, the match count is between 1 and 10, and composing and the platform calls succeed; it is the composed report |
| Processor.FloodSuppressesReport | TheReposterminator/bot.py:154 | more than 10 matches: no report, but the fingerprint and a processed row are still stored |
| Processor.HandleIdempotent | TheReposterminator/bot.py:129-130 | handling the same submission again changes nothing |
| Processor.FreshIdNotInTables | TheReposterminator/bot.py:129 | under the invariant, an id not in the set has no row in either table |
| Processor.WriteConsistent | TheReposterminator/bot.py:157-178 | writing the rows of a fresh submission keeps the invariant |
| Processor.HandlePreservesConsistent | TheReposterminator/bot.py:127-178 | handle_submission keeps the invariant: the set is the table's ids, ids are unique in both tables, each fingerprint has a processed row of the same subreddit, and each processed row has its fingerprint |
| Processor.ConsistentLookups | TheReposterminator/bot.py:186-189 | under the invariant, every match's original is in the submission table, so a report fails only for lack of a live post |
| Processor.Scan | TheReposterminator/bot.py:220-232 | a scan only adds ids, rows and reports, and adds at most one submission row per listed post |
| Processor.ScanConcat | TheReposterminator/bot.py:228-232 | scanning listings one after the other is scanning their concatenation |
| Processor.BackfillIssuesNoReport | TheReposterminator/bot.py:228-232 | a scan with reporting off issues no report |
| Processor.ScanPreservesConsistent | TheReposterminator/bot.py:222-223 | a scan keeps the invariant |
| Processor.ScanOfSkipped | TheReposterminator/bot.py:129-130 | a listing of skipped submissions changes nothing |
| Processor.ScanSkipsListing | TheReposterminator/bot.py:129-136 | after a scan, every submission of the listing would be skipped |
| Processor.ScanIdempotent | TheReposterminator/bot.py:129-136 | scanning a listing again, with or without reporting, changes nothing |
| Processor.SoleFingerprintMatches | TheReposterminator/bot.py:145-151 | a subreddit's only fingerprint, compared with its own hash, is the single match, with similarity 100 |
| Processor.BackfillStoresSole | TheReposterminator/bot.py:127-178 | backfilling an image into a subreddit with no fingerprints records it and stores the subreddit's only fingerprint, which matches itself at 100, with no report |
| Processor.SingleMatchReported | TheReposterminator/bot.py:153-155 | a fresh image with exactly one match, whose original is in the submission table and live on the platform, gets exactly one report, with that match |
| Processor.RepostReportedOnce | TheReposterminator/bot.py:127-178 | an identical image backfilled and then posted again gets exactly one report, with one match of similarity 100 against the first |
| Communities.DeleteNamed | TheReposterminator/bot.py:263-265 | the names left are exactly the old names without the removed one, and no row is added |
| Communities.InsertIfAbsent | TheReposterminator/bot.py:254-256 | the names become the old names plus the new one; the old rows stay first and at most one row is added |
| Communities.MarkIndexed | TheReposterminator/bot.py:234-236 | setting the flag keeps the number of rows |
| Communities.InsertIfAbsentMap | TheReposterminator/bot.py:254-256 | a new name joins with indexed false; a tracked name keeps its flag and the table is unchanged; names stay unique |
| Communities.DeleteNamedMap | TheReposterminator/bot.py:263-265 | removal deletes the name and keeps every other entry |
| Communities.DeleteNamedUnique | TheReposterminator/bot.py:263-265 | removal keeps names unique and removes exactly that name |
| Communities.MarkIndexedMap | TheReposterminator/bot.py:234-236 | a finished backfill sets that subreddit's flag and leaves every other entry |
| Communities.MarkIndexedMonotone | TheReposterminator/bot.py:234-236 | setting the flag never clears one and keeps names unique |
| Inbox.RouteOf | TheReposterminator/bot.py:243-247 | a message is an invite exactly when the invite test holds, and a removal exactly when the invite test fails and the removal test holds; a removal always names a subreddit |
| Inbox.RoutingByOccurrence | TheReposterminator/bot.py:243-246 | the invitation phrase anywhere in the subject makes an invite; the removal phrase anywhere in the body, with a subreddit and no invite marker, makes a removal; no subreddit, no removal |
| Inbox.ApplyDm | TheReposterminator/bot.py:242-248 | one message crashes exactly when it is an invite naming no subreddit; after an invite its subreddit is tracked, after a removal it is not, and no other name changes |
| Inbox.ApplyDms | TheReposterminator/bot.py:240-248 | the messages crash the bot exactly when one of them is an invite naming no subreddit; no messages change nothing |
| Inbox.ApplyDmsUnique | TheReposterminator/bot.py:240-248 | handling messages keeps subreddit names unique |
| Inbox.UnremovedKeepsFlag | TheReposterminator/bot.py:240-267 | a tracked subreddit that no message removes stays tracked with its indexed flag |
| Bot.Backfill | TheReposterminator/bot.py:228-229 | the backfill walks every post of the three top listings and nothing else |
| Bot.NextKeeps | TheReposterminator/bot.py:110-116 | one step of the loop only adds to the store, keeps its invariant and keeps names unique |
| Bot.LoopExtends | TheReposterminator/bot.py:110-116 | the loop over the list only adds ids, rows and reports |
| Bot.LoopConsistent | TheReposterminator/bot.py:110-116 | the loop over the list keeps the store's invariant |
| Bot.LoopUnique | TheReposterminator/bot.py:110-116 | the loop over the list keeps subreddit names unique |
| Bot.PassKeeps | TheReposterminator/bot.py:105-116 | a pass only adds to the store, keeps its invariant and keeps names unique |
| Bot.QuietNext | TheReposterminator/bot.py:111-116 | with no unread messages, a step does not crash, keeps every row and flag, and leaves the visited row indexed |
| Bot.QuietLoopIndexes | TheReposterminator/bot.py:110-116 | with no unread messages, the loop does not crash, keeps the rows in place and their flags set, and leaves every row from its start position on indexed |
| Bot.QuietPassIndexesAll | TheReposterminator/bot.py:105-116 | a pass with no messages and the initial check done ends with every tracked subreddit indexed, in its place, and no crash |
| Bot.LoadIds | TheReposterminator/bot.py:93-96 | the loaded id set is exactly the ids of the submission table |
| Bot.CollectMatches | TheReposterminator/bot.py:145-151 | the generator's loop yields exactly the matches of the stored rows, in order |
| Bot.BotClient.constructor | TheReposterminator/bot.py:67-71 | the bot starts with the table's ids and the table's subreddit list, and no reports |
| Bot.BotClient.UpdateSubs | TheReposterminator/bot.py:118-125 | the list becomes the subreddit table, and nothing else changes |
| Bot.BotClient.DoReport | TheReposterminator/bot.py:180-218 | a report is issued exactly when composing and the platform calls succeed, and it is the composed report; no table changes |
| Bot.BotClient.HandleSubmission | TheReposterminator/bot.py:127-178 | the new state is Processor.Handle of the old state, and the id set still mirrors the submission table |
| Bot.BotClient.ScanListing | TheReposterminator/bot.py:222-223 | the new state is Processor.Scan of the old state over the listing |
| Bot.BotClient.ScanSubmissions | TheReposterminator/bot.py:220-224 | the new state is Processor.Scan of the old state over the new posts, with reporting on |
| Bot.BotClient.ScanNewSub | TheReposterminator/bot.py:226-238 | the three top listings are scanned in order with no report issued, then the subreddit is marked indexed and the list reloaded |
| Bot.BotClient.AcceptInvite | TheReposterminator/bot.py:250-258 | the subreddit is inserted unless present, and the list is reloaded |
| Bot.BotClient.HandleModRemoval | TheReposterminator/bot.py:260-267 | the subreddit's row is deleted, and the list is reloaded |
| Bot.BotClient.HandleDms | TheReposterminator/bot.py:240-248 | the subreddit table and the crash flag are those of Inbox.ApplyDms; submissions are untouched |
| Bot.BotClient.HandleDm | TheReposterminator/bot.py:242-248 | one message is routed as Inbox.ApplyDm says: a crash changes nothing, otherwise the table is ApplyDm's |
| Bot.BotClient.ScanSub | TheReposterminator/bot.py:112-116 | the row read at the start of the step decides: not indexed, backfill and mark indexed; indexed, scan new posts with reporting on; the tables only grow, the invariant and unique names are kept, the list keeps its length |
| Bot.BotClient.VisitSub | TheReposterminator/bot.py:111-116 | the crash flag is that of Inbox.ApplyDms over the messages; a crash leaves the store and keeps ApplyDms's table; otherwise the store is Processor.Scan over the row's listing and the table is ApplyDms's, marked indexed after a backfill; with no messages the list keeps its length |
| Bot.BotClient.WalkStep | TheReposterminator/bot.py:110-116 | one iteration of the for loop is one step of Loop, and the steps left decrease |
| Bot.BotClient.WalkList | TheReposterminator/bot.py:110-116 | the store, the table and the crash flag after the for loop are those of Loop from position 0 |
| Bot.BotClient.RunPass | TheReposterminator/bot.py:105-116 | the store, the table and the crash flag are those of Pass; the tables only grow, the invariant and unique names are kept; the initial check stays due exactly while passes start with a non-empty list; with the check done and an empty list a pass changes nothing |

## Left out

- Connecting to the platform and the database, and the exit on a failed
  connection, are not modelled. The constructor starts from the tables as
  they are.
- Downloading, decoding and hashing an image are not modelled. `requests`,
  PIL and `diff_hash` become the fetch outcome of an `Arrival`: not an
  image, a hash, or an exception. `differencer.py` is not part of this
  model.
- The platform's listings, live posts and inbox enter as data. A
  subreddit's listings are a function of its name, the same for every
  visit within a pass. This covers
  the `new` and `top` listings, the `submission` lookup and `inbox.unread`.
  Marking messages read is implied by each message being handled once.
- Accepting the invite on the platform is not modelled. The call on line
  252 is assumed to succeed whenever a subreddit is named.
- The report and the reply are collapsed into one platform flag. When one
  of them raises, the model logs no report. In the code, a report whose
  reply then fails has still been issued.
- Hiding the reply (a suppressed exception) is not modelled.
- Logging, the markdown text of the reply and the date formatting are not
  modelled. Report rows carry the raw values.
- `run`'s endless loop is not modelled as such. `Bot.BotClient.RunPass` is
  one iteration of it.
- SQL results are assumed to come in insertion order. The tables are
  sequences.
- Bot.QuietPassIndexesAll / Bot.Loop: the model keeps a row in its place
  when `UPDATE subreddits SET indexed=TRUE` (line 235) changes it. The
  reload that follows (line 122) has no `ORDER BY`, and the database may
  return the updated row after the others. The list can then shift in the
  middle of a pass: a subreddit just backfilled may be visited again, and
  one behind it skipped. Neither `Loop` nor the claim that a quiet pass
  leaves every subreddit indexed covers that reordering.
- Lower-casing covers ASCII letters only.
- The creation time is modelled as an integer. The code stores it as a
  float.
- The author is compared as a string. The code compares the platform's
  author object with `"[deleted]"`.
- Other processes writing to the database are not modelled.
- Failures of the database writes are not modelled: each `INSERT`,
  `UPDATE` and `DELETE` is assumed to succeed. In the code, a failing
  `media_storage` insert (lines 157-159) is caught after a report may have
  been issued, and the submission is then recorded with
  `processed = false`.
