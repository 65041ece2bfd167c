# A verified model of Tile38's log, indexes, matcher and codecs

Tile38 is an in-memory store of objects with positions. This project models the parts of it where a fast or
concurrent mechanism has to agree with a simple one, and proves that it does:

- **The append-only log** (`Dataset`, `Replay`, `Shrink`, `Server`, `Follower`). Write commands are state
  transitions with an `updated` flag. The shrinker rewrites the log in small critical sections between which writes
  go on. A step of the state machine is one critical section, and the main theorem is about every interleaving: after
  each step the log loads to exactly the dataset. It rests on an idempotence theorem: replaying the commands logged
  since any moment on top of any object they already reached changes nothing. A follower that is fed a log keeps the
  same dataset; whether its own log stays a copy is characterised exactly, over every run of the leader.
- **Expiry** (`Expire`): deadlines, the expiry list with its own lock and the background purge, interleaved with
  commands and with the shrinker.
- **The R-tree and the collection** (`Rtree*`, `Knn`, `Indexes`, `Collection`): insert with split, explicit-stack
  remove with condense, pruned search, best-first nearest neighbours, and the object store that keeps two indexes, a
  field table and four counters in step.
- **Glob patterns** (`Glob`, `GlobGrammar`, `GlobMatch`, `GlobRunes`, `GlobRange`, `GlobEscape`, `GlobLoops`,
  `Scanner`): the grammar of patterns, the greedy chunk matcher against their backtracking meaning, on every name
  whatever its bytes, the key range a pattern induces, and scans with cursors.
- **Fences** (`Fence`): which event a change is reported as, and what whole runs of reports look like.
- **Codecs and framing** (`LegacyReader`, `Checksum`, `Geohash`, `Quadkey`, `Feature`): round trips, independence of
  how a stream is cut into reads, and a bisection with its bound on the number of probes.

`Bytes`, `Powers`, `LittleEndian` and `Objects` hold what the others share. Code that works step by step is a method
with loop invariants or a class; each is proved against a function, and the properties are lemmas about that
function. Coordinates, field values and distances are `real`; lengths and counters are unbounded.

## Where the code does not do what it is for

Each of these is stated for all inputs: what goes wrong, and exactly when it does not.

- An FSET whose argument list breaks off in an error still applies the fields read before the error and is not logged
  (pkg/controller/crud.go:836 keeps the error and goes on). `Shrink.LogIsDatasetIffNoLeaks`: log and dataset agree after
  every step of a run if and only if the run holds no such FSET that changes a field of the object it meets.
  `Shrink.ShrinkRepairs`: a shrink during which that does not happen puts the log right again, whatever came before.
  `Replay.LoadFailsIff`: a log cannot be loaded if and only if such an FSET, with an error in its arguments and its
  key and object there, comes up in it.
- A follower does not log a received command that updates nothing, and a log that was shrunk while writes went on can
  hold such commands. `Dataset.LoggedIffUpdates` says what each command needs to find in order to update;
  `Follower.MirrorsIffAllUpdate` and `Follower.CaughtUpIffAllUpdate` give the condition for the copy and for ever
  counting as caught up; `Follower.FollowerMirrorsIffLastSwapQuiet` gives it over the leader's run: at its last swap
  every command of the shrink log updated the snapshot it was appended to. `Follower.FollowerSkipsAfterShrink` is a run
  that breaks it.
- The key range of a pattern can lose matches. `GlobRange.AscendingRangeExact` and `GlobRange.DescendingRangeExact` say
  for any pattern and id whether a scan visits the id. A pattern that begins with `?` or `[` visits nothing. An escape
  counts its backslash as part of the literal prefix, so with a backslash in the prefix the ascending scan loses every
  match, unless only escaped backslashes and then a wildcard follow (`GlobEscape.EscapedPrefixLosesMatches`,
  `GlobEscape.EscapedSlashesNeedMore`). Of the ids that extend a prefix ending in byte 0xFF only the prefix itself is
  visited, and descending also the prefix followed by a zero byte. `GlobEscape.LosesNothingIff`: but for those
  escaped backslashes, the ascending range loses nothing if and only if the pattern is safe or accepts nothing.
- On names with characters of several bytes the greedy matcher can give a wrong answer, because `*` skips by bytes
  and `?` reads a character. If stars may stop inside characters, its only mistake is to miss a match, and it makes none
  on a name if and only if no position of the name begins a character of three or four bytes
  (`GlobRunes.ExactOnNarrowNames`; `*?*` and the last byte of such a character is missed). If `*` is read as a sequence
  of characters, as documented, it also accepts too much (`*??` accepts a single three-byte character), and is right
  whatever the pattern if and only if every position begins a one-byte character (`GlobRunes.ExactByCharacter`).
- Replacing an object by one of the other kind (geometry or string) unlinks the old object from the index of the new
  one's kind. `Collection.Collection.Run` says what that does to each index over a run. The spatial index is exact
  afterwards if and only if no geometry was replaced by a string: the entry left behind never goes. The value tree is
  exact if and only if no string that was replaced by a geometry still has its place, and `Indexes.LeftIff` says when
  that is: storing a string of the same text under the id again, or a string in place of an object of that text,
  clears it. The counter of geometries is off by those gained less those lost.
- A count of everything is read off the collection and has the cursor taken off; any other count includes what the
  cursor skips and stops at the limit (pkg/controller/scan.go:55-61). `Scanner.ShortcutAgreesIff`: without a limit the
  two agree if and only if there is no cursor or nothing to count. The shortcut does not look at WHEREEVAL scripts.
- Neither a deletion nor a replacement by a string reports an exit. `Fence.CrossingsAlternateIff`: the enters and exits
  of an object alternate and lead to the side it is on if and only if it was outside whenever that happened;
  `Fence.DeleteBreaksAlternation` shows two enters in a row. Which side the last report names is right in any run
  (`Fence.LastReportIsSide`).
- Among children that grow alike the R-tree means to take the smallest, and among cuts of equal overlap the one of least
  area, but it goes on comparing with the least area noted at dearer candidates. `RtreeTies.TieBreakIff` says exactly
  when the choice is right; `RtreeInsert.TieGoesToLarger` shows three boxes for which it is not.
- The axis of a split is the one of least margin, summed over both sides of every distribution, but the box of the right
  side is never widened. `RtreeInsert.MarginSumIff`: the sum is never too large, and is right if and only if all right
  sides have the margin of the smallest one.
- A fence told to leave out crossings also leaves out the outside report that follows a crossing, wanted or not;
  otherwise a detect list selects from what an unfiltered fence reports (`Fence.DetectListSelects`).
- Tile coordinates are 64-bit words, so a quadkey of more than 64 digits survives decoding and encoding if and only if
  its digits above the last 64 are 0 (`Quadkey.KeyRoundTrip`).

## Model

| member | source | states |
|---|---|---|
| Glob.ParseAppend | pkg/glob/match.go:87-182 | the tokens of a pattern that is cut between two tokens are the tokens of its parts; parsing does not look across the cut |
| GlobGrammar.ParseIff | pkg/glob/match.go:16-35 | the patterns are those of the documented grammar, given as a relation between bytes and tokens: the reader returns exactly the tokens a pattern spells, and rejects what spells none |
| GlobGrammar.ClassDenotes | pkg/glob/match.go:126-170 | a class in brackets denotes the characters that lie in one of the ranges it spells, or with a caret those that lie in none |
| GlobGrammar.ClassForms | pkg/glob/match.go:24-34 | the documented forms, for any bytes: `[lo-hi]`, `[^lo-hi]`, `[x]`, `[xy]`, and an escaped bracket as a member |
| GlobGrammar.DecodeEncoded | pkg/glob/match.go:192-211 | a character that is encoded in one to four bytes decodes to itself, whatever follows |
| GlobGrammar.EncodeDecoded | pkg/glob/match.go:192-211 | what decodes without an error begins with the encoding of the decoded character |
| GlobMatch.ChunkParses | pkg/glob/match.go:87-110 | of a well-formed pattern, scanChunk cuts off a star-free run of whole tokens, and what is left is empty or begins with a star |
| GlobMatch.MatchChunkMeaning | pkg/glob/match.go:118-182 | matchChunk succeeds exactly when the chunk's tokens, read one character (literals one byte) at a time, take a front of the name, and returns what is left; for every name |
| GlobMatch.LeftmostDecides | pkg/glob/match.go:57-72 | the leftmost fit of a chunk after a star: a match from there is a match, and if the chunk is the last or the name has no character wider than two bytes there is no match unless there is one from there |
| GlobMatch.LastStarIsExact | pkg/glob/match.go:57-72 | a star before the last chunk: the verdict of the backtracking meaning on every name |
| GlobMatch.GreedyIsRight | pkg/glob/match.go:40-83 | for every well-formed pattern and every name: no error, no accept that the backtracking meaning refuses, and no refusal of what it accepts if the name has no character wider than two bytes |
| GlobMatch.OnlyWellFormedMatch | pkg/glob/match.go:40-83 | a pattern that is not well formed matches no name, and an error is reported only for such a pattern |
| GlobMatch.AcceptsOnlyDenoted | pkg/glob/match.go:40-83 | whatever the bytes of pattern and name, what is accepted the pattern denotes |
| GlobMatch.MatchIffDenotes | pkg/glob/match.go:40-83 | for every pattern, well formed or not, and every name without characters of three or four bytes: matched if and only if the pattern denotes the name |
| GlobRunes.ExactOnNarrowNames | pkg/glob/match.go:40-83 | with stars that skip bytes: the matcher agrees with the meaning of every pattern on a name if and only if no position of the name begins a character of three or four bytes |
| GlobRunes.WideRuneIsMissed | pkg/glob/match.go:57-72 | for every name that begins with such a character, a pattern that denotes it and is refused |
| GlobRunes.ExactByCharacter | pkg/glob/match.go:16-83 | with stars that skip characters, as documented: the matcher agrees with the meaning of every pattern on a name if and only if every position of the name begins a character of one byte |
| GlobRunes.InsideRuneIsAccepted | pkg/glob/match.go:57-72 | for every name that begins with a character of several bytes, a pattern that does not denote it and is accepted |
| GlobRunes.WideRuneCountsAsTwo | pkg/glob/match.go:57-72 | `*??` accepts every single character of three or four bytes |
| GlobLoops.ScanChunkLoop | pkg/glob/match.go:87-110 | the loops that strip stars and find the end of a chunk return the pieces the specification names |
| GlobLoops.MatchChunkLoop | pkg/glob/match.go:118-182 | the loop that consumes chunk and name computes the recursive chunk match |
| GlobLoops.SkipLoop | pkg/glob/match.go:57-72 | the loop that tries later positions finds the first that fits, or reports the error it met |
| GlobLoops.Match | pkg/glob/match.go:40-83 | the whole loop: error and verdict of the specification, and on names without characters of three or four bytes exactly the denoted ones |
| GlobLoops.ParseLoop | pkg/glob/glob.go:27-91 | the loops of Parse return the limits and flag of the specification |
| GlobRange.AscendingRangeExact | pkg/glob/glob.go:50-91 | an ascending scan visits an id if and only if the pattern is empty or starts with a star, or has a literal prefix of which the id is an extension (only the prefix itself if that ends in 0xFF) |
| GlobRange.DescendingRangeExact | pkg/glob/glob.go:50-91 | a descending scan visits an id if and only if the pattern is empty or starts with a star, or has a literal prefix and the id extends it (is it, if that ends in 0xFF), is its successor, or lies between its predecessor and it |
| GlobRange.MatchHasPrefix | pkg/glob/glob.go:37-49 | every name a pattern matches begins with its literal prefix, if that holds no backslash |
| GlobRange.SafeRangeKeepsMatches | pkg/glob/glob.go:27-91 | a full scan, or a literal prefix without backslash that does not end in 0xFF unless it is the whole pattern: every matching id lies in the range, ascending and descending |
| GlobRange.LeadingWildcardScansNothing | pkg/glob/glob.go:50-54 | a pattern that begins with `?` or `[` gets a range that holds no id |
| GlobRange.FlagIff | pkg/glob/glob.go:27-91 | of a well-formed pattern the flag says whether it holds a wildcard, except that it misses a `?` or `[` at the front |
| GlobEscape.EscapedPrefixLosesMatches | pkg/glob/glob.go:37-91 | with a backslash in the literal prefix an ascending scan visits nothing of what the pattern accepts, unless the first backslashes are escaped ones throughout and a wildcard follows; a descending scan visits exactly the ids that go on behind a single escaped `[` |
| GlobEscape.EscapedSlashesNeedMore | pkg/glob/glob.go:37-91 | in that remaining case an accepted id is visited if and only if it has as many backslashes as the pattern, escapes counted |
| GlobEscape.AfterSlashes | pkg/glob/match.go:118-182 | an accepted id has half as many backslashes as the pattern, and then the byte that follows them, if that is not a wildcard |
| GlobEscape.LosesNothingIff | pkg/glob/glob.go:27-91 | but for patterns that begin with plain bytes, escaped backslashes and a wildcard, an ascending scan finds every accepted id if and only if the pattern is safe or accepts no id |
| GlobRange.LiteralMatchesItself | pkg/glob/glob.go:37-49 | a pattern without wildcards and escapes accepts no id but itself |
| GlobRange.RangeScanEqualsFullScan | pkg/controller/scan.go:63-85 | range scan plus filter is full scan plus filter: the same ids in the same order |
| GlobRange.PdelRemovesExactlyMatches | pkg/controller/crud.go:352-397 | for every pattern, PDEL removes an id without characters of three or four bytes if and only if the pattern denotes it and the literal prefix lets the scan reach it; with a safe pattern, if and only if the pattern denotes it |
| Scanner.ScanWriter.GlobMatch | pkg/controller/scanner.go:298-318 | accepts everything, one literal id or what the matcher accepts, and says to stop only after the one literal id |
| Scanner.ScanWriter.WriteObject | pkg/controller/scanner.go:321-478 | what has been written is always the page of the accepted ids from the cursor, at most the limit; when only counting, nothing is written and the scan goes on until the count is past the cursor and at the limit |
| Scanner.ScanWriter.WriteFoot | pkg/controller/scanner.go:162-190 | the next cursor is cursor plus limit if the page is full, else zero |
| Scanner.Scan | pkg/controller/scan.go:63-85 | one call returns exactly one page of the list of all matches, ids ascending or descending as asked, although it stops early and scans a range |
| Scanner.ScanCount | pkg/controller/scan.go:54-86 | a count of everything is the size less the cursor; any other is the number of matches, cut off where it is past the cursor and at the limit |
| Scanner.ShortcutAgreesIff | pkg/controller/scan.go:55-61 | where everything matches, the two ways of counting agree if and only if there is no object, or no cursor and the limit is not passed, or the limit cuts off just the cursor's share; without a limit, if and only if there is no object or no cursor |
| Scanner.FollowCursors | pkg/controller/scanner.go:162-168 | following the cursors from zero until zero comes back ends, and collects every match once, ids ascending or descending as asked, for any limit |
| Scanner.MatchingMeans | pkg/controller/scan.go:63-85 | with a safe pattern the matches are exactly the filtered ids the pattern denotes, or the one id a literal pattern names |
| Scanner.MatchingInOrder | pkg/collection/collection.go:287-322 | whatever the pattern and the filter, the matches of an ascending scan have strictly ascending ids, those of a descending one strictly descending ids |
| Scanner.IsGlobIff | pkg/glob/glob.go:16-25 | a well-formed pattern counts as a glob if and only if it holds a wildcard byte |
| Dataset.ExecIsPointwise | pkg/controller/crud.go:291-867 | every write command acts on each object by itself: what becomes of (key, id) depends on nothing else |
| Dataset.ExecKeepsWf | pkg/controller/crud.go:291-867 | no command leaves an empty collection or a stored zero field, so a dataset is determined by its lookups |
| Dataset.NotUpdatedUnchanged | pkg/controller/crud.go:712-867 | a command that reports `updated` false left the dataset unchanged |
| Dataset.PutAllReads | pkg/collection/collection.go:237-271 | a field reads as its last write, or as before if it was not written |
| Dataset.NoChangesKeepsFields | pkg/controller/crud.go:843-852 | an FSET that counts no change changed no field |
| Dataset.ChangesIff | pkg/controller/crud.go:843-852 | FSET counts no change if and only if every write finds the value it writes |
| Dataset.LoggedIffUpdates | pkg/controller/controller.go:553-572 | a command is logged if and only if the dataset holds what it needs: nothing for a plain SET and FLUSHDB, an absent object for NX, a present one for XX, an object with a field to change for FSET, the object for DEL, a hit for PDEL, the key for DROP |
| Dataset.ErrorLaw | pkg/controller/crud.go:712-867 | which error a command gives, each if and only if: a missing key only for FSET; a missing id for FSET without XX, and for SET XX in JSON; an id that is there for SET NX in JSON; a bad argument for FSET whose key, and whose object unless it says XX, is there |
| Dataset.NeverFails | pkg/controller/crud.go:291-475 | DEL, PDEL, DROP and FLUSHDB never fail |
| Replay.LoadRuns | pkg/controller/aof.go:73-100 | loading a log whose commands have no fatal error never stops early and yields the run of all its commands; skipped errors change nothing |
| Replay.LoadFailsIff | pkg/controller/aof.go:73-133 | of any log: loading fails if and only if a malformed FSET comes up whose key, and object unless it says XX, the run up to it left there; otherwise it yields the run of all commands |
| Replay.OutputIrrelevant | pkg/controller/crud.go:712-780 | dataset and update flag of a command do not depend on the reply format, so replay does what the client's command did |
| Replay.LoggedIsLegit | pkg/controller/controller.go:553-572 | in a log written by executing commands, a command that needs an object present never meets it absent |
| Replay.AllLoggedIffAllUpdate | pkg/controller/controller.go:553-572 | every command of a list is logged if and only if each meets a dataset that holds what it needs |
| Replay.LoggedRunIsSettled | pkg/controller/aofshrink.go:229-247 | running a logged command list on an object and then running the same list again changes nothing, for SET, NX, XX, FSET, DEL, PDEL, DROP and FLUSHDB in any order |
| Shrink.FieldListRestores | pkg/controller/aofshrink.go:112-118 | the nonzero fields listed as SET arguments restore the fields |
| Shrink.InSyncUnlessLeak | pkg/controller/crud.go:825-867 | after a command log and dataset agree if and only if it was not a malformed FSET that changed a field |
| Shrink.MalformedFsetIsNotLogged | pkg/controller/crud.go:836-850 | such an FSET after any plain SET: the log then loads to a different dataset |
| Shrink.CurrentIsSettled | pkg/controller/aofshrink.go:229-247 | at any moment of a shrink, replaying the shrink log on the current object does not change it |
| Shrink.ClientKeepsInv | pkg/controller/aof.go:135-163 | a write in the middle of a shrink keeps the invariant: each id already passed is in the snapshot as of its own moment, and snapshot plus shrink log restores it |
| Shrink.KeysKeepInv | pkg/controller/aofshrink.go:55-76 | loading a batch of 8 keys keeps the invariant although keys come and go between batches |
| Shrink.IdsKeepInv | pkg/controller/aofshrink.go:78-165 | writing a batch of 32 objects keeps the invariant although objects come and go between batches |
| Shrink.SwapIsInSync | pkg/controller/aofshrink.go:229-289 | at the swap, snapshot followed by shrink log loads to exactly the dataset held then, whatever the old log held |
| Shrink.StepKeepsInv | pkg/controller/aofshrink.go:21-294 | every critical section of writers and shrinker keeps the invariant |
| Shrink.RunKeepsInv | pkg/controller/aofshrink.go:21-294 | so does every interleaving of any length |
| Shrink.LogIsDataset | pkg/controller/aofshrink.go:252-254 | after every run from the start without such an FSET, loading the log gives exactly the dataset |
| Shrink.LogIsDatasetIffNoLeaks | pkg/controller/aofshrink.go:21-294 | log and dataset agree after every step of a run, in every interleaving, if and only if no malformed FSET in it changes a field |
| Shrink.SwapRepairs | pkg/controller/aofshrink.go:229-289 | from a state whose log is out of step in any way, a run without such an FSET that swaps ends with the log in step |
| Shrink.ShrinkRepairs | pkg/controller/aofshrink.go:21-294 | after any history, such FSETs included, a shrink begun and swapped without one leaves a log that loads to the dataset, then and as long as none follows |
| Server.SetFields | pkg/collection/collection.go:237-252 | the loop of writes yields the written fields and counts exactly the changing ones |
| Server.Controller.CmdSet | pkg/controller/crud.go:712-780 | the step-by-step SET with NX and XX computes the outcome the specification names |
| Server.Controller.CmdFset | pkg/controller/crud.go:825-867 | likewise FSET, including the error that does not stop it |
| Server.Controller.CmdDel | pkg/controller/crud.go:291-333 | likewise DEL, dropping a collection that became empty |
| Server.Controller.CmdPdel | pkg/controller/crud.go:335-413 | likewise PDEL: collect the hits of the range, then remove them one by one |
| Server.Controller.HandleInputCommand | pkg/controller/controller.go:553-572 | execute, then log: the step of the state machine |
| Server.Controller.LoadAOF | pkg/controller/aof.go:73-100 | replay of a log, skipping the errors that are not fatal |
| Server.Controller.ShrinkLoadKeys | pkg/controller/aofshrink.go:56-75 | the section that loads keys |
| Server.Controller.ShrinkLoadIds | pkg/controller/aofshrink.go:86-158 | the section that writes objects |
| Server.Controller.ShrinkSwap | pkg/controller/aofshrink.go:229-289 | the section that appends the shrink log and swaps the files |
| Server.Controller.Step | pkg/controller/aofshrink.go:21-294 | each section of the object is the matching step of the state machine |
| Server.Controller.Serve | pkg/controller/aofshrink.go:21-294 | any schedule of writes and sections: the invariant holds and the log loads to the dataset |
| Server.CollectHits | pkg/controller/crud.go:352-374 | the range scan with the matcher collects exactly the ids PDEL is to remove |
| Follower.StreamTracks | pkg/controller/follow.go:116-136 | a follower's dataset is at all times the run of everything received, and its log loads to it |
| Follower.StaysPrefixIffUpdates | pkg/controller/follow.go:116-136 | the follower's log stays the received log if and only if its dataset holds what the next command needs in order to update it |
| Follower.MirrorsIffAllUpdate | pkg/controller/follow.go:218-247 | after any stream, log equal to what was received if and only if every command met a dataset that held what it needs |
| Follower.Stream | pkg/controller/follow.go:209-247 | the streaming loop: the replica it ends with, and the caught-up flag set exactly when the log once reached the leader's size |
| Follower.CaughtUpIffAllUpdate | pkg/controller/follow.go:236-245 | fed a whole leader log, the follower counts as caught up if and only if every command in it meets a dataset that holds what it needs |
| Follower.SwappedLogUpdatesIff | pkg/controller/aofshrink.go:229-289 | after a swap every command of the log updates if and only if those of the shrink log do, on top of the snapshot |
| Follower.LogUpdatesIffLastSwapQuiet | pkg/controller/aofshrink.go:21-294 | in every interleaving, all commands of the leader's log update if and only if there was no swap or the last one was quiet: every command of its shrink log updated the snapshot it followed |
| Follower.FollowerMirrorsIffLastSwapQuiet | pkg/controller/follow.go:116-136 | a fresh follower of any leader ends with its dataset, and with its log if and only if the leader's last swap was quiet; then its log is a copy after every prefix |
| Follower.UndisturbedIsQuiet | pkg/controller/aofshrink.go:229-289 | a leader that never swapped, or into whose last shrink that swapped no write fell, is such a leader |
| Follower.FollowerSkipsAfterShrink | pkg/controller/follow.go:116-136 | a run of a leader with a shrink after which a follower's log is not a prefix of the leader's, though the datasets agree |
| Expire.OnlyLiveKept | pkg/controller/crud.go:291-475 | after every data command only existing objects have a deadline |
| Expire.DeadlineLaw | pkg/controller/crud.go:291-970 | what becomes of a deadline, in terms of the dataset: a SET that takes effect on the object leaves the deadline it brings or none, EXPIRE and PERSIST on an object that is there and not expired set and clear it, an object that is removed loses it, and nothing else changes it |
| Expire.TrackedAfterPurge | pkg/controller/expire.go:128-145 | dropping a purge entry loses no deadline: either the entry's deadline was current and the object is deleted, or another entry tracks the current one |
| Expire.GoneStep | pkg/controller/expire.go:128-145 | purging one more entry keeps the account of what is gone and why |
| Expire.Expirer.ClearIDExpires | pkg/controller/expire.go:48-62 | exactly one deadline goes, and the result says whether there was one |
| Expire.Expirer.ExpireAt | pkg/controller/expire.go:70-76 | exactly one deadline is set, its list entry pending |
| Expire.Expirer.AppendExpire | pkg/controller/expire.go:77-79 | the pending entry joins the list under the list's own lock |
| Expire.Expirer.HandleRequest | pkg/controller/crud.go:712-970 | the deadlines after SET (with or without EX), FSET, DEL, PDEL, DROP, FLUSHDB, EXPIRE and PERSIST, object by object, with the invariant kept |
| Expire.Expirer.CollectExpired | pkg/controller/expire.go:112-125 | at most 20 random looks; swap-removal loses and duplicates nothing; only entries whose time has passed are taken, and each look takes one if they all have |
| Expire.Expirer.PurgeExpired | pkg/controller/expire.go:126-145 | an object is deleted only if its current deadline has passed, every listed object whose deadline had passed is deleted, one whose deadline is still to come is as before, nothing else changes, and the server took the deletions as logged steps of its own |
| Expire.Expirer.Serve | pkg/controller/expire.go:106-150 | in every interleaving of requests, list appends, collecting, purging and shrinking, malformed FSETs included, each deadline belongs to an existing object and has its entry on a list; the server did a run of its steps, after which, if no malformed FSET changed a field, the log loads to the dataset |
| Rtree.UnionWithout | pkg/index/rtree/base.go:359-398 | the union of boxes does not depend on the order in which they are joined |
| Rtree.SamePermutation | pkg/index/rtree/base.go:432-453 | permuted children have the same union box and the same stored items |
| Rtree.StoredInsideBox | pkg/index/rtree/base.go:226-258 | in a well-formed tree everything stored below a node lies inside its box |
| Rtree.ContainsIff | pkg/index/rtree/base.go:166-173 | one box contains another if and only if it has all its points |
| Rtree.IntersectsIff | pkg/index/rtree/base.go:148-155 | two boxes intersect if and only if they share a point |
| RtreeMeasures.AreaCut | pkg/index/rtree/base.go:59-65 | cutting a box along either axis shares out its area, and the unit square has area one |
| RtreeMeasures.EnlargementIsLeast | pkg/index/rtree/base.go:67-88 | the enlargement is the least area by which any box around both exceeds the child, and some box attains it |
| RtreeMeasures.IntersectionAreaIs | pkg/index/rtree/base.go:90-112 | the overlap is the area of the box of shared points, and zero if no point is shared |
| RtreeMeasures.MarginIsFarthest | pkg/index/rtree/base.go:114-120 | the margin is the largest sum of differences along the axes between two points of the box |
| RtreeSort.Partition | pkg/index/rtree/base.go:436-453 | one partition step on the array: smaller keys left, the others right, only the range permuted |
| RtreeSort.Sort | pkg/index/rtree/base.go:436-453 | the in-place quicksort sorts the range by key and only permutes it |
| RtreeInsert.ChooseChild | pkg/index/rtree/base.go:272-293 | a child with the least enlargement of all, and which of several: the last one the comparison of areas moved to |
| RtreeTies.TieBreakIff | pkg/index/rtree/base.go:325-357 | the choice is always among the cheapest, and is a smallest of them if and only if the first of them is, or every candidate that was no dearer than all before it and came earlier is larger than some of them |
| RtreeInsert.TieGoesToLarger | pkg/index/rtree/base.go:270-288 | of two children that grow alike the larger one is taken |
| RtreeInsert.AllDistMargin | pkg/index/rtree/base.go:400-430 | sorts along the axis without losing a child and returns the closed form of the margin sum, in which the right box is never widened |
| RtreeInsert.MarginSumIff | pkg/index/rtree/base.go:400-430 | that sum is at most the margins of both sides of all distributions, and equal to it if and only if all right sides have the margin of the smallest one |
| RtreeInsert.ChooseSplitAxis | pkg/index/rtree/base.go:362-374 | leaves the children, none lost, sorted along the axis with the smaller margin sum |
| RtreeInsert.ChooseSplitIndex | pkg/index/rtree/base.go:325-357 | a cut with 6 to 8 children on each side and the least overlap of all such cuts, and which of several |
| RtreeInsert.Split | pkg/index/rtree/base.go:298-323 | an overflowing node of 14 children becomes two well-formed nodes of 6 to 8, whose items and box together are the node's; the children were sorted along the axis of smaller margin sum and cut where the overlap is least |
| RtreeInsert.ChooseSubtree | pkg/index/rtree/base.go:261-296 | the path leads from the root to a leaf, and every child on it needs the least enlargement of its siblings |
| RtreeInsert.Insert | pkg/index/rtree/base.go:218-258 | inserting keeps the whole shape (heights, at most 13 children, no empty inner node, boxes the exact unions), adds exactly one entry, and grows by at most one level |
| RtreeRemove.Walk | pkg/index/rtree/base.go:495-552 | the explicit-stack walk terminates, finds an entry with the item if the wanted one is stored, and misses nothing |
| RtreeRemove.Condense | pkg/index/rtree/base.go:554-580 | dropping emptied nodes and refitting boxes upward restores the shape and loses only the entry |
| RtreeRemove.Remove | pkg/index/rtree/base.go:490-580 | the tree keeps its shape and loses the one entry that was found; if none was found it is unchanged |
| RtreeRemove.RemoveIsExact | pkg/index/rtree/base.go:490-552 | if items are distinct, the entry with the given rectangle is the one that goes |
| RtreeSearch.ScanNode | pkg/index/rtree/base.go:619-636 | scans a subtree up to the stop, in order |
| RtreeSearch.SearchNode | pkg/index/rtree/base.go:463-487 | pruning and unchecked scanning visit exactly the intersecting entries, in order, up to the stop |
| RtreeSearch.Search | pkg/index/rtree/base.go:455-461 | so does the search from the root, which may lie wholly outside |
| RtreeSearch.SearchVisitsExactly | pkg/index/rtree/base.go:455-487 | unless stopped, each stored entry that intersects the query is visited as often as it is stored, and no other |
| Knn.DistMonotone | pkg/index/rtree/knn.go:62-101 | the distance to a node never exceeds the distance to anything inside its box, for points and rectangles |
| Knn.DistIsDistance | pkg/index/rtree/knn.go:62-101 | the computed number is the square of the distance: no point of the one box is nearer to a point of the other, and some two points are just so far apart; for a rectangle and for a point as query |
| Knn.DistanceIsOne | pkg/index/rtree/knn.go:62-101 | two boxes have one such distance, and it is zero if and only if they share a point |
| Knn.Nearest | pkg/index/rtree/knn.go:21-60 | items come in nondecreasing distance, each exactly once, with the square of its distance over all points of query and item; all that is left when stopped is at least as far; it stops at the first item the callback stops at and nowhere else; the queue loop terminates |
| RtreeIndex.BoxIsUnionOfStored | pkg/index/rtree/base.go:359-361 | the box of a well-formed node is exactly the union of the rectangles stored below it |
| RtreeIndex.ChildCount | pkg/index/rtree/base.go:175-189 | counts the stored entries |
| RtreeIndex.RTree.Insert | pkg/index/rtree/base.go:218-224 | the object stays valid and holds one entry more |
| RtreeIndex.RTree.Remove | pkg/index/rtree/base.go:490-493 | the object stays valid; of distinct items exactly the given one goes; an absent item changes nothing |
| RtreeIndex.RTree.Search | pkg/index/rtree/base.go:455-461 | the entries that meet the query, in scan order, up to the stop |
| RtreeIndex.RTree.KNN | pkg/index/rtree/knn.go:21-60 | all entries in order of their distance over all points, up to the first the callback stops at |
| RtreeIndex.RTree.Count | pkg/index/rtree/base.go:583-585 | the number of stored entries |
| RtreeIndex.RTree.Bounds | pkg/index/rtree/base.go:639-646 | the union of everything stored, or the zero box of an empty tree |
| Collection.SumUpdate | pkg/collection/collection.go:124-189 | what one change at one id does to a sum over all ids |
| Collection.WriteSlot | pkg/collection/collection.go:254-271 | padding the list and writing slot i writes exactly the field with number i, and the slot held its old value |
| Collection.AddName | pkg/collection/collection.go:255-259 | a new name gets the next number; the numbering stays a bijection and no stored list changes its meaning |
| Indexes.ReplaceAgreement | pkg/collection/collection.go:130-163 | after a replacement spatial index, value tree and object counters are exact if and only if the id was new or the kind was kept |
| Indexes.ReplaceIndex | pkg/collection/collection.go:130-163 | a replacement leaves an exact spatial index exact if and only if it does not put a string in place of a geometry |
| Indexes.ReplaceValues | pkg/collection/collection.go:130-163 | how a replacement changes which places of the value tree are taken by what is not there any more |
| Indexes.RemoveAgreement | pkg/collection/collection.go:191-203 | after a removal they are exact |
| Indexes.ExactIndexSize | pkg/collection/collection.go:130-163 | an exact spatial index holds as many entries as there are geometries |
| Indexes.NoWayBack | pkg/collection/collection.go:130-163 | after a run from an exact spatial index it is exact if and only if no geometry was lost: an entry left behind is never taken out |
| Indexes.LeftIff | pkg/collection/collection.go:124-203 | a place in the value tree is left taken by a run if and only if some string in it was replaced by a geometry and afterwards no string was stored there or in place of an object of that text |
| Indexes.ExactIfNothingStale | pkg/collection/collection.go:130-163 | the value tree is exact if and only if no place is left taken |
| Indexes.NoneIffNowhere | pkg/collection/collection.go:124-203 | a run loses, or gains, no geometry if and only if none of its operations does |
| Indexes.AppliedIsExec | pkg/collection/collection.go:124-271 | the operations of a collection do to its contents what the commands SET, FSET and DEL do to the dataset |
| Collection.ArgsRestore | pkg/controller/aofshrink.go:112-118 | the field arguments written for an object restore its fields |
| Collection.FieldArr | pkg/collection/collection.go:278-284 | position i holds the name with number i; the numbering has no gaps |
| Collection.Collection.SetField | pkg/collection/collection.go:254-271 | writes one field of one object, reports whether it changed, and keeps counters and numbering |
| Collection.Collection.SetFields | pkg/collection/collection.go:237-252 | all writes in order, with the count of the changing ones; a missing id changes nothing |
| Collection.Collection.Relink | pkg/collection/collection.go:130-163 | stores the object and moves its index entry, which is exact if and only if the kind is kept |
| Collection.Collection.Delist | pkg/collection/collection.go:191-203 | takes the object out of the store and out of the index it is in, which stays exact |
| Collection.Collection.ReplaceOrInsert | pkg/collection/collection.go:124-189 | the id holds the new object with its old fields and the given writes; everything else is as before; counters are the size and the sums over live ids |
| Collection.Collection.Remove | pkg/collection/collection.go:191-211 | exactly the id goes, with its fields, its index entry and its share of the counters |
| Collection.Collection.Count | pkg/collection/collection.go:96-98 | the number of live ids |
| Collection.Collection.PointCount | pkg/collection/collection.go:106-108 | the sum of the live objects' position counts |
| Collection.Collection.TotalWeight | pkg/collection/collection.go:111-113 | the sum of the live objects' weights, plus the length of their ids, plus eight for each slot of their field lists |
| Collection.Collection.GeoSearch | pkg/collection/collection.go:377-385 | with an exact spatial index, whatever the value tree and the counters hold: unless stopped, every live geometry whose rectangle meets the box is visited once, and nothing else; it stops at the first one the callback stops at |
| Collection.Collection.FieldArgs | pkg/controller/aofshrink.go:94-118 | the SET arguments of an object restore exactly its fields |
| Collection.Collection.Run | pkg/collection/collection.go:124-271 | after every run of the mutators the counters and numbering are right and the contents are those of the run on a plain map; an exact spatial index is exact again if and only if no geometry was replaced by a string, an exact value tree if and only if no place is left taken; the counter of geometries is off by those gained less those lost; all agree again if and only if no replacement changed a kind |
| Fence.LiveFence.Detects | pkg/controller/fence.go:97-137 | the event of a change, inside and outside included, with the borrowed search command put back |
| Fence.LiveFence.Filter | pkg/controller/fence.go:144-157 | the loop over the detect list reports a wanted event, a weaker one, or nothing |
| Fence.LiveFence.Group | pkg/controller/fence.go:189-207 | which group id a report gets and what the table holds after it |
| Fence.LiveFence.FenceMatch | pkg/controller/fence.go:97-225 | reports and group table of one change |
| Fence.LiveFence.Watch | pkg/controller/fence.go:97-225 | reports of a whole run, as the specification gives them |
| Fence.StepCrosses | pkg/controller/fence.go:99-112 | one event reports an enter or an exit exactly when the object changes sides, except a deletion or a replacement by a string, which report neither |
| Fence.StepReports | pkg/controller/fence.go:61-225 | what an unfiltered fence reports of a change, by the side the object was on and the side it is on: enter and inside, exit and outside, inside alone, crossing and outside, outside alone; of an FSET the side it is on; of anything else nothing |
| Fence.DetectListSelects | pkg/controller/fence.go:144-222 | with a detect list, the wanted ones of the reports of an unfiltered fence in their order, except that an unwanted crossing takes its outside report with it |
| Fence.DeletionReported | pkg/controller/fence.go:72-83 | a deletion is reported if and only if a geometry was there to delete |
| Fence.LastReportIsSide | pkg/controller/fence.go:61-225 | in every run of an unfiltered fence, deletions and strings included, the last report of a geometry that is there names the side it is on |
| Fence.ReportsNameEvent | pkg/controller/fence.go:189-225 | every report names the object and the command of its event |
| Fence.OneGroup | pkg/controller/fence.go:189-225 | the two reports of one event carry the same group |
| Fence.LeadStep | pkg/controller/fence.go:81-137 | one more event: a reported change of sides continues the series, a silent one breaks it exactly if the object was inside, and nothing later mends it |
| Fence.CrossingsAlternateIff | pkg/controller/fence.go:77-137 | in every run of an unfiltered fence, enters and exits of an object strictly alternate, start from the side it was on and end on the side it is on, if and only if it was outside whenever it was deleted or replaced by a string |
| Fence.LeadAlternates | pkg/controller/fence.go:97-137 | neighbouring enters and exits differ, and the first leaves the side the object started on |
| Fence.DeleteBreaksAlternation | pkg/controller/fence.go:81-83 | with a delete in between, two enters in a row |
| Fence.GroupsCarry | pkg/controller/fence.go:189-225 | in every run, deletes included, the group of each report: that of the last report of the object if no crossing came since, else a new one, as for an enter or a crossing; and the group table is what the reports say |
| Fence.SameGroupSinceEnter | pkg/controller/fence.go:189-225 | the same by position: from an enter to the next enter or crossing all reports of the object carry its group |
| LegacyReader.FrontOfFrame | pkg/controller/aofmigrate.go:30-43 | a frame followed by anything reads as its command |
| LegacyReader.Uint32Is | pkg/controller/aofmigrate.go:30-43 | a length is read with the least byte first |
| LittleEndian.ByteAt | pkg/geojson/feature.go:113-133 | byte i of a written length has weight 256^i |
| LegacyReader.WholeIsFrame | pkg/controller/aofmigrate.go:30-43 | only a frame reads as a command |
| LegacyReader.TruncatedFrameIsPartial | pkg/controller/aofmigrate.go:30-43 | no proper prefix of a frame is taken for a command or for corruption |
| LegacyReader.OneReading | pkg/controller/aofmigrate.go:29-78 | a stream has one reading as commands and an unreadable rest |
| LegacyReader.TruncatedStream | pkg/controller/aofmigrate.go:29-78 | a stream of frames cut anywhere is the frames before the cut and a partial rest |
| LegacyReader.Reader.TakeFrame | pkg/controller/aofmigrate.go:30-43 | takes one record off the buffer, or reports corruption and keeps it, or leaves it |
| LegacyReader.Reader.Compact | pkg/controller/aofmigrate.go:55-59 | moving data to the front loses none |
| LegacyReader.Reader.Add | pkg/controller/aofmigrate.go:62-75 | the bytes read follow those buffered, grown buffer or not |
| LegacyReader.Reader.ReadCommand | pkg/controller/aofmigrate.go:29-78 | the result and what stays pending depend only on the bytes up to the next error, not on how reads cut them; end of file can be retried, other errors stay |
| LegacyReader.Reader.ReadAll | pkg/controller/aofmigrate.go:29-78 | reading to the first failure returns exactly the frames at the front of the stream, and the error that belongs to the rest |
| LegacyReader.Reader.ReadFrames | pkg/controller/aofmigrate.go:29-78 | a stream of frames cut at any byte and delivered in any pieces yields the commands that fit, then EOF, or unexpected EOF if part of a frame is left |
| Checksum.CheckSome | pkg/controller/checksum.go:146-187 | terminates; the block before the result was the same and one less than a block after it differs or the log ends; if differing logs stay apart, pos <= L < pos + 2 blocks; 2^(checks-3) * (2 blocks - 1) < log size |
| Checksum.InsidePrefixIsSame | pkg/controller/checksum.go:76-92 | every block inside the common prefix matches |
| Geohash.Encode | pkg/geojson/geohash/geohash.go:15-63 | the loop yields the hash of the bisection path, fails only for a precision below one |
| Geohash.Bounds | pkg/geojson/geohash/geohash.go:75-115 | the cell the bits name, or an error exactly when a character of the lower-cased hash is outside the alphabet; the Kelvin sign lower-cases to k |
| Geohash.Decode | pkg/geojson/geohash/geohash.go:66-72 | the centre of that cell |
| Geohash.Base32Inverse | pkg/geojson/geohash/geohash.go:117-256 | the two character tables are inverse |
| Geohash.AlphabetIs | pkg/geojson/geohash/geohash.go:117-256 | the characters are the digits and the letters but a, i, l and o, in order |
| Geohash.CellCorner | pkg/geojson/geohash/geohash.go:75-115 | the even bits of a hash, read as a binary fraction, say how far east its cell begins, the odd ones how far north |
| Geohash.HashContains | pkg/geojson/geohash/geohash.go:15-63 | the cell of a point's hash holds the point if and only if the point is on the globe, at every length |
| Geohash.OwnerIsHash | pkg/geojson/geohash/geohash.go:15-115 | any point, on the globe or off it, has a given hash if and only if the cell holds it, without its south and west edges and with all that lies beyond an edge it shares with the globe |
| Geohash.BoundsContain | pkg/geojson/geohash/geohash.go:15-115 | Bounds of Encode of a point holds the point if and only if it is on the globe |
| Geohash.CellSize | pkg/geojson/geohash/geohash.go:75-115 | n bits leave a cell of 180/2^floor(n/2) by 360/2^ceil(n/2) degrees |
| Geohash.EncodeDecode | pkg/geojson/geohash/geohash.go:15-115 | decoding a point's hash is off by at most half a cell |
| Geohash.DecodeEncode | pkg/geojson/geohash/geohash.go:15-115 | encoding a decoded hash gives the hash back, in lower case |
| Geohash.HashPrefix | pkg/geojson/geohash/geohash.go:15-63 | shorter hashes of a point are prefixes of longer ones |
| Quadkey.Part | pkg/bing/ext.go:16-27 | the quarter is the bit of x plus twice the bit of y, and 0 past bit 63 |
| Quadkey.TileXYToQuadKey | pkg/bing/bing.go:120-137 | digit j is the tile's part at level L - j, and the key spells the low 64 bits of the coordinates modulo 2^L, negative ones included |
| Quadkey.QuadKeyToTileXY | pkg/bing/bing.go:144-162 | the signed 64-bit words that hold the coordinates the key spells, a panic for any other string |
| Quadkey.KeyIsUnique | pkg/bing/bing.go:120-162 | keys of one level that spell the same tile are equal |
| Quadkey.TileRoundTrip | pkg/bing/bing.go:120-162 | tile to key to tile: below level 64 reduction modulo 2^L, which is the identity for 0 <= x, y < 2^L; from level 64 on the identity for all words |
| Quadkey.KeyRoundTrip | pkg/bing/bing.go:120-162 | key to tile to key is the identity if and only if every digit above the last 64 is 0 |
| Quadkey.ContainingTile | pkg/bing/bing.go:120-162 | a prefix of a key is the key of the containing tile |
| Feature.StripWhitespace | pkg/geojson/object.go:403-441 | the loop removes exactly the white space outside string literals, escapes observed |
| Feature.StripIsTight | pkg/geojson/object.go:403-441 | the result holds no such white space; text without any is unchanged, and only such text |
| Feature.LiteralIsKept | pkg/geojson/object.go:403-441 | a string literal is kept byte for byte, escaped quotes and white space included, and stripping goes on after it |
| Feature.OutsideByte | pkg/geojson/object.go:403-441 | outside literals a byte goes if and only if it is a space or below |
| Feature.StripTwice | pkg/geojson/object.go:403-441 | stripping twice is stripping once |
| Feature.MakeCompositeRaw | pkg/geojson/feature.go:113-133 | the buffer filled piece by piece is the packed form, short or long |
| Feature.UnpackPacked | pkg/geojson/feature.go:99-133 | getRaw gives back both parts, whatever their lengths |
| Feature.PackedSize | pkg/geojson/feature.go:113-133 | nothing for nothing, else one byte more than the parts for ids up to 254 bytes and nine more for longer ones |
| Feature.RoundTrip | pkg/geojson/feature.go:99-133 | getRaw undoes makeCompositeRaw up to white space outside strings |
| Feature.PackedAlike | pkg/geojson/feature.go:99-133 | two pairs pack alike if and only if they differ only in such white space |

## Left out

- RtreeInsert.Insert: nodes are values, so pointers between nodes, the fixed child arrays and updates in place are not captured; only the quicksort works on an array.
- RtreeRemove.Remove: the same, and the node pool and the reuse of path slices.
- Scanner.Scan: the text of the reply and the evaluation of WHERE clauses are not modelled; a filter on records is a parameter, and counters and cursors do not wrap at 64 bits.
- Checksum.CheckSome: connection errors and the truncation of the log after the search are not modelled; equal checksums are taken to mean equal blocks.
- LegacyReader.Reader.ReadCommand: the returned command is a copy, so that the source's slice is overwritten by the next call is not captured.
- Expire.Expirer.HandleRequest: EXPIRE, PERSIST and the EX argument are not written to the modelled log, whose deadlines are relative to load time; one clock reading serves a whole request.
- Shrink.FieldListRestores: fields are listed by name rather than by number, which Collection.ArgsRestore shows to make no difference; EX arguments are not written.
- Fence.LiveFence.FenceMatch: roaming fences, DROP reports, the accept list, glob and WHERE filters of a fence and the text of the messages are not modelled; geometry tests are parameters, and new group ids come from a counter that stands for the source of unique ids.
- Collection.Collection.ReplaceOrInsert: values passed without field names, which no caller in the repository does, and the returned old fields, which alias the new ones, are not modelled.
- Arguments are parsed already; only the FSET argument list that breaks off in an error is kept apart.
- Out-of-memory refusals, JSET and JDEL, hooks in the log, crash windows and file renames.
- GeoJSON parsing and printing, polygon and circle geometry, distances on the sphere, tile latitude and longitude.
- Bulk loading of the R-tree, sparse searches and paging of nearest neighbours.
- The B-tree, the priority queue and the RESP reader are used by contract: ordered enumeration, least element first, whole commands.
- Servers, connections, scripts, statistics, configuration.
