# A model of Skifity's algorithms and protocols

Skifity is a self-hosted panel for running apps on a small Kubernetes cluster. This project models the parts of it whose
correctness cannot be read off one function: the cron engine, the ignore rules and the folder packer, the sign-in state
machine, master-key rotation, the log stream, and the orchestration protocols around restores, hostnames and the image
registry. `dafny verify dfyconfig.toml` checks all of it.

Code that works by changing state is a class or a method with loops, proved against a specification function; the main
results are lemmas about that function, over all inputs, all runs or all choices of failing calls.

| part | files | main results |
|---|---|---|
| text and writes | `Text`, `Lines`, `Writes` | Go's splitting, joining, trimming, number reading and line scanning; what can become of a write |
| cron | `Calendar`, `CronSchedule`, `CronNextRun`, `CronCanonical`, `CronMeaning`, `Scheduler` | a field is the union of its parts; the next run is the least match and gives up exactly when stated; the canonical form means the same; each minute is evaluated once |
| packing | `Regexp`, `Glob`, `GlobMeaning`, `IgnoreRules`, `PackWalk`, `PackSpec`, `PackArchive` | a glob and its regular expression agree; the walk keeps exactly the files a per-path definition sends; the archive is a function of the set of kept files |
| sign-in | `Lockout`, `SecondFactor`, `Sessions`, `Scopes` | the failure limit over all interleavings; single use of codes over all runs; the session ceiling over all overlapping requests, and exactly when a session can still return; scopes by path segment |
| rotation | `KeyRotation` | every state a crash can leave opens every secret that opened in memory; over a whole life of rotations, new secrets, crashes and restarts, exactly which secrets open from disk |
| streaming | `LogPipe`, `EventStream` | every log line that is written arrives, in order and unchanged; a cut delivers a prefix; which lines are written, in whatever order the handler wakes |
| orchestration | `VolumeRestore`, `AutoDomain`, `RegistrySweep` | safety under any failing call; stable and unshared hostnames; what a prune loses; builds and sweeps exclude each other, and what a restart does to that |

## Conventions

- A string is a sequence of Unicode scalar values. Time is whole minutes, whole nanoseconds or whole seconds, as the code
  reads it; the clock, random keys, the file system, the database, the cluster and the registry are parameters or explicit
  state. A call that can fail takes its outcome from a parameter, so a lemma over all parameters covers every failure.
- 64-bit arithmetic is written out where it can wrap: the steps of a cron range, and the time step of a one-time code.
- Encryption, hashes and MACs are uninterpreted or ideal.
- `method_` and `class_` end in an underscore because Dafny reserves the plain words.

## Where the code and what is said of it differ

The model follows the code. Each entry names the lemma that shows the difference, and the one that says exactly when the
promise does hold where that can be said.

- NextRun's comment says that five years cover the longest gap. From the end of 29 February 2096 they do not
  (`CronNextRun.EightYearGap`); `CronNextRun.HorizonExactly` says when they do.
- A cron step near 2^63 wraps, and the field then holds negative values and values nobody wrote
  (`CronSchedule.RangeMeansStepped`, `CronSchedule.FieldMeansUnion`). An expression whose weekday field wraps is accepted
  and its canonical form is refused (`CronCanonical.SundayStepWraps`, `CronCanonical.CanonicalMeansTheSame`).
- `a/1` in a cron field is the value `a` alone, while `a/2` runs to the end of the field (`CronSchedule.Denotes`).
- Two ticks of the scheduler in one minute evaluate that minute twice, and more than five silent minutes lose some
  (`Scheduler.EveryMinuteOnce`).
- Login attempts are compared by the text of their times, and a time inside a second reads as earlier than the start of
  that second. The limit therefore holds over stretches a second shorter than the configured window and over no longer
  ones (`Lockout.SpanIsExact`). An empty account is not counted: its failures are limited by their addresses alone
  (`Lockout.UnnamedIsUnlimited`). An empty address is not counted either, but no route of the panel passes one.
- A first save of the keyring that fails leaves the memory of the panel ahead of its disk. What is sealed then opens from
  disk if and only if the disk has the very key that is active in memory (`KeyRotation.SealedOpensFromDisk`), and is lost
  if and only if the panel stops before a save lands (`KeyRotation.FateOfSecret`, of the account that `KeyRotation.Live`
  proves right). An id that the disk knows is no assurance: ids are chosen by
  what is in memory, and one that the disk still has can be given to another key (`KeyRotation.ReusedID`).
- An app that holds its preferred name as a domain of its own, and has no automatic row, gets no automatic address, although
  its suffixed name is free (`AutoDomain.OwnDomainBlocks`); `AutoDomain.FirstName` says exactly when. After a change of
  configuration such an app keeps the address of the old one (`AutoDomain.StaleAddressStays`, `AutoDomain.MoveName`).
- A volume restore whose first scale request reports an error does not ask for the original count again, so its last
  request is zero (`VolumeRestore.LastRequestRestores`).
- Pruning deletes by digest, so a kept tag that shares its manifest with a pruned one is lost
  (`RegistrySweep.RebuildIsLost`); `RegistrySweep.KeptTagsSurvive` says exactly when every kept tag survives.
- A sweep that stops waiting for its collector lets builds run beside it (`RegistrySweep.GivingUpLetsBuildsIn`), and after
  a restart of the panel a sweep does not wait for the builds from before it (`RegistrySweep.RestartLetsSweepsIn`).
- An error that ends a log can overtake lines that wait to be written, and can be overtaken by the end of the log
  (`LogPipe.ErrorOvertakesLines`, `LogPipe.EndOvertakesError`); `LogPipe.EverythingArrives` says exactly when nothing is
  lost.
- A session whose time to live is above 30 days is shortened by its first refresh (`Sessions.LongTimeToLiveIsCut`).
- A scope list of commas and white space alone is accepted, and the token it makes may do nothing
  (`Scopes.CommasReachNothing`); no other accepted list does that (`Scopes.IdleExactly`).
- The session of a disabled user is turned away and deleted, and the result of the delete is not looked at: when it fails,
  the session works again once the user is enabled (`Sessions.SparedComesBack`). A slow refresh can bring an expired session
  back too; `Sessions.RefusedForGood` says exactly when a session can return.
- Of two requests of a session that overlap, the one that read the clock first may write last and bring the expiry forward
  (`Sessions.OverlapShortens`, `Sessions.WriteShortensExactly`).
- In the first thirty seconds of 1970 the time step before the current one wraps to the largest there is
  (`SecondFactor.WithinOneStep`); it never gets past, because the database refuses it (`SecondFactor.PassesAreNear`).
- A pattern without a slash does not reach a base name below a directory that has a newline in its name
  (`IgnoreRules.NameGlobDecidesOnBase`).
- A glob with an empty bracket class becomes an expression that means something else (`IgnoreRules.EmptyClassSwallows`).

## Model

| member | source | states |
|---|---|---|
| `Calendar.DateRoundTrip` | internal/cron/cron.go:262-263 | every day number, before or after year 1, reads as a valid date that numbers back to it (the UTC calendar AddDate and Matches rest on) |
| `Calendar.DayNumberRoundTrip` | internal/cron/cron.go:262-263 | every valid date is read back from its day number |
| `CronSchedule.RangeOf` | internal/cron/cron.go:160-166 | the loop terminates for every 64-bit start and step, wrapping included, and collects what the recursive range gives |
| `CronSchedule.RangeMeansStepped` | internal/cron/cron.go:160-166 | the values are exactly low, low+step, ... up to high if and only if low+step stays in 64 bits |
| `CronSchedule.ExpandPart` | internal/cron/cron.go:119-152 | a star, a span or a start with a step gives the values of its range, and `a/1` the one value |
| `CronSchedule.ParseParts` | internal/cron/cron.go:107-153 | the loop over the parts stops at the first that does not read, and otherwise appends each part's values |
| `CronSchedule.ParseField` | internal/cron/cron.go:101-158 | the field's loop accepts and refuses as its parts read one by one, and collects their values in order |
| `CronSchedule.FieldMeansUnion` | internal/cron/cron.go:101-158 | an accepted field is exactly the union of its parts' meanings, non-empty and within limits, if and only if no part wraps; a part that wraps brings in a negative value |
| `CronSchedule.RewriteSunday` | internal/cron/cron.go:60-65 | every 7 becomes 0 in place and nothing else changes |
| `CronSchedule.ParseSchedule` | internal/cron/cron.go:35-74 | five fields, each within its limits, Sunday folded to 0 by a loop in place, and which day fields were restricted |
| `CronMeaning.ReadsSpan` | internal/cron/cron.go:121-134 | `a-b` is accepted exactly when it runs upwards inside the limits, and is the span from a to b |
| `CronMeaning.ReadsStart` | internal/cron/cron.go:135-152 | a number is accepted exactly when it is inside the limits |
| `CronMeaning.SteppedPart` | internal/cron/cron.go:109-116 | what follows a slash is a step of at least one, or the part is refused |
| `CronMeaning.SpanField` | internal/cron/cron.go:101-158 | a field `a-b/s` holds exactly every s-th value from a to b |
| `CronMeaning.StarStepField` | internal/cron/cron.go:101-158 | a star with a step holds exactly every s-th value of the field |
| `CronMeaning.StartStepField` | internal/cron/cron.go:135-152 | a field `a/s` with s above one holds exactly every s-th value from a to the end |
| `CronMeaning.AcceptedExactly` | internal/cron/cron.go:35-74 | an expression is accepted exactly when it has five fields and each reads within its limits |
| `CronMeaning.DueByFields` | internal/cron/cron.go:77-98 | for every date and time an accepted expression is due exactly when its minute, hour and month fields allow them and its day fields the day, Sunday being 0 or 7 |
| `CronMeaning.EitherDay` | internal/cron/cron.go:84-92 | with both day fields restricted a schedule is due exactly when it would be with either of them alone |
| `CronMeaning.WeekdaysGoRound` | internal/cron/cron.go:84-85 | 1 January 1970 was a Thursday, and the weekdays go round from there |
| `CronNextRun.NextRun` | internal/cron/cron.go:249-271 | the result is the least minute strictly after the instant at which the schedule fires within five years; DueNow is false at every earlier minute |
| `CronNextRun.NeverFiresExactly` | internal/cron/cron.go:257-271 | the search gives up if and only if only the day of the month is restricted, to days no common year has, and the window has no allowed minute of a 29 February |
| `CronNextRun.NeverForAllTime` | internal/cron/cron.go:77-98 | a parsed schedule matches no minute of all time if and only if every allowed day is one that no year has |
| `CronNextRun.HorizonSuffices` | internal/cron/cron.go:257-263 | with a leap year among the next four, giving up means exactly that the schedule never fires at all |
| `CronNextRun.HorizonExactly` | internal/cron/cron.go:257-263 | giving up and never firing coincide if and only if the schedule is not one for 29 February alone, or one of the next four years is a leap year, or the window still has an allowed time of 29 February of its first or its last year |
| `CronNextRun.EightYearGap` | internal/cron/cron.go:257-261 | a schedule for 29 February is given up on after 29 February 2096 and is due on 29 February 2104 |
| `CronCanonical.JoinValues` | internal/cron/cron.go:216-234 | values come out sorted, without repeats and joined by commas |
| `CronCanonical.DropRepeats` | internal/cron/cron.go:217-225 | the same values, each once |
| `CronCanonical.Canonical` | internal/cron/cron.go:200-212 | fails exactly when the expression does not parse, and rewrites only a weekday field that is not a star |
| `CronCanonical.CanonicalMeansTheSame` | internal/cron/cron.go:200-212 | the canonical form of an accepted expression parses if and only if its weekday field does not wrap; then it fires at the same minutes, its weekday field is a star or ascending values from 0 to 6, and it is its own canonical form |
| `CronMeaning.CanonicalKeepsFields` | internal/cron/cron.go:200-212 | the canonical form keeps every field but the weekdays as written, and a star there too |
| `CronCanonical.SundayStepWraps` | internal/cron/cron.go:200-212 | an accepted expression for Sunday that also fires on Fridays and whose canonical form is refused |
| `Scheduler.Manager.RunScheduledAt` | internal/backup/manager.go:462-484 | a batch attempts each policy at most once, in order, when some minute of the batch is due; nothing when policies cannot be listed |
| `Scheduler.AttemptsAppend` | internal/backup/manager.go:468-484 | policies are attempted one after another, each by itself |
| `Scheduler.BatchFollowsNextRun` | internal/backup/manager.go:462-484 | over a contiguous batch inside the horizon a policy is attempted exactly once if its next run from before the batch falls inside it, and otherwise never |
| `Scheduler.MinutesAfter` | internal/serverapp/serverapp.go:486-495 | the minutes since the last tick, newest first, at most five, and the current one when the clock did not advance |
| `Scheduler.EveryMinuteOnce` | internal/serverapp/serverapp.go:417-428 | over every run of ticks on a clock that does not go back, each minute is evaluated exactly once if and only if every tick comes one to five minutes after the last |
| `Glob.Piece` | internal/cli/ignore.go:150-184 | one turn of the loop writes what the next token stands for and moves past it |
| `Glob.GlobToRegexp` | internal/cli/ignore.go:148-186 | the index loop writes the concatenation of what each token of the glob stands for |
| `Glob.GlobParses` | internal/cli/ignore.go:148-186 | the text written for a glob parses to the glob's translation, and is refused exactly when a class holds a range that runs backwards |
| `Glob.TranslationAgrees` | internal/cli/ignore.go:148-186 | the translation accepts exactly the paths that a direct recursive matcher accepts, for every path |
| `GlobMeaning.ByQuestion` | internal/cli/ignore.go:164-165 | `?` is one character that is not a slash |
| `GlobMeaning.ByStar` | internal/cli/ignore.go:162-163 | `*` is any run of characters without a slash |
| `GlobMeaning.ByStars` | internal/cli/ignore.go:159-161 | `**` is any run of characters on one line |
| `GlobMeaning.ByDirs` | internal/cli/ignore.go:153-155 | a leading `**/` is nothing, or any directories |
| `GlobMeaning.ByBelow` | internal/cli/ignore.go:156-158 | a final `/**` is the directory itself and everything below it |
| `GlobMeaning.ByClass` | internal/cli/ignore.go:166-177 | a bracket class is one character of those it names, or with a mark one of the others, a slash included |
| `GlobMeaning.PlainMembers` | internal/cli/ignore.go:172-176 | members of a class without a dash are themselves |
| `GlobMeaning.RangeMembers` | internal/cli/ignore.go:172-176 | two members around a dash are everything from one to the other, and refused when they run backwards |
| `GlobMeaning.ByEscape` | internal/cli/ignore.go:178-180 | a backslash takes the meaning from what follows it |
| `GlobMeaning.ByItself` | internal/cli/ignore.go:167-171 | an unclosed bracket and a final backslash are themselves |
| `GlobMeaning.ByLiteral` | internal/cli/ignore.go:181-183 | every other character is itself |
| `IgnoreRules.ExpressionMeans` | internal/cli/ignore.go:83-119 | the anchored expression of a line compiles if and only if its glob is valid, and then matches exactly the paths the glob matches, at its own level or at any depth, for globs whose classes are ordinary |
| `IgnoreRules.EmptyClassSwallows` | internal/cli/ignore.go:166-177 | the expression for a glob with an empty class accepts paths that the glob does not match |
| `IgnoreRules.NameGlobDecidesOnBase` | internal/cli/ignore.go:102-111 | a pattern of literals, `?` and `*` without a slash decides on the base name alone, but for directories with a newline in their name |
| `IgnoreRules.NameGlobHasNoSlash` | internal/cli/ignore.go:148-186 | what a pattern of literals, `?` and `*` without a slash matches holds no slash |
| `IgnoreRules.LineRoundTrip` | internal/cli/ignore.go:83-104 | every meaning a line can have (negated, directories only, anchored, glob) can be written down, and reads back |
| `IgnoreRules.LinesAreWellFormed` | internal/cli/ignore.go:83-104 | no other meaning is ever read: no empty glob, no trailing slash or white space, no slash without an anchor |
| `IgnoreRules.InnerSlash` | internal/cli/ignore.go:97-105 | a line with a slash inside it reads as the same line with a leading one |
| `IgnoreRules.NothingSaid` | internal/cli/ignore.go:84-87 | blank lines and comments say nothing |
| `IgnoreRules.LineMeans` | internal/cli/ignore.go:83-141 | from its text to the paths below its directory: a line adds a rule exactly when its glob is valid, and the rule applies exactly where the glob matches, to directories alone if the line says so |
| `IgnoreRules.LastRuleDecides` | internal/cli/ignore.go:121-144 | the rules ignore a path if and only if some rule that applies is not negated and no later rule applies |
| `IgnoreRules.LaterRulesFirst` | internal/cli/ignore.go:129-144 | later rules have the say where one applies, and earlier ones where none does |
| `IgnoreRules.LastLineDecides` | internal/cli/ignore.go:68-144 | of the lines of a file the last that applies decides |
| `IgnoreRules.SecretsByName` | internal/cli/ignore.go:124-127 | a file of secrets is left out by its name, a template of one and a directory of that name are not |
| `IgnoreRules.Ignorer.constructor` | internal/cli/ignore.go:58-64 | the list starts with the default rules, in order |
| `IgnoreRules.Ignorer.Add` | internal/cli/ignore.go:83-119 | one line adds one rule or none, at the end; blank lines, comments and lines that do not compile add none |
| `IgnoreRules.Ignorer.AddAll` | internal/cli/ignore.go:68-80 | the lines of a file add their rules in order |
| `IgnoreRules.Ignorer.Check` | internal/cli/ignore.go:123-145 | names always left out and files of secrets are ignored; otherwise the last rule that applies decides |
| `PackWalk.Packer.LoadDir` | internal/cli/ignore.go:68-80 | a directory's two ignore files add their rules in order, cut at a line that is too long |
| `PackWalk.TwoIgnoreFiles` | internal/cli/ignore.go:68-80 | .skifityignore has the say where one of its lines applies, then .gitignore where one of its does, then what is above |
| `PackWalk.IgnoreFileLines` | internal/cli/ignore.go:68-80 | an ignore file is read line by line |
| `PackWalk.Packer.Visit` | internal/cli/pack.go:66-103 | one step of the walk: prune, keep, skip, fail, or descend with the rules grown |
| `PackWalk.Packer.VisitEntries` | internal/cli/pack.go:66-103 | the entries of a directory are visited in order, each with the rules the last one left, until the walk fails |
| `PackWalk.Packer.Run` | internal/cli/pack.go:66-103 | the walk over a whole folder computes the recursive walk that the lemmas are about, failure included |
| `PackWalk.WalkNodeAgrees` | internal/cli/pack.go:66-103 | below any node the walk with its one growing list fails, keeps and skips as the rules of the directories above alone would have it, and adds only rules from below that node |
| `PackWalk.WalkEntriesAgrees` | internal/cli/pack.go:66-103 | rules picked up in one entry of a directory never change a decision about its siblings |
| `PackSpec.WalkSendsExactly` | internal/cli/pack.go:66-103 | for every tree and a walk that does not fail, a file is kept if and only if it is a regular file, under its joined path, and neither it nor any ancestor is ignored under the defaults and its ancestors' ignore files from the root down |
| `PackSpec.WalkFailsExactly` | internal/cli/pack.go:66-106 | the walk fails if and only if the folder is unreadable, or some unreadable directory or vanished file is neither left out nor under anything that is |
| `PackSpec.WalkSkipsExactly` | internal/cli/pack.go:90-95 | what is skipped with a note is exactly what is reached and is neither a directory nor a regular file |
| `PackSpec.PathFromJoin` | internal/cli/pack.go:70-75 | the path of a list of names is their join by slashes |
| `PackSpec.NothingBroughtBack` | internal/cli/ignore.go:123-145 | of every file the walk keeps, no name of its path is always left out, its own is not that of a file of secrets, and no directory above it is left out by the rules down to it, whatever `!` lines say |
| `PackSpec.WalkPathsDistinct` | internal/cli/pack.go:66-103 | no path is kept twice |
| `PackArchive.WriteArchive` | internal/cli/pack.go:123-192 | succeeds exactly when every kept file can still be read to its size and no write to the archive file fails; the entries are the kept files sorted, and the unpacked total is the sum of the entry sizes and of the per-top-level totals |
| `PackArchive.SortSorts` | internal/cli/pack.go:109-109 | sorting kept files gives a strictly ordered rearrangement of them |
| `PackArchive.ArchiveIsDetermined` | internal/cli/pack.go:109-174 | two walks that keep the same set of files, in any order, write the same entries, in strictly increasing order of path |
| `PackArchive.UnchangedArchive` | internal/cli/pack.go:136-174 | from an unchanged disk the entries are exactly the kept files with their content, size and mode |
| `PackArchive.EntriesAreWhole` | internal/cli/pack.go:152-168 | every entry holds as many bytes as it says, from the start of what its file holds by then |
| `PackArchive.ModesMean` | internal/cli/pack.go:137-142 | an entry may be run exactly when its file may, all may read it and its owner alone may write it |
| `PackArchive.TotalsAddUp` | internal/cli/pack.go:100-101 | the totals per top-level name add up to the size of everything kept |
| `PackArchive.TopLevelMeans` | internal/cli/pack.go:101-101 | the total of a top-level name is the size of the kept files whose path starts with it |
| `PackArchive.UnpackedIsConserved` | internal/cli/pack.go:100-174 | what is kept, sorted or not, is as large as the per-top-level totals say |
| `KeyRotation.NextKeyID` | internal/crypto/masterkey.go:177-184 | terminates with the first id of the form k and a number, counting up from one past the count of keys, that no key has |
| `KeyRotation.RewrapKeepsSecret` | internal/crypto/envelope.go:245-281 | an envelope that opens is never reported unreadable, and after it is moved it names the active key and opens to the same text |
| `KeyRotation.RewrapMeans` | internal/crypto/envelope.go:245-281 | an envelope is current exactly when it names the active key, and is moved, body untouched, exactly when it is under another key the keyring has |
| `KeyRotation.ContextBinds` | internal/crypto/envelope.go:182-241 | a sealed secret opens in its own context and no other, and not with another key under its id |
| `KeyRotation.Server.BeginRotation` | internal/crypto/masterkey.go:189-206 | adds a key under the next free id and makes it active, every other key staying; without random bytes nothing changes |
| `KeyRotation.Server.SaveKeyring` | internal/crypto/masterkey.go:87-146 | the disk holds the whole keyring or what it held before, whatever is reported |
| `KeyRotation.Server.UpdateSealed` | internal/store/apps.go:433-450 | one row changes to the new envelope, or nothing does |
| `KeyRotation.Server.RewrapAll` | internal/api/settings_handlers.go:238-258 | every state between two writes is as Rotate says; each row ends as its own turn leaves it, and the counts are those of the rows moved and of the rows that failed |
| `KeyRotation.Server.RewrapRow` | internal/api/settings_handlers.go:239-258 | a row that is current is left, one under another known key is moved and counted, one that cannot be opened or written is counted as failed, and no other row changes |
| `KeyRotation.Server.Finish` | internal/api/settings_handlers.go:238-280 | from the listing on: the pass, and the end of the old keys in memory and on disk when nothing failed |
| `KeyRotation.Server.DropRetired` | internal/api/settings_handlers.go:269-280 | the active key alone stays |
| `KeyRotation.Server.Rotate` | internal/api/settings_handlers.go:214-285 | for any subset of failing rewraps, stores and saves, in every state a crash can leave: every secret that opened in memory opens from disk, the disk has every key that was in memory unless every row names the new key, no key comes from elsewhere, and rows nothing can open are left alone; what every row ends as and what is counted; without a fault every row is moved and the old keys dropped; keys go from memory only when nothing failed; the active key is on disk exactly from the first save that lands |
| `KeyRotation.CleanPass` | internal/api/settings_handlers.go:238-258 | when every listed row opens and no fault strikes, none is counted as failed |
| `KeyRotation.TallySum` | internal/api/settings_handlers.go:238-258 | every listed row is moved, left or counted as failed |
| `KeyRotation.Live` | internal/api/settings_handlers.go:214-285 | over any life of rotations that end, fail or crash after any write, secrets put in between, and restarts: every secret is accounted for as kept, pending or lost, kept ones open from disk, pending ones do not, and when no key is drawn twice lost ones never do and the account is the one that the events alone determine; when every first save lands nothing is lost |
| `KeyRotation.FateOfSecret` | internal/api/settings_handlers.go:214-285 | in that account a secret opens from disk if and only if memory was not ahead of the disk when it was put, or a save landed before the panel stopped; it is lost if and only if memory was ahead and the panel stopped before a save landed |
| `KeyRotation.SealedOpensFromDisk` | internal/crypto/envelope.go:182-241 | what the panel seals opens in memory, and opens from disk if and only if the disk has the same key under the active id |
| `KeyRotation.ReusedID` | internal/crypto/masterkey.go:177-206 | a run of two rotations after which memory and disk have different keys under the active id |
| `KeyRotation.Server.SealRow` | internal/crypto/envelope.go:182-213 | one row gets a secret sealed under the active key, or nothing changes |
| `KeyRotation.Happen` | internal/api/settings_handlers.go:214-285 | one event of a panel's life keeps the account right, and changes it as the event alone says |
| `KeyRotation.HappenRotation` | internal/api/settings_handlers.go:214-285 | so does a rotation, cut short before its first write or after any |
| `LogPipe.LinesInOrder` | internal/api/stream_handlers.go:219-274 | in every run of the reading goroutine and the select, the events written are those of a prefix of the log's lines, in order, and then of its error if that was taken |
| `LogPipe.EverythingArrives` | internal/api/stream_handlers.go:219-274 | a handler that neither the client nor a write ended wrote everything if and only if it ended by the error with no line waiting, or by the end of a log without one |
| `LogPipe.CleanEndLosesNothing` | internal/api/stream_handlers.go:219-274 | the end of a log without an error loses nothing, in whatever order the select takes what is ready |
| `LogPipe.ErrorOvertakesLines` | internal/api/stream_handlers.go:253-256 | a run in which the error is taken before a line that waits, and the line is lost |
| `LogPipe.EndOvertakesError` | internal/api/stream_handlers.go:262-267 | a run in which the end of the channel is taken before the error, and the error is lost |
| `EventStream.JsonString` | internal/api/stream_handlers.go:289-314 | the loop writes the quoted form, character by character |
| `EventStream.QuoteRoundTrip` | internal/api/stream_handlers.go:289-314 | a JSON reader (section 7 of RFC 8259) gives back exactly the line that was quoted, for every line |
| `EventStream.WriteFrame` | internal/api/stream_handlers.go:248-275 | each wake of the select loop writes the lines of its frame |
| `EventStream.WakesAreSeen` | internal/api/stream_handlers.go:257-273 | every wake that does not end the stream puts something on the connection, and a heartbeat a comment |
| `EventStream.ServeLogs` | internal/api/stream_handlers.go:248-275 | the body is the frames of the wakes up to the one that ends the stream, log frames numbered from one |
| `EventStream.NumberedInOrder` | internal/api/stream_handlers.go:268-269 | log lines are numbered one after another from one |
| `EventStream.Stream` | internal/cli/client.go:205-233 | the line-by-line reader delivers what feeding the scanned lines gives, stops when the callback asks to, and fails exactly when a line is too long before that |
| `EventStream.StopsAtRefusal` | internal/cli/client.go:205-233 | whatever the callback answers, it is given the events up to and including the first it refuses, and the reader stops there |
| `EventStream.ReaderMeans` | internal/cli/client.go:205-233 | an event takes its name from its event line, and its data from its data lines, with or without a space, joined |
| `EventStream.LogsArrive` | internal/cli/client.go:205-233 | for every run of the writer, keepalives anywhere, the reader delivers exactly the log events in order and the error that ended them; it stops short only at a frame with a line beyond its limit |
| `EventStream.PayloadsUnquote` | internal/api/stream_handlers.go:289-314 | unquoting each delivered payload gives the lines back in order |
| `EventStream.CutDeliversPrefix` | internal/cli/client.go:205-233 | a body cut after any character delivers a prefix of the events, never a damaged one |
| `Lockout.Service.CountFailed` | internal/store/users.go:383-400 | counts the failures of one key later than a time, as texts compare; nothing for an empty key |
| `Lockout.Service.CheckLockout` | internal/auth/service.go:590-600 | with nothing in between its two counts, admits an attempt exactly when neither its account nor its address has reached its maximum |
| `Lockout.Service.BeginCheck` | internal/store/users.go:383-391 | the count for the account, which fixes the start of the window for both counts |
| `Lockout.Service.EndCheck` | internal/store/users.go:392-399 | the count for the address, over whatever was recorded meanwhile; the attempt is in flight or gone |
| `Lockout.Service.RecordFailure` | internal/auth/service.go:602-604 | adds one failure at the current time for an attempt in flight, and changes nothing else |
| `Lockout.Service.Succeeded` | internal/store/users.go:403-410 | removes exactly the failures of the account that signed in |
| `Lockout.LockoutHolds` | internal/auth/service.go:170-207 | in every interleaving of clock, both counts of a check, records and ends, with at most k attempts of a key under way, every stretch a second short of the window holds at most max - 1 + k failures of that account or address |
| `Lockout.LimitsByName` | internal/auth/service.go:590-600 | the bound for an account is by the limit for accounts, and for an address by that for addresses |
| `Lockout.BoundIsMet` | internal/auth/service.go:170-207 | with k attempts admitted together, each from an address of its own, the bound is reached |
| `Lockout.SprayIsMet` | internal/auth/service.go:590-600 | one address reaches its maximum by attempts on as many accounts |
| `Lockout.SpanIsExact` | internal/store/users.go:383-400 | the bound holds over stretches of a given length, in every run whose attempts all have an address, if and only if the length is at most a second short of the window |
| `Lockout.LongerStretch` | internal/store/users.go:383-400 | for every longer stretch, a run that passes the bound by one, each attempt from an address of its own |
| `Lockout.FractionsReadEarlier` | internal/store/store.go:347-347 | every time inside a second is stored as a text that reads as before the start of that second |
| `Lockout.UnnamedIsUnlimited` | internal/store/users.go:383-400 | an empty account, tried from addresses enough, can fail any number of times at one instant |
| `Lockout.OnlyOwnSuccessClears` | internal/store/users.go:403-410 | another account's sign-in leaves an account's failures as they were |
| `Lockout.SuccessClears` | internal/store/users.go:403-410 | after a success the account counts no failure |
| `Lockout.ClearedMembers` | internal/store/users.go:403-410 | a success removes exactly the failures of its account |
| `Lockout.OneAccount` | internal/store/users.go:371-410 | two spellings of an email are one account exactly when they differ in case alone |
| `SecondFactor.Account.VerifyTOTP` | internal/auth/totp.go:73-91 | the loop finds the earliest of the last, current and next time steps that shows the code |
| `SecondFactor.Verified` | internal/auth/totp.go:73-91 | an accepted step is the last, the current or the next one, and shows exactly the code that was typed |
| `SecondFactor.ShownIsAccepted` | internal/auth/totp.go:73-91 | a code is accepted exactly when the last, the current or the next step shows it, and belongs to the earliest of them |
| `SecondFactor.TypedWithSpaces` | internal/auth/totp.go:74-77 | spaces in a typed code make no difference |
| `SecondFactor.TruncateMeans` | internal/auth/totp.go:93-110 | four bytes from the offset the last byte gives, without their sign bit, as six digits (section 5.3 of RFC 4226) |
| `SecondFactor.TruncationExample` | internal/auth/totp.go:93-110 | the example of section 5.4 of RFC 4226 gives 872921 |
| `SecondFactor.CodesAreSixDigits` | internal/auth/totp.go:93-110 | every code has six digits |
| `SecondFactor.WithinOneStep` | internal/auth/totp.go:73-91 | an accepted step is within one of the current step (section 5.2 of RFC 6238), if and only if it is not the one that wraps in the first step there is |
| `SecondFactor.PassesAreNear` | internal/auth/service.go:550-580 | a step that gets past or confirms is within one of the current step, whatever the clock reads |
| `SecondFactor.NormaliseRecoveryCode` | internal/auth/totp.go:150-158 | keeps the capital letters and the digits 2 to 7 of the upper-cased code, in order |
| `SecondFactor.Retyped` | internal/auth/totp.go:150-158 | retyping a letter in the other case, or putting a dash, space or other stray character anywhere, gives the same code |
| `SecondFactor.LettersKeep` | internal/auth/totp.go:150-158 | a code as it was made is kept whole |
| `SecondFactor.Account.SpendCounter` | internal/store/users.go:495-507 | a counter is spent exactly when it is later than the last, which then becomes it; a write that fails or reports an error says neither |
| `SecondFactor.Account.UseRecoveryCode` | internal/store/users.go:457-466 | an unused code of the account is used up, and said to be exactly when the write reports no error |
| `SecondFactor.Account.SpendFactor` | internal/auth/service.go:550-580 | a code gets past by an unspent time step or by an unused recovery code, which is then used; a write that reports an error lets nobody past |
| `SecondFactor.Account.Confirm` | internal/auth/service.go:476-495 | turning two-factor on spends the step that confirmed it first, so that it is spent even when the user row cannot be written |
| `SecondFactor.StepsAreSpentOnce` | internal/auth/service.go:550-588 | in every run a time step gets past only if it is later than every step that got past or confirmed before it |
| `SecondFactor.RecoveryCodesWorkOnce` | internal/store/users.go:457-466 | in every run a recovery code works at most once, unless a fresh set holds it again |
| `SecondFactor.GoodCodesPass` | internal/auth/service.go:550-580 | a later step, an unused recovery code and a confirming step get past when the database does as it is told |
| `SecondFactor.DisableForgets` | internal/auth/service.go:498-507 | turning two-factor off forgets the secret and the recovery codes but not the steps used, and without it nothing gets past |
| `Sessions.Service.IssueSession` | internal/auth/service.go:263-290 | one row is added, under the hash of the token |
| `Sessions.Service.Authenticate` | internal/auth/service.go:293-324 | with nothing in between its parts, which requests are let in, when the row is deleted and when and how far its expiry slides, whether or not the write takes effect |
| `Sessions.LetInExactly` | internal/auth/service.go:293-324 | a request is let in exactly when its row has not expired, its user is not disabled and the session is not 30 days old |
| `Sessions.WritesExactly` | internal/auth/service.go:302-322 | a request refreshes exactly when the row was last seen more than a minute ago, to its time to live or the ceiling, and deletes exactly when it is turned away from a row that has not expired |
| `Sessions.RefreshHoldsOff` | internal/store/users.go:216-223 | a refresh changes when the row was last seen and when it expires, and holds off the next one for a minute |
| `Sessions.SessionsEnd` | internal/auth/service.go:293-324 | over every life of a session, its requests overlapping in any way, no request is let in later than 30 days after creation, and every expiry but the first stays at or below that ceiling |
| `Sessions.WriteShortensExactly` | internal/auth/service.go:316-322 | with a time to live of at most 30 days a refresh brings the expiry forward if and only if it was counted from an earlier reading than the expiry it replaces and ends below the ceiling, and by no more than the time since that reading |
| `Sessions.SerialNeverShortens` | internal/auth/service.go:316-322 | when the requests of a session do not overlap, no refresh brings its expiry forward |
| `Sessions.OverlapShortens` | internal/auth/service.go:316-322 | a run of two overlapping requests in which one does |
| `Sessions.RefusedForGood` | internal/auth/service.go:293-324 | some run lets a session in again if and only if its row is not over, or a request under way saw it before, or is about to write an expiry that has not come |
| `Sessions.SparedComesBack` | internal/auth/service.go:302-306 | a session whose user is disabled and whose delete had no effect is let in again when the user is enabled |
| `Sessions.LongTimeToLiveIsCut` | internal/auth/service.go:293-324 | a time to live above 30 days is brought down to the ceiling by the first refresh |
| `Scopes.ResourceBySegments` | internal/auth/scopes.go:104-140 | the scan over prefixes equals a lookup on path segments: the fourth if nested, else the second, else the environments fallback |
| `Scopes.RouteOrderIsMoot` | internal/auth/scopes.go:77-93 | two orders of the same route table give every path the same resource |
| `Scopes.NestedWins` | internal/auth/scopes.go:104-117 | a nested collection belongs to itself, whatever the route |
| `Scopes.OtherRoutes` | internal/auth/scopes.go:119-132 | what is left of an environment belongs to its project, and a path outside the table to nothing |
| `Scopes.RenamedRoutes` | internal/auth/scopes.go:77-93 | components belong to settings and the audit log to teams |
| `Scopes.SlashesAreMoot` | internal/auth/scopes.go:104-105 | slashes around a path make no difference |
| `Scopes.CheckToken` | internal/auth/scopes.go:147-176 | a request is allowed exactly when the token has no scopes or one of them grants it |
| `Scopes.PlainScopeGrants` | internal/auth/scopes.go:160-167 | a scope without a resource grants by its action alone, and reading methods alone to "read" |
| `Scopes.NamedScopeGrants` | internal/auth/scopes.go:168-173 | a scope with a resource grants requests for that resource alone, and only those its action allows |
| `Scopes.ReadersDoNotWrite` | internal/auth/scopes.go:147-176 | a token whose scopes all read allows no request that writes |
| `Scopes.ScopesStayInside` | internal/auth/scopes.go:147-176 | a token whose scopes all name one resource allows requests for that resource alone |
| `Scopes.TokenIsItsList` | internal/auth/scopes.go:147-176 | a token made of any list of parts, blank ones and white space included, allows exactly what some part grants, and everything when the list is one blank part |
| `Scopes.ScopesOnlyWiden` | internal/auth/scopes.go:147-176 | reordering parts changes nothing, and adding parts to a list that is not full access, or repeating some, only widens |
| `Scopes.WriteCoversRead` | internal/auth/scopes.go:147-176 | the write scope of a resource grants everything its read scope does |
| `Scopes.ValidateScopes` | internal/auth/scopes.go:180-206 | accepts exactly the lists whose every part is blank, read, write, or a known resource with one of those actions |
| `Scopes.ValidExactly` | internal/auth/scopes.go:184-204 | exactly which scopes are accepted |
| `Scopes.ValidScopesReach` | internal/auth/scopes.go:178-206 | every accepted scope grants some request, so no accepted scope is idle |
| `Scopes.IdleExactly` | internal/auth/scopes.go:147-206 | an accepted list that is not blank allows no request at all if and only if it is made of commas and white space alone |
| `Scopes.TrimmingIsMoot` | internal/auth/scopes.go:147-206 | splitting a list before it is trimmed, as validation does, and after, as the check does, gives the same scopes |
| `Scopes.CommasReachNothing` | internal/auth/scopes.go:180-206 | a single comma is accepted and allows nothing |
| `VolumeRestore.Run.Restore` | internal/backup/volumerestore.go:83-213 | for every set of failing calls, the calls made with their outcomes, deferred ones last and in reverse order, and the final statuses |
| `VolumeRestore.Run.WithAppStopped` | internal/backup/volumerestore.go:120-213 | what runs between scaling down and the deferred scaling back |
| `VolumeRestore.Run.WithSecret` | internal/backup/volumerestore.go:150-213 | what runs before the deferred removal of the secret, with the statuses it leaves |
| `VolumeRestore.Run.Unpack` | internal/backup/volumerestore.go:155-182 | the calls of the restore step from the secret on, up to the first that stops it |
| `VolumeRestore.Run.Start` | internal/backup/volumerestore.go:189-196 | the calls of the start step |
| `VolumeRestore.JobNeedsStoppedApp` | internal/backup/volumerestore.go:112-178 | the unpack job is created only after the app was scaled to zero and its pods were seen gone, with no request for instances in between |
| `VolumeRestore.ScaleUpNeedsFinishedJob` | internal/backup/volumerestore.go:179-192 | before the end of the run instances are asked for only after the job was seen to finish |
| `VolumeRestore.CallsInOrder` | internal/backup/volumerestore.go:112-196 | every call that needs the result of another comes after that one succeeded, and the job after an attempt to clear an earlier one |
| `VolumeRestore.LastRequestRestores` | internal/backup/volumerestore.go:112-125 | the last scale request is for the original count if and only if the first request succeeded or the count was zero |
| `VolumeRestore.EndsCleanly` | internal/backup/volumerestore.go:83-213 | all three steps and the operation succeeded, exactly when no call failed; otherwise the operation failed with one failed step, only succeeded steps before it and none begun after it |
| `VolumeRestore.SecretIsRemoved` | internal/backup/volumerestore.go:150-158 | a run that may have created the secret asks for its removal, just before the app is scaled back |
| `AutoDomain.HostnameParts` | internal/kube/naming.go:167-187 | the first label of a hostname is the app's, and the rest is the domain that all apps share |
| `AutoDomain.HostnamesClash` | internal/kube/naming.go:167-187 | under one configuration two hostnames are equal if and only if their labels are |
| `AutoDomain.LabelFits` | internal/kube/naming.go:167-177 | a label is never longer than 63 characters, whatever the slug, environment and suffix |
| `AutoDomain.LabelMeans` | internal/kube/naming.go:167-174 | a label that is not too long is the slug, the environment unless empty or production, and the suffix, joined by dashes |
| `AutoDomain.LongLabelMeans` | internal/kube/naming.go:175-177 | a longer one keeps its start and ends in a hash of the whole |
| `AutoDomain.TwoNames` | internal/kube/naming.go:155-165 | an app's suffixed name is its preferred one with five characters of a hash of its id after the label, and so another name |
| `AutoDomain.DomainMeans` | internal/kube/naming.go:178-186 | all hostnames end in the wildcard domain without its star, or in the address with dashes for dots |
| `AutoDomain.Cluster.FreeAutoHostname` | internal/cluster/cluster.go:312-341 | the preferred name if no other app holds it, else the suffixed one, else none |
| `AutoDomain.Cluster.EnsureAutoDomain` | internal/cluster/cluster.go:235-300 | the row is kept, given or moved, and the rest of the table stays |
| `AutoDomain.EnsureKeeps` | internal/cluster/cluster.go:235-300 | with the configuration unchanged, ensuring again changes nothing |
| `AutoDomain.HostnameIsStable` | internal/cluster/cluster.go:235-341 | in every run of ensure, create and delete steps an app's automatic hostname never changes, is its preferred or suffixed name, and is never held by two apps |
| `AutoDomain.FirstName` | internal/cluster/cluster.go:235-341 | which of its two names an app without an automatic one is given, by who holds them; that it gets none exactly when there is no address to build on, when other apps hold both, or when the name chosen is a domain of its own |
| `AutoDomain.OwnDomainBlocks` | internal/cluster/cluster.go:289-323 | an app whose preferred name is a domain of its own is refused an automatic one while its suffixed name is free |
| `AutoDomain.MoveName` | internal/cluster/cluster.go:235-341 | what becomes of an app that has an automatic row, under any configuration: kept, moved and to which name, refused or without an address, each with its exact condition, and the row untouched without a move |
| `AutoDomain.StaleAddressStays` | internal/cluster/cluster.go:283-287 | an app whose new preferred name is a domain of its own keeps the address of the old configuration |
| `RegistrySweep.Registry.PruneRepo` | internal/cluster/registry.go:80-102 | the pass over one repository, tags vanishing under it as digests are deleted, leaves exactly the tags whose digest was not doomed, and counts the digests deleted |
| `RegistrySweep.Registry.PruneTag` | internal/cluster/registry.go:85-101 | one tag is resolved as the repository is by now and its digest deleted, or nothing happens; a digest that one tag failed to delete may go with the next |
| `RegistrySweep.Registry.Prune` | internal/cluster/registry.go:52-104 | every repository ends as its own pass leaves it, with the tags still needed there kept, and the count returned is that of the digests deleted in all of them |
| `RegistrySweep.KeepMeans` | internal/cluster/registry.go:61-71 | what is kept of a repository is what the images name in it |
| `RegistrySweep.WantedTagsSurvive` | internal/cluster/registry.go:52-104 | an image the panel needs keeps its manifest, whatever fails, when every tag of that manifest is wanted |
| `RegistrySweep.UnwantedTagsGo` | internal/cluster/registry.go:52-104 | a tag that is neither needed nor the cache goes when no call fails |
| `RegistrySweep.LostTags` | internal/cluster/registry.go:52-104 | a tag is lost if and only if its manifest is that of some tag the sweep prunes; the others keep theirs |
| `RegistrySweep.KeptTagsSurvive` | internal/cluster/registry.go:52-104 | every kept tag survives if and only if none shares its manifest with a pruned one |
| `RegistrySweep.RebuildIsLost` | internal/cluster/registry.go:52-104 | a kept tag goes with an older tag of the same image |
| `RegistrySweep.SweepExcludesBuilds` | internal/cluster/registry.go:42-149 | in every run no manifest is deleted, no old job cleared and no collector started while a build that holds the lock is in flight; a collector runs beside such a build only if no sweep waits for it any more; and while one runs a build may begin exactly when it is such a one and no sweep holds the lock |
| `RegistrySweep.OrphansWereAbandoned` | internal/cluster/registry.go:132-149 | a running collector counts as abandoned exactly when a sweep gave up or the panel started again, and the job neither ended nor was cleared since |
| `RegistrySweep.LooseWereRestarted` | internal/cluster/registry.go:42-45 | the only builds a sweep can meet are those that were in flight at a restart of the panel |
| `RegistrySweep.RestartLetsSweepsIn` | internal/cluster/registry.go:42-149 | a run in which a sweep deletes manifests while a build from before a restart goes on |
| `RegistrySweep.GivingUpLetsBuildsIn` | internal/cluster/registry.go:112-149 | a sweep that gives up leaves its collector beside a new build |

## Left out

- Glob.GlobParses: covers globs whose bracket classes are not empty, do not begin with a closing bracket and hold no POSIX class name; the byte-by-byte conversion of characters outside ASCII is not modelled.
- IgnoreRules.ExpressionMeans: covers the same globs, and so does IgnoreRules.LineMeans.
- KeyRotation.Server.Rotate: is for one rotation at a time with no other writer of sealed rows while it runs, since the handler takes no lock against either; writers between rotations are in KeyRotation.Live.
- Text that is not valid UTF-8, and regular expressions beyond those that globs are turned into.
- Lower-casing of email addresses outside ASCII, and surrogate escapes in the JSON reader, which the writer never makes.
- The strength of the cryptography: encryption is ideal, and MACs and hashes are uninterpreted.
- Password hashing and the gate that bounds how many run at once, API tokens, CSRF, OIDC and the purge of old login attempts.
- Status writes of a volume restore that themselves fail, panics, a run that outlives its three hours, and the manifests of its job.
- Reading an image reference into repository and tag, and the garbage collector's own work.
- gzip and tar bytes, and the list of the largest top-level names that packing prints: an archive is a list of entries.
- Error texts, audit records, logging and published notifications.
- HTTP routing and the plain create, read, update and delete handlers, Kubernetes object rendering, detection of app kinds, templates, first-run setup, team membership, the frontend and the command line's printing: easy members or literals.
