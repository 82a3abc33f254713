# Universal Inbox: verified models of its hard parts

Universal Inbox gathers notifications and tasks from several services into one inbox. This project
models the parts of it whose correctness is not visible from a single function, in Dafny 4.11, and
proves what they promise for all inputs, all runs, or all reachable states:

- the **CSS auditor**, which finds and deletes unused rules of the web style sheet (`CssSource`,
  `CssScanner`, `CssClassifier`, `CssDeletion`, `CssHeaders`, `CssReading`, `CssReparse`, `CssAudit`,
  `CssInUse`, `CssWitnesses`);
- the **Todoist project cache**, a memo keyed by a generation counter (`TodoistCache`,
  `TodoistDuplicates`, `TodoistService`);
- the **cron tick election** and the **job vacuum** (`CronElection`, `JobVacuum`);
- the **contrast lift** for emails on the dark canvas (`DarkColour`, `DarkWalk`);
- the **synchronization backoff** (`SyncBackoff`);
- the **codecs** of page tokens and due dates (`Base64`, `Utf8`, `PageTokens`, `Calendar`,
  `DueDates`);
- four decision loops: **sender profiles**, **emoji search and substitution**, **Gmail
  reconciliation**, **bulk actions** (`SenderProfiles`, `Emojis`, `EmojiText`, `MailReconciliation`,
  `BulkActions`).

`Wrappers`, `Decimal` and `Texts` are shared helpers. Verify everything with
`dafny verify dfyconfig.toml`.

Code that updates variables in loops is modelled by methods with loops, objects with shared state by
classes, protocols by state machines whose runs interleave the steps of any number of calls or
workers. Each method is tied by its `ensures` to a function of its input, and the results below are
proved about that function.

## Results that correct or sharpen the code's own promises

The model follows the code. Where the documentation says more than the code does, there is a concrete
input and the exact condition.

- **Deleting two rules on one line** loses the text that follows them. The loop is exact if and only
  if each deleted block is alone on its line and shared lines end what is kept
  (`CssWitnesses.SharedLineLosesRule`, `CssDeletion.DeletionIsExactIff`).
- **Text stranded before a closing brace** is read as part of the next selector, so a second `--apply`
  can find a new orphan (`CssWitnesses.StrandedTextIsHandedOn`). The new text reads as the kept
  blocks if and only if no deletion strands text in the header of one of them, or an at-statement
  swallows that text first (`CssAudit.ReparseApplied`); then a second run never finds an orphan
  (`CssAudit.ApplyIsFinal`).
- **A Todoist project can be created twice**, by calls that overlap
  (`TodoistDuplicates.OverlappingCallsDuplicate`) and by calls one after the other when the reply to the
  first is lost (`TodoistDuplicates.LostReplyDuplicates`). These are the only ways
  (`TodoistCache.DuplicatesOverlap`), and every pair of generations that allows it comes about
  (`TodoistDuplicates.DuplicateIff`).
- **"Exactly one process wins per tick"** depends on the lock's TTL, contrary to the comment at
  api/src/jobs/cron.rs:153-157: it holds if and only if every attempt falls within the first winner's
  TTL (`CronElection.OneWinnerIff`, `CronElection.LateWorkerWinsAgain`).
- **The warning that older jobs remain** is wrong exactly when there were as many old jobs as the
  batches of one tick can take (`JobVacuum.Queue.VacuumTick`, `JobVacuum.WarningWithNothingLeft`). The
  script's comment says "before" the cutoff; the command includes the cutoff itself.
- **"Light islands" are meant to stay untouched** (web/js/index.js:185-190), but an element with its
  own opaque background is lifted, and an island without a colour of its own inherits a lifted one
  (`DarkWalk.WhiteBoxTurnsUnreadable`, `DarkWalk.IslandIsKeptIff`).
- **A huge cap** makes the backoff delay panic or turn negative; `SyncBackoff.DelayIs` says when. A run
  of failures loses its spread if and only if the first delay turns into a negative number of seconds
  that lies within the span of dates (`SyncBackoff.AlwaysSpreadIff`).
- **Emoji search** can miss a prefix match behind its inner break (`Emojis.PrefixMatchCanBeMissed`,
  `Emojis.AnswerIsBestIff`).
- **Emoji substitution** closes a last colon that stands alone, so `10:30` becomes `10:30:`
  (`EmojiText.TimeOfDayGrows`). A text is unchanged if and only if no code cut out of it is known and
  its number of colons is even (`EmojiText.UnchangedIff`).
- **Zoned due dates** outside the years 0 to 9999 print a form that no attempt parses
  (`DueDates.RoundTripIff`).

## Model

| member | source | states |
|---|---|---|
| CssSource.StripComments | web/scripts/audit_css.py:74-80 | the copy has the same length, and differs only where a character other than a newline became a blank |
| CssSource.StripBlanksComments | web/scripts/audit_css.py:74-80 | a character is blanked exactly when a terminated comment covers it, the comments being taken from left to right |
| CssSource.StripLeavesNoComment | web/scripts/audit_css.py:74-80 | for every text, no terminated comment is left in the copy |
| CssSource.CommentIsBlanked | web/scripts/audit_css.py:74-80 | for every text, letter by letter: up to its first comment it is kept, the comment becomes blanks with its newlines kept, and the rest is stripped as a text of its own |
| CssSource.NoCommentIsKept | web/scripts/audit_css.py:74-80 | a text in which no terminator comes after an opener is kept |
| CssSource.StripKeepsLines | web/scripts/audit_css.py:74-80 | line numbers read off the copy are those of the original text, at every position |
| CssSource.FindMatchingBrace | web/scripts/audit_css.py:83-95 | the answer is the first place where the depth returns to zero; -1 exactly when there is none |
| CssSource.SpaceIs | web/scripts/audit_css.py:226 | the blanks are those of `str.isspace` |
| CssSource.DepthCounts | web/scripts/audit_css.py:83-95 | the depth at a position is the number of opening braces less the number of closing ones since the opener |
| CssSource.LineCounts | web/scripts/audit_css.py:214-222 | a line number is one plus the newlines before the position |
| CssSource.StripOfCut | web/scripts/audit_css.py:74-80 | cutting whole lines out of a text, between two places outside comments, commutes with stripping |
| CssScanner.ParseCss | web/scripts/audit_css.py:187-334 | the one-pass scanner with its index, line counter and pending header records exactly the inventory of the blocks that `Blocks` defines from positions alone; what that inventory holds is said by the rows of `CssInUse` |
| CssScanner.BlocksOrdered | web/scripts/audit_css.py:187-334 | for every text, the blocks met are well formed, and each header starts after the previous block was scanned past |
| CssScanner.BlocksCoverBraces | web/scripts/audit_css.py:187-334 | every opening brace is met as a block or lies in a body that is skipped: nothing is missed |
| CssScanner.RecordedRanges | web/scripts/audit_css.py:187-334 | for every text, recorded ranges ascend and are disjoint, each ends on the brace matching its opener, and each line is one plus the newlines before the start in the original text |
| CssScanner.RuleApartFromKeyframes | web/scripts/audit_css.py:187-334 | no rule range meets a keyframes range |
| CssScanner.AtHeaderKind | web/scripts/audit_css.py:233-298 | for every word an at-header starts with, the scan goes on inside the block exactly for `media`, `layer`, `supports` and `container`, and behind its matching brace for every other word; it is recorded as keyframes or a utility exactly if it is called so |
| CssScanner.PlainHeaderKind | web/scripts/audit_css.py:299-308 | every header that does not start an at-rule is that of a rule |
| CssScanner.StartIsFirstInk | web/scripts/audit_css.py:314-332 | before the start of a block there is nothing but blanks and what a closing brace ended |
| CssScanner.HeaderIsSlice | web/scripts/audit_css.py:225-228 | without a closing brace in it, a header is the text since the last cut, trimmed |
| CssClassifier.Categorize | web/scripts/audit_css.py:444-482 | the loops compute the classes alive by prefix, the effective alive set, and the four buckets in file order |
| CssClassifier.BucketsPartition | web/scripts/audit_css.py:470-480 | each rule occurs in its own bucket as often as in the file, and in no other |
| CssClassifier.BucketsAre | web/scripts/audit_css.py:470-480 | for every rule: active or decorative exactly if all its classes are alive, an orphan chain exactly if one is not but its own class is, an orphan otherwise |
| CssClassifier.AliveIff | web/scripts/audit_css.py:454-465 | a class is kept by a prefix exactly if it starts with it and is not the bare prefix without a dash at its end, or if it belongs to one of the two libraries |
| CssClassifier.LiveStaysLive | web/scripts/audit_css.py:444-482 | more classes or prefixes in use never take a live rule out of the live buckets |
| CssClassifier.SurvivorsStayLive | web/scripts/audit_css.py:454-480 | any list of rules whose selectors were live has no orphans when classified on its own, with the classes alive by prefix recomputed from it |
| CssClassifier.ReclassifyIsClean | web/scripts/audit_css.py:444-482 | classifying only the survivors of a classification yields no orphans |
| CssDeletion.ApplyDeletions | web/scripts/audit_css.py:671-686 | widening, sorting and the descending loop leave `Applied` of the text |
| CssDeletion.SortSorts | web/scripts/audit_css.py:681-682 | the sorted list descends and is a permutation |
| CssDeletion.CutsAreExact | web/scripts/audit_css.py:681-686 | for all descending ranges, the loop leaves exactly the uncovered positions if and only if no two ranges overlap with something uncovered behind both |
| CssDeletion.WidenedOverlap | web/scripts/audit_css.py:671-680 | the widened ranges of two disjoint blocks overlap exactly when the second starts on the line where the first ends |
| CssDeletion.DeletionIsExactIff | web/scripts/audit_css.py:664-686 | for every text and set of recorded blocks, the loop leaves exactly what lies outside the widened ranges and loses only blanks besides the blocks, if and only if deleted blocks are alone on their lines and share a line only at the end of what is kept |
| CssDeletion.SharedLineLosesWhatFollows | web/scripts/audit_css.py:681-686 | two cuts on one line after which the next line is lost too |
| CssDeletion.IsolatedIsExact | web/scripts/audit_css.py:664-686 | with only blanks before each deleted block on its line, deletion is exact |
| CssDeletion.KeptBlockSurvives | web/scripts/audit_css.py:664-686 | every block that is kept is in the new text, verbatim and in one piece |
| CssHeaders.HeaderKeptIff | web/scripts/audit_css.py:214-332 | for every text stranded in the pending header and every stretch up to the next block, the header read is the block's own if and only if what is stranded is blank, or it starts an at-statement and the stretch ends one at its first semicolon |
| CssReading.ReadIsTrace | web/scripts/audit_css.py:187-334 | the blocks the scan meets are what is read from the characters alone, whatever the positions |
| CssReading.ReadRestIff | web/scripts/audit_css.py:187-334 | from any place on and with any text stranded, the rest without its cuts reads as the blocks that stay if and only if each is read with its own header |
| CssReparse.StripOfCuts | web/scripts/audit_css.py:74-80 | stripping comments commutes with all the cuts |
| CssReparse.ReparseIff | web/scripts/audit_css.py:187-334 | for every text and every choice of blocks alone on their lines, the text without them reads as the blocks that stay, in order, if and only if no stranded text reaches a header unswallowed |
| CssAudit.AuditAndApply | web/scripts/audit_css.py:645-686 | parsing, classifying and deleting, from the text to the new text, on every text; what is planned is settled by `CssInUse.RulePlannedIff` and `CssInUse.KeyframesPlannedIff` |
| CssAudit.PlanIsDeletable | web/scripts/audit_css.py:664-668 | whatever the text, the planned deletions are blocks, in bounds and pairwise apart |
| CssInUse.RulesAre | web/scripts/audit_css.py:300-318 | for every text: a rule is on record exactly if a balanced block with that header, those positions and that line is met |
| CssInUse.KeyframesAre | web/scripts/audit_css.py:237-254 | for every text: the same of keyframes, which need a name |
| CssInUse.UtilitiesAre | web/scripts/audit_css.py:256-268 | for every text: a utility is on record exactly if a block met declares it, balanced or not |
| CssInUse.RefsIff | web/scripts/audit_css.py:305-318 | for every text and name: it counts as referenced exactly if a theme, or the body of a rule on record, names it |
| CssInUse.KeyframesPlannedIff | web/scripts/audit_css.py:664-667 | for every text: keyframes on record are planned for deletion exactly if no theme and no rule on record names them, told from the text |
| CssInUse.RulePlannedIff | web/scripts/audit_css.py:664-667 | for every text: a rule on record is planned for deletion exactly if some class it names is not in use, no utility and kept by no prefix |
| CssAudit.ReparseApplied | web/scripts/audit_css.py:664-686 | parsing the text that the sorted loop wrote finds exactly the blocks that were not deleted, in order and as they read, if and only if no deletion strands text in the header of one of them |
| CssAudit.CleanHeadersStrandNothing | web/scripts/audit_css.py:664-686 | deletions whose headers hold nothing but blanks and closing braces before their start strand nothing |
| CssAudit.SecondRunFindsNoOrphans | web/scripts/audit_css.py:645-686 | if every dead rule and no utility is deleted, a second run over the new text has empty orphan buckets |
| CssAudit.ApplyIsFinal | web/scripts/audit_css.py:645-686 | for every text whose planned deletions are alone on their lines and strand nothing, a second run of the whole audit finds no rule to delete |
| CssWitnesses.StrandedTextIsHandedOn | web/scripts/audit_css.py:187-334 | a text with an isolated deletion after which the second run does find an orphan, for the text it strands |
| CssWitnesses.SharedLineLosesRule | web/scripts/audit_css.py:645-686 | a text of which the auditor plans two deletions on one line, and nothing is left although a rule is in use |
| TodoistCache.KeysDiffer | api/src/integrations/todoist.rs:537-544 | distinct users, generations or base URLs never share a memo key, although the key has no separators |
| TodoistCache.StepKeepsInv | api/src/integrations/todoist.rs:1046-1108 | every step of every call keeps the coherence of memo, counter, server and calls |
| TodoistCache.RunKeepsInv | api/src/integrations/todoist.rs:537-558 | the coherence invariant holds in every reachable state of every interleaving |
| TodoistCache.LaterCallFindsProject | api/src/integrations/todoist.rs:1070-1096 | in every interleaving, a call that read the counter after a project of its user and name was announced is never about to add one, nor has it added one, and the project is in its list |
| TodoistCache.DuplicatesOverlap | api/src/integrations/todoist.rs:1070-1096 | in every interleaving, two projects of one user and name were both created by calls, and these overlapped or one of the two was never announced |
| TodoistCache.ReturnedProjectIsRight | api/src/integrations/todoist.rs:1073-1108 | what a call returns is a project of its user and name on the server |
| TodoistDuplicates.DuplicateIff | api/src/integrations/todoist.rs:1070-1096 | for all generations read and announced: some run leaves two projects of one name with them if and only if none was there before and neither call read the counter once the other project was announced |
| TodoistDuplicates.OverlappingCallsDuplicate | api/src/integrations/todoist.rs:1046-1108 | a run of two overlapping calls, both announced, that ends with the project twice |
| TodoistDuplicates.LostReplyDuplicates | api/src/integrations/todoist.rs:1084-1096 | a run of two calls one after the other, the first with its reply lost, that ends with the project twice |
| TodoistDuplicates.LoneCallReturns | api/src/integrations/todoist.rs:1046-1108 | in every reachable state, a call that nothing interrupts returns: the first project of its name with nothing changed if there is one, else exactly one it adds and announces |
| TodoistDuplicates.MemoAnswers | api/src/integrations/todoist.rs:537-558 | with a list in the memo for the current generation, a call returns the first of its name there and asks for no list |
| TodoistDuplicates.MayFail | api/src/integrations/todoist.rs:1070-1094 | a call may fail at any point before it has added a project, and leaves everything else as it was |
| TodoistService.Service.FetchAllProjects | api/src/integrations/todoist.rs:537-558 | one call at a time: the answer is the server's list, asked for exactly if the memo has none for the generation, and then kept alone |
| TodoistService.Service.GetOrCreateProject | api/src/integrations/todoist.rs:1046-1108 | returns the existing project and changes nothing, or adds exactly one and bumps the counter |
| TodoistService.Service.GetTwice | api/src/integrations/todoist.rs:1046-1108 | two calls in a row return the same project and add at most one |
| CronElection.TickKeysDiffer | api/src/jobs/cron.rs:165 | distinct (job name, second) pairs never share a key, colons in job names included |
| CronElection.RunKeepsInv | api/src/jobs/cron.rs:158-174 | in every run of any number of workers with clock advance and expiry, the keys say of each tick whether its lock is held |
| CronElection.OutcomeIff | api/src/jobs/cron.rs:158-174 | in every run and for every attempt: it is an error exactly without a TTL; with one it is lost exactly if an earlier winner of its tick still holds the lock, and won otherwise |
| CronElection.WinsAreApart | api/src/jobs/cron.rs:158-174 | in every run, two wins of the same tick are at least the TTL apart |
| CronElection.FirstWins | api/src/jobs/cron.rs:158-174 | in every run, the first accepted attempt on a tick wins |
| CronElection.OneWinnerIff | api/src/jobs/cron.rs:153-174 | in every run, exactly one attempt wins a tick if and only if all attempts fall within the first one's TTL |
| CronElection.AtMostOnePush | api/src/jobs/cron.rs:31-59 | in every such run, at most one refresh job is pushed for the tick, by the first attempt |
| CronElection.LateWorkerWinsAgain | api/src/jobs/cron.rs:153-174 | a run in which a late worker wins the same tick again, and the job is pushed twice |
| CronElection.Redis.TryAcquireTickLock | api/src/jobs/cron.rs:158-174 | an error exactly without a TTL; lost exactly if the key of the tick is alive; otherwise won, and the key then lives for the TTL. No other key changes |
| CronElection.Redis.HandleRefreshTick | api/src/jobs/cron.rs:31-59 | a worker that comes late answers no error and enqueues nothing; one that comes first enqueues the job unless the queue fails; without a TTL it is an error |
| JobVacuum.Queue.RunScript | api/scripts/lua/vacuum_jobs.lua:22-30 | the loop removes the oldest eligible jobs, up to the limit, from all three keys, and answers their number |
| JobVacuum.Queue.VacuumTick | api/src/jobs/cron.rs:124-151 | with any events between batches, purged is the smaller of the eligible jobs and batch size times batches; an early return leaves nothing eligible; it is given up at the first call that fails; without errors the limit is reported if and only if the eligible jobs are at least what the batches take, and then nothing is left if and only if they are as many; the final state is the initial one with all events and without the purged jobs |
| JobVacuum.HappenAfterPurge | api/src/jobs/cron.rs:124-143 | a younger completion or a new job commutes with a purge |
| JobVacuum.BeforeIsOrder | api/scripts/lua/vacuum_jobs.lua:22 | the sorted set orders all jobs, by completion time and then by id |
| JobVacuum.InsertSorts | api/src/jobs/cron.rs:124-151 | jobs completed between batches keep the set sorted and add their id |
| JobVacuum.WhatRemains | api/src/jobs/cron.rs:124-151 | what stays eligible is what was eligible minus what was purged |
| JobVacuum.NothingIsLost | api/src/jobs/cron.rs:124-151 | purged and remaining jobs together are, as a multiset, the jobs there were and the jobs completed meanwhile |
| JobVacuum.YoungJobsSurvive | api/src/jobs/cron.rs:114-151 | no job younger than the cutoff is ever removed |
| JobVacuum.EligibleIsAll | api/scripts/lua/vacuum_jobs.lua:22 | in the sorted set, the eligible prefix holds exactly the jobs at or before the cutoff |
| JobVacuum.LimitWarningIff | api/src/jobs/cron.rs:145-149 | on reaching the limit, older jobs remain if and only if there were more than the batches took |
| JobVacuum.WarningWithNothingLeft | api/src/jobs/cron.rs:145-149 | a queue on which a tick reports the limit with no old job left |
| DarkColour.HueGivesShares | web/js/index.js:148-168 | the hue determines where each channel lies between the smallest and the largest, in all six sectors and on ties |
| DarkColour.HuesOfPrimaries | web/js/index.js:148-159 | for all strengths, red, yellow, green, cyan, blue and magenta lie at 0, 60, .., 300 degrees; greys have hue and saturation 0 |
| DarkColour.RemSixIs | web/js/index.js:153 | the remainder has the sign of the dividend and differs from it by a multiple of six |
| DarkColour.LightenIsAffine | web/js/index.js:142-174 | for every colour, before rounding, every channel is mapped by the same affine function to the range of its saturation at the new lightness |
| DarkColour.RoundTrip | web/js/index.js:142-174 | converting a colour to HSL and back is the identity |
| DarkColour.HslSurvives | web/js/index.js:142-174 | reading back the colour made at another lightness gives the same hue and saturation |
| DarkColour.LightenKeepsHueAndSaturation | web/js/index.js:138-174 | lifting keeps hue and saturation, gives lightness exactly max(l, 0.8), and is the identity from 0.8 on |
| DarkColour.LiftedChannels | web/js/index.js:172-173 | every lifted and rounded channel lies in 153..255 |
| DarkColour.RoundIsNearest | web/js/index.js:172 | the number written is a nearest whole number, the larger of two |
| DarkColour.LightIsOnlyRounded | web/js/index.js:142-174 | a colour that is light enough is written back, rounded |
| DarkColour.LuminanceAddsUp | web/js/index.js:132-137 | luminance adds up over the channels, and a grey has its own value |
| DarkColour.LuminanceOfPrimaries | web/js/index.js:132-137 | at full strength red counts 54.213, green 182.376 and blue 18.411 of 255, and in proportion below it |
| DarkColour.DarkPrimaries | web/js/index.js:132-137 | for all channel values: every red and every blue is dark, a green exactly under 140 / 0.7152, a grey exactly under 140 |
| DarkColour.DarkIsBelowFloor | web/js/index.js:132-159 | a colour dark enough for the walk to lift has a lightness under 0.8, so the floor applies to it |
| DarkColour.LiftedIsReadable | web/js/index.js:132-174 | a lifted colour has a luminance of 153 or more, so it is never lifted again |
| DarkWalk.Document.HasOpaqueAncestor | web/js/index.js:230-235 | the climb finds an opaque background above exactly when there is one |
| DarkWalk.Document.LiftDarkText | web/js/index.js:236-253 | the walk leaves every element in the closed form and every eligible element readable; eligible text in a pure red or blue changes, in a pure green or a grey exactly under its bound |
| DarkWalk.FinalColour | web/js/index.js:236-253 | for every tree, each element shows its old colour, lifted exactly when that was dark and it or an element it takes its colour from is eligible |
| DarkWalk.NearestColourShows | web/js/index.js:236-253 | an element shows the colour of the nearest one up from it that has one, what the pass set there before its own; at the top, the text colour of the canvas |
| DarkWalk.TextIsReadable | web/js/index.js:236-253 | text with no opaque background above it ends with a luminance of 140 or more, or with a colour that cannot be read |
| DarkWalk.SecondPassIsIdle | web/js/index.js:236-253 | a second walk changes nothing |
| DarkWalk.ChangesIff | web/js/index.js:236-253 | a colour changes exactly when it was dark and is reached |
| DarkWalk.PrimaryText | web/js/index.js:236-253 | for every tree: eligible text in a pure red or blue changes, in a pure green exactly under 140 / 0.7152, in a grey exactly under 140 |
| DarkWalk.IslandIsKeptIff | web/js/index.js:185-190 | content on an opaque background keeps its colour exactly when that is not dark, or it has no text directly on its own background and takes no lifted colour from outside |
| DarkWalk.WhiteBoxTurnsUnreadable | web/js/index.js:185-190 | black text in a nested white box, and in a paragraph inside it, both turn light grey |
| SyncBackoff.SaturationIsHarmless | src/integration_connection/mod.rs:130-136 | for all failure counts, shifts of 64 and more included, the saturating 64-bit form is min(base * 2^(n-1), cap) over unbounded integers |
| SyncBackoff.DelayIs | src/integration_connection/mod.rs:125-138 | the delay is that value exactly up to the `TimeDelta` limit, a panic beyond it, and negative near the top of the range |
| SyncBackoff.SafeConfigurationIff | src/integration_connection/mod.rs:125-138 | every failure count gives the unbounded delay if and only if the cap is within the limit or the base is 0 |
| SyncBackoff.DelayGrows | src/integration_connection/mod.rs:125-138 | the delay is monotone in failures, never negative and never above the cap |
| SyncBackoff.ClosedUntil | src/integration_connection/mod.rs:166-181 | for all failures, instants and configurations whose delay and end of the wait can be represented: the gate is closed exactly until the delay has passed |
| SyncBackoff.OpenWithoutFailure | src/integration_connection/mod.rs:166-175 | the gate is open without a failure on record |
| SyncBackoff.GateStaysOpen | src/integration_connection/mod.rs:166-181 | once the gate turns false it stays false until the next failure |
| SyncBackoff.FailuresAreSpread | src/integration_connection/mod.rs:166-181 | in every run of failures behind the gate, the time from the first to the (n+1)-th is at least the sum of the first n delays, unless the first delay turns negative within the span of dates |
| SyncBackoff.PromptRunPasses | src/integration_connection/mod.rs:166-181 | the bound is attained: for every number of failures, attempts that each start one delay after the failure before pass the gate |
| SyncBackoff.AlwaysSpreadIff | src/integration_connection/mod.rs:125-181 | all runs of a configuration are spread if and only if its first delay does not turn negative, or so far that no two representable instants lie that long apart |
| SyncBackoff.UncappedSum | src/integration_connection/mod.rs:125-138 | while uncapped, the first n delays sum to base * (2^n - 1) |
| SyncBackoff.UncappedRun | src/integration_connection/mod.rs:125-181 | in every run under the cap, the n-th failure after the first comes at least base * (2^n - 1) later |
| Base64.DecodeOfEncode | src/utils/base64.rs:3-12 | for all bytes and both alphabets, decoding undoes encoding |
| Base64.EncodeOfDecode | src/utils/base64.rs:3-12 | for all texts that decode, encoding the result gives the text back: padding and unused bits are canonical |
| Base64.DecodesIff | src/utils/base64.rs:3-12 | a text decodes to some bytes if and only if it is their encoding |
| Base64.DecodersAgree | src/utils/base64.rs:3-8 | a text that both decoders accept decodes to the same bytes |
| Base64.EitherIff | src/utils/base64.rs:3-8 | the fallback decodes exactly the two encodings, and its order never matters |
| Base64.SymbolTable | src/utils/base64.rs:3-12 | the alphabets are those of RFC 4648, Tables 1 and 2, in their order |
| Base64.GroupBits | src/utils/base64.rs:3-12 | the four symbols of every three bytes stand for their 24 bits, the highest first |
| Base64.GroupByGroup | src/utils/base64.rs:3-12 | texts are encoded group by group, and a last short group as if zeros followed, with padding |
| Utf8.LossyOfEncoded | src/utils/base64.rs:7 | for every string, the lossy reading of its UTF-8 form is the string |
| Utf8.NothingLostIff | src/utils/base64.rs:7 | for all bytes, the lossy reading loses nothing if and only if they are well-formed UTF-8 |
| Utf8.CharBits | src/utils/base64.rs:7 | the bytes of every character carry its bits as RFC 3629, section 3, lays them out |
| Utf8.AsciiIsItself | src/utils/base64.rs:7 | ASCII text is its own bytes |
| Utf8.LossIsMarked | src/utils/base64.rs:7 | bytes that are not UTF-8 leave a replacement character |
| Utf8.BrokenSequence | src/utils/base64.rs:7 | a broken sequence is given up before the first byte that does not fit, and not earlier |
| PageTokens.DecodeUndoesEncode | src/utils/base64.rs:3-12 | for every string, decoding undoes encoding in the alphabet used and in the one fallen back to |
| PageTokens.DecodesExactlyEncodings | src/utils/base64.rs:3-8 | a text decodes to a string exactly when it encodes bytes that read as it |
| PageTokens.BytesSurviveIff | src/utils/base64.rs:3-12 | bytes can be recovered from the decoded string if and only if they are UTF-8 |
| PageTokens.TokenRoundTrip | src/lib.rs:155-165 | every token's URL parameter reads back as the token, distinct tokens differ, and only URL-safe characters occur |
| DueDates.NumberReads | src/task/mod.rs:273-287 | a run of digits is read whole where it stops or where the field's width does |
| DueDates.ShortFieldReads | src/task/mod.rs:273-285 | a number may have blanks before it and a single digit |
| DueDates.WhitespaceIs | src/task/mod.rs:273-285 | the blanks are those of Unicode's White_Space property |
| DueDates.EarlierAttemptsRefuse | src/task/mod.rs:273-287 | a form with a time is accepted neither as a date nor as a time without seconds |
| DueDates.WithSecondsReads | src/task/mod.rs:277-279 | the second attempt reads a local form to its end and refuses a zoned one |
| DueDates.WithoutSecondsParses | src/task/mod.rs:273-285 | for all numbers of two digits: the form without seconds is read, as that local time at second 0, if there is such a day, hour and minute, and refused otherwise |
| DueDates.DateParsesIff | src/task/mod.rs:273-275 | for all numbers of two digits: a date alone is read if there is such a day, and refused otherwise |
| DueDates.LocalParsesIff | src/task/mod.rs:277-279 | for all numbers of two digits: the form with seconds is read if there is such a day and time, second 60 as a leap second, and refused otherwise |
| DueDates.ZonedParses | src/task/mod.rs:273-288 | for every local time with a four-digit year, any number of digits behind the point and any offset, the zoned form parses to the instant that is the offset earlier in UTC |
| DueDates.ZonedIsRefused | src/task/mod.rs:273-288 | the zoned form is refused by all attempts where there is no such day, time or offset, or the year has no four digits |
| DueDates.ParseIsDue | src/task/mod.rs:270-289 | for every text: what is read is a day, or a day and a time, that there is |
| DueDates.OffsetReads | src/task/mod.rs:286-287 | an offset east of Greenwich counts as positive; one of a day or more is refused |
| DueDates.ZuluReads | src/task/mod.rs:286-287 | UTC has a letter, in either case |
| DueDates.NanosAre | src/task/mod.rs:286-287 | the fraction is the value of its first nine digits over their power of ten, and under one second |
| Calendar.ToUtcSubtracts | src/task/mod.rs:286-287 | for every local time and every offset of whole minutes under a day, the time in UTC is that many seconds earlier, across days, months and years |
| Calendar.NextDayCounts | src/task/mod.rs:286-287 | the next day has the next number counted from year 1 with Gregorian leap years, and the day before it is the day |
| Calendar.CalendarEnds | src/task/mod.rs:286-287 | the calendar holds whole years, from -262143 to 262142 |
| DueDates.ParseOfPrint | src/task/mod.rs:270-300 | for every due date, the printed form parses to the same variant and value without the fraction of a second; zoned dates outside the years 0 to 9999 are refused |
| DueDates.RoundTripIff | src/task/mod.rs:270-300 | a due date survives printing and parsing if and only if its seconds are whole and, if zoned, its year has four digits |
| DueDates.PrintIsInjective | src/task/mod.rs:291-300 | due dates that survive print differently, across variants too |
| SenderProfiles.Collect | api/src/integrations/slack.rs:857-893 | the first loop gathers each embedded id with its last profile, and exactly the listed users and bots |
| SenderProfiles.PartsAre | api/src/integrations/slack.rs:857-893 | a bot counts before a user, and an embedded profile before one to ask for |
| SenderProfiles.LastEmbeddedIs | api/src/integrations/slack.rs:857-893 | the profile kept is embedded somewhere with no other for that id behind it |
| SenderProfiles.Fetch | api/src/integrations/slack.rs:895-950 | the fetching loops resolve ids in order; exactly the ids not already known are asked for, only unknown ids twice, and the loop ends at the first that fails |
| SenderProfiles.ResolveIs | api/src/integrations/slack.rs:895-950 | resolving fails exactly when some id not known yet fails; otherwise it adds the resolvable ids and overwrites nothing |
| SenderProfiles.FetchSenderProfiles | api/src/integrations/slack.rs:848-953 | the keys are exactly the embedded ids and the resolvable listed ones, embedded profiles win, exactly what is listed and not known is asked for, and the call fails exactly when a fetch it needs does |
| Emojis.Search | src/utils/emoji.rs:1-24 | the nested loops with their inner break compute `Answer` of the table |
| Emojis.ShortAnswerIsAll | src/utils/emoji.rs:1-24 | an answer shorter than the limit holds all matches, prefix matches first, in table order |
| Emojis.KindInAnyCase | src/utils/emoji.rs:1-24 | for every shortcode and query, a match is where the lowered query occurs in the lowered shortcode, a prefix match where it starts it |
| Emojis.AnswerIsBestIff | src/utils/emoji.rs:7-23 | for every table of distinct entries and every limit, the answer is the first `limit` of all prefix matches and then all others, if and only if no prefix match due a place is a later shortcode of its emoji with 2 * limit matches before it |
| Emojis.PrefixMatchCanBeMissed | src/utils/emoji.rs:7-23 | three emojis of which a search misses the only prefix match |
| EmojiText.ReplaceEmojiCodes | src/utils/emoji.rs:26-51 | the character loop computes the recursive split on colons, codes being looked up in any case |
| EmojiText.UnknownCodes | src/utils/emoji.rs:26-51 | a text is kept when its colons pair up, and gets another colon at its end otherwise, if no code the loop cuts out of it is known |
| EmojiText.KnownCodeIsReplaced | src/utils/emoji.rs:26-51 | for every text around it, a known code between two colons becomes its emoji, and what follows is read on |
| EmojiText.KnownCodesLoseColons | src/utils/emoji.rs:26-51 | replacing a known code takes more colons away than closing the last code can add |
| EmojiText.UnchangedIff | src/utils/emoji.rs:26-51 | every text is unchanged if and only if no code cut out of it is known and its number of colons is even, for emojis without colons |
| EmojiText.TimeOfDayGrows | src/utils/emoji.rs:26-51 | `10:30` becomes `10:30:` |
| EmojiText.PlainTextStays | src/utils/emoji.rs:26-51 | a text without colons is unchanged |
| MailReconciliation.StaysUnsubscribedIff | api/src/integrations/google_mail.rs:746-860 | an unsubscribed thread stays so exactly when no message is in the inbox, or none from the first unread one on is addressed to the user |
| MailReconciliation.ClearedIsNotListed | api/src/integrations/google_mail.rs:711-785 | reconciling an unsubscribed thread takes it off the listing by the synchronized label exactly if it does not call for the user, and leaves the other threads on it |
| MailReconciliation.ReconcileTwice | api/src/integrations/google_mail.rs:746-785 | synchronizing twice is synchronizing once, whatever the synchronized label |
| MailReconciliation.LastReadAfter | api/src/integrations/google_mail.rs:836-844 | clearing keeps the last reading date unless the synchronized label is the unread mark itself |
| MailReconciliation.StatusIff | api/src/integrations/google_mail.rs:845-860 | for every thread: unsubscribed exactly if no message is in the inbox, read exactly if otherwise none is unread, deleted exactly if otherwise the last one is from the user |
| MailReconciliation.CallsForUserIff | api/src/integrations/google_mail.rs:749-762 | a thread calls for the user exactly if a message is addressed that is unread or comes after an unread one |
| MailReconciliation.AddressedIff | api/src/integrations/google_mail.rs:754-762 | a message is addressed exactly if some `To` header contains the address |
| MailReconciliation.LastReadIs | api/src/integrations/google_mail.rs:836-844 | the last reading is the date of the message before the first unread one |
| MailReconciliation.RemovalKeepsRest | src/third_party/integrations/google_mail.rs:157-167 | removing labels leaves everything else of a thread |
| MailReconciliation.Mailbox.CallsFor | api/src/integrations/google_mail.rs:749-762 | the search from the first unread message on decides whether a message calls for the user |
| MailReconciliation.Mailbox.FetchItems | api/src/integrations/google_mail.rs:734-800 | local and upstream labels change together, also for a thread listed twice: the mailbox then holds each listed thread reconciled and all others as they were, and that is what is answered; the call fails exactly when a thread to clear is refused, with the threads before it reconciled |
| BulkActions.ValidateListModeEntries | api/src/mcp/tools.rs:578-612 | succeeds exactly on 1 to 100 entries with distinct ids; otherwise names the count, or each repeated id once in order of second occurrence |
| BulkActions.RepeatedOnce | api/src/mcp/tools.rs:593-599 | the ids named are exactly those that occur twice or more, each once |
| BulkActions.NoRepeatsIff | api/src/mcp/tools.rs:593-599 | none is named exactly when all ids are distinct |
| BulkActions.PatchFromAction | api/src/mcp/tools.rs:495-524 | a patch sets exactly one field: the status each action names, or the snooze date given; it fails exactly when a snooze has no date |
| BulkActions.Select | api/src/mcp/tools.rs:556-567 | one patch for each entry in the same order, or nothing at all, with the exact condition |

## Left out

Assumptions, all of them parameters or explicit hypotheses of the model:

- CSS header expressions: the regular expressions that read a header (class names, keyframes and utility names, animations) are a `Tokenizer` parameter, so every result holds for any tokenizer.
- CSS class references: the classes in use, found by scanning Rust and HTML, are an input.
- CSS file reading: positions are code points of the decoded text; newline translation on reading is not modelled.
- CssAudit.ApplyIsFinal: gives a sufficient condition for an empty second run. What the second run reads is settled exactly by `CssAudit.ReparseApplied`; which of the changed selectors are then dead depends on the tokenizer.
- Keyframes after `--apply`: references are collected from deleted rules too, so one pass is not final for keyframes; only rules are claimed.
- Todoist: a read sees earlier writes, the memo computes its key before it calls the function, nobody else edits projects, user ids print as 36 characters and base URLs do not start with a digit. The per-key write lock of the memo is not used: the results hold without it, and the runs that show duplicates keep to it. The counter does not wrap.
- Redis: a key is alive before its expiry instant and gone from it on; the clock does not go back; a zero expiry is refused.
- Cron ticks: the schedule itself, and the execution of pushed jobs by the worker pool, are not modelled.
- Job vacuum: events between batches use ids that are not in the done set and complete after the cutoff, as completion times only grow.
- Dark canvas: colour arithmetic is over the reals, not floating point; backgrounds do not depend on text colours; the choice of the canvas background (web/js/index.js:191-225) is left out.
- `TimeDelta` and dates: chrono's limit in seconds is a constant of the model, the first and last representable instants parameters of the gate.
- Due dates: chrono's readers are modelled from their documented behaviour; a leap second occurs at second 59 only, and is not counted by the shift to UTC.
- Base64: error values of the decoders are not told apart.
- JSON of page tokens: a parameter that reads back what it prints.
- Slack: answers are the same for the same id; log lines and error texts are not modelled.
- Emoji table and lower-casing: parameters; no emoji contains a colon; the product `limit * 2` does not wrap.
- Gmail: threads do not change upstream between listing and reconciling; turning a thread into a calendar event is left out.
- Bulk actions: ids are numbers; the filter mode is left out, since it resolves nothing but empty lists into constants.

Not modelled at all: HTTP, database and OAuth plumbing, telemetry, the web user interface, due date
presets, time zone data, and provider conversions.
