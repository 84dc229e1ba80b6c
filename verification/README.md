# Weasyl, modelled in Dafny

Weasyl is a gallery web site: Python on PostgreSQL, an image worker in C, asset building and page scripts in
TypeScript and JavaScript.  This project models the parts of it that are algorithms or state machines in their own
right, and proves what they are for.  `dafny verify dfyconfig.toml` checks all of it.

Every module has the same shape.  *Specification functions* say what the code computes, on values.  *Lemmas* prove
what that means: invariants over every run, round trips, orders, bounds, exact conditions.  *Methods* are the code's
own loops and updates, on objects, arrays and lists where the code has them, each proved equal to its specification.

| module | what it models |
|---|---|
| `TopologicalOrder` | the depth-first ranking of asset tasks, and the loop that uses the ranks |
| `WatchMode` | the incremental rebuild machine: reports, debounce timer, one build at a time, failures, rescans |
| `Markup`, `UserLinks`, `Defang` | lxml trees; links to users put into text and tails; elements unwrapped and attributes cleaned |
| `TokenBucket` | the rate limit kept in one table row |
| `ImageGeometry` | cropping and resizing in 16-bit integers |
| `Decimal`, `WorkerProtocol` | decimal numerals; the text protocol between the site and the image worker, both ends of both directions |
| `ThumbnailGrid` | the row breaker, how far its answer stays valid, and the container queries |
| `FlashRect` | the bit fields of a SWF header |
| `Namespace` | usernames, aliases, signups and redirects |
| `CommentThread` | threading comments |
| `SearchQuery` | search queries: reading, cleaning up, printing, meaning |
| `Pagination` | pages by cursor |
| `SettingsCodec` | settings packed into strings |
| `Friends` | friendships and their notices |
| `TagMap` | the tags of a submission: the artist's, suggestions, decisions, undo |
| `Options`, `Numbers`, `Lists`, `Splitting`, `Sorting` | an option type; minimum and maximum; reversal; cutting strings; sorted lists |

Findings, each with its exact condition:

- The loop at build.ts:908 iterates over *ranks* as if they were task indices.  For task lists in which a task has at
  most one dependency listed after it, and that one depends only on what is listed before them both, the loop reaches
  every task after its dependencies if and only if no task listed between the two ends of such a late dependency needs
  its first end or has a late dependency itself (`LoopIsRightExactly`).  The list in the program meets this
  (`TaskListIsRight`); two tasks that need a later third do not (`LoopCounterexample`).
- A `rescan` that is acted on after a failed build invalidates nothing, because `watchMap` is empty then: at once, if
  it comes while nothing runs, or at the end of a failing build, if it comes during that.  In every run changes are
  lost exactly to such rescans: a run that reads something and began before one stays stale (`ChangesLostExactly`).
  The next good build repairs that if and only if no run that was kept reads an input
  (`RescanAfterFailureIsLost`); `ChangeCanBeLost` is a run in which it does not.
- A layout of the thumbnail grid is right *above* a soft `m_minWidth` and *from* a hard one on (`ValidExactly`).  The
  page shows each layout down to the next one it has, which may be lower: one pixel for a soft bound
  (`SoftBoundIsShown`), and further where layouts are skipped or discarded.  `LayoutRanges` states at exactly
  which widths the layout shown is the layout of that width; elsewhere it can differ by many rows, but is one made for
  less than `2 * STEP_MIN` more.
- Cleaning up a search query can change what it means (`CleanUpCanNarrow`); `CleanUpMeaning` says for which queries it
  does not.
- A page offers its neighbours exactly where there are any for every cursor that falls between two items
  (`EndsAreTrueExactly`); a cursor above all keys does not (`CursorAboveAll`).
- `url_type` reads the first code for a feature and the decoder keeps the last (`UrlTypeAgrees`, `UrlTypeCanDiffer`).
- Ignoring a user deletes the friendship but not its notice (`IgnoreExact`, `IgnoringDoublesNotices`); nothing else
  does that (`RunNotices`).
- The rate limit rounds down what is earned at every grant, so that a bucket that never fills up can grant as little as
  half of what the time is worth; `TokensBalance` and `RefusedOnlyWhenUsed` say how much is lost at most.
- Rounding the seconds since a change of name makes the 30 days half a second shorter (`LimitExactly`).
- Rejecting a suggestion and undoing that leave the tag index alone, so that it can miss a tag (`IndexAfter`,
  `IndexCanMissTag`), but only one that was decided on since all tags were last written (`RunIndex`); undoing also
  deletes feedback that was there before (`UndoAtOnce`).

Where the documentation in the source says something else than its code, the model follows the code: `LimitOne` is
documented to queue a run, but a call during a run only waits for the next call; `getTopologicalOrder` is used as if
it returned tasks in order.

## Model

| member | source | states |
|---|---|---|
| TopologicalOrder.RankCorrect | build.ts:805-844 | the search succeeds exactly on acyclic graphs whose dependencies are all tasks; then the ranks are a permutation in which every dependency is below its dependent; an error names a fault that the graph has |
| TopologicalOrder.VisitCorrect | build.ts:812-837 | one call of `traverse`, from any consistent state: it finishes the task and what it needs, keeps all ranks given before, and fails only with cause |
| TopologicalOrder.StackClosesCycle | build.ts:818-820 | meeting a task in progress means that the graph has a cycle |
| TopologicalOrder.RanksFallAlongPath | build.ts:835-836 | ranks strictly fall along every path of dependencies, so there is no cycle among ranked tasks |
| TopologicalOrder.GetTopologicalOrder | build.ts:805-844 | the program with its shared array: terminates on every graph, returns the ranking, and where all dependencies are tasks reports a cycle exactly if there is one |
| TopologicalOrder.Ranker.Traverse | build.ts:812-837 | the recursive in-place search leaves array and counter as the specification says |
| TopologicalOrder.InverseIsDependenciesFirst | build.ts:908-917 | iterating over the tasks *by rank* would reach each after its dependencies |
| TopologicalOrder.RankedUpTo | build.ts:840-842 | for such a list, as long as nothing is tangled, the search gives late dependencies the ranks of their dependents and moves what is between one up |
| TopologicalOrder.LoopIsRightExactly | build.ts:908-917 | where late dependencies are shallow, the loop reaches each task after its dependencies if and only if no task between the two ends of one needs its first end or has a late dependency itself |
| TopologicalOrder.TangledIsWrong | build.ts:908-917 | the other half: a task between the ends that does so is run too early |
| TopologicalOrder.OrderOfDependenciesMatters | build.ts:826-834 | with two late dependencies of one task it depends on their order whether the loop is right |
| TopologicalOrder.TaskListIsRight | build.ts:740-800 | the loop is right for the task list of the program, in which `ruffle` is listed after `js/flash.js` |
| TopologicalOrder.ListedInOrder | build.ts:896-917 | if every task is listed after its dependencies, ranks and indices coincide and the loop is right |
| TopologicalOrder.LoopCounterexample | build.ts:908-917 | two tasks that depend on a third are ranked 1, 2 and 0, and the loop starts with one of the dependents |
| WatchMode.ChangesLostExactly | build.ts:901-1110 | for every run of reports, timers and builds, with nothing excluded: in each state that is idle after a good build, every run began after the last reported change to its inputs, or is null with the timer set, if and only if no run that reads an input began before the last missed rescan; the timer never fires into a running build |
| WatchMode.NoChangeIsLost | build.ts:901-1110 | so in runs without a rescan that is acted on after a failure no change is ever lost |
| WatchMode.ExactFrom | build.ts:989-1110 | the same from any state that satisfies the invariant |
| WatchMode.SafeFrom | build.ts:989-1110 | and without such rescans, from any state that none was missed before |
| WatchMode.RunsAreDroppedExactly | build.ts:901-1110 | in every run each step drops exactly the runs it should: between good builds a report drops a run if and only if that reads one of the paths, or reads anything and it is a rescan, and sets the timer only if it drops one or is the first rescan; the end of a good build does so for what was reported since its start; the end of a bad one drops all or none; and a build starts exactly the null runs it reaches |
| WatchMode.StepDropsExactly | build.ts:989-1110 | the same of one step, from any state in which `watchMap` lists no task under a path that it does not read |
| WatchMode.ReactDrops | build.ts:1020-1066 | after a good build the check drops a run if and only if what was noted makes it stale, and sets the timer only for that or a rescan |
| WatchMode.TimerStartsExactly | build.ts:901-917 | a build starts the null runs among those it reaches and leaves all others |
| WatchMode.ReportInv | build.ts:1068-1104 | a watcher event, whichever it is, keeps the invariant, during a build or between builds |
| WatchMode.TimerInv | build.ts:247-259 | `LimitOne.run` is never entered while it runs, and starting a build keeps the invariant |
| WatchMode.BuildEndsInv | build.ts:998-1003 | the end of a build, good or bad, with the check for changes during it, keeps the invariant |
| WatchMode.ReactKeepsUp | build.ts:1020-1066 | after a good build the check invalidates every run that noted changes make stale |
| WatchMode.ChangeAfterFailure | build.ts:1023-1042 | after a failed build the next reported change invalidates every task and sets the timer; after a missed rescan it is dropped |
| WatchMode.RescanAfterFailureIsLost | build.ts:1023-1034 | a rescan is missed, while idle or at the end of a failing build, any reports follow, and a build succeeds: changes are lost if and only if a run that was kept reads an input |
| WatchMode.ChangeCanBeLost | build.ts:1023-1034 | a run in which that happens, from the first build on |
| WatchMode.Watcher.NoteReport | build.ts:1070-1097 | what an event adds to `changes` and `changesUnknown` |
| WatchMode.WatchMapAt | build.ts:929-941 | `watchMap` lists under a path exactly the tasks whose run reported it as input |
| WatchMode.Watcher.DebouncedRebuildIfNeeded | build.ts:1020-1066 | the loops over `watchMap` and `changes` in place make the state that `React` says |
| WatchMode.Watcher.StartRuns | build.ts:901-917 | the loop that starts null runs, cut short where one throws |
| WatchMode.Watcher.RecordInputs | build.ts:922-942 | the nested loops over results and inputs fill `watchMap` as specified |
| WatchMode.Watcher.FinishRuns | build.ts:919-980 | success and failure of `rebuild` after its first await |
| WatchMode.Watcher.FirstBuild | build.ts:901-981 | the build before anything is watched, from empty fields |
| WatchMode.Watcher.OnReport | build.ts:1068-1110 | one turn of the event loop is a `Report` step and keeps the fields valid |
| WatchMode.Watcher.OnTimer | build.ts:247-259 | the timer's call of `run`, up to the first await, is a `TimerFires` step |
| WatchMode.Watcher.OnBuildEnd | build.ts:998-1003 | the rest of the action is a `BuildEnds` step |
| UserLinks.PieceByPiece | libweasyl/text.py:146-225 | the pieces that the expansion reads spell out the content exactly, and the result is their expansions in the same order: nothing dropped, repeated or moved |
| UserLinks.EscapedTextIsLiteral | libweasyl/text.py:29-32 | every text can be escaped so that it comes out as itself |
| UserLinks.TokenAtExactly | libweasyl/text.py:29-32 | where the pattern matches, for any text: an escape exactly where a backslash is followed by a backslash or `<`; a link exactly where `<`, one of `~`, `!` and `!~`, a name and `>` stand, with that sigil and that name |
| UserLinks.LinkExpands | libweasyl/text.py:150-163 | for each of the three, every name and anything after it, what is written as a link becomes the one node of that link, and what follows is expanded by itself |
| UserLinks.EscapeExpands | libweasyl/text.py:160-161 | an escaped character becomes that character, whatever follows |
| UserLinks.LetterExpands | libweasyl/text.py:150-171 | a letter at which neither an escape nor a link begins stays as it is |
| UserLinks.LinkShows | libweasyl/text.py:115-143 | the link of a name goes to the user's page and shows the name as written, the icon with the name as its text, or icon and name; what is no name is shown as it was written, marked as invalid |
| UserLinks.AsciiNames | libweasyl/text.py:31-32 | of ASCII, names are made of letters, digits and underscores |
| UserLinks.NodeExpands | libweasyl/text.py:203-206 | `a`, `pre` and `code` elements stay as they are; all others keep tag and attributes, and their content is expanded |
| UserLinks.ExpandRunThen | libweasyl/text.py:150-171 | tokens never reach across an element: a run of text expands by itself |
| UserLinks.ExpandSiblings | libweasyl/text.py:203-206 | a list of siblings expands element by element, each followed by its own tail, with `a`, `pre` and `code` closed |
| UserLinks.NextMatch | libweasyl/text.py:150-151 | the search for the next match skips only text that expands to itself |
| UserLinks.Surgery.GotLink | libweasyl/text.py:173-201 | both callbacks append the pending text and one link to what is written, and leave the later siblings alone |
| UserLinks.Surgery.AddMatches | libweasyl/text.py:147-171 | the loop over the matches writes the expansion of the text; without a match it changes nothing and the text is its own expansion |
| UserLinks.ExpandChildren | libweasyl/text.py:203-206 | the loop over a copy of the children, which grow meanwhile, leaves the expansion of their content |
| UserLinks.ExpandText | libweasyl/text.py:208-217 | links in an element's own text, put before its children |
| UserLinks.ExpandTail | libweasyl/text.py:219-225 | links in a tail, put after the element in the parent's list |
| UserLinks.AddUserLinks | libweasyl/text.py:146-225 | the element and its tail, rewritten in the parent's list, read as their expansion, and the other siblings stay as they are |
| TokenBucket.AvailableInRange | weasyl/rate_limits.py:40-49 | in every run `available` stays within 0 and `capacity` |
| TokenBucket.GrantsArePaidFor | weasyl/rate_limits.py:40-49 | from any state the first grants number at most what was available plus what was earned until the last of them |
| TokenBucket.WindowBound | weasyl/rate_limits.py:13-16 | grants number i to j of any run with a clock that does not go back: `j - i + 1 <= capacity + floor((t_j - t_i) * capacity / period)` |
| TokenBucket.DocumentedBounds | weasyl/rate_limits.py:13-16 | at most `2 * capacity` grants in a span of `period`, and the average rate converges to at most `capacity / period` |
| TokenBucket.WorthIsSuperadditive | weasyl/rate_limits.py:38-39 | rounding down never lets more be earned by asking more often |
| TokenBucket.EmptyBucketGrants | weasyl/rate_limits.py:45 | an empty bucket grants if and only if `period / capacity` seconds have passed |
| TokenBucket.RefusedThenGranted | weasyl/rate_limits.py:45-52 | a caller who is refused succeeds after `period / capacity` seconds without another success |
| TokenBucket.FirstAttemptsGranted | weasyl/rate_limits.py:40-49 | with `k` tokens available the first `k` attempts of any run are granted |
| TokenBucket.StockIsGranted | weasyl/rate_limits.py:40-49 | so are as many as the first attempt finds: what is available and earned by then, up to `capacity` |
| TokenBucket.AfterPeriodGranted | weasyl/rate_limits.py:13-14 | `period` seconds after the last grant any `capacity` attempts in a row are granted: the bucket fills up |
| TokenBucket.BurstExactly | weasyl/rate_limits.py:40-49 | attempts within one second are granted as long as the stock lasts, and not one more |
| TokenBucket.TokensBalance | weasyl/rate_limits.py:40-49 | in every run grants, what is left and what spilled over `capacity` add up to what was there and what was earned; what is earned falls short of the worth of the time by less than one token per grant |
| TokenBucket.RefusedOnlyWhenUsed | weasyl/rate_limits.py:40-49 | a bucket that never spilled refuses only when its grants have used up what was there and at least half of what the time is worth together: with `GrantsArePaidFor` both sides of the bound |
| TokenBucket.NoOverflow | weasyl/rate_limits.py:25-35 | no intermediate value leaves its SQL type for clock values up to 2^33 |
| TokenBucket.Row.TakeOne | weasyl/rate_limits.py:37-54 | the guarded update of the row |
| ImageGeometry.ScaledIsNearest | badgr/worker.c:82-90 | scaling by m / d < 1 is within half a unit and never enlarges |
| ImageGeometry.Scale | badgr/worker.c:83-90 | in `int16_t` arithmetic, without overflow, under exactly the assertion of the source |
| ImageGeometry.SecondLimitKeepsFirst | badgr/worker.c:328-336 | rescaling for the height cannot break the limit on the width |
| ImageGeometry.FitCorrect | badgr/worker.c:325-339 | the result is at least 1x1, within box and image, untouched exactly if it fits, and else one side is at its limit while the other keeps the aspect ratio within half a pixel or is 1 |
| ImageGeometry.AutocropCorrect | badgr/worker.c:96-128 | the automatic crop lies in the image, and makes a thumbnail of height `min(h, 250)` and width from `min(w, 125)` to 500 |
| ImageGeometry.AutocropExactly | badgr/worker.c:96-128 | which images are cropped, and how: down to 2:1 with equal margins left and right, or down to 1:2 from the top, but never below 500 wide or 250 high |
| ImageGeometry.CroppedExactly | badgr/worker.c:266-290 | a crop is applied if and only if every pixel of it is one of the image |
| ImageGeometry.AutocropThumbnail | badgr/worker.c:96-128 | the same crop in 16-bit arithmetic, for all sizes up to `DIM_MAX` |
| ImageGeometry.ApplyCrop | badgr/worker.c:259-290 | crops, or skips an empty or out-of-bounds crop, without overflow in the bounds checks |
| ImageGeometry.FitInto | badgr/worker.c:325-339 | the reassignments of the resize block compute the specified size; `scale` is only called within its assertion |
| ImageGeometry.Resize | badgr/worker.c:256-339 | from measured image to output size, refusing exactly the images over `DIM_MAX` |
| ImageGeometry.OutputCorrect | badgr/worker.c:256-339 | for every accepted image and operation: at least 1x1, never enlarged, in the box of the operation; thumbnails without a crop have the documented proportions |
| ImageGeometry.OutputFills | badgr/worker.c:292-339 | for each operation: within its limits in pixels, untouched if it fits, at one of the limits if not; only thumbnails and avatars are cropped |
| ThumbnailGrid.RulesPartition | assets/js/thumbnail-grid.js:69-98 | the rules are full rows one after another without gaps, each as short as possible, then a leftover row, the end, or a cutoff; under a limit exactly that many rows |
| ThumbnailGrid.HiddenAfterLimit | assets/js/thumbnail-grid.js:84-88 | items are hidden after exactly as many rows as are allowed, never without a limit, and there are never more rows |
| ThumbnailGrid.LimitOfLayout | assets/js/thumbnail-grid.js:39-44 | that limit is the narrow one up to 480 pixels and the wide one beyond |
| ThumbnailGrid.NaturalWidths | assets/js/thumbnail-grid.js:23-70 | a layout takes an item of unknown width for a square one, and one narrower than 125 for one of that width |
| ThumbnailGrid.SameRowEnd | assets/js/thumbnail-grid.js:78-81 | a narrower container breaks a row at the same item if and only if the items before it do not fill it |
| ThumbnailGrid.RulesAgree | assets/js/thumbnail-grid.js:66-98 | two widths get the same rules if and only if nothing wraps earlier and no row beyond the limit appears |
| ThumbnailGrid.ValidExactly | assets/js/thumbnail-grid.js:100-117 | a narrower container has the same layout if and only if it is wider than `m_minWidth`, or as wide where that is hard |
| ThumbnailGrid.WidestFits | assets/js/thumbnail-grid.js:79-94 | no row is as wide as the container before its last item, so the outer loop always gets narrower |
| ThumbnailGrid.GetLayout | assets/js/thumbnail-grid.js:39-118 | the loop with `row`, `rowWidth` and `commitRow` computes the specified rules, bound and hardness |
| ThumbnailGrid.ExactlyOneApplies | assets/js/thumbnail-grid.js:159-170 | at every container width exactly one of the container queries applies |
| ThumbnailGrid.KeptLayoutServes | assets/js/thumbnail-grid.js:142-146 | a layout that is kept suits every width down to the next one: it is made for less than `STEP_MIN` more |
| ThumbnailGrid.CoveredAfterPush | assets/js/thumbnail-grid.js:135-146 | pushing a layout keeps the invariant of the outer loop |
| ThumbnailGrid.CoveredAfterDiscard | assets/js/thumbnail-grid.js:146-150 | so does discarding one at the breakpoint |
| ThumbnailGrid.SoftBoundIsShown | assets/js/thumbnail-grid.js:142-146 | two items whose layout is shown at its soft bound, where the layout of that width is another |
| ThumbnailGrid.LayoutRanges | assets/js/thumbnail-grid.js:120-170 | the outer loop ends with maxima at least `STEP_MIN` apart from 1650 down; at each width from 420 on the layout shown is made for that width or less than `2 * STEP_MIN` more; and at each width it is the layout of that width if and only if the bound it was computed with allows it |
| FlashRect.ShiftAndMask | libweasyl/flash.py:100-102 | shifting and masking split a number into the bits it was made of |
| FlashRect.LastField | libweasyl/flash.py:100-102 | masking the buffer gives the last of the fields in it, and shifting removes it |
| FlashRect.ReadBuffer | libweasyl/flash.py:93-95 | the byte loop leaves the bits after the width in the buffer, as far as the stream has them |
| FlashRect.TakeFields | libweasyl/flash.py:99-102 | the loop over the reversed names recovers the four fields |
| FlashRect.ParseRect | libweasyl/flash.py:88-107 | on every stream: the error at its end, the check of the origin, and else the size in the bit fields; a zlib stream that stops too early reads as if the missing bits were zeros right after the width |
| FlashRect.ShiftAndTake | libweasyl/flash.py:96-102 | the stray bits of the last byte are shifted out, then the fields are taken |
| FlashRect.UnpackPack | libweasyl/flash.py:94-95 | the bits of packed bytes are the bits |
| FlashRect.RoundTrip | libweasyl/flash.py:88-102 | for every width below 32, four values that fit, and any padding and further bytes, the fields read are the values written |
| FlashRect.SizeArrives | libweasyl/flash.py:99-107 | of such a record the size is read with twenty units to a pixel, and it is refused if and only if it does not begin at the origin |
| Namespace.TakenIsHeld | weasyl/login.py:356-363 | `username_exists` holds exactly of the names that some login, alias, signup or active redirect has |
| Namespace.RunInv | weasyl/login.py:200-456 | in every run of signups, verifications, expiry, changes, releases and aliases each name has one owner, each user one active redirect, and history is in order |
| Namespace.RenameInv | weasyl/login.py:407-450 | a change that is not cosmetic keeps that invariant although the old name moves to a redirect |
| Namespace.VerifyInv | weasyl/login.py:317-343 | verification hands a name from the signup to the account |
| Namespace.AliasInv | weasyl/useralias.py:10-19 | setting an alias keeps the invariant |
| Namespace.LookupIsUnique | weasyl/define.py:434-445 | a lookup by name finds at most one user, and never a name reserved by a signup |
| Namespace.CreateExactly | weasyl/login.py:221-266 | a signup is accepted if and only if nothing but expired signups holds its name, and then is pending with its names, its mark and its time |
| Namespace.VerifyExactly | weasyl/login.py:297-343 | verification succeeds if and only if the token has a signup that is not invalid and at most two days old, and the id is new; then the account has the names of the signup, and else nobody has another name |
| Namespace.OtherSignupsStay | weasyl/login.py:200-204 | every other signup stays exactly as long as it is at most two days old |
| Namespace.SignupCanBeVerified | weasyl/login.py:207-343 | in every run a signup with an unused address can be verified for two days, whatever happens to other names, unless it was verified before; and then gives the account the names asked for |
| Namespace.AccountsAreSignedUpFor | weasyl/login.py:207-343 | every account that a run makes comes from a signup in it, with an unused address, at most two days before, and has its names; so signups with used addresses never become accounts |
| Namespace.OldNameStillFound | weasyl/login.py:407-441 | after a change that is not cosmetic the new name finds the user, and so does the old one in every later state until it is released or changed again |
| Namespace.RedirectStaysInRun | weasyl/login.py:366-376 | nothing else ends a redirect |
| Namespace.RenameExactly | weasyl/login.py:381-456 | a change of name is refused if and only if anything but the user's own redirect holds the name, or the limit applies; else the user has the names, the old name redirects and no older one does, other redirects stay, and the change is recorded |
| Namespace.CosmeticExactly | weasyl/login.py:381-456 | a change of display only is never refused, is recorded as cosmetic and leaves all redirects |
| Namespace.NothingToRename | weasyl/login.py:381-386 | without a change of display nothing happens, and without a user there is an error |
| Namespace.ReleaseExactly | weasyl/login.py:366-376 | a release ends the redirect of that user, and no other |
| Namespace.AliasExactly | weasyl/useralias.py:10-19 | an alias is set if and only if the user has premium and the name is free or empty; it replaces the alias set so before and no other |
| Namespace.LimitExactly | weasyl/login.py:391-405 | a change is refused as too recent if and only if the user has a change in the table, not cosmetic, that is less than 30 days old, less half a second for the rounding of the seconds |
| Namespace.ThirtyDays | weasyl/login.py:391-405 | a change without the bypass comes that long after every earlier one of that user in the table that was not cosmetic |
| Namespace.RecordedInRun | weasyl/login.py:426-433 | the table records every such change, and no operation removes the record |
| Namespace.ChangesAreApart | weasyl/login.py:381-456 | in every run with a clock that does not go back, a change of a user's name and a later one of the same user without the bypass are that far apart, whatever happens between them |
| Namespace.LimitAllows | weasyl/login.py:401-405 | where all such changes are that old the limit does not refuse, whatever else is in the tables |
| Namespace.Database.Create | weasyl/login.py:207-266 | expiry, the check, and a valid or a dummy signup |
| Namespace.Database.Verify | weasyl/login.py:297-343 | expiry, a missing or invalid signup, the new account |
| Namespace.Database.ReleaseUsername | weasyl/login.py:366-376 | the update of the history rows |
| Namespace.Database.Rename | weasyl/login.py:381-456 | the transaction with its errors; an error rolls the release back |
| Namespace.Database.SetAlias | weasyl/useralias.py:10-19 | check, delete and insert |
| CommentThread.EachShownOnce | weasyl/comment.py:26-68 | for any parent links, missing, forward or cyclic, the output holds each comment whose ancestors were accepted before it exactly once, and no other |
| CommentThread.SiblingsInOrder | weasyl/comment.py:63-66 | siblings keep the order of the query; only the top level is turned around on request |
| CommentThread.IndentationShowsParents | weasyl/comment.py:46-61 | reading the indentation of the output alone recovers the parent of every comment: it is preorder, indented by depth |
| CommentThread.HiddenWithAncestors | weasyl/comment.py:55-61 | a comment is shown as hidden if and only if it or an ancestor is hidden |
| CommentThread.PlaceExactly | weasyl/comment.py:28-33 | a comment is shown if and only if it is at the top level or its parent is shown and comes before it |
| CommentThread.OutputExactly | weasyl/comment.py:26-68 | of the output by itself: each entry has id and text of a row; if it is indented, the last entry above that is indented less is its parent, one step to the left; and it is hidden if and only if it or that parent is |
| CommentThread.AddWithDescendants | weasyl/comment.py:55-61 | the recursive walk over `by_parent` appends exactly the subtrees in preorder |
| CommentThread.ThreadComments | weasyl/comment.py:19-68 | both halves of `thread`, with its dictionary, for any rows with distinct ids |
| WorkerProtocol.CoordCorrect | badgr/worker.c:495-516 | exactly the decimal forms of 0 to 32767 are coordinates, each of its number |
| WorkerProtocol.ParseCoord | badgr/worker.c:496-516 | the digit loop computes that, reading no further than the NUL |
| WorkerProtocol.ParseArgs | badgr/worker.c:521-572 | the operation or the error for any arguments |
| WorkerProtocol.Tokenise | badgr/worker.c:598-615 | the buffer is cut in place into the words between the spaces, refused exactly if there are more than five |
| WorkerProtocol.Begin | badgr/worker.c:586-620 | for any input at all, embedded NULs included: reads one line and starts the operation or answers `bad-cmdline` |
| WorkerProtocol.WordsArrive | badgr/worker.c:586-615 | a line of words that fits the buffer reaches the worker as those words, and the rest as the image |
| WorkerProtocol.CropArrives | weasyl/image.py:189-202 | for any four integers the command fits and the worker starts on the crop that was meant, or on the empty crop |
| WorkerProtocol.FixedCommandArrives | weasyl/image.py:205 | the commands without numbers arrive too |
| WorkerProtocol.ParseExactly | badgr/worker.c:521-572 | each operation has exactly one list of arguments: its name, and the decimal forms of its crop |
| WorkerProtocol.StartsExactly | badgr/worker.c:586-620 | over all inputs: the worker starts on an operation and an image if and only if the input is the command of that operation, if no longer than the longest that is foreseen, a line feed and the image |
| WorkerProtocol.CheckDimCorrect | weasyl/image.py:127-131 | exactly the decimal forms of 1 to 99999 are dimensions |
| WorkerProtocol.ReadFieldExact | weasyl/image.py:120-124 | a header line is read if and only if it is the header, a value and a line feed within the limit |
| WorkerProtocol.AnswerArrives | weasyl/image.py:153-186 | the client accepts a stream as an answer if and only if it is what the worker prints for it, and recovers formats, sizes and image whole, whatever bytes the image contains |
| WorkerProtocol.UnsupportedExactly | weasyl/image.py:154-159 | `UnsupportedFormat` is raised exactly for the answers that begin with that line |
| SearchQuery.TagsAreNormalForms | weasyl/forms.py:79-100 | the tags that can be read are exactly the normal forms that `expect_tag` accepts |
| SearchQuery.NormalizedIsRead | weasyl/forms.py:79-93 | reading a normal form gives itself |
| SearchQuery.OthersDoNotCount | weasyl/forms.py:79-93 | characters other than ASCII letters, digits and underscores can be left out anywhere in a tag |
| SearchQuery.UnderscoresCollapse | weasyl/forms.py:88 | so can all but one of underscores in a row, and those at the ends |
| SearchQuery.CaseDoesNotCount | weasyl/forms.py:93 | a tag is read the same in lower case |
| SearchQuery.GroupsAreRead | weasyl/forms.py:88-93 | what these three laws leave is read as it is, unless it is empty or too long; together they determine the reading of every string |
| SearchQuery.SysnameExactly | weasyl/forms.py:54-66 | a folded name is read without its characters other than letters and digits, and is none if that is empty or longer than 25 |
| SearchQuery.CriteriaAreClean | weasyl/search.py:131-133 | no criterion has a delimiter, so that the assertion in `parse_tag` never fails |
| SearchQuery.CriteriaSplit | weasyl/search.py:41 | a query is cut at each space, tab, line break, comma and semicolon, whatever is around it, and at no other visible ASCII character |
| SearchQuery.AddedExactly | weasyl/search.py:70-104 | one criterion adds to each of the sets exactly what it asks for there, and fails exactly on a tag that is too long |
| SearchQuery.ParsedExactly | weasyl/search.py:70-147 | over all query strings, from the criteria alone: users with `user:` and `+user:` alike, and without them; ratings; the last kind of works asked for, or the default; and of tags required before excluded before possible, an only possible one required; it fails exactly if a tag is too long |
| SearchQuery.ParsedIsWellFormed | weasyl/search.py:124-147 | every parsed query has disjoint required, possible and excluded tags, never exactly one possible tag, and only normal names |
| SearchQuery.TermsRoundTrip | weasyl/search.py:115-122 | the printed terms of every well-formed query are parsed as the same five sets |
| SearchQuery.TermsAreNormal | weasyl/search.py:115-147 | so what any query string prints as, once parsed, is parsed and printed as itself |
| Sorting.LeqExactly | weasyl/search.py:116-121 | the order of the printed terms: a string before those that it begins, else by the first character that differs |
| SearchQuery.CleanUpMeaning | weasyl/search.py:135-140 | the clean-up keeps which works match, over all sets of tags, if and only if no tag is both required and excluded, and the possible tags overlap the required ones exactly if they lie within the required and excluded ones |
| SearchQuery.NormalizedIsSatisfiable | weasyl/search.py:135-140 | a cleaned-up query is never contradictory |
| SearchQuery.CleanUpCanNarrow | weasyl/search.py:124-147 | the query string "a \|a \|b" asks for a, and is parsed as asking for a and b |
| SearchQuery.Query.AddCriterion | weasyl/search.py:70-104 | the update of the sets for any criterion, and `tagTooLong` |
| SearchQuery.Query.CleanUp | weasyl/search.py:135-143 | the set differences, the `pop` and the default in place |
| SearchQuery.Query.Parse | weasyl/search.py:124-147 | the loop over the pieces |
| Defang.DefangedIsSafe | libweasyl/defang.py:176-205 | at every depth each element left has an allowed tag and only attributes permitted for that tag |
| Defang.DefangedKeepsMarks | libweasyl/defang.py:176-205 | text, and order and nesting of the elements that are kept, are those of the input, and their attributes are the cleaned ones |
| Defang.AttributesPermitted | libweasyl/defang.py:182-200 | of any attributes only permitted ones are left: allowed names, cleaned addresses in their place, a declared colour as style, allowed classes |
| Defang.AllowedStyleExactly | libweasyl/defang.py:73-82 | a style is allowed if and only if it is `color:` in any case, `#`, three or six hexadecimal digits and at most one semicolon, with blanks before, between and after |
| Defang.AttributeStays | libweasyl/defang.py:182-200 | every attribute that may stay is there: unchanged, with its address cleaned, or with exactly those of its classes that are allowed |
| Defang.AttributeComesFrom | libweasyl/defang.py:182-200 | apart from the mark on links every attribute that is there comes from one that may stay |
| Defang.LinksMarkedExactly | libweasyl/defang.py:185-189 | a link is marked if and only if it leads out, nothing else has a `rel`, and no name is there twice |
| Defang.LinksOutAreMarked | libweasyl/defang.py:185-189 | every address that is left is a cleaned one, and marked `nofollow ugc` unless it stays on the site |
| Defang.TwoLoops | libweasyl/defang.py:182-200 | sifting all attributes first and setting the cleaned ones afterwards comes to cleaning them one by one |
| Defang.CleanAttributesOf | libweasyl/defang.py:182-200 | deletes and sets attributes in place while it goes over a copy |
| Defang.DropTag | libweasyl/defang.py:204-205 | unwrapping a child leaves its content where it was, in text, tails and child list |
| Defang.DefangChildren | libweasyl/defang.py:176-202 | the first loop cleans every child and its inside, and notes exactly the ones to unwrap |
| Defang.DefangIn | libweasyl/defang.py:151-205 | unwrapping after the recursion gives the content of the recursive definition, and the element itself keeps tag and attributes |
| Pagination.ViewIsPiece | weasyl/pagination.py:89-121 | for every cursor: which piece of the list is shown, and which filters are offered |
| Pagination.PageExactly | weasyl/pagination.py:89-121 | for every cursor, from the keys alone: the page has an item if and only if it is one of the first `limit`, of the next `limit` below the cursor, or of the last `limit` above it |
| Pagination.EndsAreTrue | weasyl/pagination.py:106-120 | for a cursor from the list a filter is absent exactly at that end of the list, and one that is offered is such a cursor again |
| Pagination.EndsAreTrueExactly | weasyl/pagination.py:106-120 | for any cursor both ends are right if and only if it falls between two items, or the list is empty |
| Pagination.CursorAboveAll | weasyl/pagination.py:113-116 | a cursor above all keys shows the first page with a filter for a page before it, which is empty |
| Pagination.WalkVisitsAll | weasyl/pagination.py:89-121 | from the first page `next_page` leads once through all items in order and stops, for any limit from 1 on |
| Pagination.ThereAndBack | weasyl/pagination.py:113-120 | going to the next page and back, or to the previous one and forth, shows the page that was left, filters included |
| Pagination.Paginate | weasyl/pagination.py:89-121 | trims and turns the list in place |
| SettingsCodec.RoundTrip | libweasyl/models/helpers.py:124-158 | decoding an encoded value gives the value, for every column whose characters avoid the file type symbols |
| SettingsCodec.ProcessBindParam | libweasyl/models/helpers.py:124-133 | encodes alike in whatever order sets and dictionaries list their elements; fails exactly if an entry has no code |
| SettingsCodec.ProcessResultValue | libweasyl/models/helpers.py:135-158 | the loop over the iterator decodes every string, or gives its error |
| SettingsCodec.ReencodingIsNormal | libweasyl/models/helpers.py:124-158 | what can be decoded can be encoded again, means the same, and is its own encoding from then on |
| SettingsCodec.EncodedAscending | libweasyl/models/helpers.py:124-133 | the encoding is the codes of all entries, each once, in ascending order |
| SettingsCodec.DecodeExactly | libweasyl/models/helpers.py:135-158 | every string is codes, applied in turn, up to its end, or up to the first thing that is no code, which determines the error |
| SettingsCodec.LastEntryCounts | libweasyl/models/helpers.py:142-157 | of several entries for a file type or a choice the last counts, and settings add up |
| SettingsCodec.EntriesRebuild | libweasyl/models/helpers.py:139-158 | decoding the entries of a value in any order rebuilds it |
| SettingsCodec.DecoderKeepsLast | libweasyl/models/helpers.py:142-147 | of several codes for a file type the decoder keeps the last |
| SettingsCodec.UrlTypeAgrees | weasyl/define.py:904-911 | on every string that can be decoded `url_type` agrees with the decoder if and only if the first and the last code for the feature name the same kind |
| SettingsCodec.UrlTypeCanDiffer | weasyl/define.py:904-911 | for "~J~P" `url_type` finds the first kind and the decoder the last |
| SettingsCodec.UrlTypeOfStored | weasyl/define.py:904-911 | on every encoded value `url_type` finds the file type of that value, or none |
| Friends.KeyIdentifiesPair | libweasyl/models/tables.py:265-271 | `(least, xor)` is equal for exactly the same unordered pairs |
| Friends.RunKeeps | weasyl/frienduser.py:105-182 | in every run one row a pair, both of accepted friends asked, at most one request notice a direction; without ignoring, at most one notice for a row and none without it |
| Friends.RequestSound | weasyl/frienduser.py:105-140 | a request keeps the first of these in all its cases |
| Friends.RequestExactly | weasyl/frienduser.py:105-140 | a request is refused if one ignores the other, accepts a request in the other direction, goes out to a stranger, and else changes nothing; exactly the one notice for it is written, the answered one goes, and all other pairs and notices stay |
| Friends.RemoveExactly | weasyl/frienduser.py:143-163 | afterwards the two are strangers and the notice of what they were is gone; all other pairs and notices stay |
| Friends.RemoveRequestExactly | weasyl/frienduser.py:166-182 | takes back a pending request in that direction with its notice; a friendship, or a request in the other direction, stays |
| Friends.IgnoreExactly | weasyl/ignoreuser.py:46-66 | makes strangers of the user and exactly those ignored, and is refused for oneself and moderators |
| Friends.UnignoreExactly | weasyl/ignoreuser.py:76-81 | ends just that, in that direction |
| Friends.DismissExactly | weasyl/message.py:101-107 | users can be left with any of their notices |
| Friends.FriendsBothAsked | weasyl/frienduser.py:11-30 | in every run `check` is symmetric and holds of two users if and only if both asked since they last had no row; one waits for the other if and only if only that one did |
| Friends.MutualRequestsBefriend | weasyl/frienduser.py:105-140 | whatever was before, two users who ask each other are friends |
| Friends.PairHasOneNotice | weasyl/welcome.py:440-480 | without ignoring a pair has at most one notice, and none after `remove` |
| Friends.IgnoreExact | weasyl/ignoreuser.py:62-66 | ignoring leaves a notice without its row if and only if there was a notice for a row that it deletes |
| Friends.RunNotices | weasyl/welcome.py:440-480 | in every run, ignoring included, a notice is there at most once and has its row, except for pairs whose row ignoring deleted while there was a notice for it |
| Friends.IgnoringDoublesNotices | weasyl/ignoreuser.py:62-66 | a run in which one friendship has two notices |
| Friends.Database.Request | weasyl/frienduser.py:105-140 | the insert with its conflict on the unique index, and the notices |
| Friends.Database.Remove | weasyl/frienduser.py:143-163 | finds at most one row, and removes it with its notice |
| Friends.Database.RemoveRequest | weasyl/frienduser.py:166-182 | removes a pending request in that direction only |
| TagMap.OwnerWritesExactly | weasyl/searchtag.py:401-425 | the artist's tags become exactly those entered, the log is the exact difference, suggestions not entered stay, the index is true |
| TagMap.SuggesterIsConfined | weasyl/searchtag.py:293-327 | a suggester changes only their own suggestions and tags nobody had; the log is the exact difference and the index is true |
| TagMap.AssociateExactly | weasyl/searchtag.py:279-399 | for each caller: owner and moderators write all tags; others are refused without permission or if ignored, and else exactly the restricted tags are returned and not applied, and all others are there |
| TagMap.UndoRestoresRow | weasyl/searchtag.py:633-672 | whatever happened in between, an undo restores the row of the suggestion that was decided on and changes no other |
| TagMap.UndoAtOnce | weasyl/searchtag.py:540-672 | undone at once a decision leaves map and index as they were, and the feedback if and only if that user had given none on that tag |
| TagMap.DecidingTwice | weasyl/searchtag.py:569-587 | the same decision again succeeds without a token and changes nothing; the other one fails |
| TagMap.DecideExactly | weasyl/searchtag.py:589-630 | approving makes a suggestion an artist's tag in the name of who decides, rejecting removes it and leaves feedback; nothing else changes, and the token names the suggester |
| TagMap.NothingToDecide | weasyl/searchtag.py:555-587 | nobody else decides, and where there is no suggestion nothing changes: it fails exactly if the state is the opposite of what was asked for |
| TagMap.RunWellSet | weasyl/searchtag.py:302-672 | in every run settings are empty or "a" |
| TagMap.IndexAfter | weasyl/searchtag.py:265-273 | when the index is true after an operation, in terms of who asks, for which tag, and what the tables held before |
| TagMap.RunIndex | weasyl/searchtag.py:265-273 | in every run index and map differ at most in tags that were rejected or brought back since all tags were last written |
| TagMap.IndexCanMissTag | weasyl/searchtag.py:633-672 | a tag that is rejected, written over and brought back is missing from the index |
| TagMap.Submission.SetTags | weasyl/searchtag.py:401-425 | the transaction of `associate` |
| TagMap.Submission.SetSuggestedTags | weasyl/searchtag.py:302-327 | the transaction of `_set_suggested_tags` |
| TagMap.Submission.SuggestionArbitrate | weasyl/searchtag.py:540-630 | all answers and writes of a decision |
| TagMap.Submission.SuggestionActionUndo | weasyl/searchtag.py:633-672 | the checks of the token and the restoring write |

## Left out

- TopologicalOrder.LoopIsRightExactly: for lists with chains of late dependencies, or with several of one task, no condition is given; with several it depends on the order in which the task names them (`OrderOfDependenciesMatters`).
- Promises and the event loop of `build.ts`: callbacks are atomic steps, the outcomes of runs are arbitrary, and the check at the end of a build and `#running = false` are one step; file copying, caches, the manifest and esbuild are not modelled.
- Staleness across tasks: a task runs again for its own recorded inputs only (`RunsAreDroppedExactly`), and that is all that is claimed.
- WatchMode.Watcher.RecordInputs: `watchMap` has sets of tasks where the program has lists, so an input that one task reports twice is there once.
- lxml objects: elements are values and child lists are sequences, so aliasing between Python references is not captured; an element is found by its position where the program asks for its index.  Comments and processing instructions have no model.  A missing text is the empty text.
- URL parsing and `parse_sysname` within `create_link` and `defang`: they are function parameters, about which nothing is assumed.
- The order in which Python lists the words of a `class` attribute is a parameter.
- WorkerProtocol.AnswerArrives: connecting, retrying on other servers, time-outs and the kinds of `RuntimeError` are not modelled, and `_create` is a function on the whole stream.
- ImageMagick, colour profiles, quality, file formats other than their names, and the sandbox.
- ThumbnailGrid.LayoutRanges: the numbers are integers and the rules are data; their printing as CSS (`toFixed`), the `--r` rules, and viewports outside 420 to 1650 pixels are not modelled.
- FlashRect.ParseRect: signature, version and decompression are not modelled; whether the end of the stream raises is a parameter.
- Form checks, e-mail, passwords, caching of lookups and metrics in `login.py`; `email_exists` is a parameter.
- SQL text and isolation: each transaction or single statement is one atomic step, and the clock of `login.py` counts microseconds.  `create` and `useralias.set` check and write in separate statements, and what happens when two of them interleave is not modelled.
- Namespace.Database.Create: the checks of the form, and the uniqueness of e-mail addresses, are not modelled.
- Namespace.Database.Verify: the insert of the account can fail on a duplicate e-mail address in the source.
- TagMap.Submission.SuggestionArbitrate: the source reads the row and writes it in separate statements, and accepts the races that this allows; here both are one step.
- CommentThread.ThreadComments: the program sets `hidden` on dictionaries that it shares; here comments are values that are written once.
- Unicode normalisation in `parse_sysname`: it is a parameter that leaves ASCII letters and digits alone.  Ratings and the text of a query are kept, but `get_terms_string` does not print them.
- SearchQuery.CleanUpMeaning: tags that do not exist are dropped by `resolve` and are not modelled; ratings, users and the SQL of the search are not part of the meaning.
- Approximate counting of search results, and `PaginatedResult`.
- TagMap.Submission.SetTags: tag names are ids, the matcher for restricted tags is a parameter, and targets other than submissions, which have no index, are not modelled.
- The cryptography of undo tokens: a token is the values that it authenticates.
- `set_tag_feedback`, commission tags, report forms, media, the SOCKS proxy, templates, controllers and the Markdown renderer would add simple members only, or are foreign code.
