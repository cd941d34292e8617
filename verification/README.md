# Models of the B2B API workbench tools

These Dafny modules model the parts of the workbench whose behaviour is hardest to see from
one function at a time, and prove what they promise.

- **Reading a proposed diff** (`UnifiedDiff`, `DiffAnyInput`, `DiffRows`, `DiffHeads`, `DiffNames`, `DiffRoundTrip`,
  `DiffTrim`, `DiffLookup`, `DiffSent`, `DiffLabels`, `DiffLimits`): the review splits a unified diff into sections with numbered
  rows, cuts what is too long, and looks a quoted line up in what was sent. The format is the
  one of POSIX.1-2008 `diff`, section "Diff -u or -U Output Format". A printer of patches gives
  the round trip; what holds on any text at all is proved beside it, and where the reader falls
  short of its purpose the exact condition is given.
- **Packing** (`Packing`): both batchers, and that no division in order is shorter.
- **One call to the agent** (`CallProtocol`, `CallSafety`, `CallTexts`, `CallWords`, `CallHistory`,
  `CallEnds`): the session that reads messages, the
  pulse that watches for silence and the waiter with the deadline, as a state machine whose
  steps interleave freely. The safety claims hold of every run; three that hold only up to a race
  have the race written out. What the call hears and gives is told by places in the log of messages.
- **Set-up chains** (`DepChain`, `DepChainFacts`, `DepGivers`), **delegation** (`Delegation`), **data flow of
  generated chains** (`Dataflow`) and **phases of a case** (`PhaseOrder`, `PhaseOrderFacts`, `PhaseOrderExactly`): the
  static analyses, each against a specification by quantifiers over runs, paths or positions.
- **Three Java scanners** (`JavaScanners`, `ScannersAgree`, `ScannersAnyText`): written apart, and ending
  a body at the same place; and each by itself on any text at all.
- **Tools that keep state**: writing a reason back to the tracker (`WriteBack`), standard output
  with a memory (`Tee`) and its account of dropped lines (`Drops`), retries taken out of test
  results (`RetryDedup`, `RetryExactly`), the history of failing runs (`SnapshotStore`) and the CSV filler with
  its dry run (`FillCsv`, `FillExactly`).
- **Text in Markdown** (`Markdown`, `MarkdownRead`, `MarkdownPage`, `CodeBlock`): the encoder with a decoder, what
  is then read on the page, and the fence read by section 4.5 of the CommonMark Spec.

`Text` and `Wrappers` hold what all of them share: splitting, joining, stripping and decimal
numbers the way Python does them, and a value that may be missing. `Picking` says what it is for a
list to be exactly what some places of another give, in their order. Where the tools work step by
step the model is a method with loops, or a class with the same fields, proved against a function;
the lemmas are about that function.
`dafny verify dfyconfig.toml` checks everything.

Where the code and what is said of it differ the model follows the code:

- A run closed for silence after its turn need not have a usage line as its last message, and a
  tool can be running when it is closed, since a message can come between the look and the close
  (`CallSafety.ClosedThoughMoreCame`, `CallSafety.ClosedThoughToolRuns`).
- A quote is not always looked up in the part that was sent: a section whose header does not
  survive the cut is looked up whole (`DiffLookup.LookedUpInWhatWasSent`, `DiffLookup.NoRowWasSent`,
  `DiffLimits.LongPathIsLookedUpWhole`).
- A rename whose old path holds ` b/` after its beginning is read as two files (`DiffLimits.RenameIsSplitInTwo`).
- The drop of output is not always said: a note that cannot be encoded loses the count
  (`Drops.TextIsWrittenTwice`).
- Of the references and emoji that are to be no more than words those with an underscore come
  through, and so does a `www.` after an underscore, which begins a link under section 6.9 of the
  GitHub Flavored Markdown Spec; a list marker is left as it is (`MarkdownPage.UnderscoresSlip`,
  `MarkdownPage.UnderscoredLinkBegins`, `MarkdownPage.ListBegins`).
- Two runs of one second do not always keep the order they were recorded in: a number freed by
  pruning is given again (`SnapshotStore.NumberIsGivenAgain`).
- The session's own stop can reach the caller as a failure (`CallSafety.OwnStopRaised`).
- Two results without history ids can be taken for one test though neither name nor parameters agree
  (`RetryDedup.BarsRunTogether`).
- The dry run of the CSV filler counts a cell twice that two steps fill (`FillCsv.DryCountsTwice`).
- An attachment that is kept can be removed under another spelling of its name
  (`RetryDedup.AnotherSpellingIsRemoved`).

## Model

| member | source | states |
|---|---|---|
| UnifiedDiff.SplitFiles | src/main/b2b-api-ai/tools/agent/codereview.py:285-377 | The one-pass reader -- push-back, one-line lookahead, hunk counters -- gives exactly the sections of the specification, for every text; what these hold is told in `DiffRows`, `DiffHeads`, `DiffLabels` and `DiffAnyInput` |
| DiffAnyInput.HunkLineAddsUp | src/main/b2b-api-ai/tools/agent/codereview.py:310-332 | On any line inside a hunk, used or handed back, the rows held and the rows still counted keep adding up to what the hunk headers declare |
| DiffRoundTrip.StepEdit | src/main/b2b-api-ai/tools/agent/codereview.py:310-332 | A printed edit inside a hunk is one step: its row with its number and text, and the counters less by its sides |
| DiffAnyInput.PairSound | src/main/b2b-api-ai/tools/agent/codereview.py:338-350 | A `---`/`+++` pair keeps that every section, the open one included, holds what its hunk headers declare and only rows that are its lines |
| DiffAnyInput.PlainLineSound | src/main/b2b-api-ai/tools/agent/codereview.py:353-361 | So does any other line outside a hunk, be it a hunk header or not |
| UnifiedDiff.NameSections | src/main/b2b-api-ai/tools/agent/codereview.py:364-377 | Names with forward slashes, and `name (k)` for a name that comes again |
| DiffLabels.LabelsAre | src/main/b2b-api-ai/tools/agent/codereview.py:364-377 | Every section is reported under its path with forward slashes, or as having none, then bad; from the second of a name on with how many there have been |
| DiffAnyInput.EveryLineOnce | src/main/b2b-api-ai/tools/agent/codereview.py:306-363 | On any text, every line from the first header on is in exactly one section, in order |
| DiffHeads.HunkHeadIs | src/main/b2b-api-ai/tools/agent/codereview.py:242 | A line is read as a hunk header if and only if it is one, with the counts and the first new line it says: a side without a count has one line, and anything may follow |
| DiffHeads.HeaderPathIs | src/main/b2b-api-ai/tools/agent/codereview.py:260-263 | The path of any `---` or `+++` line: what stands before a tab, stripped, decoded if quoted, without its side; none for /dev/null |
| DiffHeads.GitNameIs | src/main/b2b-api-ai/tools/agent/codereview.py:266-277 | The path of any line of git: its second half when the two name one file, else the second name at the first place that parts two names, else none |
| DiffHeads.UnquoteIs | src/main/b2b-api-ai/tools/agent/codereview.py:245-254 | Exactly what stands between quotes is decoded |
| DiffAnyInput.GoodSectionsAddUp | src/main/b2b-api-ai/tools/agent/codereview.py:306-363 | On any text, a section not marked bad has as many old and new lines as its hunk headers declare, and every row is one of its lines with the marker taken off |
| DiffRows.GoodSectionsAreTheirLines | src/main/b2b-api-ai/tools/agent/codereview.py:306-363 | On any text, a section not marked bad has for rows exactly its lines after the first hunk header, of each kind all of them in order, and every such line is a hunk header, blank, begins with `\`, or is a row |
| DiffRows.NoLineTooMany | src/main/b2b-api-ai/tools/agent/codereview.py:359-360 | So its lines there that are not blank, no hunk header and do not begin with `\` are no more than its added, context and removed rows |
| DiffRows.NamelessIsBad | src/main/b2b-api-ai/tools/agent/codereview.py:368-370 | A section for which no name was read is marked bad, under a name that says so |
| DiffRoundTrip.ReadPrintedHunk | src/main/b2b-api-ai/tools/agent/codereview.py:353-358 | A printed hunk header is read back to the counts of its two sides and its first new line |
| DiffRoundTrip.StepHunkLine | src/main/b2b-api-ai/tools/agent/codereview.py:353-358 | A printed hunk header opens the hunk in the open section, with both counters and the first new line number |
| DiffRoundTrip.ReadEdits | src/main/b2b-api-ai/tools/agent/codereview.py:310-332 | Printed edits inside a hunk are read back one by one, whatever follows and whatever their text begins with |
| DiffNames.ReadHeaderPath | src/main/b2b-api-ai/tools/agent/codereview.py:245-263 | A path is read from its `---` or `+++` line, bare or quoted, with any time stamp after it |
| DiffNames.SameNameReads | src/main/b2b-api-ai/tools/agent/codereview.py:266-277 | Git writing one path twice is read as that path, spaces in it or not, quoted or not |
| DiffNames.NewNameReads | src/main/b2b-api-ai/tools/agent/codereview.py:266-277 | Of two names, quoted or not, the new one is read when the line is not one name twice and no second name can begin inside the first |
| DiffNames.ReadsIffPathsTold | src/main/b2b-api-ai/tools/agent/codereview.py:266-277 | Two bare paths: the file is read if and only if they are the same, or do not together read as one name twice and ` b/` stands nowhere in the old one after its beginning |
| DiffNames.NoSideNoDoubt | src/main/b2b-api-ai/tools/agent/codereview.py:266-277 | Two paths with neither ` a/` nor ` b/` in them are always told apart |
| DiffRoundTrip.ReadNames | src/main/b2b-api-ai/tools/agent/codereview.py:338-350 | The two name lines of a patch go into the section git began or one of their own, which then has the file's name and is marked deleted exactly for a file that is gone |
| DiffRoundTrip.RoundTrip | src/main/b2b-api-ai/tools/agent/codereview.py:285-377 | Splitting the printed diff of any list of patches gives one section a patch, in order, each with exactly its rows |
| DiffRoundTrip.StrayLineIsMarked | src/main/b2b-api-ai/tools/agent/codereview.py:359-360 | After a printed diff a line that is not blank, no header and does not begin with `\` marks the section it falls into, and only that, as holding a line outside any hunk |
| DiffRoundTrip.DistinctNamesStay | src/main/b2b-api-ai/tools/agent/codereview.py:364-377 | Distinct names written with forward slashes are left as they are |
| DiffRoundTrip.RoundTripOfFiles | src/main/b2b-api-ai/tools/agent/codereview.py:285-377 | For old and new files and hunks that describe them, whatever the names: the patches come back, every numbered row (number, text) is line `number` of the new file, and the removed rows are the deleted lines in order |
| DiffRoundTrip.OwnNamesComeBack | src/main/b2b-api-ai/tools/agent/codereview.py:285-377 | Files each with a name of its own, written with forward slashes, come back with their names |
| DiffLimits.OneSectionIffPathsTold | src/main/b2b-api-ai/tools/agent/codereview.py:266-277 | A patch git printed with bare paths is read as one section if and only if its two paths are told apart; else as two or more |
| DiffLimits.RenameIsSplitInTwo | src/main/b2b-api-ai/tools/agent/codereview.py:276-277 | Where that fails: every changed file renamed from `x b/y` to `z` is split in two sections |
| DiffTrim.SectionCutAt | src/main/b2b-api-ai/tools/agent/codereview.py:392-404 | Any section of any diff, read again from its first j lines, gives nothing when its header pair is parted, else one section whose rows are the beginning of its rows |
| DiffLookup.LookedUpInWhatWasSent | src/main/b2b-api-ai/tools/agent/codereview.py:392-404 | A quote is looked up in rows of what was sent, no more of them than there are, if and only if the header survives the cut; else in the whole section |
| DiffSent.SentIs | src/main/b2b-api-ai/tools/agent/codereview.py:396-401 | What is sent is the whole text when it is short enough, else the longest run of whole lines within the limit, or the first characters of a first line that is longer |
| DiffSent.SeenIsSent | src/main/b2b-api-ai/tools/agent/codereview.py:396-403 | A good section is looked up in all the rows that were sent, whole: an uncut one in itself, a cut one with its header in exactly the lines sent |
| DiffLookup.NoRowWasSent | src/main/b2b-api-ai/tools/agent/codereview.py:398-403 | When the header does not survive, what was sent is no more than the first header line; no numbered row is a line of it, and a removed row is exactly when it is that line less its first hyphen |
| DiffLookup.UnreadIsTheRest | src/main/b2b-api-ai/tools/agent/codereview.py:399-401 | The unread count is the number of lines of the section that were not sent whole |
| DiffLimits.LongPathIsLookedUpWhole | src/main/b2b-api-ai/tools/agent/codereview.py:398-403 | Where the promise fails: a first line longer than the cut leaves the lookup going over lines never sent |
| DiffLookup.Locate | src/main/b2b-api-ai/tools/agent/codereview.py:425-455 | The first line of the quote long enough decides; the place, number and count found are the first match in the order of places, an exact match before one inside a line, or there is none |
| DiffLookup.LocateLine | src/main/b2b-api-ai/tools/agent/codereview.py:439-453 | One quoted line against the rows: what is found satisfies the independent description of a match |
| DiffLookup.FirstPlace | src/main/b2b-api-ai/tools/agent/codereview.py:445-452 | The first of the places with a match, its first number and how many match |
| DiffSent.AnswerIs | src/main/b2b-api-ai/tools/agent/codereview.py:434-455 | A line is found if and only if some row is it, or holds it and it has twelve characters or more; a row that is it goes before one that only holds it, and then the place looked in first |
| DiffSent.NumberGiven | src/main/b2b-api-ai/tools/agent/codereview.py:445-452 | The number of an answer is that of the first row that matches in the place found, and none for a removed line |
| DiffSent.HitsAreTheMatches | src/main/b2b-api-ai/tools/agent/codereview.py:448-452 | The count given is of all matching rows, each as often as it is there |
| DiffSent.SentLineIsFound | src/main/b2b-api-ai/tools/agent/codereview.py:396-455 | Of a good section, uncut or cut below its header, every line sent whole is found exactly when it is quoted with four characters and more |
| DiffSent.MarkedQuote | src/main/b2b-api-ai/tools/agent/codereview.py:439-441 | A quote with its diff marker stands for the line as well |
| Text.CollapseApart | src/main/b2b-api-ai/tools/agent/codereview.py:421-422 | Texts that do not meet in white space are squashed each by itself |
| Text.CollapseRun | src/main/b2b-api-ai/tools/agent/codereview.py:421-422 | A stretch of white space becomes one space |
| Text.StripParts | src/main/b2b-api-ai/tools/agent/codereview.py:421-422 | A text is what is left of it stripped, with white space before and after |
| DiffLookup.FoundWasSent | src/main/b2b-api-ai/tools/agent/codereview.py:425-455 | A line number found in a trimmed section whose header was sent is the number that row has in the full section, and the row is a sent line |
| Packing.BatchFiles | src/main/b2b-api-ai/tools/agent/codereview.py:407-418 | Non-empty groups whose concatenation is the input, each within the limit when each file is, and none that has room for the next file |
| Packing.BatchDefects | src/main/b2b-api-ai/tools/agent/defects.py:720-731 | The same for defects, with a limit on their number and room for headings |
| Packing.TightIsShortest | src/main/b2b-api-ai/tools/agent/codereview.py:407-418 | No order-preserving division within the same limits has fewer groups than one without room |
| CallSafety.RunKeeps | src/main/b2b-api-ai/tools/agent/cursor_call.py:499-540 | Every interleaving of messages, ticks, deadline and stop keeps the invariant of the shared flags |
| CallSafety.AnswerIsAccepted | src/main/b2b-api-ai/tools/agent/cursor_call.py:755-797 | An answered call gives the newest text that was accepted when its last message, a usage line, came: the first usage line at which any was |
| CallTexts.SegmentsAre | src/main/b2b-api-ai/tools/agent/cursor_call.py:717-754 | The texts taken for answers are, in the order of the log: the pieces of each run of the assistant's messages as one, runs without text left out, and the last plan that is not blank of each plan call at the place of its first |
| CallTexts.MarkIs | src/main/b2b-api-ai/tools/agent/cursor_call.py:781 | The texts asked about begin with those that came after the last usage line |
| CallTexts.AnsweredIs | src/main/b2b-api-ai/tools/agent/cursor_call.py:750-760 | At a usage line the newest text asked about that is accepted becomes the answer; there is none if and only if none is accepted |
| CallTexts.AnswerOfTheCall | src/main/b2b-api-ai/tools/agent/cursor_call.py:717-766 | What an answered call gives: stripped, the newest accepted of these texts, told by places in the log |
| CallTexts.RerunIs | src/main/b2b-api-ai/tools/agent/cursor_call.py:755-792 | A request is seen to have run again if and only if a usage line repeats a count of tokens while nothing is accepted |
| CallTexts.ToolsAre | src/main/b2b-api-ai/tools/agent/cursor_call.py:734-737 | A tool that edits has completed, or a tool call runs, exactly when the messages say so |
| CallWords.WordsOfTheCall | src/main/b2b-api-ai/tools/agent/cursor_call.py:717-732 | At every point of a run the words kept are the pieces of its last turn one after another, and what was said or is still to be said is all that was written, character for character but for white space |
| CallWords.SignOfLife | src/main/b2b-api-ai/tools/agent/cursor_call.py:700-732 | Which messages count as a sign of life, before the stop and after it |
| CallWords.WordsSaid | src/main/b2b-api-ai/tools/agent/cursor_call.py:717-733 | Gathered words are said whole when anything but words comes, at the end of a paragraph, and when they are more than 1500 characters; then they are told, if they are not blank |
| CallWords.ParagraphsApart | src/main/b2b-api-ai/tools/agent/cursor_call.py:926-931 | Paragraphs kept are parted by an empty line |
| CallWords.TextOfTheCall | src/main/b2b-api-ai/tools/agent/cursor_call.py:910-952 | The text of a call that went quiet or ran into its limit: the newest whole answer, else the last text that is not blank, else the words of the turn; what was said, in paragraphs, when that is blank |
| CallHistory.WhatACallGives | src/main/b2b-api-ai/tools/agent/cursor_call.py:879-1008 | What a call gives in which no answer was accepted: the text of its run, or of its second turn if that gave one; of a run that ended in an error what it is worth; at the limit a text if and only if there is one and the run was cancelled; else a failure |
| CallHistory.LastLife | src/main/b2b-api-ai/tools/agent/cursor_call.py:628-732 | The time of the last sign of life is that of the last event of the run that is one, or the beginning |
| CallHistory.ThinkingIs | src/main/b2b-api-ai/tools/agent/cursor_call.py:688-716 | The run is taken to be thinking if and only if the last message taken says so and the messages are not over |
| CallHistory.WhyACallStops | src/main/b2b-api-ai/tools/agent/cursor_call.py:633-657 | A run is found silent if and only if at a look nothing had come for the limit; closed only after a look with a usage line last and nothing for twenty seconds, and then one at the tools; given up only once the deadline has passed |
| CallEnds.WhatTheSessionComesTo | src/main/b2b-api-ai/tools/agent/cursor_call.py:834-899 | A session is ended once, by a failure, a stop, an answer, its own quiet stop or a value, and comes to that, unless leaving it fails; one that was not ended goes on |
| CallEnds.CancelledIs | src/main/b2b-api-ai/tools/agent/cursor_call.py:499-523 | The run counts as cancelled if and only if the last attempt to cancel a live one succeeded, and it is the run live then |
| CallEnds.SecondTurnStands | src/main/b2b-api-ai/tools/agent/cursor_call.py:885-899 | Once a second turn is asked the session comes to a value that is no error, unless leaving it fails |
| CallEnds.FromAnywhereItEnds | src/main/b2b-api-ai/tools/agent/cursor_call.py:360-400 | From every point of every run the call can end with no failure, no more messages and no time passing, in twenty steps; in seven once it is asked to stop or its limit has passed |
| CallSafety.ClosedOnlyAfterTurn | src/main/b2b-api-ai/tools/agent/cursor_call.py:633-657 | Closed for silence: a usage line was last when the pulse looked, no completeness test was given, and at the look at the tools one had completed and none ran; at the close both still hold unless something came in between |
| CallSafety.ClosedThoughMoreCame | src/main/b2b-api-ai/tools/agent/cursor_call.py:652-657 | Between the look and the close a message can come: a run, event by event, in which the last message is then no usage line |
| CallSafety.ClosedThoughToolRuns | src/main/b2b-api-ai/tools/agent/cursor_call.py:652-657 | Between the look at the tools and the close a tool call can begin: a run, event by event, closed while that tool runs |
| CallSafety.QuietOnce | src/main/b2b-api-ai/tools/agent/cursor_call.py:509-540 | The quiet handler runs at most once, and never in two actors at once |
| CallSafety.QuietHasCause | src/main/b2b-api-ai/tools/agent/cursor_call.py:368-397 | A quiet result has one of three causes, and a session that was given up is never what the caller gets |
| CallSafety.OwnStopLeaves | src/main/b2b-api-ai/tools/agent/cursor_call.py:855-962 | When the session stops itself the caller gets a quiet result if and only if closing the session does not fail, else a failure |
| CallSafety.OwnStopRaised | src/main/b2b-api-ai/tools/agent/cursor_call.py:855-962 | A run, event by event, in which it fails |
| CallSafety.WhatTheCallerGets | src/main/b2b-api-ai/tools/agent/cursor_call.py:910-952 | Whatever ended the wait: answered if and only if an answer was accepted; timeout only with some text and a confirmed cancel -- of the live run, in a call without a second turn |
| CallSafety.TimeoutThoughRunning | src/main/b2b-api-ai/tools/agent/cursor_call.py:884-891 | With a second turn the cancel can be of the first run: a run, event by event, whose result says cancelled while the second still runs |
| CallSafety.TakeEnds | src/main/b2b-api-ai/tools/agent/cursor_call.py:755-797 | Only a usage line can bring the answer or show that the request ran again |
| DepChain.Builder.NeedOne | src/main/b2b-api-ai/tools/agent/depmap.py:280-316 | The nested walk with its depth limit and shared lists does what the specification of one need does |
| DepChain.ChainFor | src/main/b2b-api-ai/tools/agent/depmap.py:270-334 | Order, ids and unresolved names of an endpoint's chain, against the specification |
| DepGivers.ProducerIsBest | src/main/b2b-api-ai/tools/agent/depmap.py:259-267 | The producer of a name is the giver, the asker left out, than which none is better: a helper's first, then POST, PUT, GET and the rest, then the shorter path, then the first in the specification |
| DepGivers.SourceIs | src/main/b2b-api-ai/tools/agent/depmap.py:286-306 | Who gives a name: the helper the flow guide names, bare or by the call it makes, else that best operation, else nobody |
| DepGivers.EveryNameUnderItsGiver | src/main/b2b-api-ai/tools/agent/depmap.py:270-334 | In a whole chain every name stands under the call that gives it to an asker, the endpoint or a listed call, and is left over only when nobody does |
| DepGivers.FirstNamesFirst | src/main/b2b-api-ai/tools/agent/depmap.py:280-334 | The chain of more names begins as that of the first ones: its calls, their names and the unresolved |
| DepChainFacts.OnePlaceEach | src/main/b2b-api-ai/tools/agent/depmap.py:270-334 | No call twice; every name seen, and nothing else, is in exactly one call's ids or exactly once among the unresolved; every name asked for is seen |
| DepChainFacts.RightOrder | src/main/b2b-api-ai/tools/agent/depmap.py:280-334 | With names ranked below the depth limit, every call comes after the calls giving all it needs, except the unresolved |
| DepChainFacts.OneTooDeep | src/main/b2b-api-ai/tools/agent/depmap.py:307-310 | The limit is sharp: of any straight chain one call deeper the last need is not followed up and the chain is not in order |
| DepChainFacts.LineIsStraight | src/main/b2b-api-ai/tools/agent/depmap.py:307-310 | Five operations in line are such a chain |
| DepChainFacts.OrderedIffRanked | src/main/b2b-api-ai/tools/agent/depmap.py:280-334 | A chain is in order if and only if every name its calls need was followed up and what gives a name to a call is listed before it |
| DepChainFacts.EveryCircleIsOutOfOrder | src/main/b2b-api-ai/tools/agent/depmap.py:280-334 | No chain with a circle among its calls is in order |
| DepChainFacts.CircleIsOutOfOrder | src/main/b2b-api-ai/tools/agent/depmap.py:280-334 | Such a chain comes about: two operations that need each other |
| Delegation.FluentMethods | src/main/b2b-api-ai/tools/agent/coverage.py:383-417 | Three passes that add to the table they read: a method is credited with exactly the endpoints that chains of delegations lead to which go back in the order of the methods fewer than three times; the common names are taken out at the end |
| Delegation.TableIsClosure | src/main/b2b-api-ai/tools/agent/coverage.py:383-417 | Nothing credited is unreachable, nothing within three delegations is missed, and with no deeper path the table is the full closure; every credit tells the way of calls, joined by arrows, to a direct one |
| Delegation.AddSound | src/main/b2b-api-ai/tools/agent/coverage.py:411-416 | A credit added names a method that is called and credited with the same endpoint |
| Dataflow.IsSatisfied | src/main/b2b-api-ai/tools/check_ctx_dataflow.py:279-286 | A read is satisfied exactly when one of its alternatives is available or begins with a wildcard prefix |
| Dataflow.ProvidesIs | src/main/b2b-api-ai/tools/check_ctx_dataflow.py:279-286 | A key written with a star at its end provides every key that begins as it does, any other only itself |
| Dataflow.Run | src/main/b2b-api-ai/tools/check_ctx_dataflow.py:321-331 | One method's events in order: what is available after it and exactly its unmet reads |
| Dataflow.AnalyseChain | src/main/b2b-api-ai/tools/check_ctx_dataflow.py:357-379 | Bootstrap first, its reads unreported, then the steps: the findings of the specification |
| Dataflow.FindingsExactly | src/main/b2b-api-ai/tools/check_ctx_dataflow.py:357-379 | A finding is, and every finding is, a read at a step no alternative of which was provided by seed, bootstrap, set-up or an earlier event |
| Dataflow.UnmetExactly | src/main/b2b-api-ai/tools/check_ctx_dataflow.py:321-331 | The unmet reads of a list of events are exactly those unmet at their position |
| Dataflow.ReportedIffNeverThere | src/main/b2b-api-ai/tools/check_ctx_dataflow.py:279-286 | A read is reported if and only if no concrete run, whatever keys a seed writes under its prefix, holds any of its keys |
| Dataflow.LongerChain | src/main/b2b-api-ai/tools/check_ctx_dataflow.py:357-379 | Extending a chain at its end leaves its findings as they are |
| JavaScanners.BalancedBody | src/main/b2b-api-ai/tools/check_ctx_dataflow.py:75-111 | The body scanner on any text, against its specification, and where it stops |
| JavaScanners.StripLiterals | src/main/b2b-api-ai/tools/check_generated_output.py:87-134 | The stripping scanner on any text, against its specification |
| JavaScanners.Layers | src/main/b2b-api-ai/tools/agent/coverage.py:238-256 | Two copies of the text overwritten in place: comments blanked, and literals blanked as well |
| JavaScanners.BodyEnd | src/main/b2b-api-ai/tools/agent/coverage.py:259-271 | Where the brace depth of the blanked text comes back to zero |
| ScannersAgree.ThreeAgree | src/main/b2b-api-ai/tools/check_ctx_dataflow.py:75-111 | On terminated comments, literals and text blocks, for any `{`: the three scanners end the body at the same token, or none does, when the body scanner passes over each text block up to there |
| ScannersAgree.OneBlockExactly | src/main/b2b-api-ai/tools/check_ctx_dataflow.py:75-111 | A body that holds only a text block is ended alike if and only if the body scanner stops at a brace right after that block |
| ScannersAgree.QuietIsSeenOver | src/main/b2b-api-ai/tools/check_ctx_dataflow.py:75-111 | It does for a block without backslashes whose quotes come in pairs with neither brace, slash nor apostrophe between the two |
| ScannersAgree.TextBlocksPartThem | src/main/b2b-api-ai/tools/check_ctx_dataflow.py:75-111 | Where they part: on a text block with a quote and a brace in it the body scanner ends inside the block, the other two after it |
| ScannersAgree.LayersKeepPlaces | src/main/b2b-api-ai/tools/agent/coverage.py:238-256 | On any text both layers keep the length, and every character or a blank for it; line breaks stay and none is made |
| ScannersAgree.StrippedIsCode | src/main/b2b-api-ai/tools/check_generated_output.py:87-134 | What is left of terminated text is exactly its characters outside comments and literals |
| ScannersAnyText.EveryTextStrips | src/main/b2b-api-ai/tools/check_generated_output.py:87-134 | Any text, terminated or not, is the tokens the stripping scanner takes and then perhaps a literal, comment or text block that never ends |
| ScannersAnyText.WhatIsStripped | src/main/b2b-api-ai/tools/check_generated_output.py:87-134 | What is left of any text is the code among these tokens |
| ScannersAnyText.EveryTextPasses | src/main/b2b-api-ai/tools/check_ctx_dataflow.py:75-111 | So it is for the body scanner, to which text blocks are nothing |
| ScannersAnyText.WhereTheBodyEnds | src/main/b2b-api-ai/tools/check_ctx_dataflow.py:75-111 | In any text it ends at the token that closes the body, or never |
| ScannersAnyText.EveryTextBlanks | src/main/b2b-api-ai/tools/agent/coverage.py:238-256 | Any text is the tokens of the blanking scanner; what never ends, or not on its line, is characters to it |
| ScannersAnyText.WhatTheLayersAre | src/main/b2b-api-ai/tools/agent/coverage.py:238-256 | Both layers of any text, token by token: comments and the inside of text blocks blanked in both, that of literals in one |
| ScannersAnyText.ClosedIs | src/main/b2b-api-ai/tools/agent/coverage.py:259-271 | The blanked text is ended after the first brace before which the braces that open are as many as those that close and one more, or at its end |
| ScannersAnyText.ClosingTokenIs | src/main/b2b-api-ai/tools/check_ctx_dataflow.py:75-111 | So is the token that closes a body |
| PhaseOrder.Analysis.Grade | src/main/b2b-api-ai/tools/check_phase_order.py:203-234 | One chain against one case: the findings and reached entries after it |
| PhaseOrder.Analyse | src/main/b2b-api-ai/tools/check_phase_order.py:197-276 | The whole analysis: chains in order, siblings of the file, then the orphans |
| PhaseOrder.ResolveIs | src/main/b2b-api-ai/tools/check_phase_order.py:208-232 | A call means no entry, several, or the first that fits -- name, kind or a verification called as a phase, step -- against a description by quantifiers |
| PhaseOrderExactly.ProblemsExactly | src/main/b2b-api-ai/tools/check_phase_order.py:203-236 | What a chain is told: in the order of its calls each that means no entry or several, and then, if and only if a call goes back before an earlier one, the entries visited |
| PhaseOrderExactly.FindingsExactly | src/main/b2b-api-ai/tools/check_phase_order.py:197-276 | All the findings in their order: chain by chain and grading by grading what is told, then case by case each entry that no call of anything graded means |
| PhaseOrder.MeantIsFirst | src/main/b2b-api-ai/tools/check_phase_order.py:231-232 | An index reached is the least with its kind, name and step |
| PhaseOrderFacts.GradedForItsOwn | src/main/b2b-api-ai/tools/check_phase_order.py:239-250 | Which case a chain is graded for: its suite's, else the bare one, else the only one of that id |
| PhaseOrderFacts.GradingsAre | src/main/b2b-api-ai/tools/check_phase_order.py:239-267 | What is graded is exactly each chain for its case, and without record for the other cases of that file |
| PhaseOrderFacts.OrphanIffNoneReaches | src/main/b2b-api-ai/tools/check_phase_order.py:269-274 | An entry is an orphan if and only if nothing that is graded means it |
| PhaseOrderFacts.RepeatedIsOrphan | src/main/b2b-api-ai/tools/check_phase_order.py:231-274 | An entry that repeats an earlier one is an orphan, whatever the chains call |
| PhaseOrderFacts.NoOrphanNoRepeat | src/main/b2b-api-ai/tools/check_phase_order.py:231-274 | A case with no orphan has pairwise distinct registrations |
| PhaseOrderFacts.NothingFoundIffAllInOrder | src/main/b2b-api-ai/tools/check_phase_order.py:203-274 | For a case graded by one chain alone: no finding if and only if all calls resolve and, repeats removed, visit 0..n-1 in order |
| PhaseOrderFacts.VisitsAllInOrder | src/main/b2b-api-ai/tools/check_phase_order.py:233-236 | A list is sorted and has every number under n if and only if, repeats removed, it is 0..n-1 |
| WriteBack.Apply | src/main/b2b-api-ai/tools/agent/defects.py:913-1026 | Every run of the command has one of the listed shapes; a write that may be made is sent if and only if the field was read and holds the one value loaded, one that may not is refused with nothing done; and the stored defect afterwards |
| WriteBack.NoObjectionIffMayWrite | src/main/b2b-api-ai/tools/agent/defects.py:913-967 | Nothing is objected to if and only if the defect is loaded and writing is on, confirmed and allowed by the job, the settings, the tracker and the field |
| WriteBack.ObjectionIsFirst | src/main/b2b-api-ai/tools/agent/defects.py:913-967 | A refusal gives the first in the stated order of all that speaks against the write |
| WriteBack.JoinedApart | src/main/b2b-api-ai/tools/agent/defects.py:426-432 | Of several values, wherever they are parted, what is said is what both parts say with a comma between, blank ones left out |
| WriteBack.Send | src/main/b2b-api-ai/tools/agent/defects.py:992-1026 | From the attempt on: the trace, and what is stored, for every reply of the tracker |
| WriteBack.Confirm | src/main/b2b-api-ai/tools/agent/defects.py:1008-1026 | The read-back: success is recorded only when what is read is the reason |
| WriteBack.EveryRunIsSafe | src/main/b2b-api-ai/tools/agent/defects.py:968-1026 | At most one write, right after its attempt was logged and the loaded value was read; a refusal applied nothing; a recorded answer was read back after the write |
| WriteBack.WhatIsSentIsTheReason | src/main/b2b-api-ai/tools/agent/defects.py:958-963 | In each kind of field the value sent reads back as the reason |
| Drops.OneWrite | src/main/b2b-api-ai/tools/diag.py:446-489 | A write adds one to the lines taken, told of as dropped and still to be told of, if and only if the note is not lost, or one line had been dropped and nothing is raised; an error reaches the caller exactly when neither text nor note can be encoded |
| Drops.NothingIsLost | src/main/b2b-api-ai/tools/diag.py:446-489 | With notes that can be encoded and a stream that fails only with operating-system errors the account balances after any sequence of writes, and nothing is raised |
| Drops.TextIsWrittenTwice | src/main/b2b-api-ai/tools/diag.py:446-481 | Where that fails: a note that cannot be encoded loses the count and has the text written twice |
| Drops.TakenTextCountsAsDropped | src/main/b2b-api-ai/tools/diag.py:473-488 | Where that fails: a note met by a value error counts the text just taken as dropped |
| Drops.TellAccount | src/main/b2b-api-ai/tools/diag.py:473-481 | What telling of the drop does to the account: kept by a note taken or met by an operating-system error, else the count is lost |
| Drops.FreshWriteIs | src/main/b2b-api-ai/tools/diag.py:446-489 | With nothing dropped a text is taken at the first of four tries that does not fail, or dropped with the last failure as the reason, or written again with what cannot be encoded replaced |
| Drops.DroppingWriteIs | src/main/b2b-api-ai/tools/diag.py:446-489 | While lines are dropped: what one try and the note after it leave, for every answer of the stream |
| Tee.Tee.Write | src/main/b2b-api-ai/tools/diag.py:433-455 | One write call: the memory after it, and the stream, the count and the reason as the specification of one write has them, for any answers of the stream |
| Tee.Tee.Retrying | src/main/b2b-api-ai/tools/diag.py:468-489 | The loop of tries does what the recursive specification of trying does |
| Tee.Tee.Remember | src/main/b2b-api-ai/tools/diag.py:433-448 | The last lines, failures, summary and open piece after one more piece of output |
| Tee.FeedTwice | src/main/b2b-api-ai/tools/diag.py:433-448 | Two pieces leave what the two as one would have left |
| Tee.StreamingIsBatch | src/main/b2b-api-ai/tools/diag.py:433-448 | However the output is cut, the memory is that of the whole |
| Tee.MemoryOfAll | src/main/b2b-api-ai/tools/diag.py:433-448 | What that memory is: the last lines of the output, the first failures in it and the first summary lines, each by its place and stripped at its end, and the piece after the last line break |
| RetryDedup.PickLosers | tools/allure_dedup_retries.py:158-169 | Groups of two and more sorted in place; the losers are exactly the results that did not win |
| RetryDedup.WinnersNeed | tools/allure_dedup_retries.py:181-187 | The names the winners need, worked out a second time from the sorted groups |
| RetryDedup.WinnersAgree | tools/allure_dedup_retries.py:165-184 | The two computations of the winner agree, because the sort is stable |
| RetryDedup.SortEndsWithWinner | tools/allure_dedup_retries.py:165-167 | The last of a sorted group is its last to stop, the latest listed of several |
| RetryDedup.SourcesAre | tools/allure_dedup_retries.py:107-128 | The attachment names found are those of the result and of all its parts at any depth |
| RetryDedup.Dedup | tools/allure_dedup_retries.py:131-217 | One run leaves the files but the losers and the files of their unneeded attachment names |
| RetryDedup.SameTest | tools/allure_dedup_retries.py:80-96 | Results with history ids are of one test if and only if the ids are equal, and never with one that has none |
| RetryDedup.SameTestUnnamed | tools/allure_dedup_retries.py:80-97 | Two results without history ids are of one test if and only if their names and parameters are the same, or one name runs over a bar into the parameters of the other |
| RetryDedup.BarsRunTogether | tools/allure_dedup_retries.py:97 | Such results, of which neither name nor parameters agree |
| RetryExactly.KeptIffUnbeaten | tools/allure_dedup_retries.py:158-183 | A result is kept if and only if none of its test stopped later, or with it and is listed later |
| RetryExactly.WhatGoes | tools/allure_dedup_retries.py:131-210 | A file goes if and only if it is a beaten result, or what an attachment name of one stands for that no unbeaten result and no container has |
| RetryDedup.WinnerStaysUnlessNamed | tools/allure_dedup_retries.py:198-217 | A winner remains if and only if no unneeded attachment name of a loser stands for its file |
| RetryDedup.OneResultEach | tools/allure_dedup_retries.py:158-217 | When attachments name no result or container: exactly one parsed result a test remains, and no other stopped later |
| RetryDedup.NamedAttachmentsStay | tools/allure_dedup_retries.py:176-217 | The names needed are the same after the run, and the file of one is removed if and only if a loser spells it in a way that nothing kept does |
| RetryDedup.OneSpellingStays | tools/allure_dedup_retries.py:176-217 | With one spelling for each file no file of a needed attachment is removed |
| RetryDedup.AnotherSpellingIsRemoved | tools/allure_dedup_retries.py:198-217 | Where that fails: the retried result names `./a`, the kept one `a`, and the file goes |
| RetryDedup.SecondRunRemovesNothing | tools/allure_dedup_retries.py:131-217 | A second run, whatever order it lists the directory in, removes nothing |
| SnapshotStore.Store.Record | src/main/b2b-api-ai/tools/failure_history.py:302-359 | The store after recording: unchanged for a digest still kept, else with the new run and without those that must go; and the run given for comparison |
| SnapshotStore.FreeName | src/main/b2b-api-ai/tools/failure_history.py:339-343 | The first number whose file is not there; the search ends |
| SnapshotStore.AllRuns | src/main/b2b-api-ai/tools/failure_history.py:241-267 | The runs of a suite in strict (time, file) order, exactly the readable ones, however the directory is listed |
| SnapshotStore.PreviousIs | src/main/b2b-api-ai/tools/failure_history.py:297-299 | The previous run is the greatest before the given time and file |
| SnapshotStore.DoomedAre | src/main/b2b-api-ai/tools/failure_history.py:350-358 | What goes is as many as are too many, the oldest, and never the previous |
| SnapshotStore.AtMostKept | src/main/b2b-api-ai/tools/failure_history.py:350-358 | After a recording a suite has one run more, or exactly KEEP |
| SnapshotStore.NewAndPreviousStay | src/main/b2b-api-ai/tools/failure_history.py:347-358 | The new run and the previous one stay; other suites and unreadable files are untouched |
| SnapshotStore.LastOfItsSecondIff | src/main/b2b-api-ai/tools/failure_history.py:265-267 | A run comes after all kept runs of its second if and only if none of them has a number beyond the first free one (numbers to 999) |
| SnapshotStore.NumberIsGivenAgain | src/main/b2b-api-ai/tools/failure_history.py:337-358 | Where the promised order fails: a number freed by pruning is given again, and the later run comes first |
| SnapshotStore.RecordedAgain | src/main/b2b-api-ai/tools/failure_history.py:316-325 | Recording the run again finds it, gives the same previous run and changes nothing |
| SnapshotStore.FirstSameIs | src/main/b2b-api-ai/tools/failure_history.py:316-323 | The run found is the first with the same digest written at the same time |
| SnapshotStore.EveryStoreIsSound | src/main/b2b-api-ai/tools/failure_history.py:302-359 | After any sequence of recordings: at most KEEP runs of each suite, and no two with the same digest written at the same time |
| SnapshotStore.ComparisonPartitions | src/main/b2b-api-ai/tools/failure_history.py:364-378 | New, gone, changed and same hold each failing case exactly once; swapping the runs swaps new and gone |
| SnapshotStore.SameIffSignaturesAre | src/main/b2b-api-ai/tools/failure_history.py:364-378 | A case failing in both is the same or changed as its last signatures are |
| FillCsv.Table.Fill | src/main/b2b-api-ai/tools/fill_datasource_csv.py:230-262 | Cells, counts and missing columns of one fill, for real or dry |
| FillCsv.FillAll | src/main/b2b-api-ai/tools/fill_datasource_csv.py:345-354 | The totals and the table after all steps, for real or dry |
| FillCsv.ColumnIsLast | src/main/b2b-api-ai/tools/fill_datasource_csv.py:244-245 | A column is meant by the last header that reads the same |
| FillCsv.WhichValueWins | src/main/b2b-api-ai/tools/fill_datasource_csv.py:247-256 | Of several values for a cell the last wins when forced, else the first |
| FillExactly.CellAfter | src/main/b2b-api-ai/tools/fill_datasource_csv.py:247-256 | What stands in any cell after a fill, for every list of values, blank ones among them |
| FillExactly.RowCountsAre | src/main/b2b-api-ai/tools/fill_datasource_csv.py:247-256 | Filled and skipped are exactly the numbers of the values of a row that are and are not written, told by their places |
| FillExactly.RowsApart | src/main/b2b-api-ai/tools/fill_datasource_csv.py:240-262 | Rows are filled each by itself and what is counted adds up |
| FillExactly.RealIsOneFill | src/main/b2b-api-ai/tools/fill_datasource_csv.py:345-354 | Any sequence of fills leaves and counts what one fill with all their values would |
| FillExactly.MissingAre | src/main/b2b-api-ai/tools/fill_datasource_csv.py:230-250 | The columns told of as missing are exactly those of the values that no header reads as, in order |
| FillCsv.OnlyWhatWasAsked | src/main/b2b-api-ai/tools/fill_datasource_csv.py:247-256 | A cell that changes is of a column asked for and holds a value asked for it |
| FillCsv.FillKeeps | src/main/b2b-api-ai/tools/fill_datasource_csv.py:247-256 | Without force no cell that is not blank changes |
| FillCsv.FillCounts | src/main/b2b-api-ai/tools/fill_datasource_csv.py:247-256 | Filled and skipped add up to rows times columns asked for and found, whatever the cells hold |
| FillCsv.RealKeeps | src/main/b2b-api-ai/tools/fill_datasource_csv.py:345-354 | Nor does one through any sequence of fills |
| FillCsv.FillsNothingMoreIff | src/main/b2b-api-ai/tools/fill_datasource_csv.py:247-256 | After any fills, further fills find nothing to fill if and only if every cell they ask for, blank in the table, was given a value that is not of blanks only |
| FillCsv.DoneTwice | src/main/b2b-api-ai/tools/fill_datasource_csv.py:247-256 | Repeating fills already made, with no value of blanks only, fills nothing and changes nothing |
| FillCsv.EachStepAgrees | src/main/b2b-api-ai/tools/fill_datasource_csv.py:345-354 | At each step dry and real fill and skip the same number together, and the real run fills no more |
| FillCsv.DryForetells | src/main/b2b-api-ai/tools/fill_datasource_csv.py:345-354 | The same of the totals; with force the dry run foretells exactly |
| FillCsv.DryForetellsExactly | src/main/b2b-api-ai/tools/fill_datasource_csv.py:345-354 | Without force the dry count is the real one if and only if no step asks for a cell, blank in the table, that an earlier step gives a value not of blanks only |
| FillCsv.DryCountsTwice | src/main/b2b-api-ai/tools/fill_datasource_csv.py:345-363 | The over-count of the dry run: two steps for one cell |
| Markdown.DecodeMd | src/main/b2b-api-ai/tools/agent/mdsafe.py:16-29 | Decoded, the encoded text is its collapsed, bidi-stripped words without their zero-width spaces |
| Markdown.EncodedAndDecoded | src/main/b2b-api-ai/tools/agent/mdsafe.py:16-29 | The words come back exactly if and only if the text has no zero-width space |
| Markdown.OrderedAre | src/main/b2b-api-ai/tools/agent/mdsafe.py:22 | Of the words exactly the nine characters that reorder text are taken out |
| Markdown.NameCharacters | src/main/b2b-api-ai/tools/agent/mdsafe.py:28 | The characters of the name of an emoji, by their code points |
| Markdown.NothingBanned | src/main/b2b-api-ai/tools/agent/mdsafe.py:24-28 | In the encoded text, its backslashes included, there is no mention, `://`, `#`, `!`, `$` or `%` before a word character, numbered entity or `:name:` |
| Markdown.NoMarkup | src/main/b2b-api-ai/tools/agent/mdsafe.py:22-29 | Every special character of the encoded text is escaped, every backslash escapes one, and no word, in the sense of `\b`, begins `www.` |
| MarkdownRead.ReadIs | src/main/b2b-api-ai/tools/agent/mdsafe.py:16-29 | With its backslashes read, the encoded text is the words with the same marks put in them, but for names with an underscore |
| MarkdownPage.AsRead | src/main/b2b-api-ai/tools/agent/mdsafe.py:16-29 | On the page, backslashes and `&amp;` read, of all that is banned only a reference or emoji with an underscore occurs, and exactly when it is in the words |
| MarkdownPage.LinksRead | src/main/b2b-api-ai/tools/agent/mdsafe.py:16-29 | On the page a `www.` stands where an autolink can begin if and only if an underscore stands right before a `www.` in the words |
| MarkdownPage.MarkersStay | src/main/b2b-api-ai/tools/agent/mdsafe.py:16-29 | A list marker or rule of hyphens begins the encoded text if and only if it begins the words: none is escaped and none is made |
| MarkdownPage.UnderscoresSlip | src/main/b2b-api-ai/tools/agent/mdsafe.py:24-28 | Where the docstring fails: `:a_b:` and `#_` come through |
| MarkdownPage.UnderscoredLinkBegins | src/main/b2b-api-ai/tools/agent/mdsafe.py:29 | Where it fails: a link begins in `_www.a` |
| MarkdownPage.ListBegins | src/main/b2b-api-ai/tools/agent/mdsafe.py:17-23 | Where it fails: `- a`, `1. a` and `---` keep their markers |
| CodeBlock.RunsAre | src/main/b2b-api-ai/tools/agent/mdsafe.py:41-45 | A text has a run of n back-ticks if and only if its longest run is no shorter |
| CodeBlock.FenceIsLonger | src/main/b2b-api-ai/tools/agent/mdsafe.py:41-45 | The fence is longer than any run of the text, and no longer than it has to be: three back-ticks, or one more than a run there is |
| CodeBlock.NoLineCloses | src/main/b2b-api-ai/tools/agent/mdsafe.py:41-45 | No slice of the text is a line that closes its block under section 4.5 of the CommonMark Spec |
| CodeBlock.FenceReads | src/main/b2b-api-ai/tools/agent/mdsafe.py:41-45 | The block read by those rules is the text's lines, to the end |

## Left out

- Reading files, walking directories, git, Maven, javac, the Jira and Xray services, the agent's SDK and its bridge: maps, listings, event sequences and nondeterministic replies stand for them.
- Taking events, chains, registrations, client calls and dependencies out of source text by regular expressions: the models begin with the extracted lists. The one expression that is part of the core, that of a hunk header, is modelled for ASCII digits.
- Decoding the escapes inside a quoted path of a diff is a parameter, any function; splitting off the quotes is modelled, and a printed path is quoted as anything that function decodes as it.
- DiffNames.NewNameReads: one direction only. With quotes another reading of the line can by accident be decoded as the same path, which depends on the decoder; for bare paths `DiffNames.ReadsIffPathsTold` is exact.
- `unreadable`, prompts, redaction, prose classification, JSON repair, word-list similarity, near-miss hints and report rendering would only add easy members.
- `JobLock` in the defects tool: the stale test and the removal are two steps, so it gives no exclusion without an assumption about their atomicity.
- DepChainFacts.RightOrder: a ranking below the depth limit is sufficient, and `DepChainFacts.OneTooDeep` shows the limit sharp; the exact condition is on the chain itself, in `DepChainFacts.OrderedIffRanked`.
- ScannersAgree.ThreeAgree: literals with a line break inside are outside its tokens, and each text block is taken by itself: of several that disturb the body scanner two could make up for each other. What each scanner does by itself is proved on any text, in `ScannersAnyText`.
- CallSafety.RunKeeps: an interrupt from the keyboard, the first failure to open a kept conversation and the text of log lines are not events of the model; the pulse's waiting interval is any time at all.
- CallSafety.ClosedOnlyAfterTurn: that the last message still is the usage line, and that no tool runs, hold at the close when nothing came since the look.
- CallSafety.WhatTheCallerGets: the cancelled run is the live one only in a call without a second turn, as `CallSafety.TimeoutThoughRunning` shows.
- DepChain.ChainFor: the names the endpoint needs are given, from its operation or its path; the helper named with each call and the alternatives after `or` are not kept.
- Dataflow.AnalyseChain: the spec producers' prefixes and the baseline of accepted findings come in as seeds or are not modelled.
- Delegation.FluentMethods: the parsing of annotations and method bodies gives the call graph; the order of the table's keys is kept, that of a method's calls as well.
- WriteBack.Apply: the message of a refusal is its reason only; the mock connection is a flag of the request; a value's kinds are none, one text or several, so nested objects of the tracker are read already.
- Tee.Tee.Write: flushing, the handing on of other attributes and the waiting time between tries are left out; what a failing write of the stream had already passed on is not kept.
- RetryDedup.Dedup: every removal succeeds or finds nothing there; the sorted parameter string of a result is given; a stop that is not a whole number is none; results that are not JSON objects are not modelled.
- RetryDedup.OneResultEach: needs attachments whose files are no results or containers; without that `RetryDedup.WinnerStaysUnlessNamed` says exactly which winners remain.
- RetryDedup.NamedAttachmentsStay: which file a name stands for is a parameter, any function; a name that leads out of the directory stands for none in it.
- SnapshotStore.LastOfItsSecondIff: for file numbers of three digits; beyond 999 the names are no longer in the order of their numbers.
- SnapshotStore.Store.Record: the digest is parsed already and given with its hash; the report beside the run, its test count and gap are not kept; every deletion succeeds; the lists of a comparison are sets.
- FillCsv.Table.Fill: a cell missing from a short row reads and is written as an empty one, and surplus cells of a long row are not modelled; how names of columns are folded is a parameter.
- FillCsv.DoneTwice: for values none of which is blanks only, which is what the worksheet reader gives; for any values `FillCsv.FillsNothingMoreIff` is exact.
- PhaseOrder.Analyse: a finding carries the case's suite and id and the call or index, in place of the text that is printed; the registry is given with its keys distinct, as a dictionary has them.
- Markdown.NothingBanned: word characters and digits are any two classes that do not hold the zero-width space; of the characters that are escaped only the underscore may be a word character, and white space, `&`, `;` and `(` are none. A mention or reference cut off by the end of the text is none.
- MarkdownPage.LinksRead: says where a link can begin; whether what follows `www.` is a valid domain is not part of it.
- CodeBlock.FenceReads: lines end at the line feed; `CodeBlock.NoLineCloses` holds however the text is cut into lines.
- `code` and `xhtml` beside the encoder are single replacements.
