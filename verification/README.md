# Verification of the red-to-green loop and its benchmark app

A Dafny model of a loop that drives a local model server until an oracle test passes, and of the
parts of the benchmark application that hold real logic. `dafny verify dfyconfig.toml` checks it
all.

What is modelled, module by module:

- **Cron, CronSearch, Calendar** — the five-field grammar, its expansion into value sets, and the
  search for the next firing over the proleptic Gregorian calendar (leap rule as in Appendix C of
  RFC 3339). The bounded search is complete: it gives up exactly when no day of the unbounded
  calendar is selected.
- **Sse, Decoding, Wire, Frames, Meanings** — the incremental event-stream decoder (buffer, resume offset, one compaction per
  chunk) against a batch decoder over the concatenated bytes, and the mapping of one frame to
  events. The line syntax is the LF/CRLF part of sections 9.2.5 and 9.2.6 of the WHATWG HTML
  Standard.
- **Derail** — the latched guard as a class that rebuilds lines across deltas and keeps a six-slot
  window, refining a state machine that judges the whole text consumed.
- **Client, Harmony** — one generation call: ticks, decoding, the guard, metering, and the recovery
  of the reply from a channel transcript.
- **Edits, Paths, Worktree** — the whole-file reply frame, the fence that may wrap it, and the
  containment of the paths replies name.
- **Prompt, Utf8** — the byte cap (UTF-8 as in section 3 of RFC 3629), the failure evidence, the
  nudge ladder and the bound every tail keeps.
- **Snapshot, Scores** — ranking, capture and exact restore of the permitted subtree.
- **Ladder, Loop** — the control of a run, proved about every run whatever the model answers and
  the oracle scores; and the run itself over a worktree.
- **Replay** — the encoder of a replayed completion, followed end to end through chunking, decoding,
  metering and extraction.
- **Auth, Readers** — password records and signed tokens over the library's lenient integer and
  hexadecimal readers, and what registration changes.
- **Texts, Sets** — sequences of code points and a few facts about sets.

Where the code and its own documentation disagree, the code is followed:

- The guard's verdict is documented as depending on the concatenated text only
  (`src/claude_local/derail.py:24-27`). Whether it trips does. The verdict, reason included, is the
  same for every chunking exactly when the text fits the character cap or does not repeat within
  its first cap's worth of characters (`Derail.OneVerdictIff`).
- `_cap_bytes` is documented never to exceed its cap (`src/claude_local/prompt.py:409-411`). It does
  when the cap is smaller than the truncation marker (`Prompt.CapHoldsIff`); every cap in use is
  larger.
- The brief's cap is documented to trim only the run's last lines (`src/claude_local/prompt.py:314-316`).
  It also cuts the failing tests when they and the score leave no room for the marker
  (`Prompt.BriefKeepsHead`, `Prompt.HeadCanBeCut`).
- A blocked path is documented as always a refusal (`src/claude_local/paths.py:89-93`). A name too
  long to look up fails the first probe, under CPython 3.12, with an `OSError` that no caller catches,
  and ends the run
  (`Loop.RunTask`, `Loop.Loop.ApplyFile`).
- A fence around a lone newline is not undone: that body comes back empty (`Edits.FencedUnwraps`).

A green attempt is the one restored, and the run done, exactly when no attempt passed more tests
than are pinned (`Loop.DoneExactly`); a run whose first attempt passes more hides its later green one
(`Loop.OvercountHidesGreen`).

Names follow the source in Dafny's spelling. A `Text` is a sequence of code points, lone surrogates
included, so that a reply without an encoding is a value and not an excluded case. An exception is a
`None`, or a constructor of the operation's own outcome.

## Model

| member | source | states |
|---|---|---|
| Cron.ComponentIffGrammar | benchmarks/schedule_manager/golden/app/cron.py:127-165 | a component is accepted exactly when the grammar writes it, with the stepped range the grammar assigns, inside the field's bounds |
| Cron.ExpansionDecides | benchmarks/schedule_manager/golden/app/cron.py:127-143 | the expansion selects exactly the values of the component's stepped range |
| Cron.ParseField | benchmarks/schedule_manager/golden/app/cron.py:115-124 | a field parses exactly when every comma component is in the grammar; its set is exactly their normalized union; starred exactly when a star is in the text |
| Cron.ParsedFieldWithin | benchmarks/schedule_manager/golden/app/cron.py:26-27 | a parsed set is never empty and within bounds, 7 folded to 0 for weekdays |
| Cron.MembersAreSteps | benchmarks/schedule_manager/golden/app/cron.py:143 | a stepped range is its start and every further step up to the stop |
| Cron.DenotesIsMeans | benchmarks/schedule_manager/golden/app/cron.py:26-27 | the one alias the code folds is the count modulo seven, on every field and component |
| Cron.FieldBounds | benchmarks/schedule_manager/golden/app/cron.py:39-45 | the bounds of the five fields |
| Cron.StarMeans | benchmarks/schedule_manager/golden/app/cron.py:134-135 | a star alone means every value of its field, the two Sundays being one |
| Readers.ValueDecimal | benchmarks/schedule_manager/golden/app/cron.py:160 | the value read from a printed number is that number |
| Cron.WordsCons | benchmarks/schedule_manager/golden/app/cron.py:95 | the fields are the maximal runs without whitespace, in order |
| Cron.ParseCron | benchmarks/schedule_manager/golden/app/cron.py:93-102 | an expression parses exactly when it is five grammatical fields; each field of the schedule then holds exactly the numbers some component of its text selects, weekdays counted modulo seven, and is starred exactly when its text holds a star |
| Calendar.OrdinalOfDateOf | benchmarks/schedule_manager/golden/app/cron.py:74 | stepping day by day and the closed-form ordinal agree on every day |
| Calendar.DateOfOrdinal | benchmarks/schedule_manager/golden/app/cron.py:74 | every valid date is reached by stepping, at its ordinal |
| Calendar.DaysBeforeYearClosed | benchmarks/schedule_manager/golden/app/cron.py:74 | the leap rule summed over the years is the usual closed form |
| Calendar.Tabled | benchmarks/schedule_manager/golden/app/cron.py:74 | the days before each month are the commonly tabled ones, a leap day added from March on |
| Calendar.NextLeapFirst | benchmarks/schedule_manager/golden/app/cron.py:8 | the next leap year is the first one |
| Calendar.EightYears | benchmarks/schedule_manager/golden/app/cron.py:8 | eight years without a leap year between span 2921 days |
| Calendar.LongestGap | benchmarks/schedule_manager/golden/app/cron.py:8 | from one leap year to the next: four years of 1461 days, or eight of 2921 when the rule skips one, as it did after 1896 |
| Calendar.Recurs | benchmarks/schedule_manager/golden/app/cron.py:8 | every month and day, February 29 included, comes round within 2921 days of any day |
| Calendar.WeekdayRecurs | benchmarks/schedule_manager/golden/app/cron.py:8 | every weekday of every month comes round within 2927 days of any day |
| CronSearch.Sorted | benchmarks/schedule_manager/golden/app/cron.py:77-78 | the value sets are visited in increasing order, none lost |
| CronSearch.WeekdayClosed | benchmarks/schedule_manager/golden/app/cron.py:85 | the code's weekday is the count from Monday 0001-01-01, one later each day, Sunday 0 |
| CronSearch.WeekdayAnchored | benchmarks/schedule_manager/golden/app/cron.py:85 | on the calendar: 2000-01-01 a Saturday, the day after a Sunday |
| CronSearch.LastDay | benchmarks/schedule_manager/golden/app/cron.py:74 | the last day a datetime can name is 9999-12-31 |
| CronSearch.DaySelectedIff | benchmarks/schedule_manager/golden/app/cron.py:84-90 | a day is selected exactly when its month is and: neither day field starred, its date or its weekday is; one starred, the other decides; both, the weekdays do |
| CronSearch.SelectsIff | benchmarks/schedule_manager/golden/app/cron.py:58-66 | a minute is selected exactly when its day, its hour and its minute are |
| CronSearch.SelectedDayRecurs | benchmarks/schedule_manager/golden/app/cron.py:84-90 | a schedule that selects any day selects one in every window of 2927 days |
| CronSearch.HorizonComplete | benchmarks/schedule_manager/golden/app/cron.py:73-82 | a horizon without a selected minute means no day of the unbounded calendar is selected |
| CronSearch.NextAfter | benchmarks/schedule_manager/golden/app/cron.py:68-82 | the first chosen minute strictly after the reference minute, chosen as the calendar tells it; exhausted exactly when no day at all is chosen; overflow exactly when the last representable day comes first |
| CronSearch.IterationEnumerates | benchmarks/schedule_manager/golden/app/cron.py:58-82 | iterating enumerates the selected minutes in increasing order, skipping none |
| CronSearch.NextMonotone | benchmarks/schedule_manager/golden/app/cron.py:68-69 | the answer is unique and monotone in the reference |
| Frames.CollectChoices | src/claude_local/sse.py:164-184 | the choices' events in order, or the first refusal among them and nothing else |
| Frames.ChoicesFaithful | src/claude_local/sse.py:164-207 | the content emitted is the choices' content concatenated, no empty text, no error |
| Frames.NoFrameOverflows | src/claude_local/sse.py:132-133 | the overflow error is the decoder's own, no frame emits it |
| Frames.FrameAllOrNothing | src/claude_local/sse.py:138-161 | a frame emits one error alone, or events without error carrying exactly the content of its choices |
| Meanings.FrameMeans | src/claude_local/sse.py:138-235 | every payload's events, exactly: malformed by its first 120 characters, not an object, the upstream error alone, the first wrong field of choices then usage, or else what each choice says, reasoning before content before finish, and the count |
| Meanings.UpstreamError | src/claude_local/sse.py:148-150 | a frame with an error emits that one error and nothing else, its message when it has one, else all of it rendered |
| Sse.BatchGrows | src/claude_local/sse.py:81-86 | more bytes only add events, and none follows the terminator |
| Sse.DecodedIsBatchPrefix | src/claude_local/sse.py:103-135 | for every chunking: a prefix of the batch decode, then at most one overflow error |
| Sse.DecodedIsBatchIff | src/claude_local/sse.py:103-135 | the whole batch decode exactly when the chunk end the stream stops at is within the bound |
| Sse.DecodedIsBatch | src/claude_local/sse.py:103-135 | with no chunk end over the bound: the whole batch decode |
| Sse.ChunkingInvariant | src/claude_local/sse.py:81-82 | two such chunkings of one byte string decode alike |
| Wire.CrlfInvariant | src/claude_local/sse.py:109-111 | a byte stream and the same stream with every line feed sent as CRLF decode alike, with the same block pending and the same bytes retained |
| Wire.LineMeans | src/claude_local/sse.py:111-129 | every line: a data line adds its payload less one space, any other line nothing, a blank line dispatches the block joined by newlines or ends the stream |
| Wire.PayloadArrives | src/claude_local/sse.py:81-86 | a payload of any number of lines sent as one block arrives whole and adds exactly the events it means |
| Wire.ErrorArrives | src/claude_local/sse.py:148-150 | an upstream error sent as a block adds exactly that one error to the stream's events |
| Wire.OverflowMeans | src/claude_local/sse.py:132 | the bound is a mebibyte, on the unterminated bytes and the characters of the block |
| Decoding.Decoder.constructor | src/claude_local/sse.py:103-106 | an empty buffer, nothing pending |
| Decoding.Decoder.TakeLine | src/claude_local/sse.py:114-129 | one line advances the pending block and the events as the batch decoder's step does |
| Decoding.Decoder.Drain | src/claude_local/sse.py:109-129 | the retained tail holds no newline, so resuming past it loses no line; the comparisons made are those of the new bytes |
| Decoding.Decoder.Push | src/claude_local/sse.py:107-134 | after each chunk the events so far are the batch decode of the bytes so far, plus the overflow error exactly at the bound |
| Decoding.DecodeSse | src/claude_local/sse.py:78-135 | the chunked decode; newline comparisons and compaction shifts each at most the bytes received |
| Derail.UntrippedIff | src/claude_local/derail.py:126-161 | untripped exactly when every input was within the deadline and 180 s of the last content or first arrival, the text fits the cap, and no six consecutive eligible lines are equal |
| Derail.TripReason | src/claude_local/derail.py:126-161 | why an untripped guard trips next, each reason exactly: past the deadline, more than 180 s quiet, over the cap, a repeat |
| Derail.LineCounts | src/claude_local/derail.py:175-181 | a line counts exactly when it ends past 200 characters of the text and is at least 24 long; an unended one never |
| Derail.RepeatsMeans | src/claude_local/derail.py:182-184 | a repeat is six counted lines in a row that are the same |
| Derail.VerdictOnText | src/claude_local/derail.py:126-139 | without a clock trip, whether it trips is a fact of the concatenated text; within the cap the verdict is too |
| Derail.OneVerdictIff | src/claude_local/derail.py:24-27 | all chunkings of a text without a clock trip reach one verdict, reason included, exactly when the text fits the cap or does not repeat within it |
| Derail.ReasonDependsOnChunking | src/claude_local/derail.py:136-139 | past the cap the reason can differ between two chunkings |
| Derail.SomeTextRepeatsWithinCap | src/claude_local/derail.py:45-51 | texts on which it differs exist |
| Derail.Latched | src/claude_local/derail.py:122-129 | a verdict never changes |
| Derail.ExtraTickHarmless | src/claude_local/derail.py:110-124 | an extra tick after arming gains and misses no trip and changes no content state; reasons differ only when both clock bounds have passed |
| Derail.DerailGuard.constructor | src/claude_local/derail.py:84-98 | the deadline and the cap from the budget, nothing consumed, the silence clock unarmed |
| Derail.DerailGuard.CheckClock | src/claude_local/derail.py:141-156 | the two clock bounds in order, arming on first arrival |
| Derail.DerailGuard.Tick | src/claude_local/derail.py:110-124 | refines the machine's tick |
| Derail.DerailGuard.Feed | src/claude_local/derail.py:126-139 | refines the machine's feed, whose verdict is on the whole text |
| Derail.DerailGuard.ScanForRepetition | src/claude_local/derail.py:163-186 | trips exactly when the whole text repeats, however the deltas cut its lines |
| Derail.DerailGuard.ScanLines | src/claude_local/derail.py:175-186 | the window is the last six eligible lines, and a run completes exactly when it is full and equal |
| Harmony.LastFinal | src/claude_local/harmony.py:46-48 | a final marker followed by none is the last one, no marker overlapping another |
| Harmony.OpensIff | src/claude_local/harmony.py:44-45 | a transcript is exactly a text that opens, leading blanks aside, with either mark |
| Harmony.MessageEnds | src/claude_local/harmony.py:51-53 | a message is cut exactly at its terminator, whichever it is |
| Harmony.TranscriptRecovered | src/claude_local/harmony.py:29-53 | the last final channel of a transcript comes back whole |
| Harmony.OtherReplies | src/claude_local/harmony.py:32-34 | other text passes unchanged; a transcript without a final channel yields nothing |
| Client.Frame.Result | src/claude_local/client.py:185-210 | the result the consumed events amount to |
| Client.Frame.Tick | src/claude_local/client.py:134-137 | a chunk's arrival is judged before it is decoded |
| Client.Frame.Take | src/claude_local/client.py:157-179 | one event kept in the books; an error stops the call without a derail |
| Client.Frame.Judge | src/claude_local/client.py:166-170 | the guard has judged exactly the text observed, all but the last delta within the cap |
| Client.ModelClient.Drive | src/claude_local/client.py:155-184 | the events consumed are a prefix of the stream's decode, all of it unless something stopped the call |
| Client.ModelClient.Generate | src/claude_local/client.py:139-210 | one call counted; every character of every content and reasoning delta observed and judged once, in order, and the estimate taken over all of them; the text the assistant content of exactly the content consumed; the server's last count and reason; all but the last delta within the cap, all of them without a derail; the fault, without a derail, the stream's first error; fault and derail never together; with neither, every event consumed; the verdict that of the guard on the clock's own consecutive readings, or the transport's silence; the seconds from the first reading to the one after the guard's last |
| Client.FedIsSpoken | src/claude_local/client.py:158-168 | what is fed is the text of every content and reasoning delta, in stream order |
| Client.EstimateBounded | src/claude_local/client.py:190-195 | an estimate exceeds the budget by at most the tokens of the last delta |
| Client.NothingForFree | src/claude_local/client.py:191-194 | any content is at least one token, only an empty decode none |
| Edits.UnwrapFence | src/claude_local/edits.py:103-124 | the loop computes the unwrapping |
| Edits.UnwrappedIffNotWrapped | src/claude_local/edits.py:112-122 | the identity exactly on payloads missing either end of the fence |
| Edits.FencedUnwraps | src/claude_local/edits.py:103-124 | fencing undone for every newline-terminated or empty body but a lone newline, any info string without a marker, any blanks around the closer |
| Edits.WrappedIsFenced | src/claude_local/edits.py:112-122 | nothing else is unwrapped: every wrapped payload is such a fence |
| Edits.FrameExtracts | src/claude_local/edits.py:53-90 | after any leading newlines, a frame with its blank line yields its path and unwrapped source, or nothing if either has no encoding |
| Edits.FrameYields | src/claude_local/edits.py:75-90 | every frame, with or without the blank line, yields its path and what follows, unwrapped |
| Edits.YieldsFrame | src/claude_local/edits.py:75-84 | nothing else yields a file: what is extracted comes from a frame |
| Edits.FrameRoundTrip | benchmarks/harness/replay.py:126 | encode then extract gives back exactly the path and source, for exactly the unwrapped sources |
| Edits.TranscriptRoundTrip | src/claude_local/harmony.py:29-53 | the same when the frame is the last final channel of a transcript |
| Edits.PayloadDecodes | src/claude_local/loop.py:521-523 | an extracted payload decodes strictly, to the text it encodes |
| Replay.StreamDecodes | benchmarks/harness/replay.py:124-161 | the encoded completion decodes to the reply, the stop and the usage, and ends |
| Replay.ReplayDelivers | benchmarks/harness/replay.py:124-161 | end to end, for every chunking within the bound: the metered call carries the reply, the usage and the stop, and the extracted file is exactly the path and source |
| Paths.NestedIffPlain | src/claude_local/paths.py:37-73 | accepted exactly when the text is two or more plain names joined by slashes |
| Paths.Contained | src/claude_local/paths.py:76-113 | whatever the candidate names, a target is the root or beneath it, and is in the tree or would be a new name in a place that is |
| Paths.UpAgain | src/claude_local/paths.py:123 | going into a name that exists and up again leads nowhere else |
| Paths.DotsDropped | src/claude_local/paths.py:99 | empty pieces and single dots are no part of a path |
| Paths.PlainResolves | src/claude_local/paths.py:99-112 | a plain path into an existing directory resolves to what its text says, unless a name is too long to look up |
| Worktree.FileSystem.WriteBytes | src/claude_local/edits.py:146 | a write changes that file alone, and is refused on a directory |
| Worktree.FileSystem.MakeDirs | src/claude_local/snapshot.py:100 | creates exactly the missing ancestors, or nothing when a file stands in the way |
| Scores.ScoreJunit | src/claude_local/runner.py:81-107 | the suites' counts summed, passed and collected consistent with them |
| Scores.GreenPassesAll | src/claude_local/runner.py:62-70 | green exactly when valid and all the pinned tests, no more, passed |
| Snapshot.BestIsMinimal | src/claude_local/snapshot.py:44-53 | the best has the most passed, of those the fewest errors, of those the fewest failures, and is the first of its rank |
| Snapshot.CaptureCoherent | src/claude_local/snapshot.py:68-79 | a capture of a sound tree can be restored into that tree |
| Snapshot.RestoredExactly | src/claude_local/snapshot.py:87-105 | after a restore the subtree's files are exactly the capture's, files outside are untouched, and the directories are exactly the files' ancestors |
| Snapshot.SnapshotStore.Record | src/claude_local/snapshot.py:68-79 | appends the subtree as it stands |
| Snapshot.SnapshotStore.RestoreBest | src/claude_local/snapshot.py:87-105 | reaches exactly that tree from any later state in which no path is both file and directory, and only from those |
| Snapshot.SnapshotStore.WriteAll | src/claude_local/snapshot.py:98-101 | every wanted file written, parents included, whatever the order |
| Snapshot.SnapshotStore.RemoveExtras | src/claude_local/snapshot.py:102-104 | exactly the subtree's files outside the capture are removed |
| Snapshot.SnapshotStore.PruneEmptyDirs | src/claude_local/snapshot.py:107-112 | exactly the directories holding no file go, chains of nested empty ones included, never the subtree |
| Utf8.DecodeEncoded | src/claude_local/loop.py:521-523 | decoding an encoding gives back the text, whatever follows and whatever the error handler |
| Utf8.EncodedShape | src/claude_local/prompt.py:412 | every encoding announces its length, continues it and carries its code point |
| Utf8.StepExact | src/claude_local/sse.py:111 | the decoder takes nothing but encodings: overlong forms and surrogates are errors |
| Prompt.CutDecodes | src/claude_local/prompt.py:416 | a cut anywhere in an encoding decodes to the whole characters that fit |
| Prompt.CapBytesExactly | src/claude_local/prompt.py:406-416 | the text, or its longest whole-character prefix that leaves room for the marker, then the marker; never over the cap |
| Prompt.CapHoldsIff | src/claude_local/prompt.py:409-410 | for every cap, it holds exactly when nothing was trimmed or the marker fits |
| Prompt.FirstDetail | src/claude_local/prompt.py:358-363 | the first result line, none before it |
| Prompt.DetailEnd | src/claude_local/prompt.py:364 | the run of result lines from there, complete |
| Prompt.StatementBefore | src/claude_local/prompt.py:365-368 | the nearest failing statement above the result |
| Prompt.EvidenceIffDetail | src/claude_local/prompt.py:350-369 | evidence exists exactly when some line marks a result |
| Prompt.FirstFailureQuoted | src/claude_local/prompt.py:350-369 | wherever the first failure stands, all its result lines and no later failure's are quoted, led by the nearest failing statement above |
| Prompt.SplitLinesOfJoin | src/claude_local/prompt.py:401-403 | joining lines and splitting them again gives them back, but for an empty last line |
| Prompt.BriefKeepsHead | src/claude_local/prompt.py:311-328 | a brief over its cap keeps its score and failing tests whole exactly when they leave room for the marker |
| Prompt.HeadCanBeCut | src/claude_local/prompt.py:314-316 | under every score and header, an output whose brief loses part of the failing test it names |
| Prompt.RepairReads | src/claude_local/prompt.py:287-295 | a repair tail, exactly: the capped file under its header, if there is one; the capped failure brief; then, for a rung, the first failure's capped evidence under its header, if there is any, and the whole rung |
| Prompt.ReframeReads | src/claude_local/prompt.py:255-269 | a reframe, exactly: the capped reply under its header, and what to send instead |
| Prompt.BriefNames | src/claude_local/prompt.py:318-327 | a brief names every failing test of the output, and of the last forty lines shows every other one |
| Prompt.LineBreaks | src/claude_local/prompt.py:396-403 | ten code points end a line, and a carriage return with a line feed ends one |
| Prompt.DistillFeedback | src/claude_local/prompt.py:271-308 | the tail built section by section reads in that order, has an encoding, and keeps the bound of every tail |
| Prompt.BriefEncodes | src/claude_local/prompt.py:311-328 | filtering and cutting an encodable output never loses its encoding |
| Prompt.TailBounded | src/claude_local/prompt.py:255-308 | one constant of the wording bounds every tail |
| Ladder.AttemptsBounded | src/claude_local/loop.py:312-346 | every run has at most twice the pinned count plus seven attempts, one fewer with no negative pass count |
| Ladder.LongestRun | src/claude_local/loop.py:312-346 | the sharper bound is reached, for every pinned count, by a run all of whose scores carry that count |
| Ladder.RungNumbersStall | src/claude_local/prompt.py:243-253 | the next tail carries a rung exactly after a stall, as its number counted over the whole run, and the third stall ends the run |
| Ladder.RungsIncrease | src/claude_local/loop.py:474-488 | the rungs sent along a run strictly increase, so each at most once and the first before the second |
| Ladder.ReframeOnce | src/claude_local/loop.py:453-472 | the reframe is sent at most once, right after the blocked attempt that earned it |
| Ladder.OnlyLastEnds | src/claude_local/loop.py:333-345 | nothing follows a green score, a fault or a derail |
| Ladder.EndsExactly | src/claude_local/loop.py:333-346 | a run ends exactly on a fault or a derail, on the second reply that is no file, on green, and on the third stall |
| Loop.Plateau.Record | src/claude_local/loop.py:81-86 | the watermark and the streak, untouched by an unscored attempt |
| Loop.Loop.ApplyFile | src/claude_local/edits.py:127-147 | writes exactly when the named path resolves to the permitted file, changes that file alone, and fails exactly when either path holds a name too long to look up |
| Loop.Loop.ScoreAttempt | src/claude_local/loop.py:490-523 | a scored attempt aimed at the permitted file and has written, captured and reported the payload its reply framed; a blocked one gives its cause, no frame or the path it framed; any unscored one leaves worktree and captures alone |
| Loop.Advance | src/claude_local/loop.py:333-346 | the variables of the next attempt are those of the control machine, or the run raises on quoting a reply without an encoding |
| Loop.Cycle.Turn | src/claude_local/loop.py:312-346 | one iteration keeps control, reports, tails, worktree and captures in step |
| Loop.OneTail | src/claude_local/loop.py:352-367 | the tail is the one the control state calls for, quotes the file and verdict, or the reply, of the attempt right before it, and counts as nudged exactly when it carries a rung |
| Loop.TailsBounded | src/claude_local/prompt.py:255-308 | every tail of every run has an encoding and keeps one bound, whatever the model replies and the oracle prints |
| Loop.RungsTold | src/claude_local/loop.py:474-488 | along every reported run the rungs its tails carry strictly increase: each in at most one tail, the first before the second |
| Loop.ReframeTold | src/claude_local/loop.py:463-472 | the reframe is in at most one tail |
| Loop.ReportsTrue | src/claude_local/loop.py:94-145 | nudged exactly when the tail sent carries a rung; blocked, and only then, that the reply frames no file, or which path it frames, which was not the permitted file's; a repeat exactly when the reply is the one before it; a plateau exactly when two scores in a row have not cleared the most passed before |
| Loop.RestoreKeepsDirs | src/claude_local/loop.py:384 | whichever capture is restored, below the subtree exactly the directories holding one of its files stay, and all others |
| Loop.RestoreBringsBack | src/claude_local/loop.py:384 | whichever capture is restored, the worktree's files are those that attempt left |
| Loop.Finish | src/claude_local/loop.py:369-407 | the permitted file ends as the best attempt left it, the status ranks the cause that ended the run |
| Loop.RunTask | src/claude_local/loop.py:278-350 | for every model and oracle: the oracle file still holds the test, no file but the permitted one changes, whatever paths replies name; the permitted file ends with the rank-minimal payload or untouched, and of the directories below the subtree exactly those holding a file stay; each exception that can end the run, exactly when, and what it leaves; the attempts within the budget, each told only of the attempt right before it and reported as the run has it |
| Loop.GreenIsLast | src/claude_local/loop.py:339-340 | a green attempt is the last, its capture the last capture |
| Loop.DoneIff | src/claude_local/loop.py:206-230 | over the captures, the best is green exactly when the last is green and none passed more than pinned |
| Loop.DoneExactly | src/claude_local/loop.py:233-246 | done exactly when some attempt was green and none passed more than pinned; the green attempt is then the one restored |
| Loop.OvercountHidesGreen | src/claude_local/loop.py:222-223 | a run that scores green and is not done: an earlier attempt passed more than pinned, and is the one restored |
| Loop.StatusPrecedence | src/claude_local/loop.py:206-246 | below green: faulted, derailed, blocked or exhausted exactly by the cause of the last attempt |
| Readers.IntRoundTrip | benchmarks/schedule_manager/golden/app/services/auth_service.py:124 | the integer reader reads back every printed integer |
| Readers.HexRoundTrip | benchmarks/schedule_manager/golden/app/services/auth_service.py:53 | the byte reader reads back every printed byte string |
| Readers.SignIsRead | benchmarks/schedule_manager/golden/app/services/auth_service.py:124 | the integer reader is lenient: a signed spelling of every number is read too |
| Readers.CapitalsAreRead | benchmarks/schedule_manager/golden/app/services/auth_service.py:53 | the byte reader is lenient: the capital spelling of every byte string is read too |
| Auth.ParseIffEncoded | benchmarks/schedule_manager/golden/app/services/auth_service.py:42-68 | a record is parsed from its own canonical text and from no other, for the username it is salted with |
| Auth.EncodesAsText | benchmarks/schedule_manager/golden/app/services/auth_service.py:66-68 | a record's text, spelled out |
| Auth.RecordBindsUsername | benchmarks/schedule_manager/golden/app/services/auth_service.py:43 | one text is a record for at most one username |
| Auth.VerifyIffIssued | benchmarks/schedule_manager/golden/app/services/auth_service.py:115-138 | a token is accepted exactly when it is the one text of a stored user's: the identifier and its code under the service's key |
| Auth.IssuedText | benchmarks/schedule_manager/golden/app/services/auth_service.py:115-118 | a token's text, spelled out: the identifier, a dot, the code of the identifier's text |
| Auth.AuthenticateIffDerived | benchmarks/schedule_manager/golden/app/services/auth_service.py:99-113 | a login succeeds exactly for the stored user whose record is the text of the username and of the digest its own password derives |
| Auth.RegisterKeepsSound | benchmarks/schedule_manager/golden/app/services/auth_service.py:90-97 | registration is refused exactly for a taken name, adds one ordinary user with the record of its credentials, and keeps names and identifiers unique |
| Auth.RegisterThenAuthenticate | benchmarks/schedule_manager/golden/app/services/auth_service.py:90-113 | afterwards the name logs in with exactly the passwords that derive the same digest under it, and every other login fares as before |
| Auth.RegisterThenVerify | benchmarks/schedule_manager/golden/app/services/auth_service.py:115-138 | afterwards the new user's token names the new user, and every other token fares as before |

## Left out

- Transport, processes, the server's lifetime, the sandbox, the command line, telemetry, scorecards and style linting.
- The application's routers, schemas, schedules and SQL: the user table is a map with a unique index on names.
- JSON and XML parsing, the message authentication code and the password derivation are given functions. Of the JSON printer `Replay` assumes that the four chunks print on one line of ASCII, opening with a brace, and read back.
- The wording of prompts, error messages and the rules card; an error event carries what its message is about, and its length is not modelled.
- Loop.TailsBounded: the score header and the oracle's output are assumed to have encodings, as decoding the output with replacement ensures (`src/claude_local/runner.py:217-219`), and the removal of run facts is assumed to keep them.
- The removal of run facts from the oracle's output by regular expressions: a `Prompt.Failure` holds the output already stripped.
- `stable_prefix` and the plan step, which precede the attempts and write nothing.
- The economy record of a run.
- Exceptions of the transport and of a broken oracle, which propagate out of a run without a result.
- CronSearch.NextAfter: instants are UTC minutes; a naive datetime, which raises before the search, has no value here, and arithmetic past the year 9999 is the outcome `Overflowed`.
- Cron.ParseField: Python's limit on the digits of an integer's text is not modelled; a longer number raises another ValueError where the model refuses it as out of bounds.
- Readers.IntRoundTrip: the same digit limit, which no identifier of the table reaches; the decimal digits of other scripts are a given function.
- Paths.Contained: symbolic links, and the limit on the length of a whole path. Each component after a regular file, `..` included, follows the resolution of CPython 3.12.
- Worktree.FileSystem.WriteBytes: permissions, disk errors and concurrent writers.
- Snapshot.SnapshotStore.Record: captures are keyed by absolute path, where the source keys them relative to the subtree and joins them again.
- Snapshot.SnapshotStore.RestoreBest: which files were written before a refusal is not stated; the source raises there.
- Loop.RunTask: the permitted directory exists when the run starts, as the entry point arranges (`src/claude_local/entrypoint.py:170-176`), and the permitted path is not itself a directory; the test's text has an encoding, without which writing it raises; the generations and the oracle's verdicts are arbitrary inputs.
- Loop.Cycle.Turn: a `Cycle` object stands for the local variables of `Loop.run`; likewise `Decoding.Decoder` for those of the generator and `Client.Frame` for those of one call. Between an event and the next, the decoder has already read the rest of its chunk, where the generator would read on demand.
- Decoding.DecodeSse: comparisons and shifts are counted by ghost counters beside the code; the cost of appending a chunk is not.
- Auth.RegisterKeepsSound: the identifier is the table's own choice, a parameter here; roles other than that of a new user are given out elsewhere.
- Auth.AuthenticateIffDerived: the fixed cost of a refusal, a matter of timing.
