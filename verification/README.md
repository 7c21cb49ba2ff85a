# rwave: verified model

rwave answers questions about waveform files: it turns per-signal change
histories into time-ordered dumps, point snapshots, condition searches and
hierarchy listings.  Most answers have a simple meaning (look at every tick,
look at the last change at or before a tick, list all changes in order) and a
fast implementation (heap merge, bisection, bounded heap, batched and windowed
decoding, a two-phase windowed read, an incremental collector).  This project
models the fast implementations in Dafny and proves that they have the simple
meaning, or, where they do not on every input, exactly when they do.

The modules, from the bottom up:

- `Traces`, `Backends`: change histories, bisection, windows of histories.
- `SignalTable`: declarations that share a handle become one signal.
- `BinaryHeaps`, `Replay`, `ReplayExists`, `MergeHeap`: the k-way merge and the
  one list it can produce.
- `Visits`, `Waves`, `BoundedEvents`, `BoundedOutcomes`, `Collected`, `Dump`:
  the trace cache, batched and windowed visiting, snapshots, the bounded
  collector and all it may return, and the two routes of `dump`.
- `FstCollector`, `FstWindow`, `FstReader`, `FstLoad`, `FstDecode`,
  `FstAnswers`, `FstEchoes`: the windowed FST decode against the full one.
- `FoldChange`: folding vendor emissions in place.
- `BigNat`, `Conditions`, `Display`, `Searchable`, `Numerals`, `Targets`,
  `Readings`: big numbers, condition targets, 4-state patterns and displays, how
  the latter two fit together, and what each of them means in terms of the
  characters written or recorded.
- `Clauses`, `Terms`, `SearchState`, `Intervals`, `IntervalTheorems`,
  `EventSearch`, `SearchStream`, `SearchTheorems`, `Search`, `SearchCommand`: the
  search command.
- `Calendar`, `JsonText`, `JsonReader`, `JsonRoundTrip`, `BatchLine`, `Globs`,
  `Filters`, `StringOrder`, `ScopePaths`, `ScopeIndex`, `ScopeWalk`,
  `ScopeOrder`, `ScopeSelect`, `ScopeTree`: dates, JSON, batch lines, name
  patterns and the scope tree.

Classes stand where the source updates an object (the wave and its cache, the
collectors, the big number, the heap, the output buffer); each method is
proved against a function or a reference definition, and lemmas prove what the
source promises about that definition.  A consumer closure that the source
calls for every visit or event appears as the list of calls it receives.

## Disagreements and corner cases

- The README of the program says (README_en.md:531-533) that streaming and
  eager paths produce identical output.  This fails in three situations, the
  first two for `dump` only.
  - Ties (model.rs:731-758, any format, more than 8192 selected signals, a
    limit): entries of one signal at one tick have equal keys, the heap may put
    them in any order, and the final sort leaves them so.  `Dump.TieDiffers` is
    an example; `BoundedOutcomes.ThreePushed` and `FirstToEnd` follow its heap
    and its sort.  Number of rows, truncation, ticks and signals always agree
    (`Dump.DumpBounded`), and without a limit everything does.  With one,
    `Dump.StreamedAlways` gives the exact condition for every outcome to be the
    replay's beginning.  It holds whenever no tick and signal that the first
    rows reach has entries with different values, and with nothing cut only
    then; at the last row's key it is weaker, because an arrival with `limit`
    earlier ones up to its key is never kept (`BoundedOutcomes.TieRefused`).
  - FST windows: a change at the begin tick that repeats the value before it is
    dropped by the full decode, but the windowed decode dates its seed there, so
    a windowed dump shows one row more (`FstWindow.RepeatMovesSeed`); and of
    several kept changes at the begin tick it shows only the last.
    `FstAnswers.DumpAgreesAlways` gives the exact condition on the raw changes,
    and `FstAnswers.DumpAgrees` its form for one raw change per tick.  Point
    queries are not affected by this (`FstAnswers.WindowedAnswers`).
  - FST frames: the second read echoes the frame of the file's first section,
    and a signal without a change up to the window's begin takes that echo as
    its seed.  A dump can then show a row more or lose one
    (`FstEchoes.EchoSwallowsRow`), and a point query can find a value where no
    change lies up to its tick.  `FstEchoes.DecodedEntries` and
    `FstEchoes.DecodedAnswers` give the exact conditions against the full decode
    of the changes, `FstEchoes.SlotEntries` and `FstEchoes.SlotAnswers` for every
    slot.  `snapshot` (commands/snapshot.rs:52) and `compare`
    (commands/compare.rs:54) read windows from every seeking backend, whatever
    the size of the selection, so they meet this too.  The vendored `wellen`
    records the frame in its full decode as well, at the first time of the
    file's table; what agrees with that is said by `FstEchoes.FrameAnswers`,
    `FrameEntriesLater` and `FrameEntriesEarlier`.
- A comment in the windowed FST decode (fst_window.rs:226-230) says that a
  signal without a change before the window ends up without a seed.  The second
  read echoes the frame of the file's first section as well, and a signal whose
  first change lies behind the window's begin then takes the echo as its seed
  (`FstWindow.EchoBecomesSeed`); `FstWindow.DecodedIsWindowed` gives the exact
  condition.
- The search documents `changed()` as a true transition at a tick.  A signal
  that leaves its value and returns within one tick counts as well
  (`SearchTheorems.GlitchCounts`); `SearchTheorems.ChangeIsTransition` states
  that this is the only exception.
- A value recorded with more bits than its signal has is displayed as unknown,
  but a numeric condition still compares all its bits
  (`Searchable.OverLongMatchesNumber`, `Terms.FoundWhereShown`).  An empty
  recorded value is displayed as zero, but equals no number.
- The comment on the batch-line splitter lets any unquoted `#` begin the label;
  the code does so only where a word would begin, and that is what
  `BatchLine.SplitInvertsWriting` follows: a word may contain a bare `#`.  With
  that, `BatchLine.AcceptedIffWritten` says exactly which lines are accepted.

## Model

| member | source | states |
|---|---|---|
| `Traces.LowerBound` | crates/rwave/src/model.rs:909-914 | index of the first change at or after a tick: everything before it is earlier, everything from it on is not |
| `Traces.UpperBound` | crates/rwave/src/model.rs:916-918 | number of changes at or before a tick |
| `Traces.LastAtOrBefore` | crates/rwave/src/model.rs:893-907 | the bisection answers `None` exactly when every change is later, and otherwise the last change at or before the tick |
| `Traces.LastAtOrBeforeIsValueAt` | crates/rwave/src/model.rs:888-907 | on every trace and tick the bisection finds the value written last at or before the tick |
| `Backends.WindowValue` | crates/rwave/src/model.rs:1126-1160 | any window that carries in the value entering it, whatever date that value is given, and any whole history, answers every point query inside the window as the full history does |
| `Backends.DocumentedServes` | crates/rwave/src/model.rs:1126-1160 | both seed shapes of the windowed backends are such windows |
| `Backends.CarriedEntries` | crates/rwave/src/model.rs:711-718 | a window shows exactly the history's entries in range if and only if the carried value is dated at `from` just when it stands for the one entry there, and otherwise before |
| `Backends.TaggedEntries` | crates/rwave/src/model.rs:1135-1146 | a seed tagged just before the window never adds or hides an entry |
| `Backends.TrueTickEntries` | crates/rwave/src/model.rs:1147-1160 | a seed with its own tick leaves the entries right if and only if at most one entry lies at `from` |
| `Backends.WindowEntries` | crates/rwave/src/model.rs:1126-1160 | with at most one change per tick, a window in either seed shape has exactly the history's entries in range |
| `Backends.WindowEntriesNeedStrictness` | crates/rwave/src/model.rs:1126-1160 | two changes at the tick `from`: the window with a true-tick seed shows only the second, so strictness is needed |
| `Backends.Backend.LoadTraces` | crates/rwave/src/backend/mod.rs:212-218 | one full history per requested handle, in request order |
| `Backends.Backend.LoadTracesWindowed` | crates/rwave/src/backend/mod.rs:226-252 | one admissible window of the handle's changes per requested handle, in request order; from a backend that keeps to the entries, one with exactly the history's entries in range |
| `BinaryHeaps.RootIsLargest` | crates/rwave/src/model.rs:959-988 | the item a heap gives out first has a largest key |
| `BinaryHeaps.SiftedUp` | crates/rwave/src/model.rs:959-988 | one swap upward moves the only suspect link of the heap to the parent |
| `BinaryHeaps.SiftedDown` | crates/rwave/src/model.rs:959-988 | one swap with the larger child moves the suspect links down to it |
| `BinaryHeaps.PushedKeeps` | crates/rwave/src/model.rs:937-957 | sifting the new item up adds it, keeps the heap ordered and loses nothing |
| `BinaryHeaps.BinaryHeap.Push` | crates/rwave/src/model.rs:937-957 | the layout afterwards is the old one with the new item sifted up |
| `BinaryHeaps.BinaryHeap.Pop` | crates/rwave/src/model.rs:937-957 | takes out one item with a largest key and nothing else; among equal keys any may come |
| `BinaryHeaps.BinaryHeap.Peek` | crates/rwave/src/model.rs:937-957 | shows an item with a largest key |
| `SignalTable.GroupDecls` | crates/rwave/src/model.rs:1017-1048 | declarations with one handle form one group: all their paths in order, width and kind of the first, and the index of the first |
| `SignalTable.SortAliases` | crates/rwave/src/model.rs:1056-1061 | the aliases in path order, each path once, none invented and none lost |
| `SignalTable.BuildSignalTable` | crates/rwave/src/model.rs:993-1090 | exactly one entry per declared handle, sorted by path, whatever order the groups come in |
| `SignalTable.DeclOrdersDiffer` | crates/rwave/src/model.rs:1020-1048 | declaration orders differ between signals, which the replay order relies on |
| `SignalTable.EveryDeclListed` | crates/rwave/src/model.rs:993-1081 | every declaration is an alias of exactly one signal, the one with its handle |
| `SignalTable.CanonicalIsSmallest` | crates/rwave/src/model.rs:1062-1063 | the signal's own path is the smallest of its aliases |
| `SignalTable.FromBackend` | crates/rwave/src/model.rs:295-314 | a wave opened from declarations starts with the full table, distinct declaration orders and an empty cache |
| `Replay.ReplayUnique` | crates/rwave/src/model.rs:600-612 | the definition of a replay (all in-window entries, once each, by tick, declaration and position) leaves exactly one possible list |
| `ReplayExists.ReplayExists` | crates/rwave/src/model.rs:600-612 | every set of traces has a replay |
| `Replay.MergeStep` | crates/rwave/src/model.rs:651-677 | emitting the foremost offer and moving its signal on keeps the merge invariant |
| `Replay.MergeDone` | crates/rwave/src/model.rs:651-658 | stopping at the first tick beyond `t1`, or when nothing is left, loses nothing |
| `MergeHeap.LargestIsForemost` | crates/rwave/src/model.rs:961-988 | the largest cursor on the heap is the entry that comes first in replay order |
| `MergeHeap.CursorsAdvance` | crates/rwave/src/model.rs:667-676 | advancing a signal replaces exactly its own cursor by its next one, if any |
| `MergeHeap.Turned` | crates/rwave/src/model.rs:651-677 | one turn of the loop keeps the merge invariant, and one entry less is left |
| `MergeHeap.Drain` | crates/rwave/src/model.rs:651-678 | the loop terminates and what it emits is the replay |
| `Visits.AddedFlat` | crates/rwave/src/model.rs:571-584 | grouping by handle lists every requested signal exactly once |
| `Waves.Wave.EnsureLoaded` | crates/rwave/src/model.rs:438-470 | afterwards exactly the requested signals have been added to the cache, each with its full history |
| `Waves.Wave.Release` | crates/rwave/src/model.rs:525-530 | drops exactly the traces that are not to be kept |
| `Waves.Wave.ForEachSignalBatched` | crates/rwave/src/model.rs:500-531 | every selected signal is visited once, in order, with its full history, and the cache is afterwards what it was |
| `Waves.Wave.ForEachSignalWindowed` | crates/rwave/src/model.rs:545-595 | every selected signal is visited once with an admissible window (with the history's entries, if the backend keeps to them), and the cache is afterwards what it was |
| `Waves.Wave.GroupByHandle` | crates/rwave/src/model.rs:571-584 | signals are grouped under their own handle, none lost and none doubled |
| `Waves.Wave.ForEachEvent` | crates/rwave/src/model.rs:613-678 | replays exactly the cached in-window changes of the selection, in replay order |
| `Waves.Wave.Snapshot` | crates/rwave/src/model.rs:764-776 | maps exactly the cached selected signals that have a value at `t` to that value |
| `Waves.Wave.SnapshotPair` | crates/rwave/src/model.rs:780-800 | both snapshots, from one pass |
| `Waves.Wave.SnapshotStreaming` | crates/rwave/src/model.rs:805-818 | over windows of the changes: equals the snapshot over full histories and leaves the cache as it was |
| `Waves.Wave.SnapshotPairStreaming` | crates/rwave/src/model.rs:823-863 | over windows of the changes: for ta <= tb both answers equal the snapshots over full histories, with one spanning window or two point windows, and the cache is as it was |
| `Waves.Wave.CollectEventsBounded` | crates/rwave/src/model.rs:692-760 | without a limit, all in-window events that passed, stably sorted; with one, an outcome of keeping the earliest `limit` on a heap that may give out any of its largest; `total` counts all that passed, and `truncated` says whether more than `limit` did |
| `Waves.Wave.VisitStep` | crates/rwave/src/model.rs:805-818 | one visit adds to the answer exactly what the full history of its signal says |
| `BoundedEvents.SortByKey` | crates/rwave/src/model.rs:748-758 | sorts by tick and declaration order, stably: at every key the same events in the same order |
| `BoundedEvents.StableUnique` | crates/rwave/src/model.rs:748-758 | only one list is sorted and has given events in a given order at every key |
| `BoundedOutcomes.Refused` | crates/rwave/src/model.rs:735-742 | an arrival not smaller than a largest kept event may be dropped |
| `BoundedOutcomes.Exchanged` | crates/rwave/src/model.rs:735-742 | a smaller arrival takes the place of a largest kept event |
| `BoundedEvents.Offer` | crates/rwave/src/model.rs:731-743 | every arrival is one step of the collection, whichever of several largest events the heap gives out |
| `BoundedOutcomes.KeepsExactly` | crates/rwave/src/model.rs:731-743 | what may be kept, exactly: a smallest part of the arrivals made of arrivals that met fewer than `limit` earlier ones up to their key |
| `BoundedOutcomes.SameKeys` | crates/rwave/src/model.rs:692-760 | all outcomes have the same number of events and the same key row by row |
| `BoundedOutcomes.ExpectedIsOutcome` | crates/rwave/src/model.rs:692-760 | the first `limit` arrivals in stable order are one of the outcomes |
| `BoundedOutcomes.OutcomesAgree` | crates/rwave/src/model.rs:692-760 | they are the only outcome if and only if admitted arrivals with a common key that the rows reach are equal |
| `BoundedOutcomes.OneEventSettles` | crates/rwave/src/model.rs:692-760 | enough for that: no two different events at a key that the rows reach |
| `BoundedOutcomes.NothingCut` | crates/rwave/src/model.rs:692-760 | when nothing is cut that is also needed |
| `BoundedOutcomes.BelowLastRow` | crates/rwave/src/model.rs:692-760 | and it is needed at every key below that of the last row |
| `BoundedOutcomes.TieRefused` | crates/rwave/src/model.rs:735-742 | at the last row it is not: with limit 1 the second of two events of one key is never kept, whatever its value |
| `BoundedOutcomes.ThreePushed` | crates/rwave/src/model.rs:733-734 | two events of one key and a later one: the third push puts the first event behind the second |
| `BoundedOutcomes.FirstToEnd` | crates/rwave/src/model.rs:748-758 | and the stable sort leaves them in that order |
| `BoundedOutcomes.TieSwapped` | crates/rwave/src/model.rs:748-758 | when nothing is cut, two different events of one key may change places in the outcome |
| `Collected.ArrivalsSorted` | crates/rwave/src/model.rs:711-758 | visiting each signal once, in any order: the in-window entries in stable order by key are the replay, several entries at a tick included |
| `Collected.PassingSorted` | crates/rwave/src/model.rs:692-758 | the same with windows that keep to the histories' entries, and as many events pass as the replay has |
| `Collected.Collect` | crates/rwave/src/model.rs:711-760 | the whole collection: stable sort of everything without a limit, an outcome of the heap with one |
| `Collected.OneValuedIs` | crates/rwave/src/model.rs:692-760 | the condition of `OneEventSettles`, read off the replay: no tick and signal that the first rows reach has entries with different values |
| `Dump.DumpEager` | crates/rwave/src/commands/dump.rs:66-87 | the eager merge with clipping: row by row the tick, the path of the signal and the value of the first entries of the replay of the selected histories, and whether there were more |
| `Dump.DumpBounded` | crates/rwave/src/commands/dump.rs:50-65 | the bounded route, for any batch size and limit: as long as the windows keep to the histories' entries, number of rows, truncation and every row's tick and signal are the replay's; so are the values without a limit, without ties, or with the condition of `StreamedAlways`; the cache is as it was |
| `Dump.StreamedAlways` | crates/rwave/src/model.rs:692-760 | every outcome of the bounded route is the beginning of the replay if and only if the arrivals ever admitted at a tick and signal that the rows reach do not differ; with nothing cut, if and only if no tick and signal has different values |
| `Dump.StrictNoTies` | crates/rwave/src/model.rs:692-760 | with at most one change per tick and signal there are no ties |
| `Dump.TieDiffers` | crates/rwave/src/model.rs:748-758 | one signal with '1' and '0' at tick 5 and '1' at tick 6, limit 3: the replay has '1' first, and the bounded route may return '0' first |
| `Dump.DumpCollect` | crates/rwave/src/commands/dump.rs:37-90 | above and below the streaming threshold: the eager route is the replay's first rows always; the bounded one agrees up to the values of tied rows, and entirely without a limit or without ties |
| `Dump.ClipCalls` | crates/rwave/src/commands/dump.rs:69-86 | the replay consumer makes a row of each of the first `limit` calls, with its tick, its signal's path and its value, and notices exactly when there are more |
| `Dump.EventsToRows` | crates/rwave/src/commands/dump.rs:57-65 | and the bounded route one of each event it was given |
| `Dump.CollectorIsReplay` | crates/rwave/src/model.rs:692-760 | what passes the collector is the replay of the full histories, and the rows to expect are its first `limit` entries |
| `FstCollector.Collector.OnPhase1` | crates/rwave/src/backend/fst_window.rs:252-286 | the whole new state of the collector after a phase-1 emission |
| `FstCollector.Collector.OnPhase2` | crates/rwave/src/backend/fst_window.rs:171-190 | only a demoted collector takes the emission, and only at or before `from` |
| `FstCollector.Collector.FinishTrace` | crates/rwave/src/backend/fst_window.rs:301-341 | the finished trace of the collector's state |
| `FstCollector.RunTracks` | crates/rwave/src/backend/fst_window.rs:240-295 | after any frame echoes and any ordered run of changes, the trusted seed is the last change up to `from`, and the window holds the in-window changes with repeats dropped against it |
| `FstCollector.LateBase` | crates/rwave/src/backend/fst_window.rs:318-325 | dropping the first window entry once the seed is known gives what dropping it at once would have given |
| `FstCollector.Phase2KeepsLast` | crates/rwave/src/backend/fst_window.rs:171-190 | phase 2 keeps the last emission up to `from`, echoes included |
| `FstCollector.FinishIs` | crates/rwave/src/backend/fst_window.rs:301-341 | with phase 2 or without, the finished trace is the seed found and the window with repeats dropped against it |
| `FstWindow.DecodedIsWindowed` | crates/rwave/src/backend/fst_window.rs:226-230 | with a frame echoed by phase 2 the finished trace is the windowed trace of the signal's changes if and only if no echo lies up to `from` or a change does; otherwise the echo is the seed |
| `FstWindow.EchoIsChange` | crates/rwave/src/backend/fst_window.rs:165-190 | an echo up to `from` counts as a change at its own time |
| `FstWindow.EchoBecomesSeed` | crates/rwave/src/backend/fst_window.rs:226-230 | a frame at 3 echoed by both phases and a change at 20: from 10 on the trace is [3, 20], although the signal has no change up to 10 |
| `FstWindow.WindowRefinesFull` | crates/rwave/src/backend/fst_window.rs:64-71 | the windowed trace has the in-window changes and the seed value of the slice of the de-duplicated history |
| `FstWindow.WindowIsSlice` | crates/rwave/src/backend/wellen_backend.rs:463-478 | the whole windowed trace, seed tick included, is the slice of the full decode if and only if the signal is of event kind or the value entering the window was not written again before `from` |
| `FstWindow.RewrittenWhenStrict` | crates/rwave/src/backend/fst_window.rs:64-71 | with one raw change per tick that condition is: the last raw change up to `from` repeats the one before it |
| `FstWindow.RepeatMovesSeed` | crates/rwave/src/backend/fst_window.rs:301-341 | a concrete raw history whose windowed seed has another tick than the slice's |
| `FstReader.BetweenLast` | crates/rwave/src/backend/fst_window.rs:87-95 | a read that goes far enough finds the last change up to `from` if it starts early enough, and otherwise nothing up to `from` |
| `FstReader.WindowSuffices` | crates/rwave/src/backend/fst_window.rs:87-95 | with the clamped seek point and end, phase 1 has every in-window change, and any seed it finds is the right one |
| `FstReader.HistorySuffices` | crates/rwave/src/backend/fst_window.rs:165-170 | phase 2 finds the last change up to `from` |
| `FstReader.OneSignal` | crates/rwave/src/backend/fst_window.rs:87-190 | whatever section the reads start in and whatever frames they echo, the two phases yield the windowed trace of the raw history, seeded with phase 2's echo if the history has no change up to `from` |
| `FstLoad.Register` | crates/rwave/src/backend/fst_window.rs:96-108 | one fresh collector per handle; duplicate slots share one |
| `FstLoad.FeedPhase1` | crates/rwave/src/backend/fst_window.rs:127-144 | every collector ends in the state that the emissions of its own handle lead to, echoes marked by the first emission's time |
| `FstLoad.FeedPhase2` | crates/rwave/src/backend/fst_window.rs:170-190 | the same for phase 2 |
| `FstLoad.DemoteSeedless` | crates/rwave/src/backend/fst_window.rs:151-164 | exactly the collectors without a trusted seed are demoted and their handles requested, once each |
| `FstDecode.EchoesFirst` | crates/rwave/src/backend/fst_window.rs:110-133 | looking at the first emission only tells every frame echo from every change |
| `FstDecode.LoadWindowed` | crates/rwave/src/backend/fst_window.rs:72-211 | unless a read fails, slot k gets the trace of its own signal, in slot order, duplicates included and read by the kind of the first slot of the handle; a failed read yields no traces |
| `FstDecode.ServedWindow` | crates/rwave/src/backend/fst_window.rs:72-211 | that trace is the windowed trace of the signal's changes, after its echo if that lies up to `from` |
| `FstAnswers.WindowedAnswers` | crates/rwave/src/backend/wellen_backend.rs:463-478 | without an echo as its seed, a window answers every point query inside it as the full decode does, however the seed is dated |
| `FstAnswers.WindowServes` | crates/rwave/src/backend/mod.rs:226-239 | for any raw history, repeated writes included, a window of it without an echo as its seed is one that the streaming snapshots admit |
| `FstAnswers.ExactWindow` | crates/rwave/src/backend/mod.rs:226-239 | without an echo as its seed, and when the value entering it was not written again, it is a window in the documented shape |
| `FstAnswers.FullKeeps` | crates/rwave/src/backend/wellen_backend.rs:463-478 | the full decode keeps at a tick as many entries as there are raw changes at it that differ from the raw change just before; for events, all of them |
| `FstAnswers.DumpAgreesAlways` | crates/rwave/src/backend/wellen_backend.rs:463-478 | for any raw history, without an echo as the seed: the entries from `from` on agree with the full decode's if and only if, among the raw changes at `from`, exactly one differs from the raw change just before it (for events: there is exactly one), or there are none |
| `FstAnswers.DumpAgrees` | crates/rwave/src/backend/fst_window.rs:64-71 | with one raw change per tick and no echo as the seed, the entries from `from` on agree with the full decode's if and only if the signal is of event kind or no change at exactly `from` repeats the value before it |
| `FstEchoes.DecodedAnswers` | crates/rwave/src/backend/fst_window.rs:165-199 | for any raw history and any echoes of the second read: a point query inside the window gets the answer of the full decode of the changes if and only if no echo lies up to `from` or a change lies up to the query's tick |
| `FstEchoes.DecodedEntries` | crates/rwave/src/backend/fst_window.rs:165-199 | likewise for the entries: with a change up to `from`, or no echo up to it, under the condition of `DumpAgreesAlways`; otherwise if and only if the echo lies before `from` and no first change of the window repeats its value (for events: if it lies before) |
| `FstEchoes.EchoSwallowsRow` | crates/rwave/src/backend/fst_window.rs:301-341 | both phases echo a frame ('0' at 3), the only change is ('0' at 20), the window begins at 10: the run ends with the echo alone, no change lies up to 10, and the row at 20 of the full decode is gone |
| `FstEchoes.SlotValue` | crates/rwave/src/backend/fst_window.rs:301-341 | what a point query finds in a decoded slot: the last change up to its tick, or else the echo up to `from` |
| `FstEchoes.SlotAnswers` | crates/rwave/src/backend/fst_window.rs:64-71 | the point-query condition for every slot that the windowed decode returns |
| `FstEchoes.SlotEntries` | crates/rwave/src/backend/fst_window.rs:64-71 | the entry condition for every slot that the windowed decode returns |
| `FstEchoes.SlotServes` | crates/rwave/src/backend/mod.rs:226-239 | every slot, echo or not, is a window that the streaming snapshots admit, of the changes with the echo that is seen put before them |
| `FstEchoes.FrameAnswers` | vendor/wellen/src/fst.rs:89-121 | against a full decode that records the frame at the first time of the file's table: point queries agree if and only if a change lies up to the query's tick, or the frame lies up to `from` exactly when that first time lies up to that tick |
| `FstEchoes.FrameEntriesLater` | vendor/wellen/src/fst.rs:89-121 | the entries against that decode, when the first time is up to `from`: the condition of `DumpAgreesAlways`, with the frame counted as a change at the first time |
| `FstEchoes.FrameEntriesEarlier` | vendor/wellen/src/fst.rs:89-121 | and when the first time is after `from`: if and only if that time lies beyond the window's end and no echo shows at `from`, or no echo is the seed and the signal, not of event kind, has a first change exactly like the recorded frame |
| `FoldChange.SignalTrace.FoldChange` | crates/rwave/src/backend/plugin_backend.rs:694-716 | the whole new trace after one emission, for events and for other kinds |
| `FoldChange.SignalTrace.FromEmissions` | crates/rwave/src/backend/plugin_backend.rs:643-716 | folding any ordered emission stream yields: the last value per tick, repeats dropped; for events, the stream itself |
| `FoldChange.FoldStepIsNet` | crates/rwave/src/backend/plugin_backend.rs:694-716 | one in-place step takes the net trace of a stream to the net trace of the longer stream |
| `FoldChange.NetTraceShape` | crates/rwave/src/backend/plugin_backend.rs:685-693 | a net trace is strictly increasing and has no adjacent equal values |
| `FoldChange.NetTraceValue` | crates/rwave/src/backend/plugin_backend.rs:685-693 | its value at any tick is that of the last emission at or before the tick |
| `BigNat.CarryFits` | crates/rwave/src/condition.rs:126-137 | limb times multiplier plus carry fits 64 bits, and the carry is again a limb |
| `BigNat.BigUint.MulSmallAdd` | crates/rwave/src/condition.rs:126-137 | the limbs' value becomes value times `mul` plus `add` |
| `BigNat.BigUint.ScaleInPlace` | crates/rwave/src/condition.rs:127-132 | the in-place pass with its carry equals schoolbook scaling |
| `BigNat.BigUint.Normalize` | crates/rwave/src/condition.rs:119-124 | drops exactly the zero limbs at the top |
| `BigNat.BigUint.FromDigitString` | crates/rwave/src/condition.rs:140-175 | the number read has the value of the digits |
| `BigNat.LimbsUnique` | crates/rwave/src/condition.rs:107-113 | normalized limbs of equal value are equal |
| `BigNat.SameNumber` | crates/rwave/src/condition.rs:107-175 | two readings give equal limbs if and only if they name the same number, in any two bases |
| `Conditions.EqualKeysEqualTargets` | crates/rwave/src/condition.rs:67-75 | for parsed targets, equal de-duplication keys mean equal targets |
| `Numerals.WrittenValue` | crates/rwave/src/condition.rs:139-176 | reading the text of a number, in any base up to 16, gives the number back, and the text has no leading zeros |
| `Targets.NumbersAreRead` | crates/rwave/src/condition.rs:178-230 | a text is read as the number `n` if and only if it is `n` written in decimal with at most 100 digits, in hexadecimal behind `0x` with at most 16384, or in binary behind `b` or `0b` with at most 65536, zeros in front allowed |
| `Targets.OneNumberOneTarget` | crates/rwave/src/condition.rs:139-271 | texts in any two of these forms have one number exactly if they name one number |
| `Targets.MasksAreRead` | crates/rwave/src/condition.rs:178-278 | a text is read as a bit pattern if and only if it is that pattern: behind a prefix any 0/1/x/z/? text that is no number, bare one without `?` |
| `Targets.RefusedExactly` | crates/rwave/src/condition.rs:178-271 | each of the fourteen refusals, told from the text alone, exactly in its case; every other text is a target |
| `Conditions.PatternCompare` | crates/rwave/src/condition.rs:460-497 | one pass decides whether every cared bit agrees, and whether some cared bit is unknown |
| `Readings.DisplayReads` | crates/rwave/src/format.rs:112-205 | what is shown of every recorded value, told from its characters: `h` and `l` are levels in either case, `z` floats, all else is undefined; known bits that fit show as a bit or as their number in hexadecimal, others bit by bit behind `b`, extended by an unknown first bit, all undefined if too long; reals and strings as they are, events as triggered |
| `Readings.CleanIsShown` | crates/rwave/src/format.rs:156-182 | a value written in 0 and 1 within the width is shown as that bit at width 1, and else as `0x` and hexadecimal digits with the number its characters spell |
| `Searchable.BitsUnique` | crates/rwave/src/condition.rs:384-404 | bit strings of one length are equal exactly when their numbers are |
| `Searchable.NumbersAgreeWithPatterns` | crates/rwave/src/condition.rs:384-404 | for 0/1 targets numeric matching equals pattern matching, for every value not longer than the width |
| `Display.HexByNibbles` | crates/rwave/src/format.rs:222-248 | the pad, gather and strip loops compute the hex rendering; it fails exactly on non-binary text |
| `Display.GatherNibbles` | crates/rwave/src/format.rs:234-241 | four bits at a time |
| `Searchable.NibblesValue` | crates/rwave/src/format.rs:222-248 | hex rendering keeps the number |
| `Searchable.CanonicalUnique` | crates/rwave/src/format.rs:242-247 | stripped hex texts are equal when their values are |
| `Searchable.HexShown` | crates/rwave/src/format.rs:222-248 | hex rendering is injective on bit strings of one length |
| `Searchable.PatternShown` | crates/rwave/src/condition.rs:460-497 | a fully spelled pattern matches exactly the values displayed that way, left extension included |
| `Searchable.ShownAlike` | crates/rwave/src/format.rs:120-186 | two values are displayed alike exactly when their left-extended 4-state bits agree |
| `Searchable.DisplayedMatches` | crates/rwave/src/format.rs:112-186 | for values within the width, a condition on the display of `v` parses and matches exactly the values displayed alike; it always matches `v` |
| `Searchable.DisplayIsTarget` | crates/rwave/src/condition.rs:178-271 | the same without the width bound: over-long values with the displayed number match as well, and no others |
| `Searchable.OverLongMatchesNumber` | crates/rwave/src/condition.rs:384-404 | every zero-padded over-long value is displayed as unknown and yet matches its number's display |
| `Clauses.ConditionsHold` | crates/rwave/src/commands/search.rs:242-275 | the loop decides whether all terms hold |
| `Terms.TermMeets` | crates/rwave/src/condition.rs:384-436 | when a comparison holds, told from the recorded characters: equal if a value is recorded and reads as the target, different if every bit the target asks for is known and it does not; numbers by the number spelled, patterns bit by bit at the signal's width, other than logic signals only by their text |
| `Terms.ExactlyOne` | crates/rwave/src/condition.rs:406-436 | equal and different never hold together, neither holds while undefined, and otherwise one of them does unless the value does not read as the target and a bit asked for is unknown; on known values that fit, and on signals that are no logic, exactly one |
| `Terms.NumbersNeedLogic` | crates/rwave/src/commands/search.rs:253-267 | a signal that is no logic never equals a number, and differs from every number once it has a value |
| `Terms.BasesHoldAlike` | crates/rwave/src/condition.rs:384-404 | texts that name one number, in whatever base, hold alike under every operator; texts that name two numbers never equal one value both |
| `Terms.FoundWhereShown` | crates/rwave/src/condition.rs:406-436 | compared with the display of `v`, equal holds exactly where a value is recorded that is displayed the same way, or that is too long and spells the number shown |
| `Terms.DifferentFromShown` | crates/rwave/src/condition.rs:406-436 | different holds, for a number shown, exactly where a known value spells another, and for a display with unknown bits, exactly where a number is shown |
| `Clauses.KeyDecides` | crates/rwave/src/commands/search.rs:231-236 | resolved terms have equal keys exactly when they are the same term |
| `Clauses.DedupTerms` | crates/rwave/src/commands/search.rs:219-221 | keeps the first of every term, in order |
| `Clauses.SameKeyHoldsAlike` | crates/rwave/src/commands/search.rs:289-293 | clauses with equal keys hold in the same states and transition sets |
| `Clauses.DedupClauses` | crates/rwave/src/commands/search.rs:494-501 | keeps the first clause of every key, in order |
| `Clauses.CoveringHoldsAlike` | crates/rwave/src/commands/search.rs:494-501 | dropping clauses with a repeated key never changes whether the disjunction holds, in any state and transition set |
| `SearchState.GroupState` | crates/rwave/src/commands/search.rs:864-869 | a complete group leads from the state before its tick to the state at its tick |
| `SearchState.StateQuiet` | crates/rwave/src/commands/search.rs:864-869 | between samples the state does not change |
| `Intervals.ScanQuiet` | crates/rwave/src/commands/search.rs:791-1036 | looking only at ticks with samples misses nothing |
| `Intervals.OpenSince` | crates/rwave/src/commands/search.rs:871-928 | an open row began exactly when the present observation was first made |
| `Intervals.Collector.EndGroup` | crates/rwave/src/commands/search.rs:866-932 | after a complete group the collector stands where looking at every tick stands, or has stopped at the limit |
| `Intervals.Collector.InitCheck` | crates/rwave/src/commands/search.rs:850-860 | the late check at `t0` sees the changes at `t0` itself |
| `Intervals.Collector.OnSample` | crates/rwave/src/commands/search.rs:838-937 | every sample keeps the collector's invariant |
| `Intervals.Collector.OnEnd` | crates/rwave/src/commands/search.rs:949-1033 | the final group and the final row complete the result |
| `Intervals.SearchIntervals` | crates/rwave/src/commands/search.rs:791-1036 | the rows are the first `limit` rows of looking at every single tick; truncation is reported if and only if there are more, and then the count is one more than the rows |
| `IntervalTheorems.RowsAreSpans` | crates/rwave/src/commands/search.rs:791-1036 | rows come in order without overlap, and each is a maximal span of one observation |
| `IntervalTheorems.EverySpanHasRow` | crates/rwave/src/commands/search.rs:791-1036 | every maximal span of the window has its row |
| `IntervalTheorems.HoldsIffCovered` | crates/rwave/src/commands/search.rs:791-1036 | for t0 <= t < t1 the condition holds at t if and only if a row covers t |
| `IntervalTheorems.RowShowsThroughout` | crates/rwave/src/commands/search.rs:335-350 | a row's displayed tuple is what the signals show at every tick of the row |
| `IntervalTheorems.TouchingRowsDiffer` | crates/rwave/src/commands/search.rs:871-928 | rows that touch differ in what they display; without displayed signals no rows touch |
| `IntervalTheorems.RowEndsWithChange` | crates/rwave/src/commands/search.rs:871-928 | every row but the last ends because the observation changes |
| `IntervalTheorems.EmptySpan` | crates/rwave/src/commands/search.rs:962-1033 | a change exactly at `t1` into a matching state leaves the empty row [t1, t1) at the end |
| `IntervalTheorems.OnlyLastIsEmpty` | crates/rwave/src/commands/search.rs:791-1036 | every row but the last has a length |
| `IntervalTheorems.NoLengthNoRows` | crates/rwave/src/commands/search.rs:945-960 | a window of no length has no rows |
| `EventSearch.GroupChanges` | crates/rwave/src/commands/search.rs:616-640 | the transitions judged over a complete group are those at its tick |
| `EventSearch.FiredQuiet` | crates/rwave/src/commands/search.rs:587-702 | where no sample arrives nothing fires |
| `EventSearch.Collector.ProcessGroup` | crates/rwave/src/commands/search.rs:616-640 | applies the group and says whether some clause has all its changes and levels |
| `EventSearch.Collector.OnSample` | crates/rwave/src/commands/search.rs:642-678 | every sample keeps the collector's invariant |
| `EventSearch.SearchEvents` | crates/rwave/src/commands/search.rs:587-702 | the events are the first `limit` events of looking at every single tick; truncation is reported if and only if there are more |
| `EventSearch.EventsAreExact` | crates/rwave/src/commands/search.rs:587-702 | events come once each in ascending tick order, exactly where the search fires, with the values right after the tick |
| `SearchStream.StreamIsTraces` | crates/rwave/src/commands/search.rs:804-813 | the state after the replayed samples up to t is the state the traces define at t |
| `SearchTheorems.SpansAreExact` | crates/rwave/src/commands/search.rs:791-1036 | over the traces: at every tick of the window the condition holds on the values in effect exactly when a row covers it, and the row shows those values |
| `SearchTheorems.EventsAreExact` | crates/rwave/src/commands/search.rs:587-702 | over the traces: a tick of the window has an event exactly when some clause has all its changes there and its levels on the state right after |
| `SearchTheorems.ChangedIsRecorded` | crates/rwave/src/commands/search.rs:618-635 | a signal counts as changed exactly when its trace records a counting change at the tick |
| `SearchTheorems.ChangeIsTransition` | crates/rwave/src/commands/search.rs:618-635 | for non-event kinds a counting change is a true transition or a same-tick glitch, never both |
| `SearchTheorems.NoGlitchWhenStrict` | crates/rwave/src/commands/search.rs:618-635 | with one entry per tick there are no glitches |
| `SearchTheorems.GlitchCounts` | crates/rwave/src/commands/search.rs:618-635 | a concrete trace on which a same-tick glitch counts as a change |
| `SearchTheorems.EventKindCounts` | crates/rwave/src/commands/search.rs:626-630 | an event-kind signal counts at every recorded tick except tick 0 |
| `SearchTheorems.InitialisationNeverCounts` | crates/rwave/src/commands/search.rs:626-632 | first definitions and tick 0 never count for other kinds |
| `Clauses.ClausesLocal` | crates/rwave/src/commands/search.rs:242-285 | whether clauses hold depends on their own signals only |
| `Search.Choose` | crates/rwave/src/commands/search.rs:524-545 | shows what is asked for, or in event mode the signals under `changed()`; reads exactly the signals of the clauses and those shown, once each |
| `Search.Prepare` | crates/rwave/src/commands/search.rs:455-558 | refuses exactly a reversed window, then exactly an empty condition, then exactly a mix of clauses with and without `changed()`; otherwise keeps the meaning of the clauses and settles what to show and read |
| `SearchCommand.SpansHold` | crates/rwave/src/commands/search.rs:791-1036 | reading only the selected signals, the rows are exact over all recorded histories: in order and without overlap, each a maximal span of one observation with path, display and details of the recorded values, every such span there, and a tick covered exactly when the recorded values meet some clause as given, in the sense of `Terms.TermMeets` |
| `SearchCommand.SpansUnique` | crates/rwave/src/commands/search.rs:791-1036 | only one list of rows is exact in that sense |
| `SearchCommand.EventsHold` | crates/rwave/src/commands/search.rs:587-702 | likewise for events: in strictly increasing tick order, inside the window, one with its recorded tuple for exactly every tick right after which the recorded values, with the changes recorded at it, meet some clause as given |
| `SearchCommand.EventsUnique` | crates/rwave/src/commands/search.rs:587-702 | only one list of events is exact in that sense |
| `SearchCommand.RunSearch` | crates/rwave/src/commands/search.rs:560-568 | the command from clauses to rows: each error exactly in its case, and otherwise the first `limit` entries of the one exact list, the count reported for them, and whether there are more |
| `SearchCommand.SearchFindsShown` | crates/rwave/src/commands/search.rs:560-568 | an exact list of rows for one term that compares a logic signal with the display of `v` covers exactly the ticks at which the value recorded is displayed that way, or is too long and spells the number shown |
| `SearchCommand.SearchFindsDifferent` | crates/rwave/src/commands/search.rs:560-568 | and for what differs from it, exactly the ticks with a known value that spells another number, or, if the display has unknown bits, with a value that shows as a number |
| `Search.SearchSpans` | crates/rwave/src/commands/search.rs:791-1036 | interval search over a wave: the replay is that of the selected histories, and the rows are the limited rows of the reference |
| `Search.SearchTicks` | crates/rwave/src/commands/search.rs:587-702 | event search over a wave, likewise |
| `Calendar.DayInYear` | crates/rwave/src/format.rs:570-576 | the year formula puts every day of the 400-year era into the right March-based year |
| `Calendar.MonthOfYear` | crates/rwave/src/format.rs:578-580 | the month formula puts every day of the year into the right month |
| `Calendar.CivilIsInverse` | crates/rwave/src/format.rs:570-581 | every day number, negative ones included, becomes a valid date, and counting days by the leap-year rule gives the number back |
| `Calendar.EveryDateIsReached` | crates/rwave/src/format.rs:570-581 | every valid date is the date of its day count |
| `Calendar.StrictlyIncreasing` | crates/rwave/src/format.rs:570-581 | a later day has a later date and conversely |
| `Calendar.OneDayLater` | crates/rwave/src/format.rs:570-581 | the date of day + 1 is the calendar's next date |
| `Calendar.EpochIsDayZero` | crates/rwave/src/format.rs:566-569 | day 0 is 1970-01-01 |
| `Calendar.UnixUtcIsFaithful` | crates/rwave/src/format.rs:558-564 | the fields are a valid date and time of day, and determine the timestamp, also before the epoch |
| `JsonText.WriteCompact` | crates/rwave/src/json.rs:58-92 | appends exactly the value's text to the buffer |
| `JsonText.WriteString` | crates/rwave/src/json.rs:96-115 | appends the quoted, escaped string |
| `JsonText.ToCompactString` | crates/rwave/src/json.rs:52-56 | the text of the value |
| `JsonText.OneLine` | crates/rwave/src/json.rs:94-115 | the text has no character below U+0020, so a result is one line |
| `JsonRoundTrip.CharRead` | crates/rwave/src/json.rs:98-112 | whatever a character is written as, a reader following section 7 of RFC 8259 reads it as itself |
| `JsonRoundTrip.ShortestEscape` | crates/rwave/src/json.rs:98-112 | and that reader reads no shorter text as the character |
| `JsonRoundTrip.StringRead` | crates/rwave/src/json.rs:96-115 | every string is read back, whatever text follows |
| `JsonRoundTrip.ValueRead` | crates/rwave/src/json.rs:58-92 | every value is read back from its text, member order kept, whatever delimited text follows |
| `JsonRoundTrip.UniquelyDecodable` | crates/rwave/src/json.rs:50-92 | no value's text is the beginning of another's, up to delimiters |
| `JsonRoundTrip.LinesRead` | crates/rwave/src/json.rs:52-56 | a stream of one value per line is read back value by value |
| `BatchLine.SplitLine` | crates/rwave/src/cli.rs:902-993 | the scan terminates on every line and computes the tokens and label, or the error, that the position-free scan defines |
| `BatchLine.ReadDouble` | crates/rwave/src/cli.rs:950-972 | the double-quote loop: escaped quotes and backslashes, closing quote consumed |
| `BatchLine.ReadSingle` | crates/rwave/src/cli.rs:933-949 | the single-quote loop: literal text, closing quote consumed |
| `BatchLine.SplitInvertsWriting` | crates/rwave/src/cli.rs:893-993 | words written with any mix of bare, escaped, single- and double-quoted pieces, unescaped backslashes between double quotes included, separated by any blanks, with any ending, come back exactly, with the trimmed label |
| `BatchLine.AcceptedIffWritten` | crates/rwave/src/cli.rs:893-993 | a line is accepted if and only if it is such a text, so the refused lines are exactly those with no spelling |
| `BatchLine.ScanWritten` | crates/rwave/src/cli.rs:902-993 | from any point of a line on: what the scan accepts there is the rest of a word, spaced words and an ending |
| `BatchLine.QuotingRoundTrip` | crates/rwave/src/cli.rs:893-993 | any tokens, empty ones and ones with `#` included, written in double quotes with an optional trimmed label, are read back |
| `Globs.CollapseStars` | crates/rwave/src/filter.rs:199-214 | the collapsed pattern covers the same strings, has no two stars in a row, and is the pattern itself when it has no wildcards |
| `Globs.CompileGlob` | crates/rwave/src/filter.rs:218-244 | the tokens spell the pattern, literals hold no wildcards and are not empty |
| `Globs.GlobMatch` | crates/rwave/src/filter.rs:249-252 | the matcher accepts exactly the strings that the pattern covers, character by character and anchored |
| `Globs.GlobRec` | crates/rwave/src/filter.rs:254-288 | from any token and position on, likewise |
| `Globs.PlainIsEquality` | crates/rwave/src/filter.rs:143-150 | a pattern without wildcards is string equality |
| `Globs.StarsAreSubstring` | crates/rwave/src/filter.rs:18-22 | a wildcard-free pattern between two stars is substring search |
| `Globs.InARow` | crates/rwave/src/filter.rs:254-288 | a concatenated pattern covers exactly the strings that split into a part for each |
| `Filters.ParseOne` | crates/rwave/src/filter.rs:118-152 | a pattern is refused exactly when too long or with too many wildcards after collapsing; otherwise its compiled form chooses exactly the names the pattern selects, in either mode, by leaf or by path |
| `Filters.ParseMode` | crates/rwave/src/filter.rs:113-154 | a list is accepted exactly when all its patterns are, and means their union; empty patterns are skipped |
| `Filters.Matches` | crates/rwave/src/filter.rs:175-190 | a name passes exactly when one of the given patterns selects it |
| `Filters.WildcardsAre` | crates/rwave/src/filter.rs:127-134 | the wildcards counted are the stars and the question marks |
| `ScopePaths.Prefixes` | crates/rwave/src/commands/tree.rs:37-46 | the cuts at separators are exactly the chain of parents, outermost first, then the scope itself |
| `ScopePaths.CutsAreAncestors` | crates/rwave/src/commands/tree.rs:61-66 | cutting and following parents agree, a leading separator included |
| `ScopePaths.LastSegmentNames` | crates/rwave/src/commands/tree.rs:49-54 | the name of a scope has no dot or slash, and is the whole path or stands behind one |
| `ScopePaths.NameIs` | crates/rwave/src/commands/tree.rs:49-54 | and no other text does |
| `ScopePaths.ParentIs` | crates/rwave/src/commands/tree.rs:61-66 | a scope lies in `p` exactly if its path is `p`, a dot or slash, and its name, with `p` not empty |
| `ScopePaths.ChainIsOrdered` | crates/rwave/src/commands/tree.rs:61-66 | of two scopes enclosing a third, one encloses the other |
| `ScopeIndex.AddAlias` | crates/rwave/src/commands/tree.rs:98-112 | adding the enclosing scopes only the first time keeps the scope set closed under parents and the counts exact |
| `ScopeIndex.Build` | crates/rwave/src/commands/tree.rs:89-126 | the scopes are exactly the scopes of aliases and what encloses them, with exact direct counts; children lists and tops are the scopes with that parent, in order |
| `ScopeIndex.NothingLost` | crates/rwave/src/commands/tree.rs:89-126 | direct counts and root signals add up to the number of alias paths |
| `ScopeIndex.ChildrenAre` | crates/rwave/src/commands/tree.rs:115-125 | children of a scope are exactly the scopes whose parent it is, ascending |
| `ScopeWalk.Walk` | crates/rwave/src/commands/tree.rs:141-156 | appends the preorder listing of the subtree down to the level asked for |
| `ScopeWalk.VisitOnce` | crates/rwave/src/commands/tree.rs:141-156 | a walk visits every scope of the subtree down to the level asked for exactly once, and no other |
| `ScopeWalk.VisitParentsFirst` | crates/rwave/src/commands/tree.rs:141-156 | every node but the first comes after its parent, one level below it |
| `ScopeOrder.VisitAllOrdered` | crates/rwave/src/commands/tree.rs:141-156 | a walk from several scopes lists each before what it encloses and all that lies below it before its next sibling, siblings and starts in the order of their names |
| `ScopeOrder.OrderDecides` | crates/rwave/src/commands/tree.rs:141-156 | in that order, given scopes can be listed in one way only |
| `StringOrder.LessIs` | crates/rwave/src/commands/tree.rs:74-86 | names are ordered by the first characters that differ, or by length if one begins the other |
| `ScopeSelect.SegsAreRuns` | crates/rwave/src/select.rs:139-142 | the segments of a path are the runs of characters between dots and slashes, read from the front, empty ones left out |
| `ScopeSelect.SegMatches` | crates/rwave/src/select.rs:77-83 | a segment pattern matches exactly the whole segments it covers |
| `ScopeSelect.ParseScope` | crates/rwave/src/select.rs:139-156 | a scope value is refused exactly when a segment is too long or has too many wildcards; otherwise it means: a scope name at any level, or the last segments of a path |
| `ScopeSelect.PathNamesItself` | crates/rwave/src/select.rs:40-44 | a path written out from the root matches as its own suffix |
| `ScopeSelect.StructuralOk` | crates/rwave/src/select.rs:215-257 | true exactly when some enclosing scope, or the scope itself, is matched and near enough |
| `ScopeSelect.DescendantInScope` | crates/rwave/src/select.rs:223-247 | without a depth limit, what lies below a selected scope is selected |
| `ScopeSelect.Roots` | crates/rwave/src/commands/tree.rs:174-196 | the top level without a pattern; with one, the selected scopes whose parent is not selected, or an error when there is none |
| `ScopeSelect.EachSelectedOnce` | crates/rwave/src/commands/tree.rs:171-196 | walking the roots visits each selected scope exactly once, down to the level asked for, and no other scope |
| `ScopeSelect.EachScopeOnce` | crates/rwave/src/commands/tree.rs:171-240 | walking the tops visits every scope exactly once, down to the level asked for |
| `ScopeTree.WalkComplete` | crates/rwave/src/commands/tree.rs:215-240 | from the index built over the aliases: every wanted scope once and no other, in tree order, parents first, each with its name and true counts of signals and children, and the roots exactly those of the pattern |
| `ScopeTree.OneListing` | crates/rwave/src/commands/tree.rs:141-240 | two complete listings have the same roots and name the same scopes in the same order, so what the limit leaves is determined |
| `ScopeTree.Tree` | crates/rwave/src/commands/tree.rs:215-260 | the command without `--of`, from alias scopes to nodes: an error exactly when a pattern matches no scope, otherwise the first `limit` nodes of that listing, and whether there are more |
| `ScopeTree.TreeOf` | crates/rwave/src/commands/tree.rs:219-260 | with `--of`, for a signal's scope: the first `limit` nodes of the chain from the top down to that scope, each one level below its parent, with true counts; none for a signal at the root |
| `ScopeTree.ChainEncloses` | crates/rwave/src/commands/tree.rs:224-237 | the nodes of such a chain name exactly the scopes that enclose the signal |

## Left out

- Waves.Wave.ForEachEvent: takes selections without repeats, as every caller's selection is; the source would replay a signal once for every time it is listed.
- Waves.Wave.CollectEventsBounded: which of several largest events the heap gives out, and in which order it leaves those of one key, is open, as the standard library leaves it open.
- Dump.DumpCollect: rows carry the raw value; formatting of a row's value, width and type is not part of it.  Agreement in entries is stated for windows that keep to the histories' entries; when FST windows do is said by `FstEchoes.DecodedEntries`.
- SignalTable.BuildSignalTable: the source also returns the number of raw declarations and how many signals there are of each type; both are plain counts over its input.
- Clauses.DedupClauses: the clause key is the bag of term keys where the source compares the sorted list of them; the two agree exactly on equality.
- FstDecode.LoadWindowed: the file reader is a stated contract (the first read: an optional frame echo at one time that is in no table, then every change from some section start; the second: an optional frame echo at one time before all recorded ones, then every change); a frame whose time collides with a real change is outside it, and so is a payload that does not fit the declared kind.
- FstAnswers.WindowedAnswers: about windows without an echo as the seed, like `WindowServes`, `ExactWindow`, `DumpAgreesAlways` and `DumpAgrees`; windows with one are the subject of `FstEchoes`.
- FstEchoes.FrameAnswers: that `wellen` records the frame at the first time of the file's table is taken from its callback; the rest of its decode, and its debug assertion on that time, are not part of it.
- Backends.Backend.LoadTracesWindowed: an FST window seeded with an echo is no window of the changes alone; it is one of the changes with the echo before them (`FstEchoes.SlotServes`), and when it answers like the changes is said by `FstEchoes.DecodedAnswers` and `FstEchoes.DecodedEntries`.
- Waves.Wave.SnapshotStreaming: admits the windows of `LoadTracesWindowed`; with an FST window seeded with an echo the value shown is that of `FstEchoes.SlotValue`.
- Waves.Wave.SnapshotPairStreaming: likewise.
- Search.Prepare: takes resolved clauses; resolving names, with its refusal of `?` patterns on signals that are no logic, labels and time parsing are not modelled.  The default of `--show` lists signals by number, which is their path order in the signal table.
- Search.SearchSpans: recorded values are strings, so the rendering of reals and the type name in verbose details are not modelled; ticks before 0 are never seen, as in the source.
- Calendar.UnixUtcIsFaithful: the fields, without zero padding of the text; day numbers are unbounded where the source has 64 bits.
- Filters.ParseOne: texts are taken as already trimmed and lower-cased, and lengths count characters, which are bytes for ASCII patterns.
- ScopeSelect.ParseScope: one value of the comma-separated list, already trimmed and lower-cased.
- ScopeSelect.StructuralOk: covers `keeps_alias` and `displays_alias` for selections without `--filter` and `--exclude`, which is how `tree` uses them; the other gates add one branch each.
- JsonText.WriteCompact: integers are unbounded.
- ScopeTree.TreeOf: takes the scope of the signal found; resolving the pattern of `--of` is not modelled.
- Traces.LastAtOrBefore: the source's extra test for an empty count can never succeed after its first test and has no counterpart.
- Plugin loading, vendor calls, WLF and FSDB readers, `wellen` and `fst_reader`: foreign code; their output enters as histories or emission streams.
- `summary`, `snapshot`, `compare`, `list`, `info` and `trace` command bodies, text and JSON renderers, hints, match reports: short scans and presentation over the modelled cores.
- Time parsing and printing with units: floating point.
- Memory peaks, speed and thread safety: nothing in the modelled logic depends on them.
