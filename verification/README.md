# NavPost: a verified model of its self-contained algorithms

NavPost is a Qt front end over a positioning library. This project models the algorithms in its
repository that stand on their own, and proves what they do on all inputs and over all runs:

- **Tag stripping and replacement** (`TextSearch.dfy`, `TextFiles.dfy`, `Overlaps.dfy`, `TagStripping.dfy`,
  `MarkedText.dfy`, `StripPromise.dfy`, `Replacements.dfy`): the two file rewrites of the vendored Abseil
  release script. Python's `find` and `replace` are functions; the two rewrites are methods on a file object
  whose content changes only when no exception was raised. `MarkedText` gives every content its one
  left-to-right reading as plain text and regions; `StripPromise` says when the run takes out these regions.
- **The log recorder** (`LogRecord.dfy`, `LogManager.dfy`): the recorder and the manager with one recorder
  per UID are classes. A ghost trace of all calls ties each object to a specification on values, so that the
  methods themselves promise what the run theorems say.
- **The converters between Qt variants and JSON** (`VariantJson.dfy`): methods with the loops of the C++ code,
  proved against relations that say case by case what each value becomes.
- **The generator of unique keys** (`UniqueKeys.dfy`).
- **The keyed file tree** (`FileTree.dfy`).

Assumptions: a file is its content; a `QString` and the `std::string` it converts to are the same string;
a double is its bit pattern; JSON integers are unbounded and the cast to `int` wraps at 32 bits; each
call on a recorder is atomic. The random device gives each attempt an arbitrary 32-bit seed; the engine
and its distribution are a fixed but arbitrary function from seed and position to a nibble, so that one
seed determines the whole key of an attempt.

What the code does where its own documentation or names suggest otherwise:

- `StripContentBetweenTags` promises to remove the content between the tags, but it deletes *every*
  occurrence of the first region it finds, also inside later regions. With a begin tag that has no border and
  cannot overlap the end tag, it keeps the promise on a content if and only if every region is closed, the
  text without the regions forms no begin tag, and no region ends with the text of a shorter one whose turn
  comes before it (`PromiseExactly`, for every content). Both failures of closed regions have an example:
  `NestedTagBreaksThePromise` ("[x][[x]") and `JoinedTextBreaksThePromise` ("aabcb"). `RightTextByLuck`
  ("[x][[x][z]") is a run that cuts into a region and still leaves the right text, which is why the promise
  is stated round by round.
- Not every hexadecimal string need be a key. An attempt's key depends on one 32-bit seed, so a request can return
  exactly as long as some *producible* key is not stored (`OneKeyExactly`). The count of 16^length is right
  if and only if the engine produces every string of that length (`AllKeysUsableExactly`), and from length 9
  on no engine does (`LongKeysRunOut`); up to length 8 some engine does (`OntoIsPossibleExactly`).
- `ReplaceStringsInFile` reports a key as not found also when the key is there but equals its value
  (`StepRaisesExactly`).
- The limit of 5000 log entries is a bound that is never reached: at most 4999 entries are kept
  (`DefaultHistory`).
- An empty map becomes JSON null, and so does every variant of an unsupported type; a round trip gives
  back a normal form instead of the value.

The theorems hold for any log limit of at least one; the unnamed constructors set it to 5000. The C++ code
holds the loop over a map twice, in `variantToJson` and `variantMapToJson`; the model has it once.

## Model

| member | source | states |
|---|---|---|
| TextSearch.Find | rely/abseil-cpp/create_lts.py:72-75 | the index returned is an occurrence, and none starts between `start` and it (none at all for -1) |
| TextSearch.ReplaceChangesNothing | rely/abseil-cpp/create_lts.py:43-46 | for every text, key and value, the empty ones included, replacing changes nothing exactly when the key equals the value or does not occur |
| TextSearch.ReplaceLength | rely/abseil-cpp/create_lts.py:44 | the new length is the old one plus the number of leftmost non-overlapping matches times the difference of value and key length |
| TextSearch.CountDecidesContains | rely/abseil-cpp/create_lts.py:44 | a scan replaces at least one match exactly when the key occurs somewhere |
| TextSearch.ReplaceAtFirst | rely/abseil-cpp/create_lts.py:44 | everything before the first occurrence is kept, the value follows, and the scan goes on behind the occurrence |
| TextSearch.InterleaveSplits | rely/abseil-cpp/create_lts.py:44 | an empty key puts the value on both sides of every character, and the value alone into an empty text |
| TagStripping.StripContentBetweenTags | rely/abseil-cpp/create_lts.py:53-84 | the loop terminates unless both tags are empty, yields the specified outcome, and the file changes only on success |
| TagStripping.RoundShortens | rely/abseil-cpp/create_lts.py:80 | every round shortens the content by at least both tags, even when deleting forms new tags |
| TagStripping.StripGuarantees | rely/abseil-cpp/create_lts.py:71-80 | for any content: on success no begin tag is left, the result is a subsequence of the input, it is the input exactly when there was no begin tag; a failure means there was a begin tag |
| TagStripping.StrippingTwice | rely/abseil-cpp/create_lts.py:71-80 | stripping a stripped content changes nothing |
| TagStripping.EmptyBeginTagAlwaysFails | rely/abseil-cpp/create_lts.py:71-79 | an empty begin tag with a non-empty end tag ends in the exception on every content |
| TagStripping.EmptyTagsNeverFinish | rely/abseil-cpp/create_lts.py:71-80 | with two empty tags a round gives back its input, so the loop never ends |
| MarkedText.ReadingIsUnique | rely/abseil-cpp/create_lts.py:72-79 | a content has at most one left-to-right reading: plain text without begin tags, regions from each begin tag to the next end tag, and possibly one begin tag that is never closed |
| MarkedText.ParseIsTheReading | rely/abseil-cpp/create_lts.py:72-79 | `Parse` gives every content such a reading, and no other markup is one |
| MarkedText.LocateInReading | rely/abseil-cpp/create_lts.py:72-76 | the two searches find the first region of the reading, its unclosed begin tag, or nothing |
| StripPromise.ScanCuts | rely/abseil-cpp/create_lts.py:80 | what the replace-all does to marked text, exactly: every region that ends with the deleted text loses it, and all other regions and all plain text stay |
| StripPromise.RoundCuts | rely/abseil-cpp/create_lts.py:72-80 | one round on marked text, exactly, regions with further begin tags included |
| StripPromise.RoundTakesOutExactly | rely/abseil-cpp/create_lts.py:72-80 | a round takes out the regions equal to the first one and nothing else if and only if no longer region ends with the first one's text |
| StripPromise.RunsAsReadExactly | rely/abseil-cpp/create_lts.py:71-80 | all rounds of a run do so if and only if no region ends with the text of a shorter one whose turn comes before it |
| StripPromise.PairwiseIsFree | rely/abseil-cpp/create_lts.py:71-80 | it suffices that no region ends with the text of any shorter earlier region |
| StripPromise.StripTakesOutRegions | rely/abseil-cpp/create_lts.py:56-80 | then, when the joined plain text forms no begin tag, the run returns it, or reports the begin tag left unclosed |
| StripPromise.StripMeetsIntentExactly | rely/abseil-cpp/create_lts.py:56-80 | for such markup the run returns the joined plain text if and only if nothing is left unclosed and that text forms no begin tag |
| StripPromise.PromiseExactly | rely/abseil-cpp/create_lts.py:53-84 | for every content, with a border-free begin tag that cannot overlap the end tag: all rounds take out regions as read and the run returns the text without them if and only if every region is closed, that text forms no begin tag, and no region ends with the text of a shorter one whose turn comes before it |
| StripPromise.StripContentAsIntended | rely/abseil-cpp/create_lts.py:53-84 | for every content whose reading is framed and free: if the text without the regions forms no begin tag, the run returns it or reports the unclosed begin tag |
| StripPromise.StripContentExactly | rely/abseil-cpp/create_lts.py:53-84 | for these contents the run returns the text without the regions if and only if every region is closed and that text forms no begin tag |
| StripPromise.ApartTagsFrame | rely/abseil-cpp/create_lts.py:72-75 | with tags that cannot overlap the reading of every content is framed: no begin tag inside a region reaches across its end |
| StripPromise.SingleTagsAreFramedAndFree | rely/abseil-cpp/create_lts.py:72-75 | with independent tags, contents whose regions hold no second begin tag are framed and free |
| StripPromise.LtsTagsAreApart | rely/abseil-cpp/create_lts.py:134-135 | the tags the release script passes satisfy the hypotheses of `PromiseExactly` |
| StripPromise.NestedTagBreaksThePromise | rely/abseil-cpp/create_lts.py:56-80 | a file that consists of two closed regions and still ends in the exception |
| StripPromise.JoinedTextBreaksThePromise | rely/abseil-cpp/create_lts.py:56-80 | a file whose only region is closed, but whose remaining text joins to a begin tag, so that the run ends in the exception |
| StripPromise.RightTextByLuck | rely/abseil-cpp/create_lts.py:56-80 | a file whose run cuts into a region and still returns the right text |
| Replacements.ReplaceStringsInFile | rely/abseil-cpp/create_lts.py:24-50 | the result is the entries applied one after another, or the first key whose step changed nothing; the file changes only on success |
| Replacements.StepRaisesExactly | rely/abseil-cpp/create_lts.py:43-46 | a step raises exactly when its key is absent or equal to its value, and then it ends the run |
| Replacements.CountIsKept | rely/abseil-cpp/create_lts.py:44 | replacing a key neither creates nor destroys a match of another key that cannot overlap it or its value |
| Replacements.PeelFirst | rely/abseil-cpp/create_lts.py:42-44 | replacing the first key and then the others in one pass equals one pass over all keys |
| Replacements.SequentialIsSimultaneous | rely/abseil-cpp/create_lts.py:42-46 | for entries that do not interfere the run raises exactly when some key is absent from the original content (or equals its value), reports the first such key, and otherwise equals the simultaneous replacement |
| Replacements.SimultaneousIgnoresOrder | rely/abseil-cpp/create_lts.py:42-44 | simultaneous replacement depends on the set of entries only |
| Replacements.SequentialIgnoresOrder | rely/abseil-cpp/create_lts.py:42-46 | two orders of the same entries that do not interfere both fail or give the same content |
| Replacements.SuccessLeavesNoKey | rely/abseil-cpp/create_lts.py:42-46 | when moreover no value can overlap a key, a successful run leaves none of the keys in the content |
| Replacements.InterferenceShows | rely/abseil-cpp/create_lts.py:42-46 | two entries that do interfere, with different results in the two orders |
| Replacements.ConfigDoesNotInterfere | rely/abseil-cpp/create_lts.py:103-109 | for every datestamp without '#' the entries for config.h do not interfere and none of their values can overlap a key |
| Replacements.OptionsDoNotInterfere | rely/abseil-cpp/create_lts.py:110-117 | for every datestamp the entries for options.h do not interfere; without '#' in it, no value can overlap a key |
| Replacements.ConfigIsRewritten | rely/abseil-cpp/create_lts.py:103-109 | a config.h that holds the two lines once each, with any other text around them, gets the two new lines in their places and changes nowhere else |
| Replacements.OptionsAreRewritten | rely/abseil-cpp/create_lts.py:110-117 | the same for options.h, with every datestamp |
| LogRecorder.LogRecord.constructor | app/NavPost/src/Log.h:120-122 | a new recorder is empty and has the limit 5000 |
| LogRecorder.LogRecord.AddLog | app/NavPost/src/Log.h:37-87 | after any calls: the entry joins the pending buffer, both trims leave the history below the limit, and the result is the number of additions since the last drain |
| LogRecorder.LogRecord.GetCurrentLogs | app/NavPost/src/Log.h:89-102 | after any calls: returns exactly the entries added since the last drain and moves them to the trimmed history |
| LogRecorder.LogRecord.GetHistoryLogs | app/NavPost/src/Log.h:105-117 | after any calls: moves the pending entries to the history and returns the last limit-1 of everything ever added; with the limit 5000 that is everything up to 4999 entries, and exactly the last 4999 beyond |
| LogRecorder.LogRecord.TrimHistory | app/NavPost/src/Log.h:96-99 | the trimming loop terminates and keeps the last limit-1 entries |
| LogRecorder.RunState | app/NavPost/src/Log.h:37-117 | in every reachable state the pending buffer is what was added since the last drain and the history is the last limit-1 of everything drained, however batched |
| LogRecorder.AdditionCounts | app/NavPost/src/Log.h:86 | after any run an addition returns the number of additions since the last drain |
| LogRecorder.CurrentReturnsUndrained | app/NavPost/src/Log.h:89-102 | after any run the current logs are the entries added since the last drain |
| LogRecorder.HistoryReturnsLastAdded | app/NavPost/src/Log.h:105-117 | after any run the history logs are the last limit-1 of everything ever added |
| LogRecorder.DefaultHistory | app/NavPost/src/Log.h:105-120 | for any run with the limit 5000 the history logs are all additions while there are at most 4999, and exactly the last 4999 otherwise; no more are ever kept |
| LogRecorder.HistoryStaysBelowLimit | app/NavPost/src/Log.h:66-84 | in every reachable state the history holds everything drained up to one entry below the limit, so the trims inside an addition remove nothing |
| LogRecorder.BatchesConserve | app/NavPost/src/Log.h:93-94 | over every run the drained batches in order, then the pending buffer, are exactly the added entries |
| LogRecorder.PollingDeliversOnce | app/NavPost/src/Log.h:89-102 | when only current logs are polled, the returned lists deliver each entry once and in order |
| LogManagement.LogRecordManager.constructor | app/NavPost/src/Log.h:167-181 | a new manager has no records and gives its records the limit 5000 |
| LogManagement.LogRecordManager.GetNewLogs | app/NavPost/src/Log.h:141-152 | after any calls: returns what was added for that UID since its last drain, nothing for an unknown UID; drains that record only and creates none |
| LogManagement.LogRecordManager.GetAllLogs | app/NavPost/src/Log.h:154-165 | after any calls: returns the last limit-1 of everything added for that UID, with the limit 5000 all of up to 4999 additions and exactly the last 4999 beyond; same effect as above |
| LogManagement.LogRecordManager.AddLog | app/NavPost/src/Log.h:167-178 | acts as an addition to that UID's record, created empty first if there was none, and returns the number of additions for that UID since its last drain; different UIDs never share a record |
| LogManagement.StoreIsIndependent | app/NavPost/src/Log.h:141-181 | for every interleaving and UID the record equals that of a recorder of its own, and there is one exactly if an entry was added for the UID |
| LogManagement.ResponsesAreIndependent | app/NavPost/src/Log.h:141-181 | all results returned for a UID equal those of a recorder that sees only that UID's calls |
| LogManagement.AdditionAfterRun | app/NavPost/src/Log.h:167-178 | after any interleaving an addition returns the number of that UID's additions since its last drain |
| LogManagement.CurrentAfterRun | app/NavPost/src/Log.h:141-152 | after any interleaving the new logs of a UID are its additions since its last drain |
| LogManagement.HistoryAfterRun | app/NavPost/src/Log.h:154-165 | after any interleaving the history of a UID is the last limit-1 of its additions |
| LogManagement.DefaultHistoryAfterRun | app/NavPost/src/Log.h:154-165 | with the limit 5000, after any interleaving the history of a UID is all its additions while there are at most 4999, and exactly the last 4999 otherwise |
| VariantJson.VariantToJson | app/NavPost/src/NavPost.cpp:6-55 | writes strings, integers, doubles and booleans as the same JSON value, gives null exactly for the empty map and invalid or unsupported values, and is right at every depth in the sense of `WrittenAs` |
| VariantJson.ItemsToJson | app/NavPost/src/NavPost.cpp:18-29 | the loop over a list gives an array of the same length whose elements are what the items have to be written as |
| VariantJson.VariantMapToJson | app/NavPost/src/NavPost.cpp:57-65 | null for the empty map, otherwise an object with exactly the keys of the map and the right members, whatever the order of the entries |
| VariantJson.VariantListToJson | app/NavPost/src/NavPost.cpp:67-75 | an array of the same length whose elements are what the maps have to be written as |
| VariantJson.JsonToVariant | app/NavPost/src/NavPost.cpp:82-111 | reads strings, doubles and booleans as the same value, integers modulo 2^32, an object, also an empty one, as a map with the same keys, gives the invalid variant exactly for null, binary and discarded values, and is right at every depth in the sense of `ReadAs` |
| VariantJson.JsonToVariantMap | app/NavPost/src/NavPost.cpp:113-121 | reads an object member by member, gives the empty map for null and the empty array, and raises exactly on everything else |
| VariantJson.JsonToVariantList | app/NavPost/src/NavPost.cpp:123-131 | reads an array's elements in order, an object's values by strictly ascending key, each once, nothing for null, and a primitive as the only item |
| VariantJson.WrittenExactly | app/NavPost/src/NavPost.cpp:6-55 | a relation that names case by case what a variant has to be written as, independent of both converters: the conversion to JSON is the one function that satisfies it |
| VariantJson.ReadExactly | app/NavPost/src/NavPost.cpp:82-131 | the same for what a JSON value has to be read as |
| VariantJson.CutExactly | app/NavPost/src/NavPost.cpp:98-101 | of the numbers that differ from an integer by a multiple of 2^32 the cast gives the one within 32 bits |
| VariantJson.LessExactly | app/NavPost/src/NavPost.cpp:126 | the order of the keys: a proper prefix first, otherwise the smaller character at the first difference |
| VariantJson.InOrderAscends | app/NavPost/src/NavPost.cpp:123-131 | the iteration over an object visits every key once, in strictly ascending order |
| VariantJson.VariantRoundTrip | app/NavPost/src/NavPost.cpp:6-131 | to JSON and back gives the normal form: empty maps and unsupported values at any depth become invalid, the rest is unchanged |
| VariantJson.NormalIsExact | app/NavPost/src/NavPost.cpp:6-131 | normalising is idempotent and fixes a variant exactly when it has no empty map and no unsupported value at any depth |
| VariantJson.JsonRoundTrip | app/NavPost/src/NavPost.cpp:6-131 | to a variant and back replaces empty objects and binary or discarded values by null and wraps integers to 32 bits, at any depth |
| VariantJson.JsonRoundTripIsIdentity | app/NavPost/src/NavPost.cpp:6-131 | that round trip is the identity exactly on JSON without those |
| VariantJson.NormalJsonIsTheImage | app/NavPost/src/NavPost.cpp:6-55 | such JSON is exactly what variants convert to |
| VariantJson.ToJsonIdentifies | app/NavPost/src/NavPost.cpp:6-55 | two variants become the same JSON exactly when their normal forms agree |
| VariantJson.MapRoundTrip | app/NavPost/src/NavPost.cpp:57-121 | the round trip of a top-level map keeps its keys, also when it is empty, and normalises its values |
| UniqueKeys.KeyGenerator.GenerateRandomKey | app/NavPost/src/NavPost.cpp:395-415 | the loop writes each of the first nibbles that the attempt's one seed leads to as its digit, '0' to '9' or 'a' to 'f', in order and to the requested length |
| UniqueKeys.KeyGenerator.GenerateUniqueKey | app/NavPost/src/NavPost.cpp:367-383 | the call returns the first key offered that is not stored, which writes the nibbles of its attempt, and stores exactly that key in addition |
| UniqueKeys.SpellsExactly | app/NavPost/src/NavPost.cpp:405-414 | there is exactly one string that writes the first nibbles of a seed |
| UniqueKeys.SameKeyExactly | app/NavPost/src/NavPost.cpp:397-414 | two seeds give the same key of a length if and only if the engine yields the same nibbles for both at all positions up to it |
| UniqueKeys.RequestEndsExactly | app/NavPost/src/NavPost.cpp:372-375 | there is an attempt to end with exactly when the seeds ever lead to a fresh key, and it is unique |
| UniqueKeys.AllKeysAreKeys | app/NavPost/src/NavPost.cpp:399-413 | the enumerated keys of a length are exactly the hexadecimal strings of that length |
| UniqueKeys.KeyCount | app/NavPost/src/NavPost.cpp:399-413 | there are exactly 16^length of them |
| UniqueKeys.ProducedBySeed | app/NavPost/src/NavPost.cpp:397-413 | the producible keys of an engine are those some seed leads to, and they are hexadecimal strings of the length |
| UniqueKeys.ProducibleBounds | app/NavPost/src/NavPost.cpp:397-413 | an engine produces at most 16^length keys of a length, and never more than 2^32 |
| UniqueKeys.OneKeyExactly | app/NavPost/src/NavPost.cpp:367-383 | for every engine, some seeds end a request if and only if some producible key of its length is not stored |
| UniqueKeys.AllKeysUsableExactly | app/NavPost/src/NavPost.cpp:367-383 | that a request can return exactly while fewer than 16^length keys are stored holds if and only if the engine produces every string of the length |
| UniqueKeys.LongKeysRunOut | app/NavPost/src/NavPost.cpp:395-415 | from length 9 on no engine does, and some store with fewer than 16^length keys ends no request |
| UniqueKeys.OntoIsPossibleExactly | app/NavPost/src/NavPost.cpp:395-415 | there is an engine that produces every string of a length if and only if the length is at most 8 |
| UniqueKeys.FreshKeysAreDistinct | app/NavPost/src/NavPost.cpp:371-382 | fresh keys have the requested lengths, were not stored, differ from each other and are as many as the requests |
| UniqueKeys.RunReturnsFreshKeys | app/NavPost/src/NavPost.cpp:367-383 | every run of requests returns producible keys of the requested lengths, each not stored when it was returned |
| UniqueKeys.FreshKeysAreARun | app/NavPost/src/NavPost.cpp:367-383 | conversely every sequence of fresh producible keys is returned for some seeds |
| UniqueKeys.CompletableExactly | app/NavPost/src/NavPost.cpp:367-383 | some seeds complete a sequence of requests if and only if for every length the stored producible keys and the requests together do not exceed the producible keys |
| UniqueKeys.RunsAreBounded | app/NavPost/src/NavPost.cpp:367-383 | no run returns more than 16^length keys of a length, nor more than 2^32 |
| UniqueKeys.RunIsUnique | app/NavPost/src/NavPost.cpp:367-383 | the keys of a run from the start are pairwise distinct, have the requested lengths, and are as many as the requests |
| FileTree.FileTreeDataController.Dig | app/NavPost/src/FileTreeDataController.cpp:9-24 | the recursion terminates and yields five rows per level, each with the constant entries and the key of its parent, '-' and its decimal digit; a row at an address of n indices has children exactly if n does not exceed the level; (5^(level+2) - 5) / 4 rows for a level of zero or more, five leaves for zero or less |
| FileTree.FileTreeDataController.LoadData | app/NavPost/src/FileTreeDataController.cpp:26-34 | the data are such a tree, whatever they were before |
| FileTree.TreeIsForest | app/NavPost/src/FileTreeDataController.cpp:9-24 | the relation that says what a tree of a level is, independent of how it is built, has exactly one solution |
| FileTree.RowsByLevel | app/NavPost/src/FileTreeDataController.cpp:9-24 | the rows of such a tree are those at the addresses of up to level + 1 indices, each with the key of its address, and have children exactly if the number of indices does not exceed the level |
| FileTree.RowsAreAddressed | app/NavPost/src/FileTreeDataController.cpp:9-24 | a row exists exactly at each non-empty list of child indices up to the depth, carries the key of its address and has children unless it is on the last level |
| FileTree.KeyDecodes | app/NavPost/src/FileTreeDataController.cpp:14 | a key decodes to its address, whatever the root string contains |
| FileTree.KeysIdentify | app/NavPost/src/FileTreeDataController.cpp:14 | two addresses have the same key exactly when they are equal |
| FileTree.AncestorByKey | app/NavPost/src/FileTreeDataController.cpp:14 | a key followed by "-" starts another key exactly when the first row is a proper ancestor of the second |
| FileTree.KeysAreDistinct | app/NavPost/src/FileTreeDataController.cpp:9-24 | all keys of a tree, listed parents first, differ from each other |
| FileTree.KeysAreAddresses | app/NavPost/src/FileTreeDataController.cpp:9-24 | the keys that occur are exactly those of the tree's addresses |
| FileTree.TreeSize | app/NavPost/src/FileTreeDataController.cpp:9-24 | a tree of a level of zero or more has (5^(level+2) - 5) / 4 rows, one of a negative level five |
| FileTree.LevelSize | app/NavPost/src/FileTreeDataController.cpp:12-22 | 5^(k+1) rows k levels down up to the level and none below |

## Left out

- StripPromise.StripContentExactly: says when a run leaves the right text only for contents whose reading is framed and free. When a round cuts into a later region, what is left of that region may or may not swallow what follows, so only the round-by-round promise of `PromiseExactly` has an exact condition for every content.
- StripPromise.PromiseExactly: assumes a border-free begin tag that cannot overlap the end tag, as the tags of the release script are; for other tags only `StripGuarantees` and the results on framed readings hold.
- Reading and writing files and the arguments of `main`: a file is its content before and after.
- The replacement dictionaries for MODULE.bazel (a single entry) and CMakeLists.txt are not instantiated.
- The fields of a log entry, spdlog and the Qt message handler: log entries are opaque values.
- Threads: the recorders take no lock, so nothing is claimed about concurrent calls, nor about the thread pool and the signals around loading the file tree.
- The inner workings of the engine and its distribution; the quality of the random device and the expected number of attempts; the stubs that would load and save the stored keys.
- Negative key lengths, which the source compares with an unsigned index.
- Conversion between UTF-16 and UTF-8, and strings that are not valid Unicode.
- `Project_Qt.cpp`: an older copy of the converters and the key generator.
- `ResourceDataController`, `addStation` and the other wrappers of NavCore: NavCore is not part of this model.
- Icons, translations, settings, performance monitor and package manifests.
