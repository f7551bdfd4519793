# toast: a Dafny model of the toaster and the toast.h suite

`toast` is a small C test framework in two parts.

- `toaster.c` is the discovery tool. It scans a directory for files whose names contain `.test.`. It cuts every brace-delimited function body out of those files with a character tokenizer. It then writes a C program that registers each function as a test case.
- `toast.h` is the header-only suite. A "pack" holds "slices" (test functions with a name) in an array that grows by squaring its capacity. Running the pack hands each function a fresh result record, stores the result the function left there, and tallies pass, fail and not-run.

This project models the pure logic of both parts:

- the growable buffers `append_str` and `append_case`;
- the tokenizer `to_next_known_token` and the scan loop of `parse_file`, including `trim_function_buf`;
- `is_test_file` and the name filter of `main`'s directory loop;
- the code synthesizer `write_test_file`;
- `pre_bake_toast`, `plug_in_toaster`, `insert_toast`, `insert_toasts`, `reset_burnt`, `burn_toast`, `eat_toast`, the result-recording loop of `toast`, the tally of `print_stats`, and the unit choice of `delta_time`.

Files, one module each:

| file | module | models |
|---|---|---|
| `text_buffer.dfy` | `TextBuffer` | `Str` and `append_str` |
| `case_list.dfy` | `CaseList` | `Case`, `Cases` and `append_case` |
| `tokenizer.dfy` | `Tokenizer` | `to_next_known_token`, `is_void` |
| `text.dfy` | `Text` | "occurs in" for strings |
| `extractor.dfy` | `Extractor` | `trim_function_buf` and `parse_file`'s loop |
| `extractor_examples.dfy` | `ExtractorExamples` | two small inputs through the extractor |
| `file_filter.dfy` | `FileFilter` | `is_test_file` and the `.`/`..` filter |
| `decimal.dfy` | `Decimal` | `sprintf("%ld")` of an index |
| `synthesizer.dfy` | `Synthesizer` | `write_test_file` |
| `discovery.dfy` | `Discovery` | `main`'s directory loop |
| `suite.dfy` | `Suite` | `toast.h` |

The extractor has two definitions.

- `ParseFile` follows the C closely: it repeatedly calls `NextToken` on the unread input and acts on each token.
- `Run` is the same scanner as one step function per character over a state record (mode, current word, buffer, brace depth, last name, cases).

`ParseIsRun` proves the two definitions agree on every input. The file-level facts are then proved about `Run`.

`examples/toast.h` holds the same suite implementation as `toast.h`, with the same function bodies and their comments. It leaves out the licence, the description at the top of the file and the comments on the declarations, and it moves the `BurntToast` typedef up to lines 15-20. Each line `toast.h:N` cited below at line 104 or later is line `N - 49` of `examples/toast.h`. For example, `insert_toast` is at `toast.h:187-197` and at `examples/toast.h:138-148`. `INITIAL_SLOTS` and the result constants are at `toast.h:17-21` and `examples/toast.h:9-13`.

## Model

| member | source | states |
|---|---|---|
| TextBuffer.Grow | toaster.c:48-51 | The doubling loop returns the least doubling of the capacity that holds the needed length. It never shrinks. It stays a power-of-two multiple of whatever base the capacity was a multiple of. |
| TextBuffer.AppendStr | toaster.c:35-61 | `append_str` allocates 1024 on first use. The new text is the old text followed by `data`, so earlier bytes are unchanged. The length grows by `|data|` and the length stays within the capacity. The capacity is always 1024·2^k and never decreases. It is unchanged when the data fits. |
| TextBuffer.GrowTwice | toaster.c:48-51 | Growing for a smaller need and then a larger one ends at the same capacity as growing for the larger need directly. |
| TextBuffer.AppendSplits | toaster.c:35-61 | Two appends give the same text and the same capacity as one append of the concatenation. |
| TextBuffer.FreshCapacity | toaster.c:36-44 | A buffer built from nothing has the least doubling of 1024 that holds its text as its capacity. |
| CaseList.AppendCaseAsWritten | toaster.c:64-88 | `append_case` as written. The case is stored at the old length. Once `len > cap/2`, the storage is reallocated to `cap*2` bytes, and `cap` keeps its initial value. |
| CaseList.AsWrittenShape | toaster.c:75-83 | After `n` appends to an empty list as written, the list holds the first `n` cases in capacity 1024. The storage is 2048 bytes once more than 513 cases were appended. |
| CaseList.AsWrittenOverflow | toaster.c:75-83 | As written, the stored cases fit in the allocated bytes if and only if at most 513 cases were appended. |
| CaseList.AppendAllAsWritten | toaster.c:64-88 | Appending a sequence of cases one by one with `append_case` as written keeps their order after the existing cases. Once anything was appended the list is allocated, and its recorded capacity stays the initial one. |
| CaseList.AppendAllAsWrittenSplits | toaster.c:64-88 | Appending `a + b` as written is appending `a` and then `b`. |
| CaseList.AppendCase | toaster.c:64-88 | Corrected `append_case`: a new list starts at 1024 cases. The capacity, counted in cases, doubles exactly when more than half of it is in use, and is kept otherwise. It is recorded, and the storage is that many cases. The item lands at the old length. The earlier cases are unchanged. All cases fit in the storage. |
| CaseList.AppendAll | toaster.c:64-88 | Appending a sequence of cases one by one keeps their order after the existing cases and keeps the store valid. |
| Tokenizer.LexNormal | toaster.c:119-157 | Normal mode stops at the first brace, or at the first space or newline that ends the word `void` or `void*` (the test of `is_void`, modelled by `Tokenizer.IsVoid`). Other spaces and newlines drop the word, and tabs do not end a word. The token is named after the stopping character. End of input comes exactly when no position stops. |
| Tokenizer.LexName | toaster.c:131-139 | Name mode returns at the first `(` with every character before it as the name, leading spaces included. It reaches end of input exactly when there is no `(`. |
| Tokenizer.NextToken | toaster.c:123-160 | One tokenizer call. In normal mode it consumes up to and including the first stopping character and returns that character's token. In name mode it returns `FnName` of the text before the first `(`. End of input is reported in either mode when no token is found. |
| Extractor.FirstVoid | toaster.c:97-108 | The forward search finds the first offset where `void` occurs in the buffer, or 0 when `void` does not occur. |
| Extractor.LastClose | toaster.c:109-116 | The backward search finds the last `}` in the buffer. |
| Extractor.TrimFunction | toaster.c:216-221 | The emitted text is the buffer from the first `void` (or from the start) through the last `}`, plus one newline. It starts with `void` when the buffer contains `void`, and no `}` follows it in the buffer. |
| Extractor.EndsInCloseTrimmable | toaster.c:109-116 | When `parse_file` trims, the buffer ends in the `}` just read. So the backward search stops at that `}`, and any `void` found lies before it. |
| Extractor.StaleSearchFrom | toaster.c:102-108 | The forward search of `trim_function_buf` over the storage, below `buf_idx`, finds the first `void` window at or after the start, or gives 0 when there is none. A window present there is always found. |
| Extractor.StaleSearchIsFirstVoid | toaster.c:102-108 | The C compares 4-byte windows that run past `buf_idx` into leftover text. Because the buffer ends in `}`, those windows never match, and the search finds what a search of the buffer alone finds. |
| Extractor.Handle | toaster.c:200-235 | The switch of `parse_file` leaves the word being read untouched. What it does to the cases, the buffer, the depth and the mode is stated by `Extractor.HandleEmits`. |
| Extractor.HandleEmits | toaster.c:200-235 | A `}` at depth 1 appends exactly one case after the earlier ones, sets the depth to 0 and clears the buffer. The case carries the file name and the last recorded name. Its text, before the final newline, is a piece of the buffer ending in `}`. Every other token leaves the cases and the buffer unchanged. `{` raises the depth by one, any other `}` lowers it by one, and the remaining tokens keep it. `Void` enters name mode; `FnName` records the name and leaves it. |
| Extractor.ParseFrom | toaster.c:195-236 | The loop of `parse_file` only ever appends cases, and every case it appends carries the file's name. |
| Extractor.ParseFile | toaster.c:162-238 | The cases `parse_file` finds are exactly those of the per-character step machine run over the file from the start state. |
| Extractor.StepFacts | toaster.c:123-231 | One character of the scan (`Extractor.Step`). A `}` at depth 1 in normal mode emits the case cut from the buffer and clears the buffer; every other character is appended to the buffer. Braces move the depth only in normal mode. In normal mode, name mode is entered if and only if the character is a space or newline that ends the word `void` or `void*`. Name mode ends exactly at `(`, which records the name, and nothing else changes the name. |
| Extractor.ParseIsRun | toaster.c:193-232 | The token-driven loop of `parse_file` and the character step machine agree on every input: the same cases, buffer, depth, mode and name. |
| Extractor.LastEmitEnd | toaster.c:209-225 | The position where the next case's text starts: just past the last `}` that closed a body, or 0 if none did. No `}` from there on closed a body. |
| Extractor.BufferIsRecentText | toaster.c:217-225 | After `n` characters the buffer is exactly the text from `LastEmitEnd` to `n`: everything read since the last case was emitted, or since the file began. |
| Extractor.EmittedTextIsRecent | toaster.c:217-225 | The case emitted at a closing `}` is trimmed out of the text read since the previous case was emitted, through that `}`. No case carries text that an earlier case was cut from. |
| Extractor.ParseFileEmitsAtCloses | toaster.c:193-231 | Exactly one case is emitted per `}` that brings the depth back to 0 in normal mode, whether or not a `void` came first. Cases come in file order, each carrying the last recorded name. An unfinished body at end of input emits nothing. |
| Extractor.ParseFileCasesAreSourceText | toaster.c:208-221 | Every emitted case carries the file's name. Its text is a stretch of the file that ends in `}`, followed by one newline. |
| Extractor.ParseFileExtends | toaster.c:193-197 | Reading more input never removes or reorders cases already found. |
| ExtractorExamples.VoidFixture | toaster.c:193-231 | `void f(){}` yields one case named `f` whose text is `void f(){}` and a newline. |
| ExtractorExamples.BareBracesFixture | toaster.c:205-223 | `x{}` yields a case although no `void` came first. Its name is empty and its text is `x{}` and a newline. |
| FileFilter.MatchFrom | toaster.c:262-287 | The matcher loop from any position. An attempt under way whose remaining characters of `.test.` come next succeeds. |
| FileFilter.IsTestFile | toaster.c:255-288 | `is_test_file` accepts a name only if `.test.` occurs in it, trailing dot included. |
| FileFilter.IsTestFileComplete | toaster.c:255-288 | A name with `.test.` at position `p` is accepted, provided no dot is swallowed by a broken partial match before that occurrence starts. What follows the occurrence does not matter, because the matcher returns at the first full match. |
| FileFilter.LaterDotsIgnored | toaster.c:263-268 | `a.test.c..bak` is accepted although it contains `..`, because the match completes first. |
| FileFilter.Selected | toaster.c:347-355 | The directory loop parses a name only if the name is neither `.` nor `..` and contains `.test.`. |
| FileFilter.TrailingDotRequired | toaster.c:259-268 | `foo.test.c` is accepted. `foo.test` is rejected. |
| FileFilter.SwallowedDotRejects | toaster.c:269-271 | `a..test.c` contains `.test.` but is rejected, because the second dot is consumed by the broken attempt. |
| Decimal.NatToString | toaster.c:306 | `%ld` of an index is a non-empty string of decimal digits with no leading zero. |
| Decimal.DecimalRoundTrip | toaster.c:306 | Reading back the digits `%ld` wrote gives the index. |
| Decimal.NatToStringInjective | toaster.c:305-306 | Different indices are written differently. |
| Synthesizer.WriteTestFile | toaster.c:290-317 | The text handed to `fwrite` is the generated program: preamble, function texts, `main` header, registration blocks, trailer. The buffer's capacity is the least doubling of 1024 that holds it. |
| Synthesizer.AppendFunctions | toaster.c:294-296 | The first loop appends every case's function text in list order. |
| Synthesizer.AppendRegistrations | toaster.c:303-315 | The second loop appends one registration block per case in list order. |
| Synthesizer.AppendRegistration | toaster.c:304-314 | The nine appends of one iteration spell exactly one block `SliceOfToast slice_i= {.toast = N, .name = "N"};` followed by `insert_toast(&pack, slice_i);`. |
| Synthesizer.FunctionsInOrder | toaster.c:293-298 | Case `i`'s function text sits right after the preamble and the texts of cases before it, and wholly before case `i+1`. The `main` header follows the last text. |
| Synthesizer.RegistrationsInOrder | toaster.c:303-317 | Case `i`'s registration block sits after the `main` header and the blocks of earlier cases, and wholly before case `i+1`. The fixed trailer ends the program. |
| Synthesizer.SliceIdentsDistinct | toaster.c:305-306 | The identifiers `slice_i` and `slice_j` are equal if and only if `i == j`. |
| Synthesizer.RegistrationRoundTrip | toaster.c:304-314 | A registration block can be read back to its slice index and function name. |
| Discovery.EntryCases | toaster.c:347-355 | An entry that the filter rejects, or that `parse_file` cannot open or seek, contributes no case. Every case an entry contributes carries the entry's name. |
| Discovery.DiscoveredSplits | toaster.c:347-359 | Discovery over two runs of entries is the first run's cases followed by the second's: directory order is kept. |
| Discovery.DiscoveredFromSelected | toaster.c:347-359 | Every discovered case comes from a selected, readable entry of the same name. |
| Discovery.IgnoredEntry | toaster.c:348-352 | An entry the filter rejects changes nothing, wherever it stands. |
| Discovery.ScanDirectoryAsWritten | toaster.c:344-359 | The directory loop with `append_case` as written leaves the list holding the discovered cases in order. They stay inside the storage if and only if at most 513 were discovered. |
| Discovery.ScanDirectory | toaster.c:344-359 | The directory loop with the corrected `append_case` leaves the list holding the discovered cases in order, inside its storage. |
| Suite.PreBakeToast | toast.h:148-154 | A pre-baked slice holds its function and name with result `RAW` (-1). |
| Suite.PlugInToaster | toast.h:156-163 | A new pack is empty with capacity `INITIAL_SLOTS` = 2. |
| Suite.InsertToast | toast.h:187-197 | `insert_toast` stores the slice at the old size and keeps earlier slices. The capacity is squared when the array is full and unchanged otherwise. Squaring on a full array keeps every slice inside the array once the capacity is at least 2. |
| Suite.CapacityOneNeverGrows | toast.h:187-191 | Squaring capacity 1 leaves 1, so a full pack of capacity 1 stores its next slice outside the array. This is why the initial capacity must be 2. |
| Suite.SquareUntil | toast.h:168-171 | The growth loop reaches the target. It is no larger than needed: either the start value, or below the square of the target. |
| Suite.GrowForInsertAsWritten | toast.h:167-171 | The capacity is kept when `size + len` fits. Otherwise it is squared at least once, and is then squared again while it is below `len`. The result reaches `len` and is never smaller than the old capacity. It is exactly the old capacity squared when that reaches `len`, and stays below `len * len` otherwise. |
| Suite.InsertToastsAsWritten | toast.h:165-185 | `insert_toasts` as written appends the slices in order. The capacity is unchanged when everything fits. Otherwise it is at least the old capacity squared. It covers `len`, but not necessarily `size + len`. |
| Suite.InsertToastsOverflows | toast.h:167-171 | With size 2, capacity 2 and three more slices, the capacity becomes 4 while 5 slices are stored. |
| Suite.InsertToasts | toast.h:165-185 | Corrected `insert_toasts`: it appends the slices in order, and afterwards all slices fit. |
| Suite.InsertToastsAgreeWhenEmpty | toast.h:167-171 | On an empty pack, the written and the corrected growth give the same pack. |
| Suite.InsertToastsIsRepeatedInsert | toast.h:180-183 | The corrected `insert_toasts` (`Suite.InsertToasts`) stores the same slices in the same order as repeated `insert_toast`, and repeated `insert_toast` keeps them in the array. The as-written version stores the same slices as well; only its capacity differs. |
| Suite.ResetBurnt | toast.h:264-269 | `reset_burnt` replaces every field: the index as a `size_t`, result `RAW`, diagnostic `" "`, print flag off. |
| Suite.BurnToast | toast.h:312-316 | `burn_toast` records failure with the diagnostic and turns on the print flag. The index is kept. |
| Suite.EatToast | toast.h:317-319 | `eat_toast` records success and changes nothing else. |
| Suite.LastCallDecides | toast.h:312-319 | The last of `burn_toast`/`eat_toast` decides the result, and `eat_toast` is idempotent. A print flag that `burn_toast` set survives a later `eat_toast`. |
| Suite.Handed | toast.h:278-284 | Every test function receives index `i`, result `RAW` and the print flag off. |
| Suite.RecordedResult | toast.h:288-290 | The result `toast` stores for a slice is positive if and only if the verdict printed for it is a failure. |
| Suite.VerdictOf | toast.h:289-299 | A run is reported as failed if and only if the result is positive. The diagnostic is shown if and only if the print flag is also set. |
| Suite.Toast | toast.h:271-305 | The loop of `toast` stores in each slice what its function left in the record it was handed. Records are reset between slices. Each verdict follows the stored result. Each test's time unit comes from the difference of the clock readings taken around it, and the suite's from the first and last readings. |
| Suite.ClockOrdered | toast.h:116-120 | A clock that never goes back between consecutive readings never goes back between any two readings. |
| Suite.TestUnitAtMostSuiteUnit | toast.h:271-305 | With such a clock, no test is shown in a larger time unit than the whole suite. |
| Suite.UntouchedIsRaw | toast.h:288-299 | A test function that calls neither helper records -1 and is reported as a success while running. |
| Suite.TalliesPartition | toast.h:211-219 | Success, failed and not-run partition the slices. |
| Suite.PrintStats | toast.h:211-219 | `print_stats` counts result 1 as failed, 0 as success and anything else as not run. The three counts sum to the pack's size. |
| Suite.OverviewLabel | toast.h:239 | The overview prints `pass` if and only if the result is 0. |
| Suite.ReportsAgreeIff | toast.h:211-239 | The running verdict, the overview label and the tally agree if and only if the result is 0 or 1. |
| Suite.PreBakedNotRun | toast.h:211-219 | Slices that never ran all count as not run. |
| Suite.DeltaMicros | toast.h:128-131 | Seconds and microseconds are subtracted separately and combined, and the result is the difference of the two readings counted in microseconds. |
| Suite.DeltaAdds | toast.h:128-131 | Measured durations add up over consecutive intervals, and an empty interval measures 0. |
| Suite.TimeUnit | toast.h:132-140 | `delta_time` picks unit 0 (µs) if and only if the duration is at most 1000, unit 2 (s) if and only if it is at least 1000000, and unit 1 (ms) otherwise. |
| Suite.TimeUnitScales | toast.h:132-140 | The chosen unit keeps a non-negative duration readable: at most 1000 µs, strictly between 1 and 1000 ms, or at least 1 s. |
| Suite.TimeUnitMonotone | toast.h:132-140 | A longer duration never gets a smaller unit. Exactly 1000 µs stays in microseconds. |
| Suite.ExampleRun | examples/example.c:34-59 | Two slices inserted at once with `insert_toasts` as written fit in capacity 2. The third insert squares the capacity to 4, and the order is add, sub, mul. Running them records 0, 1, 0, and `sub`'s diagnostic is shown. |

## Left out

- Process orchestration in `main` (compiling, `fork`/`execvp`, `dup2`, `wait`, reading the log, removing temporaries) is process control, not logic (toaster.c:361-465).
- File and directory access is not modelled. `fopen`/`fseek`/`ftell` become an `Entry` whose contents are either given or marked unreadable. The directory is the sequence of entries in the order `readdir` returned them, which is platform-dependent.
- `shift_arg` and the choice of directory from `argv` are argument plumbing.
- Floating point is left out: the value `delta_time` returns, the per-test and total times, the average in `print_stats`, and its division by zero on an empty pack. `printf` formatting, ANSI colours, the unit labels and the 14-character name copy are left out too.
- Test functions are foreign code called through a pointer. Each one is an arbitrary total transformer of the result record. A function that does not return or crashes is outside the model.
- Clock readings are inputs to `Suite.Toast`: the values `get_time_stamp` returns, in the order `toast` takes them.
- `toast` receives the pack by value. The model returns the updated slices, since the array is shared with the caller. The suite's time unit is returned on its own, because it lands only in `toast`'s copy.
- Allocation failure and the `exit(1)` paths after `malloc`/`realloc` are not modelled. Neither is the `unknown token` branch, which no token reaches.
- Raw memory behaviour is left out; buffers are sequences. In particular:
  - the emitted function text has no terminator but is later read with `strlen`;
  - `parse_file` writes two newlines after the trimmed text into a `calloc(len)` buffer, which can run past the end of that buffer;
  - the loop `size_t i >= 0` in `trim_function_buf` is always true;
  - `(char)getc` makes a `0xFF` byte look like end of input;
  - the 1024-byte `token` and `fn_name` buffers can overflow;
  - NUL characters inside a file are treated as ordinary characters.
- `to_next_known_token` and `parse_file` fall off their ends without `return` (toaster.c:160, 238). End of input is modelled as `Eof`, and `main` continues either way. `write_test_file`'s own missing return at toaster.c:324 is not modelled either.
- `fn_name` is uninitialised until the first name is read. The model starts it empty, so `ExtractorExamples.BareBracesFixture` shows an empty name.
- `main` sets `cases->items = NULL` but leaves `len` uninitialised. When no case is found, `write_test_file` reads that `len`. The model starts from an empty list.
- `parse_file` appends each case straight into the shared list. The model parses one file into a sequence and then appends that sequence. The resulting order is the same.
- `size_t` wrap-around of capacities is not modelled, and neither is `long` overflow in `delta_time`. `reset_burnt(burnt, -1)` is modelled as storing 2^64−1, assuming a 64-bit `size_t`.
- Suite.InsertToastsAsWritten: for capacity 0 or 1, when `len` exceeds the squared capacity, the C growth loop never ends. The precondition excludes exactly those inputs. `plug_in_toaster` never produces them.
- `unplug_toaster` only frees memory.
- Discovery.ScanDirectory: appends with the corrected `append_case`, so its "inside its storage" holds only for the corrected list. The code as written is `Discovery.ScanDirectoryAsWritten`, which overruns its storage beyond 513 cases.

## Findings

| source | as written | input that shows it | evidently intended | confidence | as-written member | corrected member |
|---|---|---|---|---|---|---|
| toaster.c:75-83 | When `len > cap/2`, the storage is reallocated to `cap*2` bytes, not `cap*2` cases, and `cap` is never updated. | 514 cases appended to an empty list: the 514th is written past a 2048-byte block. | Double the capacity in cases, reallocate `sizeof(Case)*new_cap` bytes, and store the new capacity. | high, not executed | CaseList.AsWrittenOverflow | CaseList.AppendCase |
| toast.h:167-171 | The growth loop squares until `new_cap >= len`, not until `new_cap >= size + len`. | A pack of size 2 and capacity 2, then `insert_toasts` with 3 slices: the capacity becomes 4 while 5 slices are written. | Grow until all `size + len` slices fit. | high, not executed | Suite.InsertToastsOverflows | Suite.InsertToasts |
