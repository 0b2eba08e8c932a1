# goreadline: history list and completion protocol in Dafny

goreadline is a Go binding to the GNU Readline / editline C library. Most of
it passes calls straight through to C. This project models the three parts
that carry Go-side logic or documented behaviour, and proves properties of
them:

- **History list** (`history.go`, module `History`). `AddHistory` filters
  lines before they reach `add_history`: it drops blank lines, lines whose
  first byte is white space, and a repeat of the most recent entry. A line
  that passes reaches C as `C.CString(line)`, so C stores only the text
  before its first NUL. The filters look at the Go line, so a line with a
  NUL can still store a blank entry or repeat the last one.
  `GetHistory` normalises the index (negative counts from the end), checks
  the bounds and adds `history_base`. The module also covers the stifle cap
  (`StifleHistory`, `UnstifleHistory`, `IsHistoryStifled`), `ClearHistory`,
  `HistoryLength` and `HistoryBase`. It covers how `ReadHistory`,
  `WriteHistory` and `TruncateHistoryFile` map `errno`, and the empty-list
  guard and existence check of `AppendHistory`.
  - The abstract value is the datatype `HistoryState`. Each operation is a
    function on it (`AddStep`, `GetStep`, `StifleStep`, `UnstifleStep`,
    `ClearStep`).
  - The class `HistoryList` holds the same state in fields that its methods
    update. Each method's contract ties the new state to the matching
    function.
- **Completion** (`completion.go`, module `Completion`).
  - A generator is `(text, state) -> string`, and "" means "no more".
  - `goCompletionEntryFunction` is the bridge that turns "" into a null
    pointer.
  - The pull protocol calls the generator with state 0, 1, 2, … until it
    answers "". It collects the answers and computes their longest common
    prefix.
  - The class `CompletionState` holds the package-level state: the
    registered generator, the `rl_attempted_completion_function` hook, the
    `rl_attempted_completion_over` flag and the word-break character
    buffer.
- **Dictionary generator** (`shell_comp.go`, module `ShellComp`). The class
  `WordCompleter` holds the `comp_entries` cache. On state 0 a loop rebuilds
  it from the dictionary, keeping the words that start with the partial word.
  Each call then returns the cached word at `state`, or "" past the end. The
  dictionary file is an input `seq<string>`.

Module `Strings` models Go byte strings: one `char` per byte,
`strings.HasPrefix`, the white-space tests and the `C.CString`/`C.GoString`
conversions. Module `Wrappers` holds `Option` and `Result`.

The white-space tests are these:
- `IsSpaceByte` is `unicode.IsSpace(rune(line[0]))` for one byte. That is
  ASCII tab, newline, vertical tab, form feed, carriage return and space,
  plus bytes 0x85 and 0xA0.
- `IsBlank` stands for `len(strings.TrimSpace(line)) == 0`, restricted to the
  ASCII white-space set.

Where the source and its design notes disagree, the model follows the code:

- Lines loaded from a history file are not re-filtered. C `read_history` adds
  them directly and bypasses `AddHistory`.
- `UnstifleHistory` returns the previous cap when the list was stifled, and
  its negation otherwise. Its doc comment says "negative", but that value is
  0 when no cap was ever set.

## Model

| member | source | states |
|---|---|---|
| `History.HistoryList.constructor` | history.go:24-26 | a fresh session: no entries, base 1, not stifled (`IsHistoryStifled` false by default) |
| `History.Accepts` | history.go:32-40 | a blank line (empty included) is never accepted, and a line that passes the three filters keeps a well-formed list well formed when appended |
| `Strings.IsBlank` | history.go:32 | the empty line counts as blank, so the `len(line) == 0` test is subsumed; a non-empty blank line also starts with a space byte |
| `Strings.IsSpaceByte` | history.go:35 | every ASCII white-space byte counts, and only single bytes (code points below 0x100) do |
| `History.StoredLine` | history.go:41-42 | the text C keeps of a line: NUL-free, a prefix of the line, cut exactly at the first NUL, and the whole line when it has none |
| `History.StoredLineIsCRoundTrip` | history.go:41-42 | that text is `C.GoString` of `C.CString(line)` |
| `History.CAdd` | history.go:42 | C `add_history`: the cap is kept; `base + length` grows by one (by none under a cap of 0); a capped list holds at most `max` entries; the added text is the newest entry unless the cap is 0 |
| `History.HistoryList.CAddHistory` | history.go:42 | the new state is `CAdd` of the old one |
| `History.HistoryList.Add` | history.go:31-44 | entries stay C strings (no NUL); a well-formed list stays well formed when the line has no NUL; the new state is exactly `AddStep` of the old one: the three filters on the Go line, then `add_history` of the text C keeps |
| `History.AddBlankIsNoop` | history.go:32-34 | an empty or all-white-space line leaves the whole list unchanged |
| `History.AddLeadingSpaceIsNoop` | history.go:35-37 | a line whose first byte is white space is dropped, whatever follows it |
| `History.AddRepeatIsNoop` | history.go:38-40 | a line equal to `GetHistory(-1)` is dropped |
| `History.DedupIsAdjacentOnly` | history.go:38-42 | adding `s`, `t`, `s` appends what C keeps of all three when neither line equals what C keeps of the other (for NUL-free lines: when `t != s`): deduplication looks at the last entry only |
| `History.AddThenGetLast` | history.go:38-43 | after an accepted add, `GetHistory(-1)` returns the text C kept, which is the line itself when it has no NUL (unless the cap is 0) |
| `History.AddUnstifledAppends` | history.go:41-43 | without a cap, an accepted line is appended as C keeps it (the whole line when it has no NUL), and nothing else changes |
| `History.AddPreservesWellFormed` | history.go:31-44 | every add of a NUL-free line keeps the list free of blank entries, entries starting with white space, and equal neighbours, under a cap too |
| `History.AddKeepsNulFree` | history.go:41-42 | whatever the line, every stored entry stays free of NUL |
| `History.AddNulLineStoresBlank` | history.go:32-42 | "\x00x" passes the Go filters, and C stores an empty entry for it |
| `History.AddNulLineTwiceRepeats` | history.go:38-42 | adding "a\x00b" twice stores "a" twice, since the Go line is compared with the stored "a" |
| `History.AddStifledRespectsCap` | history.go:144-148 | after an accepted add under a cap of `max`, at most `max` entries remain |
| `History.AddCountsEvictions` | history.go:170-174 | `base + length` grows by one per accepted add, so `base` grows by one per evicted entry; under a cap of 0 it does not grow |
| `History.AddUnderZeroCapIsNoop` | history.go:41-43 | under a cap of 0, adding to the empty list changes nothing, `base` included, as `add_history` returns before saving |
| `History.StifledAddsKeepMostRecent` | history.go:144-148 | under a cap `max >= 1`, any run of adds accepts the same lines as without a cap; afterwards the list is exactly the `max` most recent entries, or unchanged if nothing was accepted; `base` grew by the number evicted |
| `History.CInt` | history.go:147 | `C.int(x)`: a value in the 32-bit range, congruent to `x` modulo 2^32, and `x` itself when `x` fits |
| `History.StifleStep` | history.go:146-148 | stifling keeps entries and base and sets the cap that C receives: `max` when it fits a C `int`, 0 for a negative `max` in that range, and always below 2^31 |
| `History.StifleWrapsToCInt` | history.go:147 | `StifleHistory(1 << 32)` and `StifleHistory(1 << 31)` set a cap of 0, and `StifleHistory((1 << 32) + 5)` a cap of 5 |
| `History.UnstifleStep` | history.go:150-156 | unstifling returns the cap (`>= 0`) if stifled and a value `<= 0` otherwise, and leaves the list unstifled with entries and base kept |
| `History.StifleThenUnstifle` | history.go:146-162 | `UnstifleHistory` after `StifleHistory(n)` returns the cap C received, which is `n` when `n` fits a C `int`, and `IsHistoryStifled` is then false |
| `History.ClearStep` | history.go:140-142 | clearing leaves no entries (`HistoryLength` 0) and resets base, keeping the cap |
| `History.HistoryList.Clear` | history.go:140-142 | the new state is `ClearStep` of the old one |
| `History.HistoryList.StifleHistory` | history.go:146-148 | the new state is `StifleStep` of the old one |
| `History.HistoryList.UnstifleHistory` | history.go:154-156 | the new state and the returned value are `UnstifleStep` of the old state |
| `History.HistoryList.IsStifled` | history.go:160-162 | true exactly when a cap is in force |
| `History.HistoryList.Length` | history.go:166-168 | the number of entries stored |
| `History.HistoryList.Base` | history.go:172-174 | the logical offset of the oldest stored entry |
| `History.NormaliseIndex` | history.go:189-195 | succeeds exactly for `-length <= index < length`; a negative index counts from the end, so `length` and `-length-1` fail |
| `History.HistoryGet` | history.go:197 | C `history_get(offset)` finds an entry exactly when `base <= offset < base + length`, and it is the entry at `offset - base` |
| `History.GetStep` | history.go:188-202 | succeeds exactly for `-length <= index < length` and then returns the entry at the normalised position, found through `history_get(position + base)`; the null-entry error cannot happen |
| `History.HistoryList.Get` | history.go:188-202 | the result is `GetStep` of the list, error value included; stated on the fields, `Get(i)` is entry `i` and `Get(-k)` is entry `length - k` |
| `History.AddHistoryScenario` | history_test.go:29-41 | "", " \t" and " line" are ignored, and "line" added twice is stored once |
| `History.StifleHistoryScenario` | history_test.go:63-77 | two lines, stifle to 1, two more lines: one entry remains, and unstifling returns 1 |
| `History.AddTwoFresh` | history.go:31-43 | two different NUL-free lines added to an empty uncapped list are both stored, in order |
| `History.AddTwoUnderCapOne` | history.go:31-43 | under a cap of 1, two different NUL-free lines (the first unlike the last entry) leave only the second, with `base` moved on by three |
| `History.ReadHistoryResult` | history.go:58-65 | the file existed exactly when the status is 0; there is no error exactly when the status is 0 or `ENOENT`; any other status is returned as the error |
| `History.StatusError` | history.go:80-83 | no error exactly when the status is 0; otherwise the status is the error (`WriteHistory`, `TruncateHistoryFile`, `append_history`) |
| `History.AppendVia` | history.go:90-118 | with an empty list, no error and no file-system call; otherwise the first call opens the checked path, and success means the last call was `append_history` with `C.int(nelements)` |
| `History.AppendHistoryAsWritten` | history.go:90-104 | the code as written: the empty-list guard returns nil without touching the file system |
| `History.AppendHistoryAsWrittenFailsOnDefault` | history.go:94-101 | with `filename` "" and a non-empty list, the open and create of "" both fail with `ENOENT` and the history is never appended |
| `History.AppendHistoryFixed` | history.go:86-118 | the corrected check: same as written for a non-empty `filename`, and still a no-op on an empty list |
| `History.AppendHistoryReachesDefault` | history.go:86-118 | with `filename` "", the corrected `AppendHistory` appends to the default file when that file opens and closes and `append_history` succeeds |
| `History.HistoryList.AppendHistory` | history.go:90-93 | returns nil with no file-system call when the list is empty; otherwise follows the corrected check of `AppendHistoryFixed`, probing the default file for "" |
| `Strings.GoString` | completion.go:90-92 | the result is the longest NUL-free prefix of the C buffer |
| `Strings.GoStringOfCString` | completion.go:81-92 | `GoString(CString(s)) == s` for every NUL-free `s` |
| `Strings.GoStringOfCStringTruncates` | completion.go:81-92 | a string with a NUL comes back cut at its first NUL |
| `Strings.GoStringOfCStringIsPrefix` | completion.go:81-92 | the trip through C gives back a prefix of the string, cut only at a NUL |
| `Completion.Bridge` | completion.go:32-38 | null exactly when the generator answers "", otherwise the generator's string unchanged |
| `Completion.CollectFrom` | completion.go:40-48 | the answers from call `state` on, all non-empty and in call order, ending just before the first "" |
| `Completion.Collect` | completion.go:40-48 | the candidates of one attempt: answer `i` of the generator at state `i`, from state 0, up to the first "" |
| `Completion.CollectFromIsUnique` | completion.go:40-48 | any list of non-empty answers followed by "" is what the driver collects, so the collected list is determined by the generator |
| `Completion.CollectFromIgnoresBound` | completion.go:44-48 | the collected list does not depend on the termination witness |
| `Completion.CommonPrefix` | completion.go:49 | a prefix of both strings, and the strings differ right after it (or one ends) |
| `Completion.CommonPrefixIsLongest` | completion.go:49 | every common prefix of two strings is a prefix of `CommonPrefix` |
| `Completion.LongestCommonPrefix` | completion.go:49 | the prefix appended for the candidates is a prefix of every candidate |
| `Completion.LongestCommonPrefixIsLongest` | completion.go:49 | every prefix common to all candidates is a prefix of `LongestCommonPrefix`, so no longer common prefix exists |
| `Completion.CompletionMatches` | completion.go:17-19 | no matches exactly when the first call answers ""; otherwise the collected candidates with a common prefix, which is the candidate itself when there is only one |
| `Completion.CompletionState.constructor` | completion.go:52 | no generator, no hook, flag 0, default word-break characters |
| `Completion.CompletionState.SetCompletionEntryFunction` | completion.go:56-65 | the stored generator is `f`; the hook is installed exactly when a generator is stored; the hook is written once on a nil/non-nil change and not at all otherwise; nothing else changes |
| `Completion.CompletionState.SetAttemptedCompletionOver` | completion.go:71-77 | the flag is 1 for true and 0 for false |
| `Completion.CompletionState.SetCompleterWordBreakChars` | completion.go:81-85 | the C buffer holds `s` with its NUL terminator |
| `Completion.CompletionState.CompleterWordBreakChars` | completion.go:90-92 | the buffer read up to its first NUL |
| `Completion.CompletionState.AttemptedCompletion` | completion.go:17-22 | the installed hook's pull loop returns exactly `CompletionMatches` for the registered generator |
| `Completion.WordBreakCharsRoundTrip` | completion.go:79-92 | setting and then reading the word-break characters gives back any NUL-free string |
| `ShellComp.Matching` | shell_comp.go:27-37 | every cached candidate is a dictionary word with `text` as a prefix |
| `ShellComp.MatchingAppend` | shell_comp.go:32-36 | filtering keeps dictionary order: the filter of a concatenation is the concatenation of the filters |
| `ShellComp.MatchingCounts` | shell_comp.go:32-36 | each matching word occurs in the cache as often as in the dictionary, and no other word occurs |
| `ShellComp.WordCompleter.constructor` | shell_comp.go:24 | the cache starts empty |
| `ShellComp.WordCompleter.Complete` | shell_comp.go:26-44 | state 0 replaces the cache with the matching words (old contents discarded); a later state leaves it unchanged; the answer is `cache[state]`, or "" once `state >= len(cache)` |
| `ShellComp.CachedGenerator` | shell_comp.go:26-44 | every answer other than "" is a dictionary word starting with `text`, and the answer is "" once `state` reaches the number of matching words |
| `ShellComp.CachedGeneratorYieldsMatching` | shell_comp.go:26-44 | when no matching word is empty, pulling the generator until "" yields every matching word exactly once, in order, and stops after that many calls |
| `ShellComp.CompleteAll` | shell_comp.go:26-44 | driving the stateful generator with states 0, 1, … until "" collects exactly the matching words, the same list the protocol gives for the pure generator |

## Left out

- readline.go (`ReadLine`, `Buffer`, `Point`, `Initialize`, the version and name accessors, `setStream`): these are terminal I/O and C globals.
- hook.go: a goroutine that handles the terminal-resize signal. Its purpose is concurrency.
- The file contents of `ReadHistory`, `WriteHistory`, `AppendHistory` and `TruncateHistoryFile`. Files are abstracted to the `errno` each call returns. C `read_history` adds lines without the `AddHistory` filters, so loading re-applies no filter.
- What the C library does with the collected candidates: inserting the prefix into the line, the filename-completion fallback that `rl_attempted_completion_over` suppresses, and the listing UI. These are not part of this model.
- Non-ASCII white space in `strings.TrimSpace` (for example the UTF-8 encoding of U+00A0). `IsBlank` treats only ASCII white space as blank.
- C memory handling (`CString`/`free`) and the text of the `fmt.Errorf` messages. An error is a plain value. What C reads of a `C.CString` is modelled: `History.StoredLine` for history lines, `Strings.GoString` for the word-break characters.
- History.AddPreservesWellFormed: promises well-formedness only for NUL-free lines. The program stores the text before the first NUL, which can be blank or equal to the previous entry. `AddNulLineStoresBlank` and `AddNulLineTwiceRepeats` show both.
- History.HistoryList.Add: keeps `WellFormed` only for NUL-free lines, for the same reason; the invariant it keeps for every line is that entries hold no NUL.
- Completion.Bridge: hands C the Go answer as `C.CString(match)`, and C reads it up to the first NUL. An answer with a NUL reaches C cut short, and one starting with NUL becomes an empty but non-null candidate that `rl_completion_matches` keeps. The model collects the Go answers.
- shell_comp.go's `main` loop and its `bufio.Scanner` reading of the dictionary file. The dictionary is an input sequence, and read errors (which `check` turns into a panic) are not modelled.
- History.HistoryList.StifleHistory: does not truncate the list when the cap is set; evicting happens on the next accepted add. Whether stifling truncates at once depends on the C library, and the test of it is disabled.
- History.StifleStep: does not cut the list down when the cap is set, although the doc comment of `StifleHistory` (history.go:144) says it does. The model evicts on the next accepted add instead, so `StifledAddsKeepMostRecent` leaves the entries as they were when no add is accepted.
- History.AddStep: evicts in one step down to the cap, where GNU `add_history` drops one entry per add. The two agree whenever the list was already within the cap, a cap of 0 included: then nothing is saved and `base` does not move.
- History.GetStep: the conversion `C.int(index)` of the offset passed to `history_get` (history.go:197) is not wrapped. The offset is `base` plus a position below the C `int` length, which stays in range unless `base` itself overflows in C.
- History.UnstifleStep: promises a value `<= 0`, not `< 0`, when the list was not stifled. It is 0 if no cap was ever set.
- History.HistoryList.constructor: the initial `history_base` of 1 is GNU Readline's default. Other C libraries may differ.
- Completion.Collect: the generator must answer "" at some call (`bound`). A generator that never does would make the C loop run forever, and that is not modelled.
- Completion.Generator: `state` is a `nat`. The C driver never passes a negative state, and the dictionary generator would panic on one.
- ShellComp.CachedGenerator: assumes one partial word per completion attempt. The Go generator ignores `text` after state 0.

## Findings

| source | as written | input that shows it | evidently intended | confidence | as-written member | corrected member |
|---|---|---|---|---|---|---|
| history.go:94-101 | the existence check calls `os.Open(filename)` and then `os.Create(filename)` with the name as given, "" included | `AppendHistory(1, "")` on a non-empty list: both calls fail with `ENOENT`, so the error is returned and nothing is appended | "" means the default history file (doc comment, lines 86-87), so the check should test that file | high; not executed | `History.AppendHistoryAsWrittenFailsOnDefault` | `History.AppendHistoryFixed` |
