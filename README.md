# Hook reconciliation of wg-easy's startup, in Dafny

At startup the server merges two optional files, `/hooks/wg-post-up.txt` and
`/hooks/wg-post-down.txt`, into the stored hooks record `wg0`
(`overrideHooksFromFiles`). Before that it may cut the IPv6 firewall rules
out of the stored post-up and post-down scripts (`disableIpv6`). This project
models both steps and the helpers they use, and proves what they promise.

- `JsText` (`js_text.dfy`): the JavaScript string operations the code uses.
  These are `trim()`, `replace(/\s+/g, ' ')`, `replace(/\r\n/g, '\n')`,
  `split('\n')`, `join`, `includes` and `replace(p, '')` with a plain-string
  pattern `p`. `Words` is an independent reference: the maximal runs of
  non-whitespace of a string, against which `trim()` and the whitespace
  collapse are proved.
  Whitespace is the ECMAScript WhiteSpace and LineTerminator set, which
  includes U+FEFF.
- `HookText` (`hook_text.dfy`): `normalizeHook`, the canonical one-line form
  of a hook file.
- `HookFiles` (`hook_files.dfy`): `HOOK_FILE_MAP`, `readIfExists` and the
  `Promise.all` read of both files. The file system is a parameter: a
  function from path to read outcome.
- `HookStore` (`hook_store.dfy`): the merge policy, the IPv6 rule removal,
  and the class `Store`. `Store` holds the record `wg0` (or its absence) and
  counts lookups and writes. Its methods `OverrideHooksFromFiles` and
  `DisableIpv6` change the record in place.
- `Wrappers` (`wrappers.dfy`): `Option`, `Result`, `Outcome`.
- `Seqs` (`seqs.dfy`): small facts about sequence concatenation that the
  proofs use.

A raised error is modelled as an `Outcome.Fail` that leaves the record as it
was. In the source, the transaction rollback gives the same result.

Two behaviours of `disableIpv6` follow from the code and are easy to miss:

- It removes only the FIRST occurrence of each rule text: `replace` with a
  string pattern (src/server/database/sqlite.ts:149-150). A script that holds
  the rules twice therefore loses one copy per run, and a second run changes
  it again (`StripIpv6NotIdempotent`). Once no rule text is left, a further
  run changes nothing and writes nothing (`StripIpv6Settled`).
- It tests the two fields separately and issues one update per field that
  holds its rule text (src/server/database/sqlite.ts:144-169). Both updates
  are computed from the record as first read, so they write the same values:
  the record ends as one update leaves it, but two writes are made.

## Model

| member | source | states |
|---|---|---|
| `JsText.Trim` | src/server/database/sqlite.ts:189 | `trim()` leaves no whitespace at either end. Its result is empty exactly when the input is all whitespace. It leaves an already trimmed string unchanged. Which characters it keeps is stated by `TrimSlice`. |
| `JsText.TrimSlice` | src/server/database/sqlite.ts:189 | `trim()` returns a contiguous slice of its input with only whitespace before and after it. |
| `JsText.Collapse` | src/server/database/sqlite.ts:193 | `replace(/\s+/g, ' ')` yields a string whose every whitespace is `' '` with no two in a row. The result is empty only for empty input. The first and last characters stay whitespace or non-whitespace as they were, and a non-whitespace first character is kept. Which characters survive is stated by `CollapseIsWords`. |
| `JsText.CollapseSingleSpaced` | src/server/database/sqlite.ts:193 | Collapsing a string that is already single-spaced changes nothing. |
| `JsText.CollapseWordSpace` | src/server/database/sqlite.ts:193 | A run of non-whitespace is copied unchanged, and a single whitespace character after it, `\r` included, becomes one space. |
| `JsText.CollapseIsWords` | src/server/database/sqlite.ts:193 | `replace(/\s+/g, ' ')` keeps exactly the words of the string, in order, with one space between neighbours. It adds one leading or trailing space only where the string starts or ends with whitespace. A string without words becomes `" "` or `""`. |
| `JsText.CollapseTrimWords` | src/server/database/sqlite.ts:189-193 | `trim()` followed by `replace(/\s+/g, ' ')` gives exactly the words of the input joined by single spaces. |
| `JsText.WordsAreWords` | src/server/database/sqlite.ts:193 | Every word of a string is non-empty and free of whitespace. |
| `JsText.WordsOfJoin` | src/server/database/sqlite.ts:190-193 | Joining words with single spaces and splitting the result at whitespace gives back the same words. |
| `JsText.WordsOfJoinedLines` | src/server/database/sqlite.ts:190 | Lines joined with `' '` hold the words of each line, line by line, in order. |
| `JsText.WordsOfSpaced` | src/server/database/sqlite.ts:190 | Joining two strings with a space concatenates their words: the separator cannot glue two words together. |
| `JsText.ReplaceCrlfWithoutCr` | src/server/database/sqlite.ts:184 | CRLF replacement leaves a text without `\r` unchanged. |
| `JsText.ReplaceCrlf` | src/server/database/sqlite.ts:184 | `replace(/\r\n/g, '\n')` never lengthens the text. Its result on every input is fixed by `ReplaceCrlfWithoutCr`, `CrlfAfter` and `LoneCrAfter` together. |
| `JsText.CrlfAfter` | src/server/database/sqlite.ts:184 | A carriage-return-free prefix is copied, the CRLF after it becomes one line feed, and the rest is rewritten on its own. |
| `JsText.LoneCrAfter` | src/server/database/sqlite.ts:184 | A carriage return NOT followed by a line feed is kept as it is: the carriage-return-free prefix and the `\r` are copied, and the rest is rewritten on its own. |
| `JsText.Lines` | src/server/database/sqlite.ts:188 | `split('\n')` yields at least one piece, and no piece contains a line feed. A text without a line feed splits into itself alone. |
| `JsText.JoinLines` | src/server/database/sqlite.ts:188 | Joining the pieces of `split('\n')` with `'\n'` gives the text back. |
| `JsText.LinesOfJoin` | src/server/database/sqlite.ts:188 | Splitting line-feed-free pieces joined with `'\n'` gives the pieces back. |
| `JsText.JoinWith` | src/server/database/sqlite.ts:188-190 | `join(sep)` starts with the first piece, followed by the separator when there is a second piece. `JoinLines` and `LinesOfJoin` make it the inverse of `split('\n')`, and `WordsOfJoin` makes joining with `' '` the inverse of splitting at whitespace. |
| `JsText.IndexOf` | src/server/database/sqlite.ts:144 | The search behind `includes` and `replace`: the index returned is a match at or after the start with no earlier match there. `None` means there is no match at or after the start. |
| `JsText.Includes` | src/server/database/sqlite.ts:144 | `includes(p)` holds exactly when `p` occurs somewhere. |
| `JsText.RemoveFirst` | src/server/database/sqlite.ts:149-150 | `replace(p, '')` with a string pattern leaves a string without `p` unchanged. Otherwise it cuts out the first occurrence of `p` only, and the result is `\|p\|` shorter. |
| `JsText.RemoveFirstChanges` | src/server/database/sqlite.ts:149-150 | Removing a non-empty pattern changes the string exactly when the pattern occurs in it. |
| `HookText.StripBom` | src/server/database/sqlite.ts:181 | A leading byte-order mark is removed, and nothing else: a string that does not start with one is returned unchanged. |
| `HookText.Kept` | src/server/database/sqlite.ts:187-189 | The filter never adds lines. `KeptMembers` fixes which lines survive, and `KeptAppend` with `KeptOne` fixes their order and multiplicity. |
| `HookText.KeptMembers` | src/server/database/sqlite.ts:187-189 | The filter keeps exactly the lines of the input that are neither blank nor `#` comments after trimming. |
| `HookText.KeptAppend` | src/server/database/sqlite.ts:187-189 | The filter works line by line: filtering a concatenation concatenates the filtered parts. |
| `HookText.KeptOne` | src/server/database/sqlite.ts:187-189 | A single line is kept exactly when it is neither blank nor a `#` comment after trimming. |
| `HookText.Normalize` | src/server/database/sqlite.ts:179-194 | The normalized hook has no whitespace at either end. It has no line break, and every whitespace is a single `' '`. It does not start with `#`. It is empty exactly when every input line is blank or a comment. |
| `HookText.NormalizeWords` | src/server/database/sqlite.ts:179-194 | The normalized hook is exactly the words of the kept lines, in order, joined by single spaces; splitting it at whitespace gives those words back. |
| `HookText.NormalizeIdempotent` | src/server/database/sqlite.ts:179-194 | Normalizing a normalized hook returns it unchanged. |
| `HookText.DroppedLineIrrelevant` | src/server/database/sqlite.ts:187-190 | Inserting a blank or comment line anywhere does not change the normalized result. |
| `HookText.CommentAndBlankExample` | src/server/database/sqlite.ts:186-190 | `"# comment\n\nfoo\nbar"` normalizes to `"foo bar"`. |
| `HookText.BomAndCrlfExample` | src/server/database/sqlite.ts:181-184 | `"\uFEFFfoo\r\nbar\r\n"` normalizes to `"foo bar"`. |
| `HookText.LoneCrExample` | src/server/database/sqlite.ts:184-193 | `"foo\r# x"` normalizes to `"foo # x"`: a carriage return without a line feed is not a line break, so `# x` is not a comment line, and the `\r` is collapsed to a space. |
| `HookText.CrOnlyExample` | src/server/database/sqlite.ts:184-189 | `"# c\rfoo"` normalizes to `""`: a file with carriage-return line endings only is one line, and here that line is a comment. |
| `HookFiles.HookPathsDistinct` | src/server/database/sqlite.ts:173-177 | The post-up and post-down fields are read from different paths. |
| `HookFiles.HookPath` | src/server/database/sqlite.ts:173-177 | The post-up hook is read from `/hooks/wg-post-up.txt` and the post-down hook from `/hooks/wg-post-down.txt`. |
| `HookFiles.ReadIfExists` | src/server/database/sqlite.ts:196-204 | `Absent` results exactly for ENOENT and ENOTDIR. Every other error propagates with its code. A file that was read is `Present` with its normalized text, even when that text is empty. |
| `HookFiles.ReadTextIsNormal` | src/server/database/sqlite.ts:196-199 | Text read from a file is one canonical line, does not start with `#`, and is a fixpoint of normalization. |
| `HookFiles.ReadHookFiles` | src/server/database/sqlite.ts:215-218 | Both reads together succeed exactly when each read succeeds, and then give both file states in order. Otherwise the error is that of a failing read. |
| `HookStore.AllowEmptyOverwrite` | src/server/database/sqlite.ts:210 | `!!opts?.allowEmptyOverwrite` is true only for an explicit `true`. A missing option or field means false. |
| `HookStore.MergeField` | src/server/database/sqlite.ts:253-264 | An absent file keeps the stored value. An empty file keeps it unless empty overwrite is allowed. Any other file wins. Without that permission a non-empty stored value never becomes empty. |
| `HookStore.Merge` | src/server/database/sqlite.ts:250-265 | `preUp` and `preDown` are carried through. Each post hook is merged from its own file and stored value alone. |
| `HookStore.UnchangedExactly` | src/server/database/sqlite.ts:267-275 | The merged record equals the stored one exactly when each file is absent, equals the stored text, or is empty without permission to overwrite. |
| `HookStore.MergeIdempotent` | src/server/database/sqlite.ts:250-275 | Merging the same files into an already merged record changes nothing, so a second run with the same files writes nothing. |
| `HookStore.StartupNeverBlanks` | src/server/database/sqlite.ts:36-37 | With the options `connect` passes, a non-empty stored post hook is never replaced by an empty one. |
| `HookStore.StripIpv6` | src/server/database/sqlite.ts:130-169 | `disableIpv6` leaves `preUp`/`preDown` alone and removes the first occurrence of `postUpMatch` (`PostUpMatch`, lines 130-131) from `postUp` and of `postDownMatch` (`PostDownMatch`, lines 132-133) from `postDown`. The record changes exactly when one of them is present. |
| `HookStore.Ipv6Writes` | src/server/database/sqlite.ts:144-169 | `disableIpv6` makes at most two updates, none exactly when the record would not change, and two exactly when both fields hold their match. |
| `HookStore.StripRules` | src/server/database/sqlite.ts:144-166 | The written post hooks are the stored ones with the first occurrence of each rule text removed. A field without its rule text is written back unchanged, and `preUp`/`preDown` are untouched. With non-empty rule texts, the record changes exactly when one of them is present. |
| `HookStore.RuleWrites` | src/server/database/sqlite.ts:144-169 | One update is issued per post hook that holds its rule text: none exactly when neither holds it, two exactly when both do, at most two. With non-empty rule texts, none means the record would not change. |
| `HookStore.StripIpv6Settled` | src/server/database/sqlite.ts:128-171 | Once no rule text is left after a run, a second run changes nothing and writes nothing. |
| `HookStore.StripIpv6NotIdempotent` | src/server/database/sqlite.ts:144-150 | A post-up script holding the IPv6 rules twice is changed again, with one more write, by a second run. |
| `HookStore.Store.FindHooks` | src/server/database/sqlite.ts:245-248 | A lookup returns the record when it exists and nothing otherwise. It counts one lookup. |
| `HookStore.Store.SetHooks` | src/server/database/sqlite.ts:277-281 | The update stores all four fields of the merged record and counts one write. |
| `HookStore.Store.SetPostHooks` | src/server/database/sqlite.ts:146-153 | The update stores `postUp` and `postDown` only and counts one write. |
| `HookStore.Store.OverrideHooksFromFiles` | src/server/database/sqlite.ts:206-285 | A read error fails before any lookup or write. Two absent files return with no lookup and no write. A missing `wg0` fails after one lookup and writes nothing. Otherwise the record becomes the merge of the files. One write is counted when the record changed, none when it did not. |
| `HookStore.Store.MergeFiles` | src/server/database/sqlite.ts:244-282 | The transaction looks the record up once. A missing `wg0` fails and writes nothing. Otherwise the record becomes the merge of the two file states, with one write when it changed and none when it did not. |
| `HookStore.Store.DisableIpv6` | src/server/database/sqlite.ts:128-171 | A missing `wg0` fails without writing. Otherwise the record ends with the first occurrence of each IPv6 rule text removed. One write is counted per field that held its rule text. |
| `HookStore.Store.RemoveRules` | src/server/database/sqlite.ts:135-170 | The same as `DisableIpv6`, for any pair of rule texts. |

## Left out

- `connect`, `DBService`, `migrate` and `initialSetup` (src/server/database/sqlite.ts:20-126): startup glue, a foreign migration call whose failure is only logged, and calls into services that are not part of this model. The one fact kept is that `connect` passes `allowEmptyOverwrite: false` (`StartupOptions`).
- Real file I/O: a read is the value a path-to-outcome function returns. The model does not capture text decoding.
- HookFiles.ReadHookFiles: when both reads fail, `Promise.all` rejects with whichever rejection settles first. The model reports the post-up error, and its contract states only that the error is one of the failing reads'.
- Transactions: commit failures, isolation and the drizzle/libsql query builder are not modelled. The store is one in-memory record, and an error leaves it unchanged.
- `DB_DEBUG` logging.
- JavaScript strings are UTF-16 code units, while Dafny's `char` is a Unicode scalar value. Lone surrogates therefore cannot be expressed. None of them is whitespace, a line feed or `#`.
- Regular expressions are modelled only for the three fixed patterns the code uses.
- `replace` with a string pattern is modelled only with the empty replacement the code uses (`RemoveFirst`), so replacement patterns such as `$&` never arise. `IndexOf` is the search the code needs, always started at 0. It is not the whole of `String.prototype.indexOf`, which clamps a start position beyond the end.
