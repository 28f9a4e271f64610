# Backtrace printing in `sys_common::backtrace`, modelled in Dafny

This project models the three decision procedures of the standard library's
backtrace printer (`src/libstd/sys_common/backtrace.rs`) and proves what
they promise.

- **`log_enabled`** (module `Enablement`, `enablement.dfy`). It maps the
  `RUST_BACKTRACE` value to "do not print", Short or Full, and caches the
  answer in one process-wide integer: 0 = not yet computed, 1 = disabled,
  2 = Short, anything else = Full. The cache is a state-transition function
  `LogEnabled(fuchsia, state, env, enc)`. The integer that `v as isize`
  stores for each mode is the discriminant of `backtrace_rs::PrintFmt`,
  which is declared outside this file, so it is a parameter `Encoding`.
- **`_print_fmt`** (module `Printer`, `printer.dfy`). The stack walker and
  the resolver are replaced by their output: a sequence of frames, each with
  the symbols it resolves to. The formatter becomes a list of write attempts:
  the context header, one entry per symbol or raw frame, `finish`, and the
  note. An oracle `ok: nat -> bool` says whether the k-th write attempt
  succeeds. `Walk` is the callback folded over the frames, covering:
  - the Short-mode cap `idx > MAX_NB_FRAMES`;
  - the `__rust_begin_short_backtrace` cut-off;
  - one raw entry for an unresolved frame;
  - `res` overwritten per write.

  `PrintTrace` is the whole call.
- **`output_filename`** (module `Paths`, `paths.dfy`):
  - An OS string is a sequence of units, each a character or one
    undecodable unit. An undecodable unit is one maximal ill-formed UTF-8
    subsequence (which lossy display turns into one U+FFFD) or one unpaired
    UTF-16 surrogate.
  - `Convert` is the per-platform conversion of `BytesOrWideString`, with
    the `<unknown>` fallback.
  - `Components` parses Unix path syntax, and `StripPrefix` compares paths
    component-wise, as `Path::strip_prefix` does.
  - `OutputFilename` gives the text printed for a file: `./` plus the
    remainder, or the lossy display of the whole path.

`modes.dfy` holds the shared `Option` and `PrintFmt` types.

The constant `MAX_NB_FRAMES` is documented as the "max number of frames to
print" (backtrace.rs:14), but the code tests `idx > MAX_NB_FRAMES` before a
frame is counted, so a Short trace holds up to 101 frames. The model follows
the code.

When a frame holds the `__rust_begin_short_backtrace` symbol, the `return`
leaves only the per-symbol closure. So the other symbols of that frame are
still printed, and the walk stops after the frame.

## Model

| member | source | states |
|---|---|---|
| Enablement.FromEnv | src/libstd/sys_common/backtrace.rs:148-156 | An unset variable or exactly `0` means do not print, exactly `full` means Full, and any other value (the empty string included) means Short. |
| Enablement.EnvTable | src/libstd/sys_common/backtrace.rs:148-156 | The mapping on unset, `0`, empty, `full`, `1` and another value. |
| Enablement.Store | src/libstd/sys_common/backtrace.rs:157-161 | "Do not print" is stored as 1 and always decodes back to "do not print", under every encoding. An enabled answer decodes back exactly when Short is stored as 2, or Full outside {0, 1, 2}. |
| Enablement.Cached | src/libstd/sys_common/backtrace.rs:141-146 | State 0 holds no answer, 1 decodes to "do not print", 2 to Short, and every other value to Full. |
| Enablement.LogEnabled | src/libstd/sys_common/backtrace.rs:131-165 | On Fuchsia the answer is Full and the state is untouched. Elsewhere a filled state answers what it decodes to and is never changed, without the environment being read. From state 0 the answer is the environment's mapping and the state becomes that answer's stored code. The state stays 0 only if it was 0. |
| Enablement.Run | src/libstd/sys_common/backtrace.rs:131-165 | Consecutive calls give one answer per environment reading. |
| Enablement.FilledCacheIgnoresEnv | src/libstd/sys_common/backtrace.rs:141-146 | From a filled state the call's answer and state do not depend on the environment. |
| Enablement.CacheableIff | src/libstd/sys_common/backtrace.rs:141-163 | Storing an answer and decoding it gives the answer back, for every answer, exactly when Short is stored as 2 and Full outside {0, 1, 2}. |
| Enablement.SecondCallAgrees | src/libstd/sys_common/backtrace.rs:141-163 | Under such an encoding a second call returns the first call's answer and leaves the state unchanged, whatever the environment then says. |
| Enablement.SecondCallAgreesIff | src/libstd/sys_common/backtrace.rs:141-163 | Second calls from a fresh cache always agree with first calls exactly when the encoding is of that kind. |
| Enablement.FilledRunIsConstant | src/libstd/sys_common/backtrace.rs:141-146 | From a filled state every call of a run gives the answer the state decodes to, or Full on Fuchsia. |
| Enablement.CachedRunIsConstant | src/libstd/sys_common/backtrace.rs:141-163 | Under a cacheable encoding every call of a run answers like the first. |
| Enablement.FuchsiaRunIsFull | src/libstd/sys_common/backtrace.rs:136-138 | On Fuchsia every call of a run answers Full. |
| Enablement.ShortAsZeroRereads | src/libstd/sys_common/backtrace.rs:157-163 | If Short is stored as 0, the cache never fills on a Short answer, and each call follows the current environment. |
| Enablement.FullAsOneDisables | src/libstd/sys_common/backtrace.rs:141-163 | If Full is stored as 1, the call after a Full answer says "do not print". |
| Enablement.DeclarationOrderForgetsFull | src/libstd/sys_common/backtrace.rs:157-163 | With declaration-order discriminants (Short 0, Full 1), `RUST_BACKTRACE=full` gives Full once and then "do not print". |
| Enablement.ExplicitCodesKeepFirstAnswer | src/libstd/sys_common/backtrace.rs:157-163 | With Short stored as 2 and Full as 3, every call of a run answers like the first. |
| Paths.Convert | src/libstd/sys_common/backtrace.rs:176-195 | Bytes are kept on Unix, and elsewhere only if they decode. Wide strings are kept on Windows only. Anything else becomes `<unknown>`. Bytes off Unix always yield valid text. |
| Paths.ToStr | src/libstd/sys_common/backtrace.rs:199 | The remainder has text exactly when every unit decodes, and that text lifts back to the remainder. |
| Paths.Display | src/libstd/sys_common/backtrace.rs:205 | Display keeps every unit, and each undecodable unit shows as U+FFFD. |
| Paths.StripPrefix | src/libstd/sys_common/backtrace.rs:198 | A strip succeeds exactly when the working directory's components are a prefix of the file's, and then the prefix plus the remainder is the file's component list. |
| Paths.OutputFilename | src/libstd/sys_common/backtrace.rs:170-206 | The path is shortened to `./` plus the remainder exactly when all these hold: the mode is Short, the path is absolute, a cwd exists, the strip succeeds, and the remainder is text. Otherwise it is displayed, so Full mode and relative paths are never shortened. |
| Paths.ShortenedRoundTrip | src/libstd/sys_common/backtrace.rs:196-201 | A shortened output starts with `./`, and the cwd's components followed by the printed remainder's components are the file's components. |
| Paths.ShortensBelowCwd | src/libstd/sys_common/backtrace.rs:196-201 | For any absolute cwd made of names, a file below it prints as `./` followed by the remaining names joined by `/`. |
| Paths.ShortensUnderCwd | src/libstd/sys_common/backtrace.rs:196-201 | With the working directory given as the text `/a/b`, the file given as the text `/a/b/c/d` prints as `./c/d`, for any plain names a, b, c, d. |
| Paths.KeepsPathOutsideCwd | src/libstd/sys_common/backtrace.rs:196-205 | A file whose first name differs from the cwd's first name prints unchanged. |
| Printer.ContainsIff | src/libstd/sys_common/backtrace.rs:87 | `Contains` holds exactly when the sentinel text occurs at some position of the name. |
| Printer.SomeSentinelIff | src/libstd/sys_common/backtrace.rs:85-91 | A frame holds the sentinel exactly when one of its symbols has a decodable name that contains it. |
| Printer.SymbolPassSpec | src/libstd/sys_common/backtrace.rs:83-95 | The per-symbol closure emits one entry per visible symbol, in resolver order. It sets `stop` exactly when the mode is Short and some symbol is the sentinel. It leaves `res` at the outcome of its last write, or unchanged if it wrote nothing. |
| Printer.VisitFrameSpec | src/libstd/sys_common/backtrace.rs:81-101 | A frame without the sentinel prints all its symbols, or exactly one raw entry if it has none. A sentinel frame prints its other symbols and no raw entry. `res` is the frame's last write. |
| Printer.WalkEnds | src/libstd/sys_common/backtrace.rs:76-105 | A walk counts at most its frames, and at most 101 in Short mode. It ends exhausted, capped (Short only), at a sentinel (Short only) or on a failed write. `res` is Ok unless the walk stopped on a failed write or at a sentinel. |
| Printer.WalkResIsLastWrite | src/libstd/sys_common/backtrace.rs:94-104 | After the walk, `res` is the outcome of the last write it made, or Ok if it made none. |
| Printer.PrintTrace | src/libstd/sys_common/backtrace.rs:67-116 | The writes are the context header, then the entries, then possibly `finish`, then possibly the note. The result is Ok exactly when the last attempted write succeeded. The note comes last and only in Short mode, and an Ok result has it exactly in Short mode. Short mode counts at most 101 frames. If the header fails, nothing else is written and the result is Err. Otherwise the entries, the frame count and the end reason are those of the walk started at index 0 and write number 1. |
| Printer.FinishAndNote | src/libstd/sys_common/backtrace.rs:106-115 | `finish` is attempted exactly when the header and the walk's last write succeeded. The note is attempted exactly in Short mode after a successful `finish`. |
| Printer.FullWalkPrintsAll | src/libstd/sys_common/backtrace.rs:76-105 | In Full mode with every write succeeding, every frame is printed in full and `idx` ends at the frame count. |
| Printer.ShortWalkCaps | src/libstd/sys_common/backtrace.rs:77-79 | In Short mode without sentinel, exactly the first `101 - idx` frames are printed before the cap stops the walk. |
| Printer.ShortWalkStopsAtSentinel | src/libstd/sys_common/backtrace.rs:81-98 | In Short mode, take the first sentinel frame below the cap. The frames before it print in full, then its other symbols, and the walk stops without counting it. |
| Printer.ContinuesIffLastWriteOk | src/libstd/sys_common/backtrace.rs:99-104 | In Full mode, or in Short mode below the cap with a first frame that holds no sentinel, the walk stops on a failure in the first frame exactly when that frame's last write fails. |
| Printer.WriteFailedCounts | src/libstd/sys_common/backtrace.rs:103-104 | A walk that stopped on a failed write had counted the frame it failed in. |
| Printer.FlattenOfUnresolved | src/libstd/sys_common/backtrace.rs:99-101 | Unresolved frames print one raw entry each, carrying the frame's instruction pointer. |
| Printer.FullTracePrintsAll | src/libstd/sys_common/backtrace.rs:67-116 | With every write succeeding, Full mode writes the header, every frame's entries and `finish`, counts every frame, and returns Ok. |
| Printer.ShortTraceCaps | src/libstd/sys_common/backtrace.rs:67-116 | With every write succeeding and no sentinel, Short mode writes the header, the entries of the first 101 frames (or of all, if fewer), `finish` and the note, and returns Ok. |
| Printer.CapVersusFull | src/libstd/sys_common/backtrace.rs:76-115 | More than 101 unresolved frames print as 101 raw entries and the note in Short mode, and as all of them without a note in Full mode. |
| Printer.InlinedFanOut | src/libstd/sys_common/backtrace.rs:83-103 | A frame resolving to three inlined symbols gives three entries but advances `idx` by one. |
| Printer.FailureMaskedWithinFrame | src/libstd/sys_common/backtrace.rs:94-104 | A failed write followed by a successful one in the same frame is not reported. |
| Printer.SentinelKeepsSiblings | src/libstd/sys_common/backtrace.rs:85-98 | In Short mode the sentinel's siblings in its frame are printed. The following frames are not, and `idx` stays 0. |

## Left out

- `lock` and the mutex in `print` (lines 17-51): mutual exclusion between threads, not functional behaviour.
- The `cfg!(test)` early return in `print` (lines 41-43): a compile-time switch that returns `Ok(())`.
- The `_print` adaptor from `io::Write` to `fmt::Display` (lines 53-65): it only forwards to `_print_fmt`.
- `trace_unsynchronized` and `resolve_frame_unsynchronized` are foreign stack walking and symbolication. They become the input sequence of frames.
- The text `BacktraceFmt` writes (`add_context`, `frame().symbol`, `print_raw`, `finish`) and the note's wording. Each write is an event whose success comes from the oracle. The symbol's file and line are carried in the entry, but how they are printed is not modelled.
- Reading `RUST_BACKTRACE` and the current directory is OS I/O. The values are parameters; a failed `current_dir` is `None`.
- The atomic orderings of `ENABLED`: the cache is modelled sequentially. Racing first calls would only recompute.
- `__rust_begin_short_backtrace` itself (lines 118-127): an identity wrapper whose name alone matters, as the sentinel text.
- UTF-8 and UTF-16 decoding are abstracted into the split between characters and undecodable units. Finding the maximal ill-formed subsequences of a byte string is not modelled: the input arrives already split.
- Windows path syntax (prefixes, `\`) is left out: paths use the Unix syntax.
- Paths.OutputFilename: the remainder is rendered as the remaining components joined by `/`. The real `strip_prefix` returns the remaining text as written, so redundant separators or `.` components in the original file name are not reproduced.
- Paths.OutputFilename: the outcome of the `write!` to the formatter is not modelled.

## Findings

| source | as written | input that shows it | evidently intended | confidence | as-written member | corrected member |
|---|---|---|---|---|---|---|
| src/libstd/sys_common/backtrace.rs:157-163 | The store writes `v as isize`, the discriminant of `PrintFmt`, but the decode at lines 141-146 reads 2 as Short and every other value except 0 and 1 as Full. | With `PrintFmt` declared `Short, Full` without explicit values (discriminants 0 and 1), two calls with `RUST_BACKTRACE=full` answer Full, then "do not print". A Short answer stores 0, so the cache never fills. | Store Short as 2 and Full as a value outside {0, 1, 2}, so the cached answer is the first one. | medium, not executed; depends on the declaration of `PrintFmt` in backtrace_rs, which is not part of this model | Enablement.DeclarationOrderForgetsFull | Enablement.ExplicitCodesKeepFirstAnswer |
