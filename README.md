# shellhop: incremental search over one line, modelled in Dafny

`shellhop` is started by a shell key binding with the current command line as
its argument. It hides the cursor and loops: it redraws a prompt followed by
the line, with every occurrence of the typed needle highlighted, then reads one
key. Carriage return prints the offset of the leftmost occurrence on stdout and
ends; escape ends without printing; DEL removes the last needle character; any
other byte is appended to the needle while the needle array has room. `goto2`
is the earlier version of the same program: a 64-character needle array and
`tput` for saving, restoring and clearing.

The model follows the C code of both programs:

- `CStrings` (cstrings.dfy): the C string functions the loop relies on.
  `strncmp` is modelled with its real semantics (at most n characters,
  stopping at a shared NUL) and proved equal to a prefix comparison when the
  needle's first n characters hold no NUL. `strstr` is `FindFirst`, the
  leftmost occurrence. `CStr` reads the C string stored in a buffer.
- `Style` (style.dfy): the pure characterisation of a frame. `Render(line,
  needle)` gives each character a `StartMatch` token (underline and reverse
  video) where a non-empty needle occurs, an `InMatch` token (reverse video)
  where an earlier occurrence still covers it, and `Plain` otherwise.
- `Needle` (needle.dfy): class `NeedleBuffer`, the `char needle[]` array and
  `needle_len`. Its invariant says the buffer is a C string of length `len`:
  `len < size`, no NUL before `len`, only NULs from `len` on. `Append`,
  `Delete` and `Confirm` are the three key actions. `Paint` is the per-frame
  `for` loop with its `remain` counter, proved to produce `Render`.
- `Keys` (keys.dfy): the key dispatch as a function of the keys read so far
  (`Edit`, `Typed`, `FirstStop`).
- `Terminal` (terminal.dfy): the output vocabulary. It covers cursor and
  clearing actions, `tput` calls, fixed text and the styled line. A run's
  result is its stderr stream, an optional stdout offset and an exit status.
- `Shellhop` (shellhop.dfy) and `Goto2` (goto2.dfy): each program's
  prologue, per-frame decoration, teardown and the `while (1)` loop (`Run`).
  `Run` is proved to produce `Transcript`, a function of the line and the keys.

Input is a finite sequence of key bytes. When the keys run out before a CR or
an ESC, the result is the state of a loop waiting in `getchar`: every frame
drawn so far, including the one before the read that is waiting, nothing on
stdout, and no exit status yet.

A later version of the tool, exercised by the repository's test.py, behaves
differently: keys that do not match are rejected (test.py:245-251), Ctrl-N and
Ctrl-P cycle through matches (test.py:355, test.py:415), the active match is
styled apart from the others, and escape prints `0` (test.py:508-513). The
model follows the C code of the two programs instead. There every ordinary key
is appended and every occurrence is styled the same way. Escape prints nothing,
and so does a confirm whose needle does not occur. An empty confirm prints `0`
in both versions (test.py:227): `strstr(line, "")` returns `line`.

The line is `argv[1]`. Each `char` of the model stands for one byte of it, so
the offset printed on confirm is a byte offset. The line is a C string and holds
no NUL; `Run`, `Paint` and `Confirm` require this, because the C loop and
`strstr` stop at the first NUL.

`BUFSIZ` is not defined in the source. The model takes it as 8192, the value
in the GNU C library.

## Model

| member | source | states |
|---|---|---|
| `CStrings.AgreeFrom` | shellhop.c:25 | definition the `strncmp` contracts use: positions `k..n-1` compare equal, the comparison stopping early at a shared NUL |
| `CStrings.StrNCmpZero` | shellhop.c:25 | definition the render loop uses: `strncmp(a, b, n) == 0` |
| `CStrings.StrNCmpOnNulFree` | shellhop.c:25 | `strncmp(a, b, n) == 0` exactly when `a` has at least `n` characters and starts with `b[..n]`, provided `b[..n]` holds no NUL |
| `CStrings.StrNCmpAt` | shellhop.c:25 | `strncmp(line + i, needle, needle_len) == 0` exactly when the NUL-free needle occurs in the line at `i` |
| `CStrings.CStr` | shellhop.c:39 | the C string stored in a buffer is a NUL-free prefix of it, followed by a NUL when shorter than the buffer |
| `CStrings.FindFrom` | shellhop.c:39-41 | searching from `i` returns an occurrence at or after `i` with none between `i` and it, or None when there is no occurrence at or after `i` |
| `CStrings.FindFirst` | shellhop.c:39-41 | `strstr` finds an occurrence exactly when one exists, and it is the leftmost; an empty needle is found at offset 0 |
| `Style.Classify` | shellhop.c:25-33 | definition the render contracts use: the style of one character, start marker, reverse-only or plain |
| `Style.Render` | shellhop.c:24-34 | definition `Paint`, `Run` and the style lemmas use: one `Classify` token per line character |
| `Style.Wire` | shellhop.c:26-32 | definition of the bytes written for one token: `\e[4;7m` c `\e[0m`, `\e[7m` c `\e[0m`, or c alone |
| `Style.WireAll` | shellhop.c:24-34 | definition of the bytes written for the styled line, token after token |
| `Style.ClassifyByRemain` | shellhop.c:23-33 | where no occurrence starts, a positive `remain` (what the latest occurrence still covers) gives reverse video and zero gives plain, as long as `remain` bounds what every earlier occurrence covers and equals what one of them covers |
| `Style.RenderKeepsText` | shellhop.c:24-34 | a frame has one token per line character and each token carries that character |
| `Style.EmptyNeedleShowsLine` | shellhop.c:25-32 | with an empty needle every character is plain and the bytes written for the styled line are the line itself |
| `Style.StylesExact` | shellhop.c:25-33 | start marker exactly where a non-empty needle occurs; reverse-only exactly where not a start and strictly inside an earlier occurrence; plain otherwise |
| `Style.FirstStartIsLeftmost` | shellhop.c:25-41 | for a non-empty needle, the offset `strstr` finds is the first start-marked character of the frame; when it finds nothing, no character is start-marked |
| `Style.OverlapRestartsMatch` | shellhop.c:25-30 | in `"aaa"` the needle `"aa"` gives start, start, reverse-only: an overlapping occurrence restarts the countdown |
| `Needle.NeedleBuffer.Valid` | shellhop.c:15-16 | definition of the invariant the buffer methods keep: `needle_len < sizeof(needle)`, no NUL before `needle_len`, only NULs from there on |
| `Needle.NeedleBuffer.constructor` | shellhop.c:15-16 | the needle starts empty, in a zero-filled array of the given size |
| `Needle.NeedleBuffer.Append` | shellhop.c:50-52 | while `needle_len + 1 < sizeof(needle)` the key is appended whatever it is; otherwise nothing changes; the NUL-tail invariant is kept |
| `Needle.NeedleBuffer.Delete` | shellhop.c:44-47 | an empty needle is left unchanged, array included; otherwise exactly the last character is removed, its slot becomes NUL and earlier characters stay |
| `Needle.NeedleBuffer.EditKey` | shellhop.c:44-52 | a key other than CR and ESC changes the needle exactly as `Edit` says and keeps the NUL-tail invariant |
| `Needle.NeedleBuffer.StoredString` | shellhop.c:39 | the string `strstr` reads from the array is the typed needle, because of the NUL-tail invariant |
| `Needle.NeedleBuffer.Confirm` | shellhop.c:38-43 | the offset is that of the leftmost occurrence of the needle, None when it does not occur, and 0 for an empty needle |
| `Needle.NeedleBuffer.Paint` | shellhop.c:23-34 | the `remain` loop writes exactly `Render(line, needle)`; `remain` stays between 0 and `needle_len - 1` |
| `Keys.Edit` | shellhop.c:44-52 | definition the loop's contracts use for one key: DEL drops the last character if any, CR and ESC leave the needle, other keys are appended while `needle_len + 1 < sizeof(needle)` |
| `Keys.Typed` | shellhop.c:38-52 | definition of the needle after a sequence of keys, `Edit` applied key after key from the empty needle |
| `Keys.FirstStop` | shellhop.c:38-49 | the loop stops at the first CR or ESC: no earlier key is one, and the key at the returned index is one unless all keys were read |
| `Keys.DeleteUndoesAppend` | shellhop.c:44-52 | DEL after an append that had room gives back the needle before the append |
| `Keys.TypedLength` | shellhop.c:50-52 | for every key sequence the needle holds at most `size - 1` characters |
| `Keys.TypedBounded` | shellhop.c:15-52 | for NUL-free keys the needle holds at most `size - 1` characters and no NUL |
| `Keys.TypedOrdinary` | shellhop.c:50-52 | typing only ordinary keys gives what was typed, cut to its first `size - 1` characters |
| `Shellhop.Prologue` | shellhop.c:17-18 | definition of what is written before the loop: save cursor, hide cursor |
| `Shellhop.Frame` | shellhop.c:21-35 | definition of one frame: restore cursor, the label `(shellhop): `, the styled line, clear to end of screen |
| `Shellhop.Teardown` | shellhop.c:55-57 | definition of what is written after the loop: restore cursor, clear to end of screen, show cursor |
| `Shellhop.Transcript` | shellhop.c:17-58 | definition `Run` is proved against: prologue, one frame per key read up to the first CR or ESC, teardown and status 0 after it, and the `strstr` offset on CR |
| `Shellhop.Run` | shellhop.c:15-58 | the loop's stderr stream, stdout offset and exit status are those of `Transcript(line, keys)` |
| `Shellhop.FramesCount` | shellhop.c:21-35 | `m` frames hold the label `m` times and never hide or show the cursor |
| `Shellhop.StderrCount` | shellhop.c:17-58 | counts in the whole stderr stream are the prologue's, one label per frame, and the teardown's when the loop ended |
| `Shellhop.OneFramePerKey` | shellhop.c:17-58 | one frame precedes every key read, plus one while waiting; the cursor is hidden once and shown exactly once, only after CR or ESC |
| `Shellhop.ConfirmPrintsLeftmost` | shellhop.c:38-43 | on CR the exit status is 0 and stdout holds the leftmost occurrence offset (0 for an empty needle), or nothing when the needle does not occur; for a non-empty needle that offset is the first start-marked character of the last frame (an empty needle marks no character) |
| `Shellhop.EscapePrintsNothing` | shellhop.c:48-58 | on ESC stdout stays empty, the stream ends with the teardown, and the exit status is 0 |
| `Shellhop.NeedleFits` | shellhop.c:15-52 | every frame's needle has at most `BUFSIZ - 1` characters |
| `Goto2.Prologue` | goto2.c:17-18 | definition of what is written before the loop: `tput sc`, hide cursor |
| `Goto2.Frame` | goto2.c:21-35 | definition of one frame: `tput ed`, `tput rc`, the label `goto2: `, the styled line |
| `Goto2.Teardown` | goto2.c:55-57 | definition of what is written after the loop: `tput ed`, `tput rc`, show cursor |
| `Goto2.Transcript` | goto2.c:17-58 | definition `Run` is proved against: prologue, one frame per key read up to the first CR or ESC, teardown and status 0 after it, and the `strstr` offset on CR |
| `Goto2.Run` | goto2.c:15-58 | the loop's stderr stream (`tput ed`, `tput rc`, label, styled line per frame, no trailing clear), stdout offset and exit status are those of `Transcript(line, keys)` |
| `Goto2.FramesCount` | goto2.c:21-36 | `m` frames hold the label `m` times and never hide or show the cursor |
| `Goto2.StderrCount` | goto2.c:17-58 | counts in the whole stderr stream are the prologue's, one label per frame, and the teardown's when the loop ended |
| `Goto2.OneFramePerKey` | goto2.c:17-58 | one frame precedes every key read, plus one while waiting; the cursor is hidden once and shown exactly once, only after CR or ESC |
| `Goto2.ConfirmPrintsLeftmost` | goto2.c:38-43 | on CR the exit status is 0 and stdout holds the leftmost occurrence offset (0 for an empty needle), or nothing when the needle does not occur; for a non-empty needle that offset is the first start-marked character of the last frame (an empty needle marks no character) |
| `Goto2.EscapePrintsNothing` | goto2.c:48-58 | on ESC stdout stays empty, the stream ends with `tput ed`, `tput rc`, show-cursor, and the exit status is 0 |
| `Goto2.NeedleFits` | goto2.c:15-51 | every frame's needle has at most 63 characters |
| `Goto2.ExtraKeysDropped` | goto2.c:50-51 | after 64 or more ordinary keys the needle holds the first 63; later keys are dropped |

## Left out

- Argument handling: the usage message and exit status 1 when `argv[1]` is missing. The line is taken as given: the bytes of `argv[1]`, which hold no NUL.
- Terminal I/O: `setbuf`/`fflush` buffering, and the bytes `tput` writes, which come from the terminal database. `tput` calls are abstract actions; the fixed escape sequences are stated by `Style.Wire` for the styled line. So `Session.stderr` is the order in which the program issues its output, not the order bytes reach the terminal. In goto2, stderr is fully buffered while `tput` writes straight to file descriptor 2. The first hide-cursor is therefore flushed only at the first `fflush`, after that frame's `tput ed` and `tput rc`.
- End of input: `getchar` returning EOF is narrowed to the byte 0xFF and appended. Input here is a finite key sequence; when it runs out, the model reports a loop waiting for a key.
- NUL keys: an appended NUL would cut the needle short for `strncmp` and `strstr`. `Run` requires keys without NUL.
- The `(int)` cast of the offset for `printf("%d\n", ...)`: offsets are unbounded naturals, and the decimal formatting is not modelled.
- Signals: neither program installs a handler.
- The later version's behaviour (match cycling, rejecting keys that do not match, the active match styled apart, cleanup on interrupt, shell-integration snippets, help text) is not in the C code shown and is not modelled.
