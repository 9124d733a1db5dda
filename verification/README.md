# kilo start-up, key handling and screen refresh in Dafny

This project models `kilo.c`, an early stage of the kilo terminal text editor.
At this stage the editor does five things:

- it puts the terminal in raw mode;
- it finds out the window size, from the `TIOCGWINSZ` ioctl or from a VT100
  cursor position report;
- it draws a column of `~` rows;
- it reads single keypresses;
- it quits on Ctrl-Q.

The operating system is a set of parameters:

- the input is a sequence of `read` outcomes (`Bytes.ReadOutcome`: one byte,
  nothing before the timeout, or an error with its `errno`);
- every `write` is described by the count it returns;
- the `tcgetattr` and `ioctl` answers are `Option` values;
- the output is the sequence of bytes that reaches the terminal.

`exitOnFailure` becomes an outcome. The bytes it writes before exiting are
the `clearScreen` sequence.

Modules:

- `Bytes`: the byte type, read outcomes, and what a (possibly short) write
  delivers.
- `Keys`: `CTRL_KEY`, the retry loop of `editorReadKey`, and the quit
  decision of `editorProcessKeypress`.
- `RawMode`: the `struct termios` record with the Linux values of the flags,
  and the raw-mode record `enableRawMode` derives from the saved one.
- `Scan`: `sscanf(..., "%d;%d", ...)` with glibc's return values. It also
  holds the decimal rendering a terminal uses in its report, and the round
  trip between the two.
- `WindowSize`: `getCursorPosition` (the 32-byte buffer fill loop, the
  `ESC [` check and the parse) and `getWindowSize`.
- `Screen`: the bytes `clearScreen`, `editorDrawRows` and
  `editorRefreshScreen` write.
- `Editor`: the global `struct editorConfig E` as the class `EditorConfig`,
  with `enableRawMode` and `initEditor` as the methods that update it.

Imperative parts of the source stay imperative:

- the key read loop (`Keys.ReadKey`);
- the report buffer fill over an `array` (`WindowSize.CollectReport`);
- the row drawing loop (`Screen.DrawRows`);
- the field-by-field termios update (`Editor.DeriveRaw`).

The first, second and fourth are proved equal to a reference function
(`Keys.NextKey`, `WindowSize.ReportText`, `RawMode.RawTermios`), and the
properties are proved about that function. The row drawing loop states its
output directly.

## Model

| member | source | states |
|---|---|---|
| Keys.CtrlKey | kilo.c:13 | the chord byte keeps only the low five bits: it is the key modulo 32, so below 32 and never above the key |
| Keys.QuitIsDc1 | kilo.c:129 | `CTRL_KEY('q')` is byte 0x11 |
| Keys.CtrlKeyIgnoresCase | kilo.c:13 | a letter and its other case (bit 5 flipped) give the same chord |
| Keys.NextKey | kilo.c:58-67 | reference result of a key read: a byte comes from the first read that delivers one; a fatal error is a failed read whose errno is not `EAGAIN`; every earlier read returned 0 or failed with `EAGAIN`; the call never returns exactly when every read is retried |
| Keys.ReadKey | kilo.c:58-67 | the retry loop returns the reference result |
| Keys.NextKeyExact | kilo.c:62-66 | the key read returns `c` after `n` reads if and only if the first `n - 1` reads are retried and the n-th delivers `c` |
| Keys.KeyEffect | kilo.c:128-133 | a key exits, with status 0, if and only if it is 0x11; any other key changes nothing |
| Keys.ProcessKeypress | kilo.c:125-134 | Ctrl-Q clears the screen and exits 0; a fatal read error clears the screen and exits 1; other keys write nothing and continue; reads that never deliver leave the call waiting |
| Keys.QuitOnlyOnCtrlQ | kilo.c:125-134 | a keypress ends the editor with status 0 if and only if the first byte delivered past the retried reads is 0x11 |
| RawMode.RawInputFlags | kilo.c:47 | `IXON`, `ICRNL`, `BRKINT`, `INPCK` and `ISTRIP` are cleared in `c_iflag`; every other input bit is kept |
| RawMode.RawOutputFlags | kilo.c:48 | `OPOST` is cleared in `c_oflag`; every other output bit is kept |
| RawMode.RawControlFlags | kilo.c:49 | `CS8` is set in `c_cflag`; every other control bit is kept |
| RawMode.RawLocalFlags | kilo.c:50 | `ECHO`, `ICANON`, `ISIG` and `IEXTEN` are cleared in `c_lflag`; every other local bit is kept |
| RawMode.RawControlChars | kilo.c:52-53 | `VMIN` becomes 0 and `VTIME` becomes 1; every other control character, the line discipline and both speeds are kept |
| Editor.DeriveRaw | kilo.c:44-53 | the field-by-field update of the copy yields the raw-mode record that the four flag lemmas and the control-character lemma describe |
| Editor.EditorConfig.constructor | kilo.c:19-25 | the zero-initialised global: zero rows and columns, an all-zero termios record |
| Editor.EditorConfig.EnableRawMode | kilo.c:40-56 | a failed `tcgetattr` clears the screen and fails without touching `E`; otherwise the saved record is stored in `orig_term` unmodified, and the raw-mode record derived from it goes to `tcsetattr`; a failed `tcsetattr` clears the screen and fails; the screen size is untouched |
| Editor.EditorConfig.InitEditor | kilo.c:179-183 | the screen size becomes the ioctl answer, or whatever the report parse stored; a -1 from `getWindowSize` clears the screen and fails; the saved termios record is untouched |
| WindowSize.CollectFrom | kilo.c:78-90 | at most 31 bytes are kept; each one is the byte of the matching read and none is `R`; below 31 bytes the loop stopped at a read without a byte or at an `R` |
| WindowSize.ReportReads | kilo.c:78-88 | the loop makes at most 31 reads: one per kept byte, plus the read that stopped it unless the buffer filled |
| WindowSize.CollectReport | kilo.c:70-90 | the array fill loop leaves exactly the reference text before its NUL terminator, after the reference number of reads |
| WindowSize.CollectUntilR | kilo.c:78-90 | when the reads deliver `w` and then `R`, and `w` fits the buffer, the loop keeps exactly `w` |
| WindowSize.ParseReport | kilo.c:91-98 | the result is 0 or -1; text without the `ESC [` prefix gives -1 and stores nothing; a 0 comes with both numbers stored |
| WindowSize.ParseReportExact | kilo.c:91-98 | the result is 0 with rows `a` and columns `b` if and only if the text starts with `ESC [` and the C string after it is a `%d` field of value `a` (white space, an optional sign, one or more digits), a `;`, a `%d` field of value `b`, and anything that does not continue those digits |
| WindowSize.GetCursorPosition | kilo.c:69-99 | a short request write gives -1 with no reads; otherwise the result is the parse of the collected text, after the reads the loop makes |
| WindowSize.ReportRoundTrip | kilo.c:91-98 | `ESC [ rows ; cols` followed by anything that does not start with a digit parses to 0 with exactly `rows` and `cols`, negative ones included |
| WindowSize.ReportAnswered | kilo.c:69-99 | a terminal that answers `ESC [ rows ; cols R` within the buffer makes the report give 0 with those numbers, whatever input follows |
| WindowSize.Report24By80 | kilo.c:69-99 | the answer `ESC [ 2 4 ; 8 0 R` gives 24 rows and 80 columns |
| WindowSize.GetWindowSize | kilo.c:101-120 | a successful ioctl with a nonzero column count gives its size, with no output and no reads; otherwise a short corner-move write gives -1; otherwise the result is the cursor report's |
| Scan.CString | kilo.c:90-94 | the C string is the prefix before the first NUL and holds no NUL |
| Scan.ScanDecimal | kilo.c:94 | `%d` fails for lack of input if and only if the input is all white space |
| Scan.ScanPair | kilo.c:94 | `sscanf` returns -1, 0, 1 or 2; it stores the first number exactly when it returns at least 1, and the second exactly when it returns 2 |
| Scan.ScanDecimalSigned | kilo.c:94 | `%d` reads back the decimal rendering of any integer and leaves the input after it unread |
| Scan.ScanDecimalReads | kilo.c:94 | whatever `%d` converts to `v` is white space, an optional sign and a non-empty digit run of signed value `v`, and the input it leaves does not start with a digit |
| Scan.ScanDecimalField | kilo.c:94 | `%d` converts every such field, followed by input that does not start with a digit, to its value and leaves that input |
| Scan.ScanPairExact | kilo.c:94 | `"%d;%d"` returns 2 and stores `a` and `b` if and only if the input is a field of value `a`, a `;`, a field of value `b`, and anything that does not continue the second field's digits |
| Scan.ScanPairRoundTrip | kilo.c:94 | `"%d;%d"` on two rendered integers joined by `;` returns 2 and stores both |
| Bytes.Sent | kilo.c:74-76 | a write that returns `n` delivers the first `n` bytes; a full write delivers everything; a failed write delivers nothing |
| Screen.DrawRows | kilo.c:152-158 | the loop writes `~\r\n` once per screen row, the last row included, and nothing for zero or negative rows |
| Screen.RefreshScreen | kilo.c:147-174 | a refresh writes `ESC [ 2 J`, `ESC [ H`, one `~\r\n` per row and `ESC [ H`: `10 + 3 * rows` bytes |

## Left out

- The system calls (`tcgetattr`, `tcsetattr`, `ioctl`, `read`, `write`) are
  parameters. `atexit`, `perror` and `exit` have no model: a failure is an
  `Outcome` or a `Step` value.
- `disableRawMode` (kilo.c:36-38) is not modelled. It hands `orig_term`
  back to `tcsetattr` at exit. When that call fails, it calls
  `exitOnFailure("tcsetattr")` from inside the exit handler: the screen is
  cleared a second time and `exit(1)` is called during `exit`, which C
  leaves undefined. Once raw mode is on, every modelled exit (the `Exit`
  steps of `Keys.ProcessKeypress` and the `Failure` outcomes of the
  `Editor.EditorConfig` methods) can therefore end with that extra output
  and status in the real program. The model leaves this failure path out.
- Editor.EditorConfig.EnableRawMode: does not model the `atexit`
  registration, because it changes no state the model has.
- The return values of the writes in `clearScreen` and `editorDrawRows` are
  not checked by the source. The model writes the intended bytes in full.
- Screen.RefreshScreen: takes the row count as a parameter instead of
  reading `E.screenRows`.
- The infinite loop in `main` (kilo.c:185-195) is not modelled. Its two
  steps are `Screen.RefreshScreen` and `Keys.ProcessKeypress`.
- Integers are unbounded. A `%d` value that overflows `int` is undefined
  behaviour in C. The model simply converts it exactly.
- The termios flags, `VMIN`, `VTIME`, `NCCS` and `EAGAIN` take their Linux
  values.
- The input stream is finite. Every read past its end returns 0, which is
  what a raw-mode read with `VMIN = 0` and `VTIME = 1` does when no input
  arrives. A key read that sees only such reads is `Blocked` (it never
  returns).
- Bytes are unsigned. The source stores them in `char`, but its only
  comparisons are with ASCII values, which are the same either way.
