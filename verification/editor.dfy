/** The editor's global state `E` and the two start-up steps that change it:
    entering raw mode (which saves the original terminal attributes in `E`)
    and discovering the window size. */
module Editor {
  import opened Bytes
  import opened RawMode
  import Screen
  import opened WindowSize

  /** How a start-up step ends: normally, or in `exitOnFailure(call)`, which
      clears the screen, reports `call` and exits with status 1. */
  datatype Outcome = Done | Failure(call: string)

  /** The all-zero attribute record a zero-initialised global starts with. */
  const ZERO_TERMIOS: Termios := Termios(0, 0, 0, 0, 0, seq(NCCS, _ => 0), 0, 0)

  /** The value a pointer out-parameter holds after the call: the stored
      value, or what it held before when the callee left it untouched. */
  function Stored(v: Option<int>, before: int): int {
    if v.Some? then v.value else before
  }

  /** The body of `enableRawMode` between the two system calls: copy the
      saved record and change the copy field by field. */
  method DeriveRaw(orig: Termios) returns (term: Termios)
    ensures term == RawTermios(orig)
  {
    term := orig;
    term := term.(iflag := ClearBits(term.iflag, IFLAG_OFF));
    term := term.(oflag := ClearBits(term.oflag, OFLAG_OFF));
    term := term.(cflag := SetBits(term.cflag, CS8));
    term := term.(lflag := ClearBits(term.lflag, LFLAG_OFF));
    var cc := term.cc[VMIN := 0];
    cc := cc[VTIME := 1];
    term := term.(cc := cc);
  }

  /** `struct editorConfig`: the screen size and the saved terminal attributes. */
  class EditorConfig {
    var screenRows: int
    var screenCols: int
    var origTerm: Termios

    /** The global `E` before `main` runs: all fields zero. */
    constructor ()
      ensures screenRows == 0 && screenCols == 0 && origTerm == ZERO_TERMIOS
    {
      screenRows, screenCols, origTerm := 0, 0, ZERO_TERMIOS;
    }

    /** `enableRawMode`: save the current attributes (`saved`, `None` when
        `tcgetattr` fails) in `origTerm`, derive the raw-mode record on a copy
        and hand it to `tcsetattr` (`setOk` is whether that call succeeds).
        `applied` is the record handed over; `out` what reaches the screen. */
    method EnableRawMode(saved: Option<Termios>, setOk: bool)
      returns (outcome: Outcome, applied: Option<Termios>, out: seq<Byte>)
      modifies this
      ensures screenRows == old(screenRows) && screenCols == old(screenCols)
      ensures saved.None? ==>
        outcome == Failure("tcgetattr") && applied == None &&
        origTerm == old(origTerm) && out == Screen.CLEAR_SCREEN
      ensures saved.Some? ==>
        origTerm == saved.value && applied == Some(RawTermios(saved.value)) &&
        outcome == (if setOk then Done else Failure("tcsetattr")) &&
        out == (if setOk then [] else Screen.CLEAR_SCREEN)
    {
      if saved.None? {
        return Failure("tcgetattr"), None, Screen.CLEAR_SCREEN;
      }
      origTerm := saved.value;
      var term := DeriveRaw(origTerm);
      applied := Some(term);

      if setOk {
        outcome, out := Done, [];
      } else {
        outcome, out := Failure("tcsetattr"), Screen.CLEAR_SCREEN;
      }
    }

    /** `initEditor`: store the window size `getWindowSize` reports, and fail
        when it returns -1. The parameters are the `ioctl` answer, the results
        of the two `write` calls of the fallback, and the input stream. */
    method InitEditor(ioctl: Option<WinSize>, cornerWritten: int, requestWritten: int,
                      rs: seq<ReadOutcome>)
      returns (outcome: Outcome, out: seq<Byte>, readCount: nat)
      modifies this
      ensures origTerm == old(origTerm)
      ensures IoctlUsable(ioctl) ==>
        screenRows == ioctl.value.row as int && screenCols == ioctl.value.col as int &&
        outcome == Done && out == [] && readCount == 0
      ensures !IoctlUsable(ioctl) && cornerWritten != |CORNER_MOVE| ==>
        screenRows == old(screenRows) && screenCols == old(screenCols) &&
        outcome == Failure("getWindowSize") && readCount == 0 &&
        out == Sent(CORNER_MOVE, cornerWritten) + Screen.CLEAR_SCREEN
      ensures !IoctlUsable(ioctl) && cornerWritten == |CORNER_MOVE| && requestWritten != |DSR_REQUEST| ==>
        screenRows == old(screenRows) && screenCols == old(screenCols) &&
        outcome == Failure("getWindowSize") && readCount == 0 &&
        out == CORNER_MOVE + Sent(DSR_REQUEST, requestWritten) + Screen.CLEAR_SCREEN
      ensures !IoctlUsable(ioctl) && cornerWritten == |CORNER_MOVE| && requestWritten == |DSR_REQUEST| ==>
        var reply := ParseReport(ReportText(rs));
        screenRows == Stored(reply.rows, old(screenRows)) &&
        screenCols == Stored(reply.cols, old(screenCols)) &&
        readCount == ReportReads(rs) &&
        outcome == (if reply.status == 0 then Done else Failure("getWindowSize")) &&
        out == CORNER_MOVE + DSR_REQUEST + (if reply.status == 0 then [] else Screen.CLEAR_SCREEN)
    {
      var reply, written;
      reply, written, readCount := GetWindowSize(ioctl, cornerWritten, requestWritten, rs);
      screenRows := Stored(reply.rows, screenRows);
      screenCols := Stored(reply.cols, screenCols);
      if reply.status == -1 {
        outcome, out := Failure("getWindowSize"), written + Screen.CLEAR_SCREEN;
      } else {
        outcome, out := Done, written;
      }
    }
  }
}
