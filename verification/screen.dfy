/** Output handling: the bytes one screen refresh sends to the terminal. */
module Screen {
  import opened Bytes

  /** `ESC [ 2 J`: clear the entire screen. */
  const CLEAR_ALL: seq<Byte> := [ESC, LBRACKET, '2' as Byte, 'J' as Byte]

  /** `ESC [ H`: move the cursor to the top-left corner. */
  const CURSOR_HOME: seq<Byte> := [ESC, LBRACKET, 'H' as Byte]

  /** The filler drawn for every screen row: `~`, carriage return, line feed. */
  const TILDE_ROW: seq<Byte> := ['~' as Byte, '\r' as Byte, '\n' as Byte]

  /** What `clearScreen` writes: clear the screen, then home the cursor. */
  const CLEAR_SCREEN: seq<Byte> := CLEAR_ALL + CURSOR_HOME

  /** The number of rows the `for (y = 0; y < screenRows; y++)` loop draws. */
  function RowCount(screenRows: int): nat {
    if screenRows < 0 then 0 else screenRows
  }

  /** `editorDrawRows`: one `~\r\n` per screen row, the last row included. */
  method DrawRows(screenRows: int) returns (out: seq<Byte>)
    ensures |out| == 3 * RowCount(screenRows)
    ensures forall k :: 0 <= k < |out| ==> out[k] == TILDE_ROW[k % 3]
  {
    out := [];
    var y := 0;
    while y < screenRows
      invariant 0 <= y <= RowCount(screenRows)
      invariant |out| == 3 * y
      invariant forall k :: 0 <= k < |out| ==> out[k] == TILDE_ROW[k % 3]
    {
      out := out + TILDE_ROW;
      y := y + 1;
    }
  }

  /** `editorRefreshScreen`: clear and home, draw every row, home again. */
  method RefreshScreen(screenRows: int) returns (out: seq<Byte>)
    ensures |out| == 10 + 3 * RowCount(screenRows)
    ensures out[..4] == CLEAR_ALL && out[4..7] == CURSOR_HOME
    ensures forall y :: 0 <= y < RowCount(screenRows) ==> out[7 + 3 * y .. 10 + 3 * y] == TILDE_ROW
    ensures out[|out| - 3..] == CURSOR_HOME
  {
    var rows := DrawRows(screenRows);
    out := CLEAR_SCREEN + rows + CURSOR_HOME;
    forall y | 0 <= y < RowCount(screenRows)
      ensures out[7 + 3 * y .. 10 + 3 * y] == TILDE_ROW
    {
      assert rows[3 * y .. 3 * y + 3] == TILDE_ROW by {
        forall j | 0 <= j < 3 ensures rows[3 * y + j] == TILDE_ROW[j] {
          assert (3 * y + j) % 3 == j;
        }
      }
      assert out[7 + 3 * y .. 10 + 3 * y] == rows[3 * y .. 3 * y + 3];
    }
  }
}
