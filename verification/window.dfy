/** Window-size discovery: the cursor position report exchange
    (`getCursorPosition`) and the choice between the `ioctl` answer and that
    fallback (`getWindowSize`). */
module WindowSize {
  import opened Bytes
  import opened Scan

  /** `ESC [ 6 n`: Device Status Report, asking for the cursor position. */
  const DSR_REQUEST: seq<Byte> := [ESC, LBRACKET, '6' as Byte, 'n' as Byte]

  /** `ESC [ 999 C ESC [ 999 B`: move far right, then far down, which the
      terminal clamps to the bottom-right corner. */
  const CORNER_MOVE: seq<Byte> :=
    [ESC, LBRACKET, '9' as Byte, '9' as Byte, '9' as Byte, 'C' as Byte,
     ESC, LBRACKET, '9' as Byte, '9' as Byte, '9' as Byte, 'B' as Byte]

  /** The report buffer holds 32 bytes; at most 31 are read, the last slot
      is kept for the terminating NUL. */
  const BUFFER_SIZE: nat := 32
  const REPORT_MAX: nat := BUFFER_SIZE - 1

  /** The bytes the collection loop keeps when its counter starts at `i`:
      each read fills the next slot, and the loop stops at a read that does
      not deliver a byte, at an `R` (which is not kept), or when the buffer
      is full. */
  function CollectFrom(rs: seq<ReadOutcome>, i: nat): (t: seq<Byte>)
    requires i <= REPORT_MAX
    ensures i + |t| <= REPORT_MAX
    ensures forall j :: 0 <= j < |t| ==> ReadAt(rs, i + j) == Got(t[j]) && t[j] != LETTER_R
    ensures i + |t| < REPORT_MAX ==>
      !ReadAt(rs, i + |t|).Got? || ReadAt(rs, i + |t|).b == LETTER_R
    decreases REPORT_MAX - i
  {
    if i == REPORT_MAX then []
    else match ReadAt(rs, i)
      case Got(b) => if b == LETTER_R then [] else [b] + CollectFrom(rs, i + 1)
      case _ => []
  }

  /** The text `getCursorPosition` collects from the input stream `rs`. */
  function ReportText(rs: seq<ReadOutcome>): seq<Byte> {
    CollectFrom(rs, 0)
  }

  /** The number of `read` calls the collection loop makes. */
  function ReportReads(rs: seq<ReadOutcome>): (n: nat)
    ensures n <= REPORT_MAX
    ensures n == |ReportText(rs)| || n == |ReportText(rs)| + 1
    ensures |ReportText(rs)| < REPORT_MAX ==> n == |ReportText(rs)| + 1
    ensures |ReportText(rs)| == REPORT_MAX ==> n == REPORT_MAX
  {
    var t := ReportText(rs);
    if |t| == REPORT_MAX then REPORT_MAX else |t| + 1
  }

  /** The collection loop of `getCursorPosition`: read one byte at a time
      into a 32-byte buffer, stop at a failed read, at `R` or after 31
      bytes, then NUL-terminate. The result is the text before the NUL. */
  method CollectReport(rs: seq<ReadOutcome>) returns (text: seq<Byte>, readCount: nat)
    ensures text == ReportText(rs)
    ensures readCount == ReportReads(rs)
  {
    var buffer := new Byte[BUFFER_SIZE];
    var i := 0;
    readCount := 0;
    ghost var kept: seq<Byte> := [];
    while i < buffer.Length - 1
      invariant 0 <= i <= REPORT_MAX && readCount == i
      invariant buffer[..i] == kept
      invariant ReportText(rs) == kept + CollectFrom(rs, i)
    {
      var o := ReadAt(rs, readCount);
      readCount := readCount + 1;
      if !o.Got? {
        CollectStops(rs, i);
        break;
      }
      buffer[i] := o.b;
      if buffer[i] == LETTER_R {
        CollectStops(rs, i);
        break;
      }
      CollectKeeps(rs, i, kept);
      assert buffer[..i + 1] == buffer[..i] + [o.b];
      kept := kept + [o.b];
      i := i + 1;
    }
    buffer[i] := NUL;
    text := buffer[..i];
    assert text == kept;
  }

  lemma CollectStops(rs: seq<ReadOutcome>, i: nat)
    requires i < REPORT_MAX
    requires !ReadAt(rs, i).Got? || ReadAt(rs, i).b == LETTER_R
    ensures CollectFrom(rs, i) == []
  {
  }

  lemma CollectKeeps(rs: seq<ReadOutcome>, i: nat, kept: seq<Byte>)
    requires i < REPORT_MAX
    requires ReadAt(rs, i).Got? && ReadAt(rs, i).b != LETTER_R
    ensures kept + CollectFrom(rs, i) == (kept + [ReadAt(rs, i).b]) + CollectFrom(rs, i + 1)
  {
    assert CollectFrom(rs, i) == [ReadAt(rs, i).b] + CollectFrom(rs, i + 1);
  }

  /** What `getCursorPosition` returns (0 or -1) and what it stores through
      its `rows` and `cols` pointers (`None`: left untouched). */
  datatype Reply = Reply(status: int, rows: Option<int>, cols: Option<int>)

  /** The collected text starts with `ESC [`. */
  predicate HasCsiPrefix(text: seq<Byte>) {
    |text| >= 2 && text[0] == ESC && text[1] == LBRACKET
  }

  /** The checks after collection: the `ESC [` prefix, then
      `sscanf(&buffer[2], "%d;%d", rows, cols) == 2`. */
  function ParseReport(text: seq<Byte>): (r: Reply)
    ensures r.status == 0 || r.status == -1
    ensures !HasCsiPrefix(text) ==> r == Reply(-1, None, None)
    ensures r.status == 0 ==> r.rows.Some? && r.cols.Some?
  {
    if !HasCsiPrefix(text) then Reply(-1, None, None)
    else
      var scanned := ScanPair(CString(text[2..]));
      Reply(if scanned.count != 2 then -1 else 0, scanned.first, scanned.second)
  }

  /** The report gives 0 with rows `a` and columns `b` exactly when the
      text starts with `ESC [` and the C string after the prefix is a `%d`
      field of value `a`, a `;`, a `%d` field of value `b`, and anything that
      does not continue the digits of the second. */
  lemma ParseReportExact(text: seq<Byte>, a: int, b: int)
    ensures ParseReport(text) == Reply(0, Some(a), Some(b)) <==>
      HasCsiPrefix(text) && PairText(CString(text[2..]), a, b)
  {
    if HasCsiPrefix(text) {
      ScanPairExact(CString(text[2..]), a, b);
    }
  }

  /** `getCursorPosition`: send the request (a short write gives -1), collect
      the answer and parse it. */
  method GetCursorPosition(written: int, rs: seq<ReadOutcome>)
    returns (r: Reply, out: seq<Byte>, readCount: nat)
    ensures out == Sent(DSR_REQUEST, written)
    ensures written != |DSR_REQUEST| ==> r == Reply(-1, None, None) && readCount == 0
    ensures written == |DSR_REQUEST| ==>
      r == ParseReport(ReportText(rs)) && readCount == ReportReads(rs)
  {
    out := Sent(DSR_REQUEST, written);
    if written != 4 {
      return Reply(-1, None, None), out, 0;
    }
    var text;
    text, readCount := CollectReport(rs);
    if |text| < 2 || text[0] != ESC || text[1] != LBRACKET {
      return Reply(-1, None, None), out, readCount;
    }
    var scanned := ScanPair(CString(text[2..]));
    if scanned.count != 2 {
      r := Reply(-1, scanned.first, scanned.second);
    } else {
      r := Reply(0, scanned.first, scanned.second);
    }
  }

  /** `ESC [ rows ; cols`: a cursor position report without its final `R`. */
  function ReportBody(rows: int, cols: int): seq<Byte> {
    [ESC, LBRACKET] + Signed(rows) + [SEMICOLON] + Signed(cols)
  }

  /** A report whose body is followed by anything that does not begin with a
      digit parses to its two numbers; their signs are not checked. */
  lemma ReportRoundTrip(rows: int, cols: int, tail: seq<Byte>)
    requires tail == [] || !IsDigit(tail[0])
    ensures ParseReport(ReportBody(rows, cols) + tail) == Reply(0, Some(rows), Some(cols))
  {
    var fields := Signed(rows) + [SEMICOLON] + Signed(cols);
    assert ReportBody(rows, cols) + tail == [ESC, LBRACKET] + fields + tail;
    CStringAppend(fields, tail);
    CStringPrefix(tail);
    ScanPairRoundTrip(rows, cols, CString(tail));
    ParseFields(fields, tail, rows, cols);
  }

  /** `ParseReport` on `ESC [` and fields that `"%d;%d"` converts. */
  lemma ParseFields(fields: seq<Byte>, tail: seq<Byte>, rows: int, cols: int)
    requires CString(fields + tail) == fields + CString(tail)
    requires ScanPair(fields + CString(tail)) == ScanResult(2, Some(rows), Some(cols))
    ensures ParseReport([ESC, LBRACKET] + fields + tail) == Reply(0, Some(rows), Some(cols))
  {
    DropPrefix(fields, tail);
  }

  lemma DropPrefix(fields: seq<Byte>, tail: seq<Byte>)
    ensures HasCsiPrefix([ESC, LBRACKET] + fields + tail)
    ensures ([ESC, LBRACKET] + fields + tail)[2..] == fields + tail
  {
  }

  lemma CStringPrefix(s: seq<Byte>)
    requires s == [] || !IsDigit(s[0])
    ensures CString(s) == [] || !IsDigit(CString(s)[0])
  {
  }

  lemma {:induction false} CStringAppend(a: seq<Byte>, b: seq<Byte>)
    requires NUL !in a
    ensures CString(a + b) == a + CString(b)
  {
    if a != [] {
      assert (a + b)[0] == a[0] && a[0] in a;
      assert a == [a[0]] + a[1..];
      assert (a + b)[1..] == a[1..] + b;
      CStringAppend(a[1..], b);
    } else {
      assert a + b == b;
    }
  }

  /** Reads that deliver the bytes of `w`, one each. */
  function Deliver(w: seq<Byte>): (rs: seq<ReadOutcome>)
    ensures |rs| == |w| && forall j :: 0 <= j < |w| ==> rs[j] == Got(w[j])
  {
    if w == [] then [] else [Got(w[0])] + Deliver(w[1..])
  }

  /** From slot `i` on, the loop keeps exactly the bytes delivered before
      the `R` that ends them, when they fit in the buffer. */
  lemma {:induction false} CollectUntilR(rs: seq<ReadOutcome>, i: nat, w: seq<Byte>)
    requires i + |w| < REPORT_MAX && i + |w| < |rs|
    requires forall j :: 0 <= j < |w| ==> rs[i + j] == Got(w[j]) && w[j] != LETTER_R
    requires rs[i + |w|] == Got(LETTER_R)
    ensures CollectFrom(rs, i) == w
    decreases |w|
  {
    if w == [] {
      CollectStops(rs, i);
    } else {
      assert rs[i + 0] == Got(w[0]);
      forall j | 0 <= j < |w[1..]|
        ensures rs[i + 1 + j] == Got(w[1..][j]) && w[1..][j] != LETTER_R
      {
        assert rs[i + (1 + j)] == Got(w[1 + j]);
      }
      CollectUntilR(rs, i + 1, w[1..]);
      CollectKeeps(rs, i, []);
      assert [] + [w[0]] + w[1..] == w;
    }
  }

  /** A terminal that answers the request with `ESC [ rows ; cols R` (the
      numbers short enough for the buffer) makes `getCursorPosition` return 0
      with exactly those numbers, whatever input follows the answer. */
  lemma ReportAnswered(rows: int, cols: int, after: seq<ReadOutcome>)
    requires |ReportBody(rows, cols)| < REPORT_MAX
    ensures ReportText(Deliver(ReportBody(rows, cols) + [LETTER_R]) + after) == ReportBody(rows, cols)
    ensures ParseReport(ReportText(Deliver(ReportBody(rows, cols) + [LETTER_R]) + after)) ==
      Reply(0, Some(rows), Some(cols))
  {
    var body := ReportBody(rows, cols);
    var rs := Deliver(body + [LETTER_R]) + after;
    assert LETTER_R !in body;
    CollectUntilR(rs, 0, body);
    ReportRoundTrip(rows, cols, []);
    assert body + [] == body;
  }

  /** The body of the answer for a 24 by 80 screen is `ESC [ 2 4 ; 8 0`. */
  lemma Body24By80()
    ensures ReportBody(24, 80) ==
      [ESC, LBRACKET, '2' as Byte, '4' as Byte, SEMICOLON, '8' as Byte, '0' as Byte]
  {
    SignedTwoDigits(24);
    SignedTwoDigits(80);
  }

  /** The answer `ESC [ 2 4 ; 8 0 R` gives 24 rows and 80 columns. */
  lemma Report24By80(after: seq<ReadOutcome>)
    ensures ParseReport(ReportText(Deliver(ReportBody(24, 80) + [LETTER_R]) + after)) ==
      Reply(0, Some(24), Some(80))
  {
    Body24By80();
    ReportAnswered(24, 80, after);
  }

  lemma SignedTwoDigits(n: nat)
    requires 10 <= n < 100
    ensures Signed(n) == [DigitChar(n / 10), DigitChar(n % 10)]
  {
    assert Decimal(n / 10) == [DigitChar(n / 10)];
  }

  /** An unsigned 16-bit field of `struct winsize`. */
  newtype U16 = x: int | 0 <= x < 0x1_0000

  /** The `ws_row` and `ws_col` fields the `TIOCGWINSZ` ioctl fills in. */
  datatype WinSize = WinSize(row: U16, col: U16)

  /** `getWindowSize` trusts the ioctl when it succeeds (`Some`) and reports
      a nonzero column count. */
  predicate IoctlUsable(ioctl: Option<WinSize>) {
    ioctl.Some? && ioctl.value.col != 0
  }

  /** `getWindowSize`: the ioctl answer when usable; otherwise move the
      cursor to the corner (a short write gives -1) and ask for its position. */
  method GetWindowSize(ioctl: Option<WinSize>, cornerWritten: int, requestWritten: int,
                       rs: seq<ReadOutcome>)
    returns (r: Reply, out: seq<Byte>, readCount: nat)
    ensures IoctlUsable(ioctl) ==>
      r == Reply(0, Some(ioctl.value.row as int), Some(ioctl.value.col as int)) &&
      out == [] && readCount == 0
    ensures !IoctlUsable(ioctl) && cornerWritten != |CORNER_MOVE| ==>
      r == Reply(-1, None, None) && out == Sent(CORNER_MOVE, cornerWritten) && readCount == 0
    ensures !IoctlUsable(ioctl) && cornerWritten == |CORNER_MOVE| ==>
      out == CORNER_MOVE + Sent(DSR_REQUEST, requestWritten) &&
      (requestWritten != |DSR_REQUEST| ==> r == Reply(-1, None, None) && readCount == 0) &&
      (requestWritten == |DSR_REQUEST| ==>
         r == ParseReport(ReportText(rs)) && readCount == ReportReads(rs))
  {
    if ioctl.None? || ioctl.value.col == 0 {
      out := Sent(CORNER_MOVE, cornerWritten);
      if cornerWritten != 12 {
        return Reply(-1, None, None), out, 0;
      }
      var request;
      r, request, readCount := GetCursorPosition(requestWritten, rs);
      out := out + request;
    } else {
      r := Reply(0, Some(ioctl.value.row as int), Some(ioctl.value.col as int));
      out, readCount := [], 0;
    }
  }
}
