/** Bytes, the byte-level constants the editor exchanges with the terminal,
    and the model of the operating system's read and write results. */
module Bytes {

  /** A value that may be absent. */
  datatype Option<T> = None | Some(value: T)

  /** One byte of terminal input or output. */
  newtype Byte = x: int | 0 <= x < 0x100

  const ESC: Byte := 0x1B
  const LBRACKET: Byte := '[' as Byte
  const SEMICOLON: Byte := ';' as Byte
  const LETTER_R: Byte := 'R' as Byte
  const MINUS: Byte := '-' as Byte
  const PLUS: Byte := '+' as Byte
  const NUL: Byte := 0

  /** The outcome of one `read(fd, &c, 1)` call: one byte delivered (return
      value 1), nothing available before the timeout (return value 0), or an
      error (return value -1) with the `errno` it set. */
  datatype ReadOutcome = Got(b: Byte) | Nothing | Failed(errno: int)

  /** Linux value of `EAGAIN`. */
  const EAGAIN: int := 11

  /** The outcome of the k-th read on the input stream `rs`. In raw mode with
      VMIN = 0 and VTIME = 1 a read with no pending input returns 0 after the
      timeout, so every read past the end of `rs` yields `Nothing`. */
  function ReadAt(rs: seq<ReadOutcome>, k: nat): ReadOutcome
  {
    if k < |rs| then rs[k] else Nothing
  }

  /** The bytes that reach the terminal when `write(fd, bytes, |bytes|)`
      returns `n`: a short write delivers a prefix, a failed one nothing. */
  function Sent(bytes: seq<Byte>, n: int): (s: seq<Byte>)
    ensures |s| <= |bytes| && s <= bytes
    ensures 0 <= n <= |bytes| ==> |s| == n
    ensures n == |bytes| ==> s == bytes
    ensures (n < 0 || n > |bytes|) ==> s == []
  {
    if 0 <= n <= |bytes| then bytes[..n] else []
  }

  /** C's `isspace` in the "C" locale. */
  predicate IsSpace(b: Byte) {
    b == ' ' as Byte || (0x09 <= b <= 0x0D)
  }

  /** C's `isdigit`. */
  predicate IsDigit(b: Byte) {
    '0' as Byte <= b <= '9' as Byte
  }
}
