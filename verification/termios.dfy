/** The terminal attribute record (`struct termios`, Linux/glibc layout) and
    the raw-mode record `enableRawMode` derives from the saved one. The flag
    and index constants are pinned to their Linux values. */
module RawMode {

  /** Number of control characters, `NCCS`. */
  const NCCS: nat := 32

  /** Index of the `VTIME` control character (read timeout, tenths of a second). */
  const VTIME: nat := 5
  /** Index of the `VMIN` control character (minimum bytes for a read). */
  const VMIN: nat := 6

  /** `c_cc`: a fixed array of `NCCS` control characters. */
  type ControlChars = s: seq<bv8> | |s| == NCCS witness seq(NCCS, _ => 0)

  datatype Termios = Termios(
    iflag: bv32,
    oflag: bv32,
    cflag: bv32,
    lflag: bv32,
    line: bv8,
    cc: ControlChars,
    ispeed: bv32,
    ospeed: bv32)

  // c_iflag bits
  const BRKINT: bv32 := 0x0002
  const INPCK: bv32 := 0x0010
  const ISTRIP: bv32 := 0x0020
  const ICRNL: bv32 := 0x0100
  const IXON: bv32 := 0x0400
  // c_oflag bits
  const OPOST: bv32 := 0x0001
  // c_cflag bits
  const CS8: bv32 := 0x0030
  // c_lflag bits
  const ISIG: bv32 := 0x0001
  const ICANON: bv32 := 0x0002
  const ECHO: bv32 := 0x0008
  const IEXTEN: bv32 := 0x8000

  /** The input bits raw mode turns off: flow-control keys, CR-to-NL mapping,
      break signalling, parity checking and stripping of the eighth bit. */
  const IFLAG_OFF: bv32 := IXON | ICRNL | BRKINT | INPCK | ISTRIP
  /** The output bits raw mode turns off: output post-processing. */
  const OFLAG_OFF: bv32 := OPOST
  /** The local bits raw mode turns off: echo, canonical input, signal keys
      and extended input processing. */
  const LFLAG_OFF: bv32 := ECHO | ICANON | ISIG | IEXTEN

  /** `after` is `before` with every bit of `mask` cleared and no other bit changed. */
  predicate Cleared(after: bv32, before: bv32, mask: bv32) {
    after & mask == 0 && after & !mask == before & !mask
  }

  /** `after` is `before` with every bit of `mask` set and no other bit changed. */
  predicate Raised(after: bv32, before: bv32, mask: bv32) {
    after & mask == mask && after & !mask == before & !mask
  }

  /** `word &= ~mask`. */
  function ClearBits(word: bv32, mask: bv32): bv32 {
    word & !mask
  }

  /** `word |= mask`. */
  function SetBits(word: bv32, mask: bv32): bv32 {
    word | mask
  }

  /** The record `enableRawMode` hands to `tcsetattr`, derived from the saved one. */
  function RawTermios(orig: Termios): Termios {
    orig.(iflag := ClearBits(orig.iflag, IFLAG_OFF),
          oflag := ClearBits(orig.oflag, OFLAG_OFF),
          cflag := SetBits(orig.cflag, CS8),
          lflag := ClearBits(orig.lflag, LFLAG_OFF),
          cc := orig.cc[VMIN := 0][VTIME := 1])
  }

  /** Raw mode turns off flow-control keys, CR-to-NL mapping, break
      signalling, parity checking and eighth-bit stripping, and keeps every
      other input bit. */
  lemma RawInputFlags(orig: Termios)
    ensures Cleared(RawTermios(orig).iflag, orig.iflag, IXON | ICRNL | BRKINT | INPCK | ISTRIP)
  {
  }

  /** Raw mode turns off output post-processing and keeps every other output bit. */
  lemma RawOutputFlags(orig: Termios)
    ensures Cleared(RawTermios(orig).oflag, orig.oflag, OPOST)
  {
  }

  /** Raw mode sets the 8-bit character size and keeps every other control bit. */
  lemma RawControlFlags(orig: Termios)
    ensures Raised(RawTermios(orig).cflag, orig.cflag, CS8)
  {
  }

  /** Raw mode turns off echo, canonical input, signal keys and extended
      input processing, and keeps every other local bit. */
  lemma RawLocalFlags(orig: Termios)
    ensures Cleared(RawTermios(orig).lflag, orig.lflag, ECHO | ICANON | ISIG | IEXTEN)
  {
  }

  /** Raw mode makes a read return whatever is available (at least 0 bytes)
      after at most a tenth of a second, and keeps every other control
      character and field. */
  lemma RawControlChars(orig: Termios)
    ensures RawTermios(orig).cc[VMIN] == 0 && RawTermios(orig).cc[VTIME] == 1
    ensures forall i :: 0 <= i < NCCS && i != VMIN && i != VTIME ==> RawTermios(orig).cc[i] == orig.cc[i]
    ensures RawTermios(orig).line == orig.line
    ensures RawTermios(orig).ispeed == orig.ispeed && RawTermios(orig).ospeed == orig.ospeed
  {
  }
}
