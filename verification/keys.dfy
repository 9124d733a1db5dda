/** Input handling: control-key chords, the blocking single-byte key read
    with its retry rule, and the quit dispatch of one keypress. */
module Keys {
  import opened Bytes
  import Screen

  /** `CTRL_KEY(k)`: the byte a terminal sends for Ctrl plus `k`, which keeps
      only the low five bits of `k`. */
  function CtrlKey(k: bv8): (r: bv8)
    ensures r < 32 && r <= k
    ensures r == k % 32
  {
    k & 0x1F
  }

  /** The quit chord, Ctrl-Q. */
  const QUIT: Byte := CtrlKey('q' as bv8) as Byte

  /** Ctrl-Q is byte 0x11 (DC1). */
  lemma QuitIsDc1()
    ensures QUIT == 0x11
  {
  }

  /** A chord ignores the letter's case: ASCII upper and lower case differ
      only in bit 5, which the mask drops. */
  lemma CtrlKeyIgnoresCase(k: bv8)
    ensures CtrlKey(k) == CtrlKey(k ^ 0x20)
  {
  }

  /** A read outcome `editorReadKey` retries: nothing before the timeout, or
      an `EAGAIN` error. */
  predicate Retryable(o: ReadOutcome) {
    o.Nothing? || (o.Failed? && o.errno == EAGAIN)
  }

  /** The result of `editorReadKey` on a stream of read outcomes: the byte
      of the first one-byte read and the number of reads made, a fatal read
      error after `used` reads, or `Blocked` when every read is retried and the
      call never returns. */
  datatype KeyRead = Key(c: Byte, used: nat) | ReadError(used: nat) | Blocked

  /** `r` with `n` more reads counted in front of it. */
  function Delay(r: KeyRead, n: nat): KeyRead {
    match r
    case Key(c, u) => Key(c, u + n)
    case ReadError(u) => ReadError(u + n)
    case Blocked => Blocked
  }

  /** Reference definition of `editorReadKey`: the first outcome that is not
      retried decides. */
  function NextKey(rs: seq<ReadOutcome>): (r: KeyRead)
    ensures r.Key? ==> 0 < r.used <= |rs| && rs[r.used - 1] == Got(r.c)
    ensures r.ReadError? ==>
      0 < r.used <= |rs| && rs[r.used - 1].Failed? && rs[r.used - 1].errno != EAGAIN
    ensures !r.Blocked? ==> forall j :: 0 <= j < r.used - 1 ==> Retryable(rs[j])
    ensures r.Blocked? <==> forall j :: 0 <= j < |rs| ==> Retryable(rs[j])
  {
    if rs == [] then Blocked
    else match rs[0]
      case Got(c) => Key(c, 1)
      case Failed(e) => if e != EAGAIN then ReadError(1) else Delay(NextKey(rs[1..]), 1)
      case Nothing => Delay(NextKey(rs[1..]), 1)
  }

  /** `editorReadKey`: read one byte at a time until a read delivers one;
      reads that return 0 or fail with `EAGAIN` are retried, any other error
      is fatal. */
  method ReadKey(rs: seq<ReadOutcome>) returns (r: KeyRead)
    ensures r == NextKey(rs)
  {
    var k := 0;
    while k < |rs|
      invariant 0 <= k <= |rs|
      invariant NextKey(rs) == Delay(NextKey(rs[k..]), k)
    {
      assert rs[k..][1..] == rs[k + 1..];
      if rs[k].Got? {
        return Key(rs[k].b, k + 1);
      } else if rs[k].Failed? && rs[k].errno != EAGAIN {
        return ReadError(k + 1);
      }
      k := k + 1;
    }
    assert rs[k..] == [];
    r := Blocked;
  }

  /** What the editor does after a keypress. */
  datatype Step = Continue | Exit(status: int) | Waiting

  /** The quit decision of `editorProcessKeypress`: only Ctrl-Q exits, with
      status 0; every other byte is ignored. */
  function KeyEffect(c: Byte): (s: Step)
    ensures s.Exit? <==> c == 0x11
    ensures s.Exit? ==> s.status == 0
    ensures !s.Exit? ==> s == Continue
  {
    if c == QUIT then Exit(0) else Continue
  }

  /** `editorProcessKeypress`: read a key and act on it. Both ways out
      (Ctrl-Q, and a fatal read error through `exitOnFailure`) clear the
      screen before exiting. */
  method ProcessKeypress(rs: seq<ReadOutcome>) returns (step: Step, out: seq<Byte>, used: nat)
    ensures NextKey(rs).Blocked? ==> step == Waiting && out == [] && used == |rs|
    ensures NextKey(rs).ReadError? ==>
      step == Exit(1) && out == Screen.CLEAR_SCREEN && used == NextKey(rs).used
    ensures NextKey(rs).Key? ==>
      step == KeyEffect(NextKey(rs).c) && used == NextKey(rs).used &&
      out == (if step.Exit? then Screen.CLEAR_SCREEN else [])
  {
    var key := ReadKey(rs);
    match key
    case Blocked =>
      step, out, used := Waiting, [], |rs|;
    case ReadError(n) =>
      step, out, used := Exit(1), Screen.CLEAR_SCREEN, n;
    case Key(c, n) =>
      used := n;
      if c == QUIT {
        step, out := Exit(0), Screen.CLEAR_SCREEN;
      } else {
        step, out := Continue, [];
      }
  }

  /** The first `n` reads retry and the n-th delivers byte `c`. */
  predicate DeliversAt(rs: seq<ReadOutcome>, n: nat, c: Byte) {
    0 < n <= |rs| && rs[n - 1] == Got(c) && forall j :: 0 <= j < n - 1 ==> Retryable(rs[j])
  }

  /** `editorReadKey` returns `c` after `n` reads exactly when the reads
      before the n-th are all retried and the n-th delivers `c`. */
  lemma NextKeyExact(rs: seq<ReadOutcome>, n: nat, c: Byte)
    ensures NextKey(rs) == Key(c, n) <==> DeliversAt(rs, n, c)
  {
    var r := NextKey(rs);
    if DeliversAt(rs, n, c) {
      assert !Retryable(rs[n - 1]);
      assert !r.Blocked?;
      FirstStop(rs, r.used - 1, n - 1);
    }
  }

  /** Two reads that each end the retrying, with every read before them
      retried, are the same read. */
  lemma FirstStop(rs: seq<ReadOutcome>, i: nat, j: nat)
    requires i < |rs| && j < |rs|
    requires !Retryable(rs[i]) && forall k :: 0 <= k < i ==> Retryable(rs[k])
    requires !Retryable(rs[j]) && forall k :: 0 <= k < j ==> Retryable(rs[k])
    ensures i == j
  {
  }

  /** One keypress ends the editor with status 0 exactly when the first byte
      delivered is Ctrl-Q. */
  lemma QuitOnlyOnCtrlQ(rs: seq<ReadOutcome>)
    ensures (NextKey(rs).Key? && KeyEffect(NextKey(rs).c) == Exit(0)) <==>
      exists n :: DeliversAt(rs, n, 0x11)
  {
    var r := NextKey(rs);
    if r.Key? {
      NextKeyExact(rs, r.used, r.c);
    }
    if exists n :: DeliversAt(rs, n, 0x11) {
      var n :| DeliversAt(rs, n, 0x11);
      NextKeyExact(rs, n, 0x11);
    }
  }
}
