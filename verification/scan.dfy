/** The part of C's `sscanf` that `getCursorPosition` uses: the format
    `"%d;%d"` applied to a NUL-terminated byte string, with glibc's return
    values, and the decimal rendering a terminal uses for the numbers it
    reports, with the round trip between the two. */
module Scan {
  import opened Bytes

  /** The C string starting at `s[0]`: the bytes before the first NUL. */
  function CString(s: seq<Byte>): (r: seq<Byte>)
    ensures r <= s && NUL !in r
    ensures |r| < |s| ==> s[|r|] == NUL
  {
    if s == [] || s[0] == NUL then [] else [s[0]] + CString(s[1..])
  }

  /** `s` without its leading white space. */
  function SkipSpace(s: seq<Byte>): (r: seq<Byte>)
    ensures r == [] || !IsSpace(r[0])
  {
    if s != [] && IsSpace(s[0]) then SkipSpace(s[1..]) else s
  }

  /** The number of decimal digits at the front of `s`. */
  function DigitRun(s: seq<Byte>): (n: nat)
    ensures n <= |s|
    ensures forall i :: 0 <= i < n ==> IsDigit(s[i])
    ensures n < |s| ==> !IsDigit(s[n])
  {
    if s != [] && IsDigit(s[0]) then 1 + DigitRun(s[1..]) else 0
  }

  predicate AllDigits(s: seq<Byte>) {
    forall i :: 0 <= i < |s| ==> IsDigit(s[i])
  }

  /** The value of a string of decimal digits, most significant first. */
  function DigitsValue(ds: seq<Byte>): nat
    requires AllDigits(ds)
  {
    if ds == [] then 0
    else DigitsValue(ds[..|ds| - 1]) * 10 + (ds[|ds| - 1] - '0' as Byte) as nat
  }

  /** The outcome of one `%d` conversion: a value and the unread input, a
      matching failure (no digits), or an input failure (the input ended
      before the conversion could start). */
  datatype Conv = Converted(value: int, rest: seq<Byte>) | NoMatch | AtEnd

  /** `%d`: optional white space, an optional sign, then one or more digits. */
  function ScanDecimal(s: seq<Byte>): (c: Conv)
    ensures c.AtEnd? <==> forall i :: 0 <= i < |s| ==> IsSpace(s[i])
  {
    var t := SkipSpace(s);
    SkipSpaceSkipsSpace(s);
    assert t != [] ==> !IsSpace(s[|s| - |t|]);
    if t == [] then AtEnd
    else
      var sign := SignOf(t);
      var u := t[|sign|..];
      var n := DigitRun(u);
      if n == 0 then NoMatch
      else
        DigitRunDigits(u);
        Converted(SignedValue(sign, u[..n]), u[n..])
  }

  /** The sign at the front of `t`, if any. */
  function SignOf(t: seq<Byte>): (sign: seq<Byte>)
    ensures IsSign(sign) && sign <= t
  {
    if t != [] && (t[0] == MINUS || t[0] == PLUS) then [t[0]] else []
  }

  lemma {:induction false} SkipSpaceSkipsSpace(s: seq<Byte>)
    ensures |SkipSpace(s)| <= |s| && SkipSpace(s) == s[|s| - |SkipSpace(s)|..]
    ensures forall i :: 0 <= i < |s| - |SkipSpace(s)| ==> IsSpace(s[i])
  {
    if s != [] && IsSpace(s[0]) {
      SkipSpaceSkipsSpace(s[1..]);
    }
  }

  /** What `sscanf(s, "%d;%d", &a, &b)` returns and what it stores: the
      number of conversions, or -1 (EOF) when the input ends before the first
      one; `None` marks a variable left untouched. */
  datatype ScanResult = ScanResult(count: int, first: Option<int>, second: Option<int>)

  function ScanPair(s: seq<Byte>): (r: ScanResult)
    ensures -1 <= r.count <= 2
    ensures r.first.Some? <==> r.count >= 1
    ensures r.second.Some? <==> r.count == 2
  {
    match ScanDecimal(s)
    case AtEnd => ScanResult(-1, None, None)
    case NoMatch => ScanResult(0, None, None)
    case Converted(a, rest) =>
      if rest == [] || rest[0] != SEMICOLON then ScanResult(1, Some(a), None)
      else match ScanDecimal(rest[1..])
        case Converted(b, _) => ScanResult(2, Some(a), Some(b))
        case _ => ScanResult(1, Some(a), None)
  }

  /** The decimal digit for `d`. */
  function DigitChar(d: nat): (b: Byte)
    requires d < 10
    ensures IsDigit(b)
  {
    '0' as Byte + d as Byte
  }

  /** The decimal rendering of `n`, without leading zeros, as a terminal
      writes it in a cursor position report. */
  function Decimal(n: nat): (s: seq<Byte>)
    ensures |s| > 0 && AllDigits(s)
  {
    if n < 10 then [DigitChar(n)] else Decimal(n / 10) + [DigitChar(n % 10)]
  }

  /** The decimal rendering of `v`, with a leading `-` when negative. */
  function Signed(v: int): (s: seq<Byte>)
    ensures |s| > 0 && (s[0] == MINUS || IsDigit(s[0]))
    ensures NUL !in s && SEMICOLON !in s && LETTER_R !in s
  {
    var s := if v < 0 then [MINUS] + Decimal(-v) else Decimal(v);
    assert forall i :: 0 <= i < |s| ==> s[i] == MINUS || IsDigit(s[i]);
    s
  }

  lemma {:induction false} DecimalValue(n: nat)
    ensures DigitsValue(Decimal(n)) == n
  {
    if n >= 10 {
      var d := Decimal(n);
      assert d[..|d| - 1] == Decimal(n / 10);
      DecimalValue(n / 10);
    }
  }

  lemma {:induction false} DigitRunOfDigits(ds: seq<Byte>, tail: seq<Byte>)
    requires AllDigits(ds)
    requires tail == [] || !IsDigit(tail[0])
    ensures DigitRun(ds + tail) == |ds|
  {
    if ds != [] {
      assert (ds + tail)[1..] == ds[1..] + tail;
      DigitRunOfDigits(ds[1..], tail);
    }
  }

  /** `%d` on a run of digits followed by a non-digit. */
  lemma ScanDecimalDigits(ds: seq<Byte>, tail: seq<Byte>)
    requires ds != [] && AllDigits(ds)
    requires tail == [] || !IsDigit(tail[0])
    ensures ScanDecimal(ds + tail) == Converted(DigitsValue(ds), tail)
  {
    var s := ds + tail;
    assert SkipSpace(s) == s;
    DigitRunOfDigits(ds, tail);
    assert s[..|ds|] == ds && s[|ds|..] == tail;
  }

  /** `%d` on a sign, a run of digits and a non-digit. */
  lemma ScanDecimalSignChar(sign: Byte, ds: seq<Byte>, tail: seq<Byte>)
    requires sign == MINUS || sign == PLUS
    requires ds != [] && AllDigits(ds)
    requires tail == [] || !IsDigit(tail[0])
    ensures ScanDecimal([sign] + ds + tail) ==
      Converted(if sign == MINUS then -(DigitsValue(ds) as int) else DigitsValue(ds) as int, tail)
  {
    var s := [sign] + ds + tail;
    assert SkipSpace(s) == s;
    assert s[1..] == ds + tail;
    DigitRunOfDigits(ds, tail);
    assert s[1..][..|ds|] == ds && s[1..][|ds|..] == tail;
  }

  /** `%d` reads back the rendering of any integer and stops at the first
      byte after it. */
  lemma ScanDecimalSigned(v: int, tail: seq<Byte>)
    requires tail == [] || !IsDigit(tail[0])
    ensures ScanDecimal(Signed(v) + tail) == Converted(v, tail)
  {
    if v < 0 {
      var ds := Decimal(-v);
      assert Signed(v) == [MINUS] + ds;
      DecimalValue(-v);
      ScanDecimalSignChar(MINUS, ds, tail);
    } else {
      var ds := Decimal(v);
      assert Signed(v) == ds;
      DecimalValue(v);
      ScanDecimalDigits(ds, tail);
    }
  }

  /** `"%d;%d"` reads back two rendered integers separated by `;`, whatever
      follows them, and stores both. */
  lemma ScanPairRoundTrip(a: int, b: int, tail: seq<Byte>)
    requires tail == [] || !IsDigit(tail[0])
    ensures ScanPair(Signed(a) + [SEMICOLON] + Signed(b) + tail) == ScanResult(2, Some(a), Some(b))
  {
    ScanDecimalSigned(a, [SEMICOLON] + Signed(b) + tail);
    ScanDecimalSigned(b, tail);
    ScanPairOf(Signed(a), Signed(b), tail, a, b);
  }

  /** `ScanPair` on two fields that `%d` converts, separated by `;`. */
  lemma ScanPairOf(sa: seq<Byte>, sb: seq<Byte>, tail: seq<Byte>, a: int, b: int)
    requires ScanDecimal(sa + ([SEMICOLON] + sb + tail)) == Converted(a, [SEMICOLON] + sb + tail)
    requires ScanDecimal(sb + tail) == Converted(b, tail)
    ensures ScanPair(sa + [SEMICOLON] + sb + tail) == ScanResult(2, Some(a), Some(b))
  {
    SplitAtSemicolon(sa, sb, tail);
  }

  lemma SplitAtSemicolon(sa: seq<Byte>, sb: seq<Byte>, tail: seq<Byte>)
    ensures sa + [SEMICOLON] + sb + tail == sa + ([SEMICOLON] + sb + tail)
    ensures ([SEMICOLON] + sb + tail)[0] == SEMICOLON
    ensures ([SEMICOLON] + sb + tail)[1..] == sb + tail
  {
  }

  predicate AllSpace(s: seq<Byte>) {
    forall i :: 0 <= i < |s| ==> IsSpace(s[i])
  }

  /** A `%d` sign: none, `-` or `+`. */
  predicate IsSign(sign: seq<Byte>) {
    sign == [] || sign == [MINUS] || sign == [PLUS]
  }

  /** The value of digits `ds` under `sign`. */
  function SignedValue(sign: seq<Byte>, ds: seq<Byte>): int
    requires AllDigits(ds)
  {
    if sign == [MINUS] then -(DigitsValue(ds) as int) else DigitsValue(ds) as int
  }

  /** `f` is white space `sp`, the sign `sign` and the digits `ds`, which
      have the value `v` under that sign. */
  predicate FieldParts(f: seq<Byte>, sp: seq<Byte>, sign: seq<Byte>, ds: seq<Byte>, v: int) {
    f == sp + sign + ds && AllSpace(sp) && IsSign(sign) &&
    ds != [] && AllDigits(ds) && v == SignedValue(sign, ds)
  }

  /** `f` is one text that `%d` converts to `v`: optional white space, an
      optional sign, then one or more decimal digits. */
  ghost predicate IsField(f: seq<Byte>, v: int) {
    exists sp, sign, ds :: FieldParts(f, sp, sign, ds, v)
  }

  /** Whatever `%d` converts is such a field, followed by input that does
      not continue its digits. */
  lemma ScanDecimalReads(s: seq<Byte>, v: int, rest: seq<Byte>)
    requires ScanDecimal(s) == Converted(v, rest)
    ensures |rest| <= |s| && s == s[..|s| - |rest|] + rest
    ensures IsField(s[..|s| - |rest|], v)
    ensures rest == [] || !IsDigit(rest[0])
  {
    var t := SkipSpace(s);
    SkipSpaceSkipsSpace(s);
    var sign := SignOf(t);
    var u := t[|sign|..];
    var ds := u[..DigitRun(u)];
    DigitRunDigits(u);
    SignSplit(t);
    var sp := s[..|s| - |t|];
    SplitField(s, sp, t, sign, u, ds, rest);
    FieldWitness(s[..|s| - |rest|], sp, sign, ds, v);
  }

  lemma SignSplit(t: seq<Byte>)
    ensures t == SignOf(t) + t[|SignOf(t)|..]
  {
  }

  lemma FieldWitness(f: seq<Byte>, sp: seq<Byte>, sign: seq<Byte>, ds: seq<Byte>, v: int)
    requires FieldParts(f, sp, sign, ds, v)
    ensures IsField(f, v)
  {
  }

  lemma DigitRunDigits(u: seq<Byte>)
    ensures AllDigits(u[..DigitRun(u)])
  {
  }

  lemma SplitField(s: seq<Byte>, sp: seq<Byte>, t: seq<Byte>, sign: seq<Byte>, u: seq<Byte>,
                   ds: seq<Byte>, rest: seq<Byte>)
    requires |t| <= |s| && t == s[|s| - |t|..] && sp == s[..|s| - |t|]
    requires t == sign + u
    requires |ds| <= |u| && ds == u[..|ds|] && rest == u[|ds|..]
    ensures |rest| <= |s| && s == s[..|s| - |rest|] + rest
    ensures s[..|s| - |rest|] == sp + sign + ds
  {
    assert s == sp + t;
    assert u == ds + rest;
    assert s == (sp + sign + ds) + rest;
  }

  /** `%d` converts every field, followed by input that does not continue
      its digits, to the field's value. */
  lemma ScanDecimalField(f: seq<Byte>, v: int, rest: seq<Byte>)
    requires IsField(f, v)
    requires rest == [] || !IsDigit(rest[0])
    ensures ScanDecimal(f + rest) == Converted(v, rest)
  {
    var sp, sign, ds :| FieldParts(f, sp, sign, ds, v);
    var x := sign + ds + rest;
    Regroup(f, sp, sign, ds, rest);
    if sign == [] {
      assert x == ds + rest;
      SkipLeadingSpace(sp, x);
      ScanDecimalDigits(ds, rest);
    } else {
      assert x == [sign[0]] + ds + rest;
      SkipLeadingSpace(sp, x);
      ScanDecimalSignChar(sign[0], ds, rest);
    }
  }

  lemma Regroup(f: seq<Byte>, sp: seq<Byte>, sign: seq<Byte>, ds: seq<Byte>, rest: seq<Byte>)
    requires f == sp + sign + ds
    ensures f + rest == sp + (sign + ds + rest)
    ensures sign == [] ==> sign + ds + rest == ds + rest
    ensures |sign| == 1 ==> sign + ds + rest == [sign[0]] + ds + rest
  {
    if |sign| == 1 {
      assert sign == [sign[0]];
    }
  }

  /** White space in front of a `%d` field changes nothing. */
  lemma SkipLeadingSpace(sp: seq<Byte>, x: seq<Byte>)
    requires AllSpace(sp)
    requires x != [] && !IsSpace(x[0])
    ensures ScanDecimal(sp + x) == ScanDecimal(x)
  {
    SkipSpaceOver(sp, x);
    assert SkipSpace(x) == x;
  }

  lemma {:induction false} SkipSpaceOver(sp: seq<Byte>, x: seq<Byte>)
    requires AllSpace(sp)
    requires x == [] || !IsSpace(x[0])
    ensures SkipSpace(sp + x) == x
  {
    if sp == [] {
      assert sp + x == x;
    } else {
      assert (sp + x)[0] == sp[0];
      assert (sp + x)[1..] == sp[1..] + x;
      SkipSpaceOver(sp[1..], x);
    }
  }

  /** `s` is a field of value `a`, a `;`, a field of value `b`, and input
      that does not continue the second field's digits. */
  ghost predicate PairParts(s: seq<Byte>, f1: seq<Byte>, f2: seq<Byte>, rest: seq<Byte>, a: int, b: int) {
    s == f1 + [SEMICOLON] + f2 + rest && IsField(f1, a) && IsField(f2, b) &&
    (rest == [] || !IsDigit(rest[0]))
  }

  /** `s` holds the text `"%d;%d"` converts to `a` and `b`. */
  ghost predicate PairText(s: seq<Byte>, a: int, b: int) {
    exists f1, f2, rest :: PairParts(s, f1, f2, rest, a, b)
  }

  /** `"%d;%d"` returns 2 and stores `a` and `b` exactly when the input is a
      field of value `a`, a `;`, a field of value `b`, and anything that does
      not continue the digits of the second. */
  lemma ScanPairExact(s: seq<Byte>, a: int, b: int)
    ensures ScanPair(s) == ScanResult(2, Some(a), Some(b)) <==> PairText(s, a, b)
  {
    if ScanPair(s) == ScanResult(2, Some(a), Some(b)) {
      ScanPairReads(s, a, b);
    }
    if PairText(s, a, b) {
      var f1, f2, rest :| PairParts(s, f1, f2, rest, a, b);
      ScanDecimalField(f1, a, [SEMICOLON] + f2 + rest);
      ScanDecimalField(f2, b, rest);
      ScanPairOf(f1, f2, rest, a, b);
    }
  }

  lemma PairRegroup(s: seq<Byte>, f1: seq<Byte>, r1: seq<Byte>, f2: seq<Byte>, r2: seq<Byte>)
    requires s == f1 + r1 && r1 != [] && r1[0] == SEMICOLON && r1[1..] == f2 + r2
    ensures s == f1 + [SEMICOLON] + f2 + r2
  {
    assert r1 == [SEMICOLON] + r1[1..];
  }

  lemma PairWitness(s: seq<Byte>, f1: seq<Byte>, f2: seq<Byte>, rest: seq<Byte>, a: int, b: int)
    requires PairParts(s, f1, f2, rest, a, b)
    ensures PairText(s, a, b)
  {
  }

  lemma ScanPairReads(s: seq<Byte>, a: int, b: int)
    requires ScanPair(s) == ScanResult(2, Some(a), Some(b))
    ensures PairText(s, a, b)
  {
    var c1 := ScanDecimal(s);
    assert c1.Converted? && c1.value == a && c1.rest != [] && c1.rest[0] == SEMICOLON;
    var r1 := c1.rest;
    var c2 := ScanDecimal(r1[1..]);
    assert c2.Converted? && c2.value == b;
    var r2 := c2.rest;
    ScanDecimalReads(s, a, r1);
    ScanDecimalReads(r1[1..], b, r2);
    var f1 := s[..|s| - |r1|];
    var f2 := r1[1..][..|r1[1..]| - |r2|];
    PairRegroup(s, f1, r1, f2, r2);
    PairWitness(s, f1, f2, r2, a, b);
  }
}
