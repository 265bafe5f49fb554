/** src/base64.c: the codec of RFC 4648, section 4, with the decoder's 32-bit accumulator that is
    never cleared. */
module Base64 {
  import opened Arithmetic
  import opened Options
  import opened Bytes
  import opened StreamHash

  const UPPER: string := "ABCDEFGHIJKLMNOPQRSTUVWXYZ"
  const LOWER: string := "abcdefghijklmnopqrstuvwxyz"
  const OTHER: string := "0123456789+/"
  const B64_ALPHA: string := UPPER + LOWER + OTHER

  /** The digit of a six-bit value. */
  function Digit(v: nat): char
    requires v < 64
  {
    assert |B64_ALPHA| == 64;
    B64_ALPHA[v]
  }

  /** b64_val, None for the source's -1. */
  function B64Val(c: char): Option<nat> {
    if 'A' <= c <= 'Z' then Some(c as nat - 'A' as nat)
    else if 'a' <= c <= 'z' then Some(c as nat - 'a' as nat + 26)
    else if '0' <= c <= '9' then Some(c as nat - '0' as nat + 52)
    else if c == '+' then Some(62)
    else if c == '/' then Some(63)
    else None
  }

  // ---------- encoding ----------

  // the four six-bit values of three bytes
  function V0(a: byte): nat { a / 4 }
  function V1(a: byte, b: byte): nat { a % 4 * 16 + b / 16 }
  function V2(b: byte, c: byte): nat { b % 16 * 4 + c / 64 }
  function V3(c: byte): nat { c % 64 }

  /** Three bytes as four digits. */
  function Quad(a: byte, b: byte, c: byte): (q: string)
    ensures |q| == 4
  {
    [Digit(V0(a)), Digit(V1(a, b)), Digit(V2(b, c)), Digit(V3(c))]
  }

  function Encoded(src: seq<byte>): string {
    if src == [] then []
    else if |src| == 1 then Quad(src[0], 0, 0)[..2] + ['=', '=']
    else if |src| == 2 then Quad(src[0], src[1], 0)[..3] + ['=']
    else Quad(src[0], src[1], src[2]) + Encoded(src[3..])
  }

  // ---------- decoding ----------

  /** What the decoding loop carries from character to character. */
  datatype State = State(out: seq<byte>, acc: u32, bits: nat, pad: nat)

  /** One character: None is the source's -1. */
  function Step(s: State, c: char, cap: nat): Option<State> {
    if c == '\n' || c == '\r' then Some(s)
    else if c == '=' then Some(s.(pad := s.pad + 1))
    else if B64Val(c).None? || s.pad != 0 then None
    else
      var acc := (s.acc as nat * 64 + B64Val(c).value) % 0x1_0000_0000;
      if s.bits + 6 < 8 then Some(State(s.out, acc, s.bits + 6, s.pad))
      else if |s.out| >= cap then None
      else Some(State(s.out + [Shr(acc, s.bits - 2) % 0x100], acc, s.bits - 2, s.pad))
  }

  function Scan(s: State, src: string, cap: nat): Option<State>
    decreases |src|
  {
    if src == [] then Some(s)
    else
      match Step(s, src[0], cap)
      case None => None
      case Some(t) => Scan(t, src[1..], cap)
  }

  /** The bytes base64_decode writes, or None when it fails. */
  function Decoded(src: string, cap: nat): Option<seq<byte>> {
    match Scan(State([], 0, 0, 0), src, cap)
    case None => None
    case Some(s) => if s.bits >= 6 || s.pad > 2 then None else Some(s.out)
  }

  // ---------- the alphabet ----------

  lemma DigitOf(v: nat)
    requires v < 64
    ensures Digit(v) == if v < 26 then UPPER[v] else if v < 52 then LOWER[v - 26] else OTHER[v - 52]
  {
  }

  /** Every digit is read back as its value. */
  lemma DigitValue(v: nat)
    requires v < 64
    ensures B64Val(Digit(v)) == Some(v)
    ensures Digit(v) != '\n' && Digit(v) != '\r' && Digit(v) != '='
  {
    hide UPPER, LOWER, OTHER, Digit;
    DigitOf(v);
    if v < 26 {
      UpperValue(v);
    } else if v < 52 {
      LowerValue(v - 26);
    } else {
      OtherValue(v - 52);
    }
  }

  lemma UpperValue(v: nat)
    requires v < 26
    ensures UPPER[v] as nat == 'A' as nat + v
  {
    if v == 0 { } else if v == 1 { } else if v == 2 { } else if v == 3 { } else if v == 4 { } else if v == 5 {
    } else if v == 6 { } else if v == 7 { } else if v == 8 { } else if v == 9 { } else if v == 10 { } else if
    v == 11 { } else if v == 12 { } else if v == 13 { } else if v == 14 { } else if v == 15 { } else if v ==
    16 { } else if v == 17 { } else if v == 18 { } else if v == 19 { } else if v == 20 { } else if v == 21 { }
    else if v == 22 { } else if v == 23 { } else if v == 24 { } else if v == 25 { }
  }

  lemma LowerValue(v: nat)
    requires v < 26
    ensures LOWER[v] as nat == 'a' as nat + v
  {
    if v == 0 { } else if v == 1 { } else if v == 2 { } else if v == 3 { } else if v == 4 { } else if v == 5 {
    } else if v == 6 { } else if v == 7 { } else if v == 8 { } else if v == 9 { } else if v == 10 { } else if
    v == 11 { } else if v == 12 { } else if v == 13 { } else if v == 14 { } else if v == 15 { } else if v ==
    16 { } else if v == 17 { } else if v == 18 { } else if v == 19 { } else if v == 20 { } else if v == 21 { }
    else if v == 22 { } else if v == 23 { } else if v == 24 { } else if v == 25 { }
  }

  lemma OtherValue(v: nat)
    requires v < 12
    ensures OTHER[v] as nat == if v < 10 then '0' as nat + v else if v == 10 then '+' as nat else '/' as nat
  {
    if v == 0 { } else if v == 1 { } else if v == 2 { } else if v == 3 { } else if v == 4 { } else if v == 5 {
    } else if v == 6 { } else if v == 7 { } else if v == 8 { } else if v == 9 { } else if v == 10 { } else if
    v == 11 { }
  }

  // ---------- the number a text stands for ----------

  /** Every character is a digit. */
  predicate AllDigits(ds: string) { forall i :: 0 <= i < |ds| ==> B64Val(ds[i]).Some? }

  /** The number that digits add to one already read. */
  function NumberFrom(n: nat, ds: string): nat
    requires AllDigits(ds)
    decreases |ds|
  {
    if ds == [] then n else NumberFrom(64 * n + B64Val(ds[0]).value, ds[1..])
  }

  /** n padding characters. */
  function Equals(n: nat): (t: string)
    ensures |t| == n
  {
    if n == 0 then [] else ['='] + Equals(n - 1)
  }

  lemma {:induction false} NumberJoined(n: nat, a: string, b: string)
    requires AllDigits(a) && AllDigits(b)
    ensures AllDigits(a + b) && NumberFrom(n, a + b) == NumberFrom(NumberFrom(n, a), b)
    decreases |a|
  {
    hide B64Val;
    if a == [] {
      assert a + b == b;
    } else {
      assert (a + b)[1..] == a[1..] + b;
      NumberJoined(64 * n + B64Val(a[0]).value, a[1..], b);
    }
  }

  lemma {:induction false} NumberShifted(n: nat, ds: string)
    requires AllDigits(ds)
    ensures NumberFrom(n, ds) == n * Pow2(6 * |ds|) + NumberFrom(0, ds)
    decreases |ds|
  {
    hide B64Val, Pow2;
    if ds == [] {
      assert Pow2(0) == 1 by { NoBits(); }
    } else {
      var v := B64Val(ds[0]).value;
      NumberNext(n, ds);
      NumberNext(0, ds);
      hide NumberFrom;
      NumberShifted(64 * n + v, ds[1..]);
      NumberShifted(v, ds[1..]);
      SixBits(|ds| - 1);
      ShiftedSum(n, v, Pow2(6 * (|ds| - 1)));
    }
  }

  lemma NumberNext(n: nat, ds: string)
    requires AllDigits(ds) && ds != []
    ensures AllDigits(ds[1..]) && NumberFrom(n, ds) == NumberFrom(64 * n + B64Val(ds[0]).value, ds[1..])
  {
    hide B64Val;
  }

  lemma NoBits()
    ensures Pow2(0) == 1
  {
  }

  lemma SixBits(n: nat)
    ensures Pow2(6 * (n + 1)) == 64 * Pow2(6 * n)
  {
    Pow2Add(6, 6 * n);
    assert Pow2(6) == 64;
  }

  lemma ShiftedSum(n: nat, v: nat, w: nat)
    ensures (64 * n + v) * w == n * (64 * w) + v * w
  {
    MulAdd(64 * n, v, w);
    MulAssoc(n, 64, w);
  }

  // ---------- what the decoder makes of digits ----------

  /** The scanner after c digits that stand for n: the accumulator has n's low 32 bits, and the output
      and the bits not yet written are n. */
  ghost predicate Holds(s: State, n: nat, c: nat) {
    && s.pad == 0 && s.bits in {0, 2, 4, 6} && 8 * |s.out| + s.bits == 6 * c
    && s.acc == n % 0x1_0000_0000 && BE(s.out) == Shr(n, s.bits)
  }

  /** Bits m and above, up to eight of them, do not see what lies higher. */
  lemma MiddleByte(x: nat, m: nat)
    requires 0 < m
    ensures x / m % 0x100 == x % (0x100 * m) / m
  {
    var q, r := x / (0x100 * m), x % (0x100 * m);
    DivMod(x, 0x100 * m);
    DivMod(r, m);
    MulAssoc(q, 0x100, m);
    MulAdd(q * 0x100, r / m, m);
    MulLt0(r / m, 0x100, m, r % m);
    DivModUnique(x, m, q * 0x100 + r / m, r % m);
    DivModUnique(q * 0x100 + r / m, 0x100, q, r / m);
  }

  lemma MulLt0(t: nat, k: nat, m: nat, e: nat)
    requires t * m + e < k * m
    ensures t < k
  {
    if t >= k { MulLe(k, t, m); }
  }

  /** One more digit and a byte out, although the accumulator has only 32 bits: what was written and
      the new byte are the longer number. */
  lemma Emitted(n: nat, v: nat, m: nat, k: nat)
    requires 0 < m && 0 < k && v < 64 && (0x100 * m) * k == 0x1_0000_0000
    ensures (n / (4 * m)) * 0x100 + (64 * n + v) % 0x1_0000_0000 / m % 0x100 == (64 * n + v) / m
  {
    var x := 64 * n + v;
    ModMod(x, 0x100 * m, k);
    MiddleByte(x, m);
    MiddleByte(x % 0x1_0000_0000, m);
    DivMod(x / m, 0x100);
    DivDiv(x, m, 0x100);
    DivDiv(x, 64, 4 * m);
    DivModUnique(x, 64, n, v);
    assert m * 0x100 == 64 * (4 * m);
  }

  lemma SmallShifts(x: nat)
    ensures Shr(x, 0) == x && Shr(x, 2) == x / 4 && Shr(x, 4) == x / 16 && Shr(x, 6) == x / 64
  {
  }

  lemma SameAccumulator(acc: nat, n: nat, v: nat)
    requires acc == n % 0x1_0000_0000
    ensures (acc * 64 + v) % 0x1_0000_0000 == (64 * n + v) % 0x1_0000_0000
  {
    DivMod(n, 0x1_0000_0000);
    var q := n / 0x1_0000_0000;
    DivMod(acc * 64 + v, 0x1_0000_0000);
    var p := (acc * 64 + v) / 0x1_0000_0000;
    DivModUnique(64 * n + v, 0x1_0000_0000, 64 * q + p, (acc * 64 + v) % 0x1_0000_0000);
  }

  /** A digit either fails for want of room or keeps the scanner in step with the number. */
  lemma DigitStep(s: State, n: nat, c: nat, d: char, cap: nat)
    requires Holds(s, n, c) && B64Val(d).Some? && |s.out| <= cap
    ensures var r := Step(s, d, cap);
      if 6 * (c + 1) / 8 <= cap then r.Some? && Holds(r.value, 64 * n + B64Val(d).value, c + 1) && |r.value.out| <= cap
      else r.None?
  {
    hide B64Val, Shr, BE, Step;
    StepOnDigit(s, d, cap);
    var v := B64Val(d).value;
    var acc: u32 := (s.acc as nat * 64 + v) % 0x1_0000_0000;
    SameAccumulator(s.acc, n, v);
    RoomForByte(|s.out|, s.bits, c, cap);
    if s.bits == 0 {
      QuietNumber(n, v);
    } else {
      EmittedBits(s.out, s.bits, n, v, acc);
    }
  }

  lemma StepOnDigit(s: State, d: char, cap: nat)
    requires B64Val(d).Some? && s.pad == 0
    ensures B64Val(d).value < 64
    ensures var acc: u32 := (s.acc as nat * 64 + B64Val(d).value) % 0x1_0000_0000;
      Step(s, d, cap)
        == if s.bits < 2 then Some(State(s.out, acc, s.bits + 6, 0))
           else if |s.out| >= cap then None
           else Some(State(s.out + [Shr(acc, s.bits - 2) % 0x100], acc, s.bits - 2, 0))
  {
    DigitPlain(d);
    hide B64Val, Shr;
  }

  lemma RoomForByte(len: nat, bits: nat, c: nat, cap: nat)
    requires bits in {0, 2, 4, 6} && 8 * len + bits == 6 * c && len <= cap
    ensures 6 * (c + 1) / 8 <= cap <==> bits == 0 || len < cap
  {
  }

  lemma QuietNumber(n: nat, v: nat)
    requires v < 64
    ensures Shr(64 * n + v, 6) == Shr(n, 0)
  {
    SmallShifts(n);
    SmallShifts(64 * n + v);
    hide Shr;
    DivModUnique(64 * n + v, 64, n, v);
  }

  lemma EmittedBits(out: seq<byte>, bits: nat, n: nat, v: nat, acc: nat)
    requires bits in {2, 4, 6} && v < 64 && BE(out) == Shr(n, bits) && acc == (64 * n + v) % 0x1_0000_0000
    ensures BE(out + [Shr(acc, bits - 2) % 0x100]) == Shr(64 * n + v, bits - 2)
  {
    hide Shr, BE;
    SmallShifts(n);
    SmallShifts(64 * n + v);
    SmallShifts(acc);
    if bits == 2 {
      EmittedOut(out, n, v, acc, 1, 0x100_0000);
    } else if bits == 4 {
      EmittedOut(out, n, v, acc, 4, 0x40_0000);
    } else {
      EmittedOut(out, n, v, acc, 16, 0x10_0000);
    }
  }

  lemma EmittedOut(out: seq<byte>, n: nat, v: nat, acc: nat, m: nat, k: nat)
    requires 0 < m && 0 < k && v < 64 && (0x100 * m) * k == 0x1_0000_0000
    requires BE(out) == n / (4 * m) && acc == (64 * n + v) % 0x1_0000_0000
    ensures BE(out + [acc / m % 0x100]) == (64 * n + v) / m
  {
    hide BE;
    Emitted(n, v, m, k);
    BEAppend(out, acc / m % 0x100);
  }

  lemma DigitPlain(d: char)
    requires B64Val(d).Some?
    ensures d != '\n' && d != '\r' && d != '=' && B64Val(d).value < 64
  {
  }

  lemma ScanFront(s: State, c: char, rest: string, cap: nat)
    ensures Scan(s, [c] + rest, cap)
      == match Step(s, c, cap) { case None => None case Some(t) => Scan(t, rest, cap) }
  {
    hide Step;
    assert ([c] + rest)[0] == c && ([c] + rest)[1..] == rest;
  }

  lemma {:induction false} ScanDigits(s: State, n: nat, c: nat, ds: string, rest: string, cap: nat) returns (t: State)
    requires Holds(s, n, c) && AllDigits(ds) && |s.out| <= cap
    ensures if 6 * (c + |ds|) / 8 <= cap
      then Holds(t, NumberFrom(n, ds), c + |ds|) && Scan(s, ds + rest, cap) == Scan(t, rest, cap)
      else Scan(s, ds + rest, cap).None?
    decreases |ds|
  {
    hide B64Val, Holds, Step, Scan;
    if ds == [] {
      t := s;
      RoomSoFar(s, n, c, cap);
      assert ds + rest == rest;
    } else {
      assert ds + rest == [ds[0]] + (ds[1..] + rest);
      ScanFront(s, ds[0], ds[1..] + rest, cap);
      DigitStep(s, n, c, ds[0], cap);
      if 6 * (c + 1) / 8 <= cap {
        t := ScanDigits(Step(s, ds[0], cap).value, 64 * n + B64Val(ds[0]).value, c + 1, ds[1..], rest, cap);
      } else {
        t := s;
      }
    }
  }

  lemma RoomSoFar(s: State, n: nat, c: nat, cap: nat)
    requires Holds(s, n, c) && |s.out| <= cap
    ensures 6 * c / 8 <= cap
  {
  }

  lemma {:induction false} ScanPads(s: State, n: nat, cap: nat)
    ensures Scan(s, Equals(n), cap) == Some(s.(pad := s.pad + n))
    decreases n
  {
    if n > 0 {
      assert Equals(n)[1..] == Equals(n - 1);
      ScanPads(s.(pad := s.pad + 1), n - 1, cap);
    }
  }

  // ---------- which texts decode, and to what ----------

  /** The text without its line breaks. */
  function Strip(t: string): string {
    if t == [] then [] else if t[0] == '\n' || t[0] == '\r' then Strip(t[1..]) else [t[0]] + Strip(t[1..])
  }

  lemma {:induction false} BreaksIgnored(s: State, t: string, cap: nat)
    ensures Scan(s, t, cap) == Scan(s, Strip(t), cap)
    decreases |t|
  {
    if t != [] {
      if t[0] == '\n' || t[0] == '\r' {
        BreaksIgnored(s, t[1..], cap);
      } else {
        var r := Step(s, t[0], cap);
        assert Strip(t)[0] == t[0] && Strip(t)[1..] == Strip(t[1..]);
        if r.Some? { BreaksIgnored(r.value, t[1..], cap); }
      }
    }
  }

  /** Digits, not one too many for whole bytes, and at most two padding characters, which need not
      match the digits; line breaks anywhere. */
  ghost predicate IsText(t: string, ds: string, pads: nat) {
    Strip(t) == ds + Equals(pads) && AllDigits(ds) && |ds| % 4 != 1 && pads <= 2
  }

  /** What such a text decodes to: the whole bytes of its number. */
  lemma DecodedMeaning(t: string, cap: nat, ds: string, pads: nat)
    requires IsText(t, ds, pads)
    ensures Decoded(t, cap).Some? <==> 6 * |ds| / 8 <= cap
    ensures Decoded(t, cap).Some? ==> |Decoded(t, cap).value| == 6 * |ds| / 8
    ensures Decoded(t, cap).Some? ==> BE(Decoded(t, cap).value) == Shr(NumberFrom(0, ds), 6 * |ds| % 8)
  {
    var s := State([], 0, 0, 0);
    assert Holds(s, 0, 0) by { EmptyNumber(); SmallShifts(0); }
    hide Scan, Strip, Shr, BE, B64Val, Equals;
    BreaksIgnored(s, t, cap);
    var r := ScanDigits(s, 0, 0, ds, Equals(pads), cap);
    ScanPads(r, pads, cap);
    if 6 * |ds| / 8 <= cap { BitsLeft(r, NumberFrom(0, ds), |ds|); }
  }

  lemma BitsLeft(s: State, n: nat, c: nat)
    requires Holds(s, n, c)
    ensures |s.out| == 6 * c / 8 && s.bits == 6 * c % 8 && (s.bits >= 6 <==> c % 4 == 1)
  {
    hide BE, Shr;
  }

  lemma StepShape(s: State, c: char, cap: nat)
    requires c != '\n' && c != '\r' && Step(s, c, cap).Some?
    ensures var t := Step(s, c, cap).value;
      if c == '=' then t.pad == s.pad + 1 else B64Val(c).Some? && s.pad == 0 && t.pad == 0
  {
    hide B64Val, Shr;
  }

  /** A scan that succeeds has seen digits and then padding. */
  lemma {:induction false} ScanShape(s: State, u: string, cap: nat) returns (ds: string, pads: nat)
    requires Scan(s, u, cap).Some? && forall i :: 0 <= i < |u| ==> u[i] != '\n' && u[i] != '\r'
    ensures u == ds + Equals(pads) && AllDigits(ds) && (s.pad > 0 ==> ds == [])
    ensures Scan(s, u, cap).value.pad == s.pad + pads
    decreases |u|
  {
    hide B64Val, Step;
    if u == [] {
      ds, pads := [], 0;
    } else {
      StepShape(s, u[0], cap);
      var t := Step(s, u[0], cap).value;
      ds, pads := ScanShape(t, u[1..], cap);
      if u[0] == '=' {
        pads := pads + 1;
        assert u == ['='] + u[1..];
      } else {
        ds := [u[0]] + ds;
        assert u == [u[0]] + u[1..];
      }
    }
  }

  lemma {:induction false} StripPlain(t: string)
    ensures forall i :: 0 <= i < |Strip(t)| ==> Strip(t)[i] != '\n' && Strip(t)[i] != '\r'
  {
    if t != [] { StripPlain(t[1..]); }
  }

  /** Over all texts and capacities: decoding succeeds exactly on such texts whose bytes fit. */
  lemma DecodedIff(t: string, cap: nat)
    ensures Decoded(t, cap).Some? <==> exists ds, pads :: IsText(t, ds, pads) && 6 * |ds| / 8 <= cap
  {
    hide Strip, Step, Shr, BE, B64Val, Equals;
    if Decoded(t, cap).Some? {
      var s := State([], 0, 0, 0);
      BreaksIgnored(s, t, cap);
      StripPlain(t);
      var ds, pads := ScanShape(s, Strip(t), cap);
      OneTooMany(ds, pads, cap);
      DecodedMeaning(t, cap, ds, pads);
      assert IsText(t, ds, pads) && 6 * |ds| / 8 <= cap;
    }
    if ds, pads :| IsText(t, ds, pads) && 6 * |ds| / 8 <= cap {
      DecodedMeaning(t, cap, ds, pads);
    }
  }

  /** A dangling digit is noticed. */
  lemma OneTooMany(ds: string, pads: nat, cap: nat)
    requires AllDigits(ds)
    ensures var r := Scan(State([], 0, 0, 0), ds + Equals(pads), cap);
      r.Some? && |ds| % 4 == 1 ==> r.value.bits >= 6
  {
    var s := State([], 0, 0, 0);
    assert Holds(s, 0, 0) by { EmptyNumber(); SmallShifts(0); }
    hide Scan, Shr, BE, B64Val, Equals;
    var r := ScanDigits(s, 0, 0, ds, Equals(pads), cap);
    ScanPads(r, pads, cap);
    if 6 * |ds| / 8 <= cap { BitsLeft(r, NumberFrom(0, ds), |ds|); }
  }

  // ---------- what an encoding is ----------

  lemma {:induction false} EncodedLength(src: seq<byte>)
    ensures |Encoded(src)| == (|src| + 2) / 3 * 4
  {
    hide Quad;
    if |src| >= 3 { EncodedLength(src[3..]); }
  }

  lemma Digits(a: byte, b: byte, c: byte)
    ensures V0(a) < 64 && V1(a, b) < 64 && V2(b, c) < 64 && V3(c) < 64
    ensures 64 * (64 * (64 * V0(a) + V1(a, b)) + V2(b, c)) + V3(c) == 0x1_0000 * a + 0x100 * b + c
  {
    DivMod(a, 4);
    DivMod(b, 16);
    DivMod(c, 64);
  }

  lemma QuadDigits(a: byte, b: byte, c: byte)
    ensures V0(a) < 64 && V1(a, b) < 64 && V2(b, c) < 64 && V3(c) < 64
    ensures Quad(a, b, c) == [Digit(V0(a)), Digit(V1(a, b)), Digit(V2(b, c)), Digit(V3(c))]
  {
    Digits(a, b, c);
    hide Digit, V0, V1, V2, V3;
  }

  lemma OneDigit(n: nat, d: char, v: nat)
    requires B64Val(d) == Some(v)
    ensures AllDigits([d]) && NumberFrom(n, [d]) == 64 * n + v
  {
    hide B64Val;
    assert [d][1..] == [];
  }

  lemma DigitAppended(n: nat, ds: string, d: char, v: nat)
    requires AllDigits(ds) && B64Val(d) == Some(v)
    ensures AllDigits(ds + [d]) && NumberFrom(n, ds + [d]) == 64 * NumberFrom(n, ds) + v
  {
    hide B64Val;
    OneDigit(NumberFrom(n, ds), d, v);
    NumberJoined(n, ds, [d]);
  }

  /** The first two, three or four digits of a group stand for its bits so far. */
  lemma QuadNumber(a: byte, b: byte, c: byte)
    ensures var q, v := Quad(a, b, c), 0x1_0000 * a + 0x100 * b + c;
      && AllDigits(q[..2]) && NumberFrom(0, q[..2]) == v / 0x1000
      && AllDigits(q[..3]) && NumberFrom(0, q[..3]) == v / 64
      && AllDigits(q) && NumberFrom(0, q) == v
  {
    Digits(a, b, c);
    QuadDigits(a, b, c);
    var v0, v1, v2, v3 := V0(a), V1(a, b), V2(b, c), V3(c);
    hide Digit, B64Val, V0, V1, V2, V3, Quad, NumberFrom, AllDigits;
    DigitValue(v0);
    DigitValue(v1);
    DigitValue(v2);
    DigitValue(v3);
    var d0, d1, d2, d3 := Digit(v0), Digit(v1), Digit(v2), Digit(v3);
    FourParts(d0, d1, d2, d3);
    OneDigit(0, d0, v0);
    DigitAppended(0, [d0], d1, v1);
    DigitAppended(0, [d0, d1], d2, v2);
    DigitAppended(0, [d0, d1, d2], d3, v3);
    CutDigits(v0, v1, v2, v3, 0x1_0000 * a + 0x100 * b + c);
  }

  lemma FourParts(d0: char, d1: char, d2: char, d3: char)
    ensures [d0] + [d1] == [d0, d1] == [d0, d1, d2, d3][..2]
    ensures [d0, d1] + [d2] == [d0, d1, d2] == [d0, d1, d2, d3][..3]
    ensures [d0, d1, d2] + [d3] == [d0, d1, d2, d3]
  {
  }

  lemma CutDigits(v0: nat, v1: nat, v2: nat, v3: nat, v: nat)
    requires v0 < 64 && v1 < 64 && v2 < 64 && v3 < 64 && v == 64 * (64 * (64 * v0 + v1) + v2) + v3
    ensures v / 64 == 64 * (64 * v0 + v1) + v2 && v / 0x1000 == 64 * v0 + v1
  {
    DivModUnique(v, 64, 64 * (64 * v0 + v1) + v2, v3);
    DivModUnique(v, 0x1000, 64 * v0 + v1, 64 * v2 + v3);
  }

  /** The encoding as a number: digits that stand for the bytes with two zero bits for each padding
      character, and as many of those as fill the last digit. */
  lemma {:induction false} EncodedMeaning(src: seq<byte>) returns (ds: string, e: nat)
    ensures Encoded(src) == ds + Equals(e) && AllDigits(ds) && e <= 2 && 6 * |ds| == 8 * |src| + 2 * e
    ensures NumberFrom(0, ds) == BE(src) * Pow2(2 * e)
    decreases |src|
  {
    hide Quad, B64Val, BE, Pow2;
    if src == [] {
      EmptyNumber();
      ds, e := [], 0;
    } else if |src| == 1 {
      ds, e := Quad(src[0], 0, 0)[..2], 2;
      assert Equals(2) == ['=', '='];
      OneByteLeft(src);
    } else if |src| == 2 {
      ds, e := Quad(src[0], src[1], 0)[..3], 1;
      assert Equals(1) == ['='];
      TwoBytesLeft(src);
    } else {
      hide NumberFrom;
      var q := Quad(src[0], src[1], src[2]);
      ds, e := EncodedMeaning(src[3..]);
      FirstGroup(src, q, ds, e);
      assert q + (ds + Equals(e)) == (q + ds) + Equals(e);
      ds := q + ds;
    }
  }

  lemma OneByteLeft(src: seq<byte>)
    requires |src| == 1
    ensures var ds := Quad(src[0], 0, 0)[..2]; AllDigits(ds) && NumberFrom(0, ds) == BE(src) * Pow2(4)
  {
    hide B64Val, BE, Quad, NumberFrom;
    QuadNumber(src[0], 0, 0);
    BEThree(src[0], 0, 0);
    SmallPowers();
    assert src == [src[0]];
  }

  lemma TwoBytesLeft(src: seq<byte>)
    requires |src| == 2
    ensures var ds := Quad(src[0], src[1], 0)[..3]; AllDigits(ds) && NumberFrom(0, ds) == BE(src) * Pow2(2)
  {
    hide B64Val, BE, Quad, NumberFrom;
    QuadNumber(src[0], src[1], 0);
    BEThree(src[0], src[1], 0);
    SmallPowers();
    assert src == [src[0], src[1]];
  }

  lemma SmallPowers()
    ensures Pow2(2) == 4 && Pow2(4) == 16
  {
  }

  lemma BEThree(a: byte, b: byte, c: byte)
    ensures BE([a]) == a && BE([a, b]) == 0x100 * a + b && BE([a, b, c]) == 0x1_0000 * a + 0x100 * b + c
  {
    EmptyNumber();
    hide BE;
    BEAppend([], a);
    BEAppend([a], b);
    BEAppend([a, b], c);
    assert [] + [a] == [a] && [a] + [b] == [a, b] && [a, b] + [c] == [a, b, c];
  }

  lemma FirstGroup(src: seq<byte>, q: string, ds: string, e: nat)
    requires |src| >= 3 && q == Quad(src[0], src[1], src[2]) && AllDigits(ds) && 6 * |ds| == 8 * |src[3..]| + 2 * e
    requires NumberFrom(0, ds) == BE(src[3..]) * Pow2(2 * e)
    ensures AllDigits(q + ds) && NumberFrom(0, q + ds) == BE(src) * Pow2(2 * e)
  {
    hide B64Val, BE, Quad, NumberFrom, AllDigits, Pow2;
    QuadNumber(src[0], src[1], src[2]);
    BEThree(src[0], src[1], src[2]);
    BEConcat([src[0], src[1], src[2]], src[3..]);
    assert src == [src[0], src[1], src[2]] + src[3..];
    NumberJoined(0, q, ds);
    NumberShifted(NumberFrom(0, q), ds);
    Pow2Add(8 * |src[3..]|, 2 * e);
    GroupSum(NumberFrom(0, q), Pow2(8 * |src[3..]|), Pow2(2 * e), BE(src[3..]));
  }

  lemma GroupSum(q: nat, w: nat, u: nat, r: nat)
    ensures q * (w * u) + r * u == (q * w + r) * u
  {
    MulAssoc(q, w, u);
    MulAdd(q * w, r, u);
  }

  /** The digits in ASCII: A to Z, a to z, 0 to 9, plus and slash. */
  lemma DigitCode(v: nat)
    requires v < 64
    ensures Digit(v) as int
      == if v < 26 then 65 + v else if v < 52 then 71 + v else if v < 62 then v - 4 else if v == 62 then 43 else 47
  {
    hide UPPER, LOWER, OTHER, Digit;
    DigitOf(v);
    if v < 26 {
      UpperValue(v);
    } else if v < 52 {
      LowerValue(v - 26);
    } else {
      OtherValue(v - 52);
    }
  }

  // ---------- the round trip ----------

  /** An encoding, with carriage returns and line feeds inserted anywhere, decodes to the bytes
      that were encoded exactly when they fit the output buffer. */
  lemma RoundTrip(src: seq<byte>, t: string, cap: nat)
    requires Strip(t) == Encoded(src)
    ensures Decoded(t, cap) == if |src| <= cap then Some(src) else None
  {
    var ds, e := EncodedMeaning(src);
    EncodedBits(|src|, |ds|, e);
    hide Strip, Encoded, BE, Shr, Pow2, B64Val, Decoded, Equals, NumberFrom;
    DecodedMeaning(t, cap, ds, e);
    if |src| <= cap {
      FillingDropped(BE(src), 2 * e);
      SameLength(Decoded(t, cap).value, src);
    }
  }

  lemma EncodedBits(n: nat, c: nat, e: nat)
    requires 6 * c == 8 * n + 2 * e && e <= 2
    ensures 6 * c / 8 == n && 6 * c % 8 == 2 * e && c % 4 != 1
  {
  }

  lemma FillingDropped(x: nat, k: nat)
    ensures Shr(x * Pow2(k), k) == x
  {
    DivModUnique(x * Pow2(k), Pow2(k), x, 0);
  }

  // ---------- the loops ----------

  /** The three bytes as one number, cut into four six-bit digits. */
  lemma Sextets(a: byte, b: byte, c: byte)
    ensures var v := 0x1_0000 * a + 0x100 * b + c;
      && v / 0x4_0000 % 64 == V0(a) && v / 0x1000 % 64 == V1(a, b) && v / 64 % 64 == V2(b, c) && v % 64 == V3(c)
  {
    Digits(a, b, c);
    hide V0, V1, V2, V3;
    var v := 0x1_0000 * a + 0x100 * b + c;
    SextetsOf(v, V0(a), V1(a, b), V2(b, c), V3(c));
  }

  lemma SextetsOf(v: nat, v0: nat, v1: nat, v2: nat, v3: nat)
    requires v0 < 64 && v1 < 64 && v2 < 64 && v3 < 64
    requires v == 64 * (64 * (64 * v0 + v1) + v2) + v3
    ensures v / 0x4_0000 % 64 == v0 && v / 0x1000 % 64 == v1 && v / 64 % 64 == v2 && v % 64 == v3
  {
    DivModUnique(v, 64, 64 * (64 * v0 + v1) + v2, v3);
    DivModUnique(v, 0x1000, 64 * v0 + v1, 64 * v2 + v3);
    DivModUnique(v, 0x4_0000, v0, 0x1000 * v1 + 64 * v2 + v3);
    DivModUnique(v / 64, 64, 64 * v0 + v1, v2);
    DivModUnique(v / 0x1000, 64, v0, v1);
  }

  lemma QuadOfWord(a: byte, b: byte, c: byte, v: nat)
    requires v == 0x1_0000 * a + 0x100 * b + c
    ensures Quad(a, b, c) == [Digit(v / 0x4_0000 % 64), Digit(v / 0x1000 % 64), Digit(v / 64 % 64), Digit(v % 64)]
  {
    Sextets(a, b, c);
    QuadDigits(a, b, c);
    hide Digit, V0, V1, V2, V3, Quad;
  }

  /** Four digits of v at dst[o]. */
  method PutQuad(dst: array<char>, o: nat, a: byte, b: byte, c: byte)
    requires o + 4 <= dst.Length
    modifies dst
    ensures dst[..o] == old(dst[..o]) && dst[o..o + 4] == Quad(a, b, c)
  {
    hide Digit, Quad;
    var v: u32 := Or(Or(c, b as nat * 0x100, 0x100), a as nat * 0x1_0000, 0x1_0000);
    QuadOfWord(a, b, c, v);
    hide *;
    dst[o] := Digit(v / 0x4_0000 % 64);
    dst[o + 1] := Digit(v / 0x1000 % 64);
    dst[o + 2] := Digit(v / 64 % 64);
    dst[o + 3] := Digit(v % 64);
  }

  lemma EncodedNext(src: seq<byte>, i: nat)
    requires i + 3 <= |src|
    ensures Encoded(src[i..]) == Quad(src[i], src[i + 1], src[i + 2]) + Encoded(src[i + 3..])
  {
    hide Quad;
    assert src[i..][3..] == src[i + 3..];
  }

  /** A size_t returned as a 32-bit int. */
  function AsInt(v: nat): int {
    var r := v % 0x1_0000_0000;
    if r < 0x8000_0000 then r else r - 0x1_0000_0000
  }

  /** The cast changes no length below 2^31, and no multiple of four becomes -1. */
  lemma AsIntIs(v: nat)
    ensures v < 0x8000_0000 ==> AsInt(v) == v
    ensures v % 4 == 0 ==> AsInt(v) != -1
  {
    DivMod(v, 0x1_0000_0000);
    if v < 0x8000_0000 { DivModUnique(v, 0x1_0000_0000, 0, v); }
    if v % 0x1_0000_0000 == 0xffff_ffff { DivModUnique(v, 4, 0x4000_0000 * (v / 0x1_0000_0000) + 0x3fff_ffff, 3); }
  }

  /** base64_encode: the length written, cast to int, or -1 exactly when the digits and the closing
      NUL do not fit. */
  method Encode(dst: array<char>, src: seq<byte>) returns (n: int)
    modifies dst
    ensures n == -1 <==> |Encoded(src)| + 1 > dst.Length
    ensures var len := |Encoded(src)|;
      n != -1 ==> n == AsInt(len) && (len < 0x8000_0000 ==> n == len) && dst[..len] == Encoded(src) && dst[len] == '\0'
  {
    hide Quad, Encoded, Digit, AsInt;
    EncodedLength(src);
    AsIntIs(|Encoded(src)|);
    var need := (|src| + 2) / 3 * 4;
    if need + 1 > dst.Length { return -1; }
    var o, i := 0, 0;
    assert src[0..] == src;
    while i + 3 <= |src|
      invariant i <= |src| && o + |Encoded(src[i..])| == need
      invariant dst[..o] + Encoded(src[i..]) == Encoded(src)
    {
      ghost var was := dst[..o];
      EncodedNext(src, i);
      PutQuad(dst, o, src[i], src[i + 1], src[i + 2]);
      assert dst[..o + 4] == was + Quad(src[i], src[i + 1], src[i + 2]);
      o := o + 4;
      i := i + 3;
    }
    o := PutTail(dst, o, src[i..]);
    dst[o] := '\0';
    n := AsInt(o);
  }

  /** The one or two bytes left over, with their padding. */
  method PutTail(dst: array<char>, o: nat, rest: seq<byte>) returns (p: nat)
    requires |rest| < 3 && o + |Encoded(rest)| < dst.Length
    modifies dst
    ensures p == o + |Encoded(rest)| && dst[..p] == old(dst[..o]) + Encoded(rest)
  {
    hide Quad;
    ghost var was := dst[..o];
    EncodedLength(rest);
    p := o;
    if |rest| == 1 {
      PutQuad(dst, o, rest[0], 0, 0);
      assert dst[o..o + 2] == dst[o..o + 4][..2];
      dst[o + 2] := '=';
      dst[o + 3] := '=';
      p := o + 4;
      assert dst[..p] == was + (dst[o..o + 2] + ['=', '=']);
    } else if |rest| == 2 {
      PutQuad(dst, o, rest[0], rest[1], 0);
      assert dst[o..o + 3] == dst[o..o + 4][..3];
      dst[o + 3] := '=';
      p := o + 4;
      assert dst[..p] == was + (dst[o..o + 3] + ['=']);
    }
  }

  /** base64_decode of a C string: the length written, cast to int, or -1.  The source counts the
      padding in an int, which must not overflow. */
  method Decode(dst: array<byte>, src: string) returns (n: int)
    requires '\0' !in src && multiset(src)['='] < 0x8000_0000
    modifies dst
    ensures match Decoded(src, dst.Length) {
        case None => n == -1
        case Some(v) => |v| <= dst.Length && n == AsInt(|v|) && dst[..|v|] == v
      }
    ensures dst.Length < 0x8000_0000 ==>
      if Decoded(src, dst.Length).None? then n == -1 else n == |Decoded(src, dst.Length).value|
  {
    hide B64Val, Shr, AsInt;
    var acc: u32, bits: nat, pad: nat, o: nat := 0, 0, 0, 0;
    var i := 0;
    assert src[0..] == src && dst[..0] == [];
    while i < |src|
      invariant i <= |src| && o <= dst.Length
      invariant Scan(State([], 0, 0, 0), src, dst.Length) == Scan(State(dst[..o], acc, bits, pad), src[i..], dst.Length)
    {
      var c := src[i];
      ghost var was := dst[..o];
      assert src[i..][0] == c && src[i..][1..] == src[i + 1..];
      i := i + 1;
      if c == '\n' || c == '\r' { continue; }
      if c == '=' { pad := pad + 1; continue; }
      var v := B64Val(c);
      if v.None? { return -1; }
      if pad != 0 { return -1; }
      acc := (acc as nat * 64 + v.value) % 0x1_0000_0000;
      bits := bits + 6;
      if bits >= 8 {
        bits := bits - 8;
        if o >= dst.Length { return -1; }
        dst[o] := Shr(acc, bits) % 0x100;
        o := o + 1;
        assert dst[..o] == was + [Shr(acc, bits) % 0x100];
      }
    }
    if bits >= 6 { return -1; }
    if pad > 2 { return -1; }
    AsIntIs(o);
    n := AsInt(o);
  }
}
