/** The file checksum: a 64-bit shift register, and the bursts it always detects. */
module Crc {
  import opened Types

  /** The polynomial as node.cpp writes it. */
  const POLY: bv64 := 0xad93d23594c935a9

  const ONES: bv64 := 0xFFFF_FFFF_FFFF_FFFF
  const TOP: bv64 := 0x8000_0000_0000_0000

  function Xor(a: bv64, b: bv64): bv64 {
    a ^ b
  }

  /** A byte at the top of the word. */
  function Lift(b: byte): bv64 {
    (b as bv64) << 56
  }

  /** One step of the register. */
  function Shift(c: bv64): bv64 {
    if c & TOP != 0 then (c << 1) ^ POLY else c << 1
  }

  function Shifts(c: bv64, n: nat): bv64
    decreases n
  {
    if n == 0 then c else Shifts(Shift(c), n - 1)
  }

  /** The register after one more byte. */
  function Feed(c: bv64, b: byte): bv64 {
    Shifts(Xor(c, Lift(b)), 8)
  }

  function Register(c: bv64, s: seq<byte>): bv64
    decreases |s|
  {
    if s == [] then c else Register(Feed(c, s[0]), s[1..])
  }

  /** `crc64`. */
  method Crc64(s: seq<byte>) returns (crc: bv64)
    ensures crc == Checksum(s)
  {
    hide Feed;
    crc := ONES;
    for i := 0 to |s|
      invariant Register(crc, s[i..]) == Register(ONES, s)
    {
      assert s[i..][1..] == s[i + 1..];
      crc := FeedByte(crc, s[i]);
    }
    crc := Xor(crc, ONES);
  }

  /** Its inner loop: the byte enters at the top, then eight steps. */
  method FeedByte(c: bv64, b: byte) returns (crc: bv64)
    ensures crc == Feed(c, b)
  {
    hide Xor;
    hide Lift;
    crc := Xor(c, Lift(b));
    for i := 0 to 8
      invariant Shifts(crc, 8 - i) == Feed(c, b)
    {
      crc := if crc & TOP != 0 then (crc << 1) ^ POLY else crc << 1;
    }
  }

  function Checksum(s: seq<byte>): bv64 {
    Xor(Register(ONES, s), ONES)
  }

  // ----- the step is linear and injective -----

  predicate High(a: bv64) {
    a & TOP != 0
  }

  function Up1(a: bv64): bv64 {
    a << 1
  }

  lemma HighXor(a: bv64, b: bv64)
    ensures High(Xor(a, b)) <==> High(a) != High(b)
  {
  }

  lemma UpXor(a: bv64, b: bv64)
    ensures Up1(Xor(a, b)) == Xor(Up1(a), Up1(b))
  {
  }

  lemma XorFacts(a: bv64, b: bv64, p: bv64)
    ensures Xor(Xor(a, p), b) == Xor(Xor(a, b), p)
    ensures Xor(a, Xor(b, p)) == Xor(Xor(a, b), p)
    ensures Xor(Xor(a, p), Xor(b, p)) == Xor(a, b)
  {
  }

  lemma ShiftParts(a: bv64)
    ensures Shift(a) == if High(a) then Xor(Up1(a), POLY) else Up1(a)
  {
  }

  lemma ShiftLinear(a: bv64, b: bv64)
    ensures Shift(Xor(a, b)) == Xor(Shift(a), Shift(b))
  {
    hide Shift;
    hide Xor;
    hide High;
    hide Up1;
    ShiftParts(a);
    ShiftParts(b);
    ShiftParts(Xor(a, b));
    HighXor(a, b);
    UpXor(a, b);
    XorFacts(Up1(a), Up1(b), POLY);
  }

  lemma UpEven(a: bv64)
    ensures (a << 1) ^ POLY != 0
  {
  }

  lemma UpZero(a: bv64)
    requires a & TOP == 0 && a << 1 == 0
    ensures a == 0
  {
  }

  /** Nothing but zero shifts to zero: the polynomial is odd, a left shift is even. */
  lemma ShiftKernel(a: bv64)
    ensures Shift(a) == 0 <==> a == 0
  {
    UpEven(a);
    if a & TOP == 0 && a << 1 == 0 { UpZero(a); }
  }

  lemma {:induction false} ShiftsLinear(a: bv64, b: bv64, n: nat)
    ensures Shifts(Xor(a, b), n) == Xor(Shifts(a, n), Shifts(b, n))
    decreases n
  {
    hide Shift;
    hide Xor;
    if n > 0 {
      ShiftLinear(a, b);
      ShiftsLinear(Shift(a), Shift(b), n - 1);
    }
  }

  lemma {:induction false} ShiftsKernel(a: bv64, n: nat)
    ensures Shifts(a, n) == 0 <==> a == 0
    decreases n
  {
    hide Shift;
    if n > 0 {
      ShiftKernel(a);
      ShiftsKernel(Shift(a), n - 1);
    }
  }

  lemma XorZero(a: bv64, b: bv64)
    ensures Xor(a, b) == 0 <==> a == b
  {
    if a != b { assert a ^ (a ^ b) == b; }
  }

  lemma ShiftsInjective(a: bv64, b: bv64, n: nat)
    requires Shifts(a, n) == Shifts(b, n)
    ensures a == b
  {
    hide Xor;
    ShiftsLinear(a, b, n);
    XorZero(Shifts(a, n), Shifts(b, n));
    ShiftsKernel(Xor(a, b), n);
    XorZero(a, b);
  }

  lemma {:induction false} ShiftsAdd(a: bv64, m: nat, n: nat)
    ensures Shifts(a, m + n) == Shifts(Shifts(a, m), n)
    decreases m
  {
    hide Shift;
    if m > 0 { ShiftsAdd(Shift(a), m - 1, n); }
  }

  // ----- up to eight bytes as one word -----

  /** The bytes packed from the top of the word down. */
  function Word(s: seq<byte>): bv64 {
    if s == [] then 0 else Pack(s[0], Word(s[1..]))
  }

  /** Shifted left by `n` whole bytes. */
  function Up(w: bv64, n: nat): bv64
    decreases n
  {
    if n == 0 then w else Up(Up8(w), n - 1)
  }

  /** One byte up, and the word without its lowest byte. */
  function Up8(w: bv64): bv64 {
    w << 8
  }

  predicate LowFree(w: bv64) {
    w & 0xff == 0
  }

  function Pack(b: byte, w: bv64): bv64 {
    Xor(Lift(b), w >> 8)
  }

  lemma PackUp(b: byte, w: bv64)
    requires LowFree(w)
    ensures Up8(Pack(b, w)) == w
  {
  }

  lemma UpSeven(w: bv64)
    requires Up(w, 7) == 0
    ensures LowFree(w)
  {
    assert Up(w, 7) == Up(w << 8 << 8 << 8 << 8, 3);
    assert w << 8 << 8 << 8 << 8 == w << 32;
    assert w << 56 == 0;
  }

  lemma {:induction false} UpMore(w: bv64, m: nat, n: nat)
    requires Up(w, m) == 0 && m <= n
    ensures Up(w, n) == 0
    decreases n
  {
    hide Up8;
    assert Up8(0) == 0 by { UpNothing(); }
    if m > 0 {
      UpMore(Up8(w), m - 1, n - 1);
    } else if n > 0 {
      UpMore(Up8(w), 0, n - 1);
    }
  }

  lemma UpNothing()
    ensures Up8(0) == 0
  {
  }

  /** A word of fewer than eight bytes has an empty lowest byte; one byte up drops the first. */
  lemma {:induction false} WordLow(s: seq<byte>)
    requires |s| <= 8
    ensures Up(Word(s), |s|) == 0
    ensures |s| < 8 ==> LowFree(Word(s))
    ensures s != [] ==> Up8(Word(s)) == Word(s[1..])
  {
    hide Pack;
    hide Up8;
    hide LowFree;
    if s != [] {
      WordLow(s[1..]);
      PackUp(s[0], Word(s[1..]));
    }
    if |s| < 8 {
      UpMore(Word(s), |s|, 7);
      UpSeven(Word(s));
    }
  }

  // ----- eight shifts move a small word up -----

  lemma TwoFours(w: bv64)
    requires w & 0xff00_0000_0000_0000 == 0
    ensures w & 0xf000_0000_0000_0000 == 0 && (w << 4) & 0xf000_0000_0000_0000 == 0 && (w << 4) << 4 == w << 8
  {
  }

  lemma EightUp(w: bv64)
    requires w & 0xff00_0000_0000_0000 == 0
    ensures Shifts(w, 8) == w << 8
  {
    hide Shifts;
    TwoFours(w);
    FourUp(w);
    FourUp(w << 4);
    ShiftsAdd(w, 4, 4);
  }

  lemma FourUp(w: bv64)
    requires w & 0xf000_0000_0000_0000 == 0
    ensures Shifts(w, 4) == w << 4
  {
    assert w & TOP == 0 && (w << 1) & TOP == 0 && (w << 2) & TOP == 0 && (w << 3) & TOP == 0;
    assert Shift(w) == w << 1 && Shift(w << 1) == w << 2 && Shift(w << 2) == w << 3 && Shift(w << 3) == w << 4;
    assert Shifts(w, 4) == Shifts(w << 2, 2);
  }

  /** Feeding up to eight bytes is shifting the register with the whole word added in. */
  lemma {:induction false} RegisterIsWord(c: bv64, s: seq<byte>)
    requires |s| <= 8
    ensures Register(c, s) == Shifts(Xor(c, Word(s)), 8 * |s|)
    decreases |s|
  {
    hide Xor;
    hide Pack;
    hide LowFree;
    hide Shifts;
    if s == [] {
      XorNothing(c);
      ShiftsNone(c);
    } else {
      var w := Word(s[1..]);
      WordLow(s[1..]);
      RegisterIsWord(Feed(c, s[0]), s[1..]);
      FeedWord(c, s[0], w);
      ShiftsAdd(Xor(c, Word(s)), 8, 8 * |s[1..]|);
    }
  }

  lemma XorNothing(c: bv64)
    ensures Xor(c, 0) == c
  {
  }

  lemma ShiftsNone(c: bv64)
    ensures Shifts(c, 0) == c
  {
  }

  lemma FeedWord(c: bv64, b: byte, w: bv64)
    requires LowFree(w)
    ensures Xor(Feed(c, b), w) == Shifts(Xor(c, Pack(b, w)), 8)
  {
    DownUp(w);
    hide Xor;
    hide Shifts;
    hide Lift;
    XorFacts(c, Lift(b), w >> 8);
    EightUp(w >> 8);
    ShiftsLinear(Xor(c, Lift(b)), w >> 8, 8);
  }

  lemma DownUp(w: bv64)
    requires LowFree(w)
    ensures (w >> 8) << 8 == w && (w >> 8) & 0xff00_0000_0000_0000 == 0
  {
  }

  // ----- burst detection -----

  lemma {:induction false} RegisterAppend(c: bv64, s: seq<byte>, t: seq<byte>)
    ensures Register(c, s + t) == Register(Register(c, s), t)
    decreases |s|
  {
    hide Feed;
    if s == [] {
      assert s + t == t;
    } else {
      assert (s + t)[1..] == s[1..] + t;
      RegisterAppend(Feed(c, s[0]), s[1..], t);
    }
  }

  lemma XorCancel(a: bv64, b: bv64, c: bv64)
    requires Xor(a, c) == Xor(b, c) || Xor(c, a) == Xor(c, b)
    ensures a == b
  {
  }

  /** Two registers that differ still differ after the same bytes. */
  lemma {:induction false} RegisterInjective(c: bv64, d: bv64, s: seq<byte>)
    requires Register(c, s) == Register(d, s)
    ensures c == d
    decreases |s|
  {
    hide Xor;
    hide Shifts;
    if s != [] {
      RegisterInjective(Feed(c, s[0]), Feed(d, s[0]), s[1..]);
      ShiftsInjective(Xor(c, Lift(s[0])), Xor(d, Lift(s[0])), 8);
      XorCancel(c, d, Lift(s[0]));
    }
  }

  lemma PackTop(a: byte, b: byte, v: bv64, w: bv64)
    requires Pack(a, v) == Pack(b, w)
    ensures a == b
  {
  }

  lemma {:induction false} WordInjective(s: seq<byte>, t: seq<byte>)
    requires |s| == |t| <= 8 && Word(s) == Word(t)
    ensures s == t
  {
    hide Pack;
    hide Up8;
    if s != [] {
      PackTop(s[0], t[0], Word(s[1..]), Word(t[1..]));
      WordLow(s);
      WordLow(t);
      WordInjective(s[1..], t[1..]);
      assert s == [s[0]] + s[1..] && t == [t[0]] + t[1..];
    }
  }

  /** For files of any length, a change confined to eight consecutive bytes changes the checksum. */
  lemma BurstDetected(before: seq<byte>, s: seq<byte>, t: seq<byte>, after: seq<byte>)
    requires |s| == |t| <= 8 && s != t
    ensures Checksum(before + s + after) != Checksum(before + t + after)
  {
    hide Xor;
    hide Shifts;
    var c := Register(ONES, before);
    RegisterAppend(ONES, before + s, after);
    RegisterAppend(ONES, before + t, after);
    RegisterAppend(ONES, before, s);
    RegisterAppend(ONES, before, t);
    RegisterIsWord(c, s);
    RegisterIsWord(c, t);
    if Checksum(before + s + after) == Checksum(before + t + after) {
      XorCancel(Register(ONES, before + s + after), Register(ONES, before + t + after), ONES);
      RegisterInjective(Register(c, s), Register(c, t), after);
      ShiftsInjective(Xor(c, Word(s)), Xor(c, Word(t)), 8 * |s|);
      XorCancel(Word(s), Word(t), c);
      WordInjective(s, t);
    }
  }

  // ----- the trailer -----

  /** The checksum as the last eight bytes of a file, lowest byte first. */
  function Trailer(c: bv64): (r: seq<byte>)
    ensures |r| == 8
  {
    [(c & 0xff) as byte, ((c >> 8) & 0xff) as byte, ((c >> 16) & 0xff) as byte, ((c >> 24) & 0xff) as byte,
     ((c >> 32) & 0xff) as byte, ((c >> 40) & 0xff) as byte, ((c >> 48) & 0xff) as byte, ((c >> 56) & 0xff) as byte]
  }

  function Stored(b: seq<byte>): bv64
    requires |b| == 8
  {
    (b[0] as bv64) | ((b[1] as bv64) << 8) | ((b[2] as bv64) << 16) | ((b[3] as bv64) << 24)
    | ((b[4] as bv64) << 32) | ((b[5] as bv64) << 40) | ((b[6] as bv64) << 48) | ((b[7] as bv64) << 56)
  }

  /** The lowest byte comes first. */
  lemma TrailerOrder()
    ensures Trailer(0x0123456789abcdef) == [0xef, 0xcd, 0xab, 0x89, 0x67, 0x45, 0x23, 0x01]
  {
  }

  lemma TrailerRoundTrip(c: bv64)
    ensures Stored(Trailer(c)) == c
  {
  }
}
