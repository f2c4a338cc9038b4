/** What the checksum is: the remainder of a carry-less polynomial division. */
module CrcLaw {
  import opened Types
  import opened Crc

  /** A polynomial over GF(2): its coefficients, the highest power first. */
  type Poly = seq<bool>

  function Fill(n: nat, b: bool): (r: Poly)
    ensures |r| == n && forall i :: 0 <= i < n ==> r[i] == b
  {
    seq(n, _ => b)
  }

  /** Addition, which is also subtraction. */
  function Plus(a: Poly, b: Poly): (r: Poly)
    requires |a| == |b|
    ensures |r| == |a| && forall i :: 0 <= i < |a| ==> r[i] == (a[i] != b[i])
  {
    seq(|a|, i requires 0 <= i < |a| => a[i] != b[i])
  }

  /** Carry-less multiplication by a divisor of 65 coefficients: shift and add, one factor bit at a time. */
  function Times(q: Poly, g: Poly): (r: Poly)
    requires |g| == 65
    ensures |r| == |q| + 64
  {
    if q == [] then Fill(64, false)
    else
      var rest := q[..|q| - 1];
      Plus(Times(rest, g) + [false], Fill(|rest|, false) + if q[|q| - 1] then g else Fill(65, false))
  }

  // ----- words and bytes as polynomials -----

  /** The highest `n` bits of a word. */
  function Bits(c: bv64, n: nat): (r: Poly)
    ensures |r| == n
    decreases n
  {
    if n == 0 then [] else [High(c)] + Bits(Up1(c), n - 1)
  }

  function ByteBits(b: byte): (r: Poly)
    ensures |r| == 8
  {
    [b & 128 != 0, b & 64 != 0, b & 32 != 0, b & 16 != 0, b & 8 != 0, b & 4 != 0, b & 2 != 0, b & 1 != 0]
  }

  /** A message, its first byte's highest bit first. */
  function Message(s: seq<byte>): (r: Poly)
    ensures |r| == 8 * |s|
  {
    if s == [] then [] else ByteBits(s[0]) + Message(s[1..])
  }

  /** x^64 and the polynomial that the code writes down. */
  function Divisor(): (g: Poly)
    ensures |g| == 65
  {
    [true] + Bits(POLY, 64)
  }

  // ----- the register, one message bit at a time -----

  function StepBit(c: bv64, b: bool): bv64 {
    if High(c) != b then Xor(Up1(c), POLY) else Up1(c)
  }

  function StepBits(c: bv64, m: Poly): bv64
    decreases |m|
  {
    if m == [] then c else StepBits(StepBit(c, m[0]), m[1..])
  }

  function UpBits(c: bv64, n: nat): bv64
    decreases n
  {
    if n == 0 then c else UpBits(Up1(c), n - 1)
  }

  lemma ShiftIsStep(c: bv64, w: bv64)
    ensures Shift(Xor(c, w)) == Xor(StepBit(c, High(w)), Up1(w))
  {
    hide Shift;
    hide Xor;
    hide High;
    hide Up1;
    ShiftParts(Xor(c, w));
    HighXor(c, w);
    UpXor(c, w);
    XorFacts(Up1(c), Up1(w), POLY);
  }

  /** Adding a word in and shifting is the same as feeding its highest bits one by one. */
  lemma {:induction false} ShiftsAreSteps(c: bv64, w: bv64, n: nat)
    ensures Shifts(Xor(c, w), n) == Xor(StepBits(c, Bits(w, n)), UpBits(w, n))
    decreases n
  {
    hide Shift;
    hide Xor;
    hide High;
    hide Up1;
    hide StepBit;
    if n > 0 {
      ShiftIsStep(c, w);
      ShiftsAreSteps(StepBit(c, High(w)), Up1(w), n - 1);
      assert Bits(w, n)[1..] == Bits(Up1(w), n - 1);
    }
  }

  lemma LiftBits(b: byte)
    ensures Bits(Lift(b), 8) == ByteBits(b) && UpBits(Lift(b), 8) == 0
  {
    hide Lift;
    hide High;
    hide Up1;
    hide Bits;
    hide UpBits;
    hide ByteBits;
    var w0 := Lift(b);
    var w1 := Up1(w0);
    var w2 := Up1(w1);
    var w3 := Up1(w2);
    var w4 := Up1(w3);
    var w5 := Up1(w4);
    var w6 := Up1(w5);
    var w7 := Up1(w6);
    var w8 := Up1(w7);
    LiftChain(b);
    TwoBits(w0, 6);
    TwoBits(w2, 4);
    TwoBits(w4, 2);
    TwoBits(w6, 0);
    NoBits(w8);
    Eight(High(w0), High(w1), High(w2), High(w3), High(w4), High(w5), High(w6), High(w7));
  }

  lemma Eight(a: bool, b: bool, c: bool, d: bool, e: bool, f: bool, g: bool, h: bool)
    ensures [a, b] + ([c, d] + ([e, f] + ([g, h] + []))) == [a, b, c, d, e, f, g, h]
  {
  }

  lemma TwoBits(w: bv64, n: nat)
    ensures Bits(w, n + 2) == [High(w), High(Up1(w))] + Bits(Up1(Up1(w)), n)
    ensures UpBits(w, n + 2) == UpBits(Up1(Up1(w)), n)
  {
    hide High;
    hide Up1;
    hide Bits;
    hide UpBits;
    OneBit(w, n + 1);
    OneBit(Up1(w), n);
    Prepend(High(w), High(Up1(w)), Bits(Up1(Up1(w)), n));
  }

  lemma OneBit(w: bv64, n: nat)
    ensures Bits(w, n + 1) == [High(w)] + Bits(Up1(w), n) && UpBits(w, n + 1) == UpBits(Up1(w), n)
  {
    hide High;
    hide Up1;
  }

  lemma Prepend(a: bool, b: bool, x: Poly)
    ensures [a] + ([b] + x) == [a, b] + x
  {
  }

  lemma NoBits(w: bv64)
    ensures Bits(w, 0) == [] && UpBits(w, 0) == w
  {
  }

  lemma LiftChain(b: byte)
    ensures var w0 := Lift(b);
            var w1 := Up1(w0);
            var w2 := Up1(w1);
            var w3 := Up1(w2);
            var w4 := Up1(w3);
            var w5 := Up1(w4);
            var w6 := Up1(w5);
            var w7 := Up1(w6);
            && ByteBits(b) == [High(w0), High(w1), High(w2), High(w3), High(w4), High(w5), High(w6), High(w7)]
            && Up1(w7) == 0
  {
    hide Lift;
    hide High;
    hide Up1;
    LiftShifts(Lift(b));
    LiftFlags(b);
  }

  lemma LiftShifts(w: bv64)
    ensures Up1(w) == w << 1 && Up1(w << 1) == w << 2 && Up1(w << 2) == w << 3 && Up1(w << 3) == w << 4
    ensures Up1(w << 4) == w << 5 && Up1(w << 5) == w << 6 && Up1(w << 6) == w << 7 && Up1(w << 7) == w << 8
  {
  }

  lemma LiftFlags(b: byte)
    ensures High(Lift(b)) <==> b & 128 != 0
    ensures High(Lift(b) << 1) <==> b & 64 != 0
    ensures High(Lift(b) << 2) <==> b & 32 != 0
    ensures High(Lift(b) << 3) <==> b & 16 != 0
    ensures High(Lift(b) << 4) <==> b & 8 != 0
    ensures High(Lift(b) << 5) <==> b & 4 != 0
    ensures High(Lift(b) << 6) <==> b & 2 != 0
    ensures High(Lift(b) << 7) <==> b & 1 != 0
    ensures Lift(b) << 8 == 0
  {
  }

  lemma FeedIsSteps(c: bv64, b: byte)
    ensures Feed(c, b) == StepBits(c, ByteBits(b))
  {
    hide Shifts;
    hide Xor;
    hide Lift;
    hide StepBits;
    LiftBits(b);
    ShiftsAreSteps(c, Lift(b), 8);
    XorNothing(StepBits(c, ByteBits(b)));
  }

  lemma {:induction false} StepsAppend(c: bv64, m: Poly, n: Poly)
    ensures StepBits(c, m + n) == StepBits(StepBits(c, m), n)
    decreases |m|
  {
    hide StepBit;
    if m == [] {
      assert m + n == n;
    } else {
      assert (m + n)[1..] == m[1..] + n;
      StepsAppend(StepBit(c, m[0]), m[1..], n);
    }
  }

  lemma {:induction false} RegisterIsSteps(c: bv64, s: seq<byte>)
    ensures Register(c, s) == StepBits(c, Message(s))
    decreases |s|
  {
    hide StepBits;
    hide Feed;
    hide ByteBits;
    if s == [] {
      NoSteps(c);
    } else {
      FeedIsSteps(c, s[0]);
      RegisterIsSteps(Feed(c, s[0]), s[1..]);
      StepsAppend(c, ByteBits(s[0]), Message(s[1..]));
    }
  }

  lemma NoSteps(c: bv64)
    ensures StepBits(c, []) == c
  {
  }

  // ----- bits of shifted and added words -----

  lemma {:induction false} BitsAppend(c: bv64, m: nat, n: nat)
    ensures Bits(c, m + n) == Bits(c, m) + Bits(UpBits(c, m), n)
    decreases m
  {
    hide High;
    hide Up1;
    if m > 0 {
      BitsAppend(Up1(c), m - 1, n);
      assert Bits(c, m + n) == [High(c)] + Bits(Up1(c), m - 1 + n);
    }
  }

  lemma {:induction false} UpAppend(c: bv64, m: nat, n: nat)
    ensures UpBits(c, m + n) == UpBits(UpBits(c, m), n)
    decreases m
  {
    hide Up1;
    if m > 0 { UpAppend(Up1(c), m - 1, n); }
  }

  lemma UpEight(c: bv64)
    ensures UpBits(c, 8) == Up8(c)
  {
    hide UpBits;
    hide Up1;
    hide High;
    TwoBits(c, 6);
    TwoBits(Up1(Up1(c)), 4);
    TwoBits(Up1(Up1(Up1(Up1(c)))), 2);
    TwoBits(Up1(Up1(Up1(Up1(Up1(Up1(c)))))), 0);
    EightOnes(c);
    NoBits(Up8(c));
  }

  lemma EightOnes(c: bv64)
    ensures Up1(Up1(Up1(Up1(Up1(Up1(Up1(Up1(c)))))))) == Up8(c)
  {
    LiftShifts(c);
    hide Up1;
  }

  lemma {:induction false} UpBytes(c: bv64, n: nat)
    ensures UpBits(c, 8 * n) == Up(c, n)
    decreases n
  {
    hide Up8;
    if n > 0 {
      UpEight(c);
      UpAppend(c, 8, 8 * (n - 1));
      UpBytes(Up8(c), n - 1);
    }
  }

  lemma UpAll(c: bv64)
    ensures UpBits(c, 64) == 0
  {
    UpBytes(c, 8);
    assert Up(c, 8) == Up(c << 8 << 8 << 8 << 8, 4);
    assert c << 8 << 8 << 8 << 8 == c << 32;
    assert Up(c << 32, 4) == c << 32 << 8 << 8 << 8 << 8;
    assert c << 32 << 8 << 8 << 8 << 8 == 0;
  }

  /** One place up: the highest bit leaves, a zero enters. */
  lemma BitsUp(c: bv64)
    ensures Bits(c, 64) + [false] == [High(c)] + Bits(Up1(c), 64)
  {
    hide Up1;
    UpAll(c);
    BitsAppend(c, 64, 1);
    ZeroBit();
    assert Bits(c, 65) == [High(c)] + Bits(Up1(c), 64);
  }

  lemma ZeroBit()
    ensures Bits(0, 1) == [false]
  {
    assert Bits(0, 1) == [High(0)] + Bits(Up1(0), 0);
  }

  lemma PlusHead(x: bool, y: bool, a: Poly, b: Poly)
    requires |a| == |b|
    ensures Plus([x] + a, [y] + b) == [x != y] + Plus(a, b)
  {
  }

  lemma {:induction false} BitsXor(a: bv64, b: bv64, n: nat)
    ensures Bits(Xor(a, b), n) == Plus(Bits(a, n), Bits(b, n))
    decreases n
  {
    hide Xor;
    hide High;
    hide Up1;
    if n > 0 {
      HighXor(a, b);
      UpXor(a, b);
      BitsXor(Up1(a), Up1(b), n - 1);
      PlusHead(High(a), High(b), Bits(Up1(a), n - 1), Bits(Up1(b), n - 1));
    }
  }

  lemma OneByte(c: bv64)
    requires c & 0xff00_0000_0000_0000 == 0xff00_0000_0000_0000
    ensures Bits(c, 8) == Fill(8, true)
  {
    hide Bits;
    hide UpBits;
    TopOnes(c);
    hide High;
    hide Up1;
    TwoBits(c, 6);
    TwoBits(Up1(Up1(c)), 4);
    TwoBits(Up1(Up1(Up1(Up1(c)))), 2);
    TwoBits(Up1(Up1(Up1(Up1(Up1(Up1(c)))))), 0);
    NoBits(Up1(Up1(Up1(Up1(Up1(Up1(Up1(Up1(c)))))))));
    Eight(true, true, true, true, true, true, true, true);
  }

  lemma TopOnes(c: bv64)
    requires c & 0xff00_0000_0000_0000 == 0xff00_0000_0000_0000
    ensures High(c) && High(Up1(c)) && High(Up1(Up1(c))) && High(Up1(Up1(Up1(c)))) && High(Up1(Up1(Up1(Up1(c)))))
    ensures High(Up1(Up1(Up1(Up1(Up1(c)))))) && High(Up1(Up1(Up1(Up1(Up1(Up1(c)))))))
    ensures High(Up1(Up1(Up1(Up1(Up1(Up1(Up1(c))))))))
  {
  }

  /** All ones from the top down to the last `n` bytes. */
  lemma {:induction false} OnesFrom(c: bv64, n: nat)
    requires n <= 8 && c == Up(ONES, 8 - n)
    ensures Bits(c, 8 * n) == Fill(8 * n, true)
    decreases n
  {
    hide Bits;
    hide Up8;
    hide Up;
    hide UpBits;
    hide Fill;
    if n > 0 {
      FillAdd(8, 8 * (n - 1), true);
      OnesTop(8 - n);
      OneByte(c);
      UpEight(c);
      BitsAppend(c, 8, 8 * (n - 1));
      UpLast(ONES, 8 - n);
      OnesFrom(Up8(c), n - 1);
    } else {
      NoBits(c);
      assert Fill(0, true) == [];
    }
  }

  lemma FillAdd(m: nat, n: nat, b: bool)
    ensures Fill(m, b) + Fill(n, b) == Fill(m + n, b)
  {
  }

  lemma {:induction false} UpLast(c: bv64, n: nat)
    ensures Up8(Up(c, n)) == Up(c, n + 1)
    decreases n
  {
    hide Up8;
    if n > 0 { UpLast(Up8(c), n - 1); }
  }

  lemma OnesTop(k: nat)
    requires k < 8
    ensures Up(ONES, k) & 0xff00_0000_0000_0000 == 0xff00_0000_0000_0000
  {
    UpLast(ONES, 0);
    UpLast(ONES, 1);
    UpLast(ONES, 2);
    UpLast(ONES, 3);
    UpLast(ONES, 4);
    UpLast(ONES, 5);
    UpLast(ONES, 6);
    assert Up(ONES, 0) == ONES;
  }

  lemma AllOnes()
    ensures Bits(ONES, 64) == Fill(64, true)
  {
    assert Up(ONES, 0) == ONES;
    OnesFrom(ONES, 8);
  }

  // ----- division -----

  /** The message followed by 64 zeros, its first 64 coefficients complemented. */
  function Dividend(m: Poly): (r: Poly)
    ensures |r| == |m| + 64
  {
    Plus(m + Fill(64, false), Fill(64, true) + Fill(|m|, false))
  }

  /** `q` is a quotient of the message by the divisor, `r` the remainder. */
  ghost predicate Divides(m: Poly, q: Poly, r: bv64) {
    |q| == |m| && Dividend(m) == Plus(Times(q, Divisor()), Fill(|m|, false) + Bits(r, 64))
  }

  lemma NothingDivides()
    ensures Divides([], [], ONES)
  {
    hide Bits;
    AllOnes();
  }

  lemma DividendStep(m: Poly, b: bool)
    ensures Dividend(m + [b]) == Plus(Dividend(m) + [false], Fill(|m|, false) + [b] + Fill(64, false))
  {
  }

  lemma PlusAssoc(a: Poly, b: Poly, c: Poly)
    requires |a| == |b| == |c|
    ensures Plus(a, Plus(b, c)) == Plus(Plus(a, b), c)
  {
  }

  /** The next remainder, as polynomials. */
  lemma RemainderStep(r: bv64, b: bool)
    ensures var t := High(r) != b;
            [t] + Bits(Up1(r), 64) == Plus(if t then Divisor() else Fill(65, false), [false] + Bits(StepBit(r, b), 64))
  {
    hide Bits;
    hide High;
    hide Up1;
    hide Xor;
    BitsXor(Up1(r), POLY, 64);
  }

  lemma DivideStep(m: Poly, q: Poly, r: bv64, b: bool)
    requires Divides(m, q, r)
    ensures Divides(m + [b], q + [High(r) != b], StepBit(r, b))
  {
    hide Bits;
    hide High;
    hide Up1;
    hide Xor;
    hide Divisor;
    hide StepBit;
    hide Times;
    hide Dividend;
    hide Plus;
    hide Fill;
    var t := High(r) != b;
    var z, u := Fill(|m|, false), Bits(Up1(r), 64);
    var g := if t then Divisor() else Fill(65, false);
    var next := [false] + Bits(StepBit(r, b), 64);
    DividendStep(m, b);
    BitsUp(r);
    RemainderStep(r, b);
    FirstSum(Times(q, Divisor()), z, Bits(r, 64), u, High(r), b);
    SecondSum(Times(q, Divisor()) + [false], z, [t] + u, g, next);
    TimesStep(q, t, Divisor());
    OneMore(|m|, Bits(StepBit(r, b), 64));
  }

  lemma TimesStep(q: Poly, t: bool, g: Poly)
    requires |g| == 65
    ensures Times(q + [t], g) == Plus(Times(q, g) + [false], Fill(|q|, false) + if t then g else Fill(65, false))
  {
    assert (q + [t])[..|q|] == q;
  }

  lemma OneMore(n: nat, x: Poly)
    ensures Fill(n, false) + ([false] + x) == Fill(n + 1, false) + x
  {
  }

  lemma FirstSum(x: Poly, z: Poly, w: Poly, u: Poly, h: bool, b: bool)
    requires |w| == |u| == 64 && |x| == |z| + 64 && (forall i :: 0 <= i < |z| ==> !z[i]) && w + [false] == [h] + u
    ensures Plus(Plus(x, z + w) + [false], z + [b] + Fill(64, false)) == Plus(x + [false], z + ([h != b] + u))
  {
    assert z + w + [false] == z + ([h] + u) by { assert z + (w + [false]) == z + w + [false]; }
    assert Plus(x, z + w) + [false] == Plus(x + [false], z + w + [false]);
  }

  lemma SecondSum(x: Poly, z: Poly, v: Poly, g: Poly, next: Poly)
    requires |v| == |g| == |next| == 65 && |x| == |z| + 65 && (forall i :: 0 <= i < |z| ==> !z[i]) && v == Plus(g, next)
    ensures Plus(x, z + v) == Plus(Plus(x, z + g), z + next)
  {
    assert z + v == Plus(z + g, z + next);
    PlusAssoc(x, z + g, z + next);
  }

  lemma {:induction false} RegisterDivides(m: Poly) returns (q: Poly)
    ensures Divides(m, q, StepBits(ONES, m))
  {
    hide StepBit;
    hide Divides;
    if m == [] {
      q := [];
      NothingDivides();
    } else {
      var before, b := m[..|m| - 1], m[|m| - 1];
      q := RegisterDivides(before);
      var r := StepBits(ONES, before);
      StepsAppend(ONES, before, [b]);
      assert m == before + [b];
      assert StepBits(r, [b]) == StepBits(StepBit(r, b), []);
      DivideStep(before, q, r, b);
      q := q + [High(r) != b];
    }
  }

  /**
   * The checksum, complemented, is the remainder of the message (64 zeros appended, the first 64
   * bits complemented) divided by x^64 plus the code's polynomial, over GF(2).
   */
  lemma ChecksumIsRemainder(s: seq<byte>) returns (q: Poly)
    ensures |q| == 8 * |s|
    ensures Plus(Message(s) + Fill(64, false), Fill(64, true) + Fill(8 * |s|, false))
            == Plus(Times(q, Divisor()), Fill(8 * |s|, false) + Bits(Xor(Checksum(s), ONES), 64))
  {
    hide Bits;
    hide Xor;
    q := RegisterDivides(Message(s));
    RegisterIsSteps(ONES, s);
    XorTwice(Register(ONES, s), ONES);
  }

  lemma XorTwice(a: bv64, b: bv64)
    ensures Xor(Xor(a, b), b) == a
  {
  }

  lemma EmptyChecksum()
    ensures Checksum([]) == 0
  {
  }
}
