/** Fixed-width little-endian integers: what BinaryWriter appends and BinaryReader takes off. */
module ByteCodec {
  import opened Types

  const TWO32: nat := 0x1_0000_0000
  const TWO64: nat := 0x1_0000_0000_0000_0000

  datatype Result<+T> = Ok(value: T) | Err(error: ReadError) {
    predicate IsFailure() {
      Err?
    }

    function PropagateFailure<U>(): Result<U>
      requires Err?
    {
      Err(error)
    }

    function Extract(): T
      requires Ok?
    {
      value
    }
  }

  datatype ReadError = FileTooSmall | ChecksumMismatch | BadMagic | BadVersion | UnexpectedEnd | BadFilter

  /** Bit `m` of a byte, set if the number is odd. */
  function BitFor(q: nat, m: byte): byte {
    if q % 2 == 1 then m else 0
  }

  /** A number halved `n` times. */
  function Halved(v: nat, n: nat): nat
    decreases n
  {
    if n == 0 then v else Halved(v, n - 1) / 2
  }

  /** The lowest eight bits of a number. */
  function Low(v: nat): byte {
    BitFor(v, 1) | BitFor(Halved(v, 1), 2) | BitFor(Halved(v, 2), 4) | BitFor(Halved(v, 3), 8)
    | BitFor(Halved(v, 4), 16) | BitFor(Halved(v, 5), 32) | BitFor(Halved(v, 6), 64) | BitFor(Halved(v, 7), 128)
  }

  function Part(b: byte, m: byte, n: nat): nat {
    if b & m != 0 then n else 0
  }

  /** The number a byte stands for. */
  function Num(b: byte): nat {
    Part(b, 1, 1) + Part(b, 2, 2) + Part(b, 4, 4) + Part(b, 8, 8)
    + Part(b, 16, 16) + Part(b, 32, 32) + Part(b, 64, 64) + Part(b, 128, 128)
  }

  function Digit(v: nat, n: nat): (r: nat)
    ensures r <= 1
  {
    Halved(v, n) % 2
  }

  lemma LowFlags(v: nat)
    ensures Low(v) & 1 != 0 <==> v % 2 == 1
    ensures Low(v) & 2 != 0 <==> Halved(v, 1) % 2 == 1
    ensures Low(v) & 4 != 0 <==> Halved(v, 2) % 2 == 1
    ensures Low(v) & 8 != 0 <==> Halved(v, 3) % 2 == 1
    ensures Low(v) & 16 != 0 <==> Halved(v, 4) % 2 == 1
    ensures Low(v) & 32 != 0 <==> Halved(v, 5) % 2 == 1
    ensures Low(v) & 64 != 0 <==> Halved(v, 6) % 2 == 1
    ensures Low(v) & 128 != 0 <==> Halved(v, 7) % 2 == 1
  {
    hide Halved;
  }

  lemma PartDigit(b: byte, m: byte, n: nat, v: nat, i: nat)
    requires b & m != 0 <==> Halved(v, i) % 2 == 1
    ensures Part(b, m, n) == n * Digit(v, i)
  {
    hide Halved;
  }

  lemma LowBits(v: nat)
    ensures Num(Low(v)) == Digit(v, 0) + 2 * Digit(v, 1) + 4 * Digit(v, 2) + 8 * Digit(v, 3)
                           + 16 * Digit(v, 4) + 32 * Digit(v, 5) + 64 * Digit(v, 6) + 128 * Digit(v, 7)
  {
    hide Low;
    hide Part;
    hide Digit;
    hide Halved;
    LowFlags(v);
    HalvedNone(v);
    PartDigit(Low(v), 1, 1, v, 0);
    PartDigit(Low(v), 2, 2, v, 1);
    PartDigit(Low(v), 4, 4, v, 2);
    PartDigit(Low(v), 8, 8, v, 3);
    PartDigit(Low(v), 16, 16, v, 4);
    PartDigit(Low(v), 32, 32, v, 5);
    PartDigit(Low(v), 64, 64, v, 6);
    PartDigit(Low(v), 128, 128, v, 7);
  }

  lemma HalfStep(v: nat, n: nat)
    ensures Halved(v, n) == 2 * Halved(v, n + 1) + Digit(v, n)
  {
  }

  lemma Remainder(v: nat, q: nat, r: nat)
    requires v == 256 * q + r && r < 256
    ensures v % 256 == r
  {
  }

  lemma LowValue(v: nat)
    ensures Num(Low(v)) == v % 256
  {
    hide Low;
    hide Num;
    hide Digit;
    hide Halved;
    LowBits(v);
    HalvedNone(v);
    HalfStep(v, 0);
    HalfStep(v, 1);
    HalfStep(v, 2);
    HalfStep(v, 3);
    HalfStep(v, 4);
    HalfStep(v, 5);
    HalfStep(v, 6);
    HalfStep(v, 7);
    Remainder(v, Halved(v, 8), Num(Low(v)));
  }

  lemma HalvedNone(v: nat)
    ensures Halved(v, 0) == v
  {
  }

  /** The low `n` bytes of `v`, lowest first; higher bytes are cut off. */
  function Le(v: nat, n: nat): (r: seq<byte>)
    ensures |r| == n
    decreases n
  {
    if n == 0 then [] else [Low(v)] + Le(v / 256, n - 1)
  }

  function FromLe(b: seq<byte>): nat {
    if b == [] then 0 else Num(b[0]) + 256 * FromLe(b[1..])
  }

  function Power(n: nat): (r: nat)
    ensures r > 0
  {
    if n == 0 then 1 else 256 * Power(n - 1)
  }

  lemma {:induction false} LeRoundTrip(v: nat, n: nat)
    requires v < Power(n)
    ensures FromLe(Le(v, n)) == v
    decreases n
  {
    hide Low;
    hide Num;
    if n > 0 {
      LowValue(v);
      LeRoundTrip(v / 256, n - 1);
    }
  }

  /** Byte `i` of a field is the number's digit `i` to the base 256: the lowest byte comes first. */
  lemma {:induction false} LeDigit(v: nat, n: nat, i: nat)
    requires i < n
    ensures Num(Le(v, n)[i]) == v / Power(i) % 256
    decreases n
  {
    hide Low;
    hide Num;
    LowValue(v);
    if i > 0 {
      LeDigit(v / 256, n - 1, i - 1);
      DivTwice(v, Power(i - 1));
    }
  }

  lemma DivTwice(v: nat, a: nat)
    requires a > 0
    ensures v / 256 / a == v / (256 * a)
  {
    var q := v / 256 / a;
    var r := v / 256 % a;
    assert v / 256 == q * a + r && 0 <= r < a;
    assert v == 256 * (q * a + r) + v % 256;
    Regroup(q, a, r, v % 256);
    QuotientIs(256 * a, q, 256 * r + v % 256);
  }

  lemma Regroup(q: nat, a: nat, r: nat, x: nat)
    ensures 256 * (q * a + r) + x == q * (256 * a) + (256 * r + x)
  {
  }

  lemma TimesOrder(a: nat, b: nat, d: nat)
    requires a <= b
    ensures a * d <= b * d
  {
  }

  lemma QuotientIs(d: nat, q: nat, r: nat)
    requires r < d
    ensures (q * d + r) / d == q && (q * d + r) % d == r
  {
    var v := q * d + r;
    var p := v / d;
    assert v == p * d + v % d;
    if p < q { TimesOrder(p + 1, q, d); }
    if p > q { TimesOrder(q + 1, p, d); }
  }

  lemma Powers()
    ensures Power(1) == 256 && Power(4) == TWO32 && Power(8) == TWO64
  {
    assert Power(2) == 0x1_0000 && Power(3) == 0x100_0000 && Power(4) == TWO32;
    assert Power(5) == 0x100_0000_0000 && Power(6) == 0x1_0000_0000_0000 && Power(7) == 0x100_0000_0000_0000;
  }

  /** `u32` and `u64` of the writer: a wider value is truncated to the field. */
  function U32(v: nat): (r: seq<byte>)
    ensures |r| == 4
  {
    Le(v, 4)
  }

  function U64(v: nat): (r: seq<byte>)
    ensures |r| == 8
  {
    Le(v, 8)
  }

  /** An integer of `n` bytes read at `pos`. */
  function ReadInt(data: seq<byte>, pos: nat, n: nat): Result<nat> {
    if pos + n > |data| then Err(UnexpectedEnd) else Ok(FromLe(data[pos..pos + n]))
  }

  /** The bytes `s` start at `pos`. */
  ghost predicate At(data: seq<byte>, pos: nat, s: seq<byte>) {
    pos + |s| <= |data| && data[pos..pos + |s|] == s
  }

  lemma AtParts(data: seq<byte>, pos: nat, s: seq<byte>, t: seq<byte>)
    requires At(data, pos, s + t)
    ensures At(data, pos, s) && At(data, pos + |s|, t)
  {
    assert data[pos..pos + |s|] == (s + t)[..|s|];
    assert data[pos + |s|..pos + |s| + |t|] == (s + t)[|s|..];
  }

  lemma ReadU32(data: seq<byte>, pos: nat, v: nat)
    requires At(data, pos, U32(v)) && v < TWO32
    ensures ReadInt(data, pos, 4) == Ok(v)
  {
    Powers();
    LeRoundTrip(v, 4);
  }

  lemma ReadU64(data: seq<byte>, pos: nat, v: nat)
    requires At(data, pos, U64(v)) && v < TWO64
    ensures ReadInt(data, pos, 8) == Ok(v)
  {
    Powers();
    LeRoundTrip(v, 8);
  }

  // ----- length-prefixed strings -----

  function Str(s: seq<byte>): (r: seq<byte>)
    ensures |r| == 4 + |s|
  {
    U32(|s|) + s
  }

  function ReadStr(data: seq<byte>, pos: nat): Result<seq<byte>> {
    var len := ReadInt(data, pos, 4);
    if len.Err? then Err(len.error)
    else if pos + 4 + len.value > |data| then Err(UnexpectedEnd)
    else Ok(data[pos + 4..pos + 4 + len.value])
  }

  lemma ReadStrOk(data: seq<byte>, pos: nat, s: seq<byte>)
    requires At(data, pos, Str(s)) && |s| < TWO32
    ensures ReadStr(data, pos) == Ok(s)
  {
    hide U32;
    AtParts(data, pos, U32(|s|), s);
    ReadU32(data, pos, |s|);
  }

  /** `BinaryReader`: a position in the bytes, moved forward by every successful read. */
  class BinaryReader {
    const data: seq<byte>
    var pos: nat

    constructor (data: seq<byte>)
      ensures this.data == data && pos == 0
    {
      this.data := data;
      pos := 0;
    }

    method Int(n: nat) returns (r: Result<nat>)
      modifies this`pos
      ensures r == ReadInt(data, old(pos), n) && pos == old(pos) + if r.Ok? then n else 0
    {
      if pos + n > |data| { return Err(UnexpectedEnd); }
      r := Ok(FromLe(data[pos..pos + n]));
      pos := pos + n;
    }

    method Text() returns (r: Result<seq<byte>>)
      modifies this`pos
      ensures r == ReadStr(data, old(pos)) && (r.Ok? ==> pos == old(pos) + 4 + |r.value|)
    {
      var len :- Int(4);
      if pos + len > |data| { return Err(UnexpectedEnd); }
      r := Ok(data[pos..pos + len]);
      pos := pos + len;
    }
  }
}
