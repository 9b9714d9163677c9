/** CRC-32 as the integrity check computes it (src/main/integrity.ts:191-215): a 256-entry table filled by two
    nested loops, a byte loop with a seed, and a file digest that chains the seed over the chunks of a stream.
    The JavaScript operators `^`, `&`, `>>>` on 32-bit operands are exactly those of `bv32`.

    The reference is the bit-serial register that section 8 of RFC 1952 tabulates: one message bit at a time,
    least significant bit of each byte first. */
module Crc32 {
  const POLYNOMIAL: bv32 := 0xedb8_8320
  const ONES: bv32 := 0xffff_ffff

  // ---------------------------------------------------------------- words

  function Xor(x: bv32, y: bv32): bv32 { x ^ y }
  function Half(x: bv32): bv32 { x >> 1 }
  predicate Odd(x: bv32) { x & 1 == 1 }

  lemma HalfXor(x: bv32, y: bv32)
    ensures Half(Xor(x, y)) == Xor(Half(x), Half(y))
  {}

  lemma OddXor(x: bv32, y: bv32)
    ensures Odd(Xor(x, y)) == (Odd(x) != Odd(y))
  {}

  lemma RawAssoc(x: bv32, y: bv32, z: bv32)
    ensures x ^ (y ^ z) == (x ^ y) ^ z
  {}

  lemma XorAssoc(x: bv32, y: bv32, z: bv32)
    ensures Xor(x, Xor(y, z)) == Xor(Xor(x, y), z)
  {
    RawAssoc(x, y, z);
  }

  lemma XorComm(x: bv32, y: bv32)
    ensures Xor(x, y) == Xor(y, x)
  {}

  lemma XorTwice(x: bv32, y: bv32)
    ensures Xor(x, Xor(x, y)) == y
  {}

  lemma XorSame(x: bv32, b: bv32)
    ensures Xor(b, b) == 0 && Xor(x, 0) == x && Xor(0, x) == x
  {}

  lemma Shuffle(x: bv32, b: bv32, y: bv32)
    ensures Xor(x, y) == Xor(Xor(x, b), Xor(y, b))
  {
    XorAssoc(Xor(x, b), b, y);
    XorComm(b, y);
    XorAssoc(x, b, b);
    XorSame(x, b);
  }

  // ---------------------------------------------------------------- the bit-serial reference

  /** One step of the division by the reflected polynomial. */
  function BitStep(c: bv32): bv32 {
    if Odd(c) then Xor(POLYNOMIAL, Half(c)) else Half(c)
  }

  function Bit(b: bool): bv32 { if b then 1 else 0 }

  /** The register after `bits`, fed one by one. */
  function Serial(state: bv32, bits: seq<bool>): bv32
    decreases |bits|
  {
    if bits == [] then state
    else BitStep(Xor(Serial(state, bits[..|bits| - 1]), Bit(bits[|bits| - 1])))
  }

  function HalfN(n: nat, c: bv32): bv32 { if n == 0 then c else Half(HalfN(n - 1, c)) }

  /** The `n` lowest bits of a word, lowest first. */
  function BitsOf(w: bv32, n: nat): seq<bool>
    ensures |BitsOf(w, n)| == n
  {
    if n == 0 then [] else BitsOf(w, n - 1) + [Odd(HalfN(n - 1, w))]
  }

  function ByteBits(b: bv8): seq<bool> { BitsOf(b as bv32, 8) }

  function Bits(data: seq<bv8>): seq<bool>
    decreases |data|
  {
    if data == [] then [] else Bits(data[..|data| - 1]) + ByteBits(data[|data| - 1])
  }

  function ReferenceCrc(data: seq<bv8>): bv32 { Xor(Serial(ONES, Bits(data)), ONES) }

  // ---------------------------------------------------------------- the step is linear and injective

  function Pow(n: nat, c: bv32): bv32 { if n == 0 then c else BitStep(Pow(n - 1, c)) }

  lemma BitStepXor(x: bv32, y: bv32)
    ensures BitStep(Xor(x, y)) == Xor(BitStep(x), BitStep(y))
  {
    HalfXor(x, y);
    OddXor(x, y);
    var p, a, b := POLYNOMIAL, Half(x), Half(y);
    if Odd(x) && Odd(y) {
      XorAssoc(Xor(p, a), p, b);
      XorComm(Xor(p, a), p);
      XorTwice(p, a);
    } else if Odd(x) {
      XorAssoc(p, a, b);
    } else if Odd(y) {
      XorAssoc(a, p, b);
      XorComm(a, p);
      XorAssoc(p, a, b);
    }
  }

  lemma {:induction false} PowXor(n: nat, x: bv32, y: bv32)
    ensures Pow(n, Xor(x, y)) == Xor(Pow(n, x), Pow(n, y))
  {
    if n > 0 {
      PowXor(n - 1, x, y);
      BitStepXor(Pow(n - 1, x), Pow(n - 1, y));
    }
  }

  lemma BitStepZero(x: bv32)
    ensures BitStep(x) == 0 <==> x == 0
  {}

  lemma XorZero(x: bv32, y: bv32)
    ensures Xor(x, y) == 0 <==> x == y
  {
    hide Xor;
    XorTwice(x, y);
    XorSame(x, x);
  }

  /** No information is lost by a step, because the top bit of the polynomial is set. */
  lemma BitStepInjective(x: bv32, y: bv32)
    ensures BitStep(x) == BitStep(y) <==> x == y
  {
    BitStepXor(x, y);
    BitStepZero(Xor(x, y));
    XorZero(BitStep(x), BitStep(y));
    XorZero(x, y);
  }

  lemma {:induction false} PowInjective(n: nat, x: bv32, y: bv32)
    ensures Pow(n, x) == Pow(n, y) <==> x == y
  {
    if n > 0 {
      PowInjective(n - 1, x, y);
      BitStepInjective(Pow(n - 1, x), Pow(n - 1, y));
    }
  }

  lemma XorCancel(x: bv32, y: bv32, z: bv32)
    ensures Xor(x, z) == Xor(y, z) <==> x == y
    ensures Xor(z, x) == Xor(z, y) <==> x == y
  {
    XorComm(x, z);
    XorComm(y, z);
    XorTwice(z, x);
    XorTwice(z, y);
  }

  lemma {:induction false} SerialInjective(s: bv32, t: bv32, bits: seq<bool>)
    ensures Serial(s, bits) == Serial(t, bits) <==> s == t
    decreases |bits|
  {
    if bits != [] {
      var init, b := bits[..|bits| - 1], Bit(bits[|bits| - 1]);
      SerialInjective(s, t, init);
      XorCancel(Serial(s, init), Serial(t, init), b);
      BitStepInjective(Xor(Serial(s, init), b), Xor(Serial(t, init), b));
    }
  }

  lemma {:induction false} SerialAppend(s: bv32, xs: seq<bool>, ys: seq<bool>)
    ensures Serial(s, xs + ys) == Serial(Serial(s, xs), ys)
    decreases |ys|
  {
    if ys == [] {
      assert xs + ys == xs;
    } else {
      assert (xs + ys)[..|xs + ys| - 1] == xs + ys[..|ys| - 1];
      SerialAppend(s, xs, ys[..|ys| - 1]);
    }
  }

  // ---------------------------------------------------------------- up to 32 bits as one word

  lemma OneBit(b: bool)
    ensures Half(Bit(b)) == 0 && Odd(Bit(b)) == b
  {}

  lemma BitStepOfLow(x: bv32)
    ensures BitStep(Xor(x, Bit(Odd(x)))) == Half(x)
  {
    hide Xor, Half, Odd, Bit;
    var b := Bit(Odd(x));
    OneBit(Odd(x));
    OddXor(x, b);
    HalfXor(x, b);
    XorSame(Half(x), b);
  }

  /** Feeding the low bits of a word one by one is xoring the word into the register at once and stepping;
      what is left of the word shows up unchanged. */
  lemma {:induction false} SerialOfWord(s: bv32, w: bv32, n: nat)
    ensures Pow(n, Xor(s, w)) == Xor(Serial(s, BitsOf(w, n)), HalfN(n, w))
  {
    if n > 0 {
      var rest := HalfN(n - 1, w);
      var fed, b := Serial(s, BitsOf(w, n - 1)), Bit(Odd(rest));
      SerialOfWord(s, w, n - 1);
      assert BitsOf(w, n)[..n - 1] == BitsOf(w, n - 1);
      assert Serial(s, BitsOf(w, n)) == BitStep(Xor(fed, b));
      Shuffle(fed, b, rest);
      BitStepXor(Xor(fed, b), Xor(rest, b));
      BitStepOfLow(rest);
    }
  }

  function Pack(bits: seq<bool>): bv32
    decreases |bits|
  {
    if bits == [] then 0 else Xor(Bit(bits[0]), Twice(Pack(bits[1..])))
  }

  function Twice(x: bv32): bv32 { x << 1 }

  lemma {:induction false} HalfNFront(n: nat, c: bv32)
    requires n > 0
    ensures HalfN(n, c) == HalfN(n - 1, Half(c))
  {
    if n > 1 {
      HalfNFront(n - 1, c);
    } else {
      assert HalfN(1, c) == Half(HalfN(0, c));
    }
  }

  lemma {:induction false} HalfNZero(n: nat, m: nat, c: bv32)
    requires n <= m && HalfN(n, c) == 0
    ensures HalfN(m, c) == 0
    decreases m
  {
    if n < m { HalfNZero(n, m - 1, c); }
  }

  function ByteShift(c: bv32): bv32 { c >> 8 }

  lemma EightHalves(c: bv32)
    ensures Half(Half(Half(Half(Half(Half(Half(Half(c)))))))) == ByteShift(c)
  {}

  lemma Half8(c: bv32)
    ensures HalfN(8, c) == ByteShift(c)
  {
    hide Half, ByteShift;
    EightHalves(c);
    assert HalfN(1, c) == Half(HalfN(0, c));
    assert HalfN(2, c) == Half(HalfN(1, c));
    assert HalfN(3, c) == Half(HalfN(2, c));
    assert HalfN(4, c) == Half(HalfN(3, c));
    assert HalfN(5, c) == Half(HalfN(4, c));
    assert HalfN(6, c) == Half(HalfN(5, c));
    assert HalfN(7, c) == Half(HalfN(6, c));
  }

  lemma {:induction false} HalfNSum(n: nat, m: nat, c: bv32)
    ensures HalfN(n + m, c) == HalfN(n, HalfN(m, c))
    decreases n
  {
    if n > 0 { HalfNSum(n - 1, m, c); }
  }

  lemma Half7(c: bv32)
    ensures HalfN(7, c) == Half(Half(Half(Half(Half(Half(Half(c)))))))
  {
    hide Half;
    assert HalfN(1, c) == Half(HalfN(0, c));
    assert HalfN(2, c) == Half(HalfN(1, c));
    assert HalfN(3, c) == Half(HalfN(2, c));
    assert HalfN(4, c) == Half(HalfN(3, c));
    assert HalfN(5, c) == Half(HalfN(4, c));
    assert HalfN(6, c) == Half(HalfN(5, c));
  }

  lemma TopBitClear(c: bv32)
    requires Half(Half(Half(Half(Half(Half(Half(ByteShift(ByteShift(ByteShift(c)))))))))) == 0
    ensures Half(Twice(c)) == c && Half(Xor(1, Twice(c))) == c
  {}

  lemma Half31(c: bv32)
    requires HalfN(31, c) == 0
    ensures Half(Twice(c)) == c && Half(Xor(1, Twice(c))) == c
  {
    hide Half, HalfN, ByteShift, Twice, Xor;
    HalfNSum(7, 24, c);
    HalfNSum(8, 16, c);
    HalfNSum(8, 8, c);
    Half8(c);
    Half8(ByteShift(c));
    Half8(ByteShift(ByteShift(c)));
    Half7(ByteShift(ByteShift(ByteShift(c))));
    TopBitClear(c);
  }

  lemma OddTwice(c: bv32)
    ensures !Odd(Twice(c)) && Odd(Xor(1, Twice(c))) && Xor(0, Twice(c)) == Twice(c)
  {}

  lemma {:induction false} BitsOfFront(w: bv32, n: nat)
    requires n > 0
    ensures BitsOf(w, n) == [Odd(w)] + BitsOf(Half(w), n - 1)
  {
    if n > 1 {
      BitsOfFront(w, n - 1);
      HalfNFront(n - 1, w);
    }
  }

  /** Up to 32 bits fit into a word without loss. */
  lemma {:induction false} PackIsExact(bits: seq<bool>)
    requires |bits| <= 32
    ensures BitsOf(Pack(bits), |bits|) == bits && HalfN(|bits|, Pack(bits)) == 0
    decreases |bits|
  {
    if bits != [] {
      var w := Pack(bits[1..]);
      PackIsExact(bits[1..]);
      HalfNZero(|bits| - 1, 31, w);
      Half31(w);
      OddTwice(w);
      BitsOfFront(Pack(bits), |bits|);
      HalfNFront(|bits|, Pack(bits));
      assert bits == [bits[0]] + bits[1..];
    }
  }

  /** The register tells any two sequences of up to 32 bits apart. */
  lemma SerialSeparates(s: bv32, xs: seq<bool>, ys: seq<bool>)
    requires |xs| == |ys| <= 32 && xs != ys
    ensures Serial(s, xs) != Serial(s, ys)
  {
    var n := |xs|;
    PackIsExact(xs);
    PackIsExact(ys);
    SerialOfWord(s, Pack(xs), n);
    SerialOfWord(s, Pack(ys), n);
    XorSame(Serial(s, xs), 0);
    XorSame(Serial(s, ys), 0);
    PowInjective(n, Xor(s, Pack(xs)), Xor(s, Pack(ys)));
    XorCancel(Pack(xs), Pack(ys), s);
  }

  /** Burst detection: two messages of equal length that differ, but only inside 32 consecutive bits, never have
      the same register. */
  lemma BurstChangesRegister(s: bv32, xs: seq<bool>, ys: seq<bool>, from: nat, to: nat)
    requires |xs| == |ys| && from <= to <= |xs| && to - from <= 32
    requires xs[..from] == ys[..from] && xs[to..] == ys[to..] && xs != ys
    ensures Serial(s, xs) != Serial(s, ys)
  {
    var pre, post := xs[..from], xs[to..];
    var dx, dy := xs[from..to], ys[from..to];
    assert xs == pre + dx + post && ys == pre + dy + post;
    SerialAppend(s, pre, dx);
    SerialAppend(s, pre, dy);
    SerialAppend(s, pre + dx, post);
    SerialAppend(s, pre + dy, post);
    SerialSeparates(Serial(s, pre), dx, dy);
    SerialInjective(Serial(s, pre + dx), Serial(s, pre + dy), post);
  }

  // ---------------------------------------------------------------- the program

  /** What table entry `k` should hold: the register after dividing `k` for eight steps. */
  function Entry(k: nat): bv32
    requires k < 256
  {
    Pow(8, k as bv32)
  }

  ghost predicate IsTable(table: seq<bv32>) {
    |table| == 256 && forall i :: 0 <= i < 256 ==> table[i] == Entry(i)
  }

  lemma BitStepIsProgram(c: bv32)
    ensures BitStep(c) == if c & 1 == 1 then POLYNOMIAL ^ (c >> 1) else c >> 1
  {}

  method BuildTable() returns (table: array<bv32>)
    ensures fresh(table) && IsTable(table[..])
  {
    hide Entry;
    table := new bv32[256];
    for i := 0 to 256
      invariant forall k :: 0 <= k < i ==> table[k] == Entry(k)
    {
      var c := TableEntry(i);
      table[i] := c;
    }
  }

  method TableEntry(i: nat) returns (c: bv32)
    requires i < 256
    ensures c == Entry(i)
  {
      c := i as bv32;
      ghost var entry := c;
      for j := 0 to 8
        invariant c == Pow(j, entry)
      {
        BitStepIsProgram(c);
        c := if c & 1 == 1 then POLYNOMIAL ^ (c >> 1) else c >> 1;
      }
  }

  /** The register after the bytes of `data`. */
  function Feed(state: bv32, data: seq<bv8>): bv32 { Serial(state, Bits(data)) }

  lemma ByteFits(b: bv8)
    ensures ByteShift(b as bv32) == 0
  {}

  /** Feeding a byte is xoring it into the low end of the register and stepping eight times. */
  lemma FeedByte(s: bv32, b: bv8)
    ensures Serial(s, ByteBits(b)) == Pow(8, Xor(s, b as bv32))
  {
    hide Xor, Half, ByteShift, BitStep;
    ByteFits(b);
    Half8(b as bv32);
    SerialOfWord(s, b as bv32, 8);
    XorSame(Serial(s, ByteBits(b)), 0);
  }

  lemma FeedMore(s: bv32, data: seq<bv8>, b: bv8)
    ensures Feed(s, data + [b]) == Pow(8, Xor(Feed(s, data), b as bv32))
  {
    hide Xor, BitStep;
    assert (data + [b])[..|data + [b]| - 1] == data;
    SerialAppend(s, Bits(data), ByteBits(b));
    FeedByte(Feed(s, data), b);
  }

  lemma EvenSteps(c: bv32)
    requires c & 0xff == 0
    ensures BitStep(BitStep(BitStep(BitStep(BitStep(BitStep(BitStep(BitStep(c)))))))) == ByteShift(c)
  {}

  lemma EightSteps(c: bv32)
    ensures Pow(8, c) == BitStep(BitStep(BitStep(BitStep(BitStep(BitStep(BitStep(BitStep(c))))))))
  {
    hide BitStep;
    assert Pow(1, c) == BitStep(Pow(0, c));
    assert Pow(2, c) == BitStep(Pow(1, c));
    assert Pow(3, c) == BitStep(Pow(2, c));
    assert Pow(4, c) == BitStep(Pow(3, c));
    assert Pow(5, c) == BitStep(Pow(4, c));
    assert Pow(6, c) == BitStep(Pow(5, c));
    assert Pow(7, c) == BitStep(Pow(6, c));
  }

  lemma SplitLow(c: bv32)
    ensures Xor(c & 0xffff_ff00, c & 0xff) == c && ByteShift(c & 0xffff_ff00) == ByteShift(c)
    ensures (c & 0xffff_ff00) & 0xff == 0
  {}

  /** One table lookup does the work of eight steps. */
  lemma TableStep(x: bv32)
    ensures Pow(8, x) == Xor(ByteShift(x), Pow(8, x & 0xff))
  {
    hide Xor, BitStep, ByteShift, Pow;
    var high, low := x & 0xffff_ff00, x & 0xff;
    SplitLow(x);
    PowXor(8, high, low);
    EightSteps(high);
    EvenSteps(high);
  }

  /** The two expressions of the byte loop: the table index and the new register. */
  function Slot(c: bv32, b: bv8): bv32 { (c ^ (b as bv32)) & 0xff }
  function Combine(c: bv32, entry: bv32): bv32 { (c >> 8) ^ entry }

  lemma SlotIsLowByte(c: bv32, b: bv8)
    ensures Slot(c, b) == Xor(c, b as bv32) & 0xff && Slot(c, b) <= 255
  {}

  lemma CombineIsXor(c: bv32, b: bv8, entry: bv32)
    ensures Combine(c, entry) == Xor(ByteShift(Xor(c, b as bv32)), entry)
  {}

  lemma SmallIndex(x: bv32)
    requires x <= 255
    ensures 0 <= x as int < 256
  {}

  lemma IndexRoundTrip(x: bv32)
    ensures (x as int) as bv32 == x
  {}

  /** The index of the byte loop is in range and names the intended entry. */
  lemma Index(c: bv32, b: bv8)
    ensures Slot(c, b) as int < 256 && Entry(Slot(c, b) as int) == Pow(8, Slot(c, b))
  {
    hide Pow;
    SlotIsLowByte(c, b);
    SmallIndex(Slot(c, b));
    IndexRoundTrip(Slot(c, b));
  }

  lemma ProgramStep(c: bv32, b: bv8)
    ensures Combine(c, Pow(8, Slot(c, b))) == Pow(8, Xor(c, b as bv32))
  {
    hide Pow, Xor, ByteShift, Combine, Slot;
    SlotIsLowByte(c, b);
    TableStep(Xor(c, b as bv32));
    CombineIsXor(c, b, Pow(8, Slot(c, b)));
  }

  lemma FeedNothing(s: bv32)
    ensures Feed(s, []) == s
  {}

  method Crc32Buffer(table: array<bv32>, data: seq<bv8>, seed: bv32) returns (crc: bv32)
    requires IsTable(table[..])
    ensures crc == Xor(Feed(Xor(seed, ONES), data), ONES)
  {
    hide Feed, Pow, Xor, Entry, Slot, Combine;
    crc := Xor(seed, ONES);
    FeedNothing(crc);
    ghost var start := crc;
    for i := 0 to |data|
      invariant crc == Feed(start, data[..i])
    {
      Index(crc, data[i]);
      ProgramStep(crc, data[i]);
      FeedMore(start, data[..i], data[i]);
      assert data[..i + 1] == data[..i] + [data[i]];
      assert table[..][Slot(crc, data[i]) as int] == Entry(Slot(crc, data[i]) as int);
      crc := Combine(crc, table[Slot(crc, data[i]) as int]);
    }
    assert data[..|data|] == data;
    crc := Xor(crc, ONES);
  }
}
