/** The crc32 branch of `hashFile` and what comparing its digest with a manifest entry decides
    (src/main/integrity.ts:206-215, 241-245), together with the guarantees of the checksum itself. */
module FileDigest {
  import opened Crc32

  // ---------------------------------------------------------------- chunks

  function Concat(chunks: seq<seq<bv8>>): seq<bv8>
    decreases |chunks|
  {
    if chunks == [] then [] else Concat(chunks[..|chunks| - 1]) + chunks[|chunks| - 1]
  }

  lemma {:induction false} BitsAppend(xs: seq<bv8>, ys: seq<bv8>)
    ensures Bits(xs + ys) == Bits(xs) + Bits(ys)
    decreases |ys|
  {
    hide ByteBits;
    if ys == [] {
      assert xs + ys == xs;
    } else {
      assert (xs + ys)[..|xs + ys| - 1] == xs + ys[..|ys| - 1];
      BitsAppend(xs, ys[..|ys| - 1]);
    }
  }

  /** The register does not notice where the stream is cut. */
  lemma FeedAppend(s: bv32, xs: seq<bv8>, ys: seq<bv8>)
    ensures Feed(s, xs + ys) == Feed(Feed(s, xs), ys)
  {
    hide Serial, Bits;
    BitsAppend(xs, ys);
    SerialAppend(s, Bits(xs), Bits(ys));
  }

  lemma Unmask(x: bv32)
    ensures Xor(Xor(x, ONES), ONES) == x && Xor(0, ONES) == ONES
  {}

  /** Seeding a call with the result of the previous one continues the same checksum. */
  lemma SeedChains(xs: seq<bv8>, ys: seq<bv8>)
    ensures Xor(Feed(Xor(ReferenceCrc(xs), ONES), ys), ONES) == ReferenceCrc(xs + ys)
  {
    hide Serial, Bits, Xor;
    Unmask(Serial(ONES, Bits(xs)));
    FeedAppend(ONES, xs, ys);
  }

  lemma EmptyCrc()
    ensures ReferenceCrc([]) == 0
  {}

  // ---------------------------------------------------------------- hexadecimal digests

  function HexDigit(d: nat): char
    requires d < 16
  {
    if d < 10 then ('0' as int + d) as char else ('a' as int + d - 10) as char
  }

  /** `Number.prototype.toString(16)`. */
  function ToHex(n: nat): seq<char> {
    if n < 16 then [HexDigit(n)] else ToHex(n / 16) + [HexDigit(n % 16)]
  }

  function PadStart(s: seq<char>, width: nat): seq<char>
    decreases width - |s|
  {
    if |s| >= width then s else PadStart(['0'] + s, width)
  }

  function Hex8(crc: bv32): seq<char> { PadStart(ToHex(crc as nat), 8) }

  function Lower(c: char): char { if 'A' <= c <= 'F' then (c as int + 32) as char else c }

  function ToLowerCase(s: seq<char>): seq<char> { seq(|s|, i requires 0 <= i < |s| => Lower(s[i])) }

  predicate IsHexDigit(c: char) { '0' <= c <= '9' || 'a' <= c <= 'f' || 'A' <= c <= 'F' }

  function DigitValue(c: char): nat {
    if '0' <= c <= '9' then c as int - '0' as int
    else if 'A' <= c <= 'F' then c as int - 'A' as int + 10
    else if 'a' <= c <= 'f' then c as int - 'a' as int + 10
    else 0
  }

  /** The number that hexadecimal digits, in either case, denote. */
  function Value(s: seq<char>): nat
    decreases |s|
  {
    if s == [] then 0 else 16 * Value(s[..|s| - 1]) + DigitValue(s[|s| - 1])
  }

  ghost predicate IsLowerHex(s: seq<char>) {
    forall i :: 0 <= i < |s| ==> '0' <= s[i] <= '9' || 'a' <= s[i] <= 'f'
  }

  lemma DigitFacts(d: nat)
    requires d < 16
    ensures IsLowerHex([HexDigit(d)]) && IsHexDigit(HexDigit(d)) && DigitValue(HexDigit(d)) == d
  {}

  lemma DigitInjective(c: char, d: char)
    requires IsLowerHex([c]) && IsLowerHex([d])
    ensures IsHexDigit(c) && IsHexDigit(d) && DigitValue(c) < 16 && (DigitValue(c) == DigitValue(d) <==> c == d)
  {
    assert [c][0] == c && [d][0] == d;
  }

  lemma AppendDigit(s: seq<char>, c: char)
    requires IsLowerHex(s) && IsLowerHex([c])
    ensures IsLowerHex(s + [c]) && IsHexDigit(c) && Value(s + [c]) == 16 * Value(s) + DigitValue(c)
  {
    assert [c][0] == c;
    assert (s + [c])[..|s|] == s;
  }

  lemma {:induction false} ToHexValue(n: nat)
    ensures IsLowerHex(ToHex(n)) && Value(ToHex(n)) == n && |ToHex(n)| >= 1
  {
    hide HexDigit, DigitValue, IsHexDigit;
    DigitFacts(n % 16);
    if n < 16 {
      AppendDigit([], HexDigit(n));
      assert [] + [HexDigit(n)] == ToHex(n);
    } else {
      ToHexValue(n / 16);
      AppendDigit(ToHex(n / 16), HexDigit(n % 16));
    }
  }

  function Pow16(k: nat): nat { if k == 0 then 1 else 16 * Pow16(k - 1) }

  lemma {:induction false} ToHexLength(n: nat, k: nat)
    requires k >= 1 && n < Pow16(k)
    ensures |ToHex(n)| <= k
  {
    if n >= 16 {
      ToHexLength(n / 16, k - 1);
    }
  }

  lemma {:induction false} LeadingZero(s: seq<char>)
    requires IsLowerHex(s)
    ensures IsLowerHex(['0'] + s) && Value(['0'] + s) == Value(s)
    decreases |s|
  {
    if s == [] {
      assert (['0'] + s)[..0] == [];
    } else {
      LeadingZero(s[..|s| - 1]);
      assert (['0'] + s)[..|s|] == ['0'] + s[..|s| - 1];
    }
  }

  lemma {:induction false} PadValue(s: seq<char>, width: nat)
    requires IsLowerHex(s)
    ensures IsLowerHex(PadStart(s, width)) && Value(PadStart(s, width)) == Value(s)
    ensures |s| <= width ==> |PadStart(s, width)| == width
    decreases width - |s|
  {
    if |s| < width {
      LeadingZero(s);
      PadValue(['0'] + s, width);
    }
  }

  lemma LastDigit(s: seq<char>)
    requires IsLowerHex(s) && s != []
    ensures var n := |s| - 1;
            && IsLowerHex([s[n]]) && IsLowerHex(s[..n]) && IsHexDigit(s[n])
            && Value(s) == 16 * Value(s[..n]) + DigitValue(s[n]) && s == s[..n] + [s[n]]
  {
    var n := |s| - 1;
    assert s == s[..n] + [s[n]];
    hide *;
    LastLower(s);
    AppendDigit(s[..n], s[n]);
  }

  lemma LastLower(s: seq<char>)
    requires IsLowerHex(s) && s != []
    ensures IsLowerHex([s[|s| - 1]]) && IsLowerHex(s[..|s| - 1])
  {}

  lemma EuclideanSplit(a: nat, x: nat, b: nat, y: nat)
    requires x < 16 && y < 16 && 16 * a + x == 16 * b + y
    ensures a == b && x == y
  {}

  /** Equally long digests of the same number are the same digest. */
  lemma {:induction false} ValueInjective(s: seq<char>, t: seq<char>)
    requires IsLowerHex(s) && IsLowerHex(t) && |s| == |t| && Value(s) == Value(t)
    ensures s == t
    decreases |s|
  {
    if s != [] {
      var n := |s| - 1;
      LastDigit(s);
      LastDigit(t);
      DigitInjective(s[n], t[n]);
      EuclideanSplit(Value(s[..n]), DigitValue(s[n]), Value(t[..n]), DigitValue(t[n]));
      ValueInjective(s[..n], t[..n]);
    }
  }

  lemma {:induction false} LowerValue(s: seq<char>)
    requires forall i :: 0 <= i < |s| ==> IsHexDigit(s[i])
    ensures IsLowerHex(ToLowerCase(s)) && Value(ToLowerCase(s)) == Value(s)
    decreases |s|
  {
    if s != [] {
      LowerValue(s[..|s| - 1]);
      assert ToLowerCase(s)[..|s| - 1] == ToLowerCase(s[..|s| - 1]);
    }
  }

  lemma WordBound(crc: bv32)
    ensures (crc as int) < 0x1_0000_0000
  {}

  lemma Hex8Facts(crc: bv32)
    ensures IsLowerHex(Hex8(crc)) && |Hex8(crc)| == 8 && Value(Hex8(crc)) == crc as nat
  {
    WordBound(crc);
    assert Pow16(8) == 0x1_0000_0000 by {
      assert Pow16(4) == 0x1_0000;
      assert Pow16(8) == 16 * (16 * (16 * (16 * Pow16(4))));
    }
    ToHexValue(crc as nat);
    ToHexLength(crc as nat, 8);
    PadValue(ToHex(crc as nat), 8);
  }

  /** Accepting a file means that the eight digits in the manifest, in whatever case, denote its checksum. */
  lemma DigestMatches(crc: bv32, entry: seq<char>)
    requires |entry| == 8 && forall i :: 0 <= i < 8 ==> IsHexDigit(entry[i])
    ensures Hex8(crc) == ToLowerCase(entry) <==> Value(entry) == crc as nat
  {
    Hex8Facts(crc);
    LowerValue(entry);
    if Value(entry) == crc as nat { ValueInjective(Hex8(crc), ToLowerCase(entry)); }
  }

  // ---------------------------------------------------------------- the file digest

  method HashFile(chunks: seq<seq<bv8>>) returns (digest: seq<char>)
    ensures digest == Hex8(ReferenceCrc(Concat(chunks)))
  {
    hide ReferenceCrc, Feed, Xor, Hex8;
    var table := BuildTable();
    var crc: bv32 := 0;
    EmptyCrc();
    for i := 0 to |chunks|
      invariant crc == ReferenceCrc(Concat(chunks[..i]))
      invariant IsTable(table[..])
    {
      SeedChains(Concat(chunks[..i]), chunks[i]);
      crc := Crc32Buffer(table, chunks[i], crc);
      assert chunks[..i + 1][..i] == chunks[..i];
    }
    assert chunks[..|chunks|] == chunks;
    digest := Hex8(crc);
  }

  // ---------------------------------------------------------------- what the checksum detects

  lemma {:induction false} BitsLength(data: seq<bv8>)
    ensures |Bits(data)| == 8 * |data|
    decreases |data|
  {
    hide BitsOf;
    if data != [] { BitsLength(data[..|data| - 1]); }
  }

  lemma MaskKeepsDifference(x: bv32, y: bv32)
    ensures Xor(x, ONES) == Xor(y, ONES) <==> x == y
  {
    XorCancel(x, y, ONES);
  }

  /** Two files of equal length whose bits differ, but only inside a window of 32 consecutive bits, never have
      the same checksum, wherever the window lies. */
  lemma BurstIsDetected(xs: seq<bv8>, ys: seq<bv8>, from: nat, to: nat)
    requires |xs| == |ys| && from <= to <= 8 * |xs| && to - from <= 32
    requires |Bits(xs)| == |Bits(ys)| == 8 * |xs|
    requires Bits(xs)[..from] == Bits(ys)[..from] && Bits(xs)[to..] == Bits(ys)[to..]
    requires Bits(xs) != Bits(ys)
    ensures ReferenceCrc(xs) != ReferenceCrc(ys)
  {
    hide Serial, Xor, Bits;
    BurstChangesRegister(ONES, Bits(xs), Bits(ys), from, to);
    MaskKeepsDifference(Serial(ONES, Bits(xs)), Serial(ONES, Bits(ys)));
  }

  lemma ByteBitsInjective(a: bv8, b: bv8)
    requires ByteBits(a) == ByteBits(b)
    ensures a == b
  {
    hide BitsOf, Xor, Half;
    var x, y := a as bv32, b as bv32;
    FeedByte(0, a);
    FeedByte(0, b);
    PowInjective(8, Xor(0, x), Xor(0, y));
    XorCancel(x, y, 0);
    BytesAsWords(a, b);
  }

  lemma BytesAsWords(a: bv8, b: bv8)
    requires a as bv32 == b as bv32
    ensures a == b
  {}

  lemma {:induction false} BitsInjective(xs: seq<bv8>, ys: seq<bv8>)
    requires Bits(xs) == Bits(ys)
    ensures xs == ys
    decreases |xs|
  {
    hide ByteBits;
    BitsLength(xs);
    BitsLength(ys);
    if xs != [] {
      var n := |xs| - 1;
      BitsLength(xs[..n]);
      BitsLength(ys[..n]);
      assert Bits(xs)[..8 * n] == Bits(xs[..n]) && Bits(ys)[..8 * n] == Bits(ys[..n]);
      assert Bits(xs)[8 * n..] == ByteBits(xs[n]) && Bits(ys)[8 * n..] == ByteBits(ys[n]);
      BitsInjective(xs[..n], ys[..n]);
      ByteBitsInjective(xs[n], ys[n]);
      assert xs == xs[..n] + [xs[n]] && ys == ys[..n] + [ys[n]];
    }
  }

  lemma DifferentBits(xs: seq<bv8>, ys: seq<bv8>)
    requires xs != ys
    ensures Bits(xs) != Bits(ys)
  {
    if Bits(xs) == Bits(ys) { BitsInjective(xs, ys); }
  }

  lemma MiddleDiffers(before: seq<bv8>, xs: seq<bv8>, ys: seq<bv8>, after: seq<bv8>)
    requires |xs| == |ys| && xs != ys
    ensures before + xs + after != before + ys + after
  {
    var k :| 0 <= k < |xs| && xs[k] != ys[k];
    assert (before + xs + after)[|before| + k] == xs[k] && (before + ys + after)[|before| + k] == ys[k];
  }

  /** Replacing up to four consecutive bytes by others always changes the checksum. */
  lemma FourBytesAreDetected(before: seq<bv8>, xs: seq<bv8>, ys: seq<bv8>, after: seq<bv8>)
    requires |xs| == |ys| <= 4 && xs != ys
    ensures ReferenceCrc(before + xs + after) != ReferenceCrc(before + ys + after)
  {
    hide ByteBits, ReferenceCrc;
    BitsAppend(before, xs);
    BitsAppend(before, ys);
    BitsAppend(before + xs, after);
    BitsAppend(before + ys, after);
    BitsLength(before);
    BitsLength(xs);
    BitsLength(ys);
    BitsLength(after);
    MiddleDiffers(before, xs, ys, after);
    DifferentBits(before + xs + after, before + ys + after);
    BurstIsDetected(before + xs + after, before + ys + after, 8 * |before|, 8 * |before| + 8 * |xs|);
  }
}
