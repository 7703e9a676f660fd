/**
 Constants of the on-disk format and the byte codecs of its records
 (kernel/include/fs.h, kernel/include/param.h).

 Bytes and machine words are bounded integers; a C expression that tests or sets
 one bit of a byte is written here on the binary digits of that integer.
 */
module Layout {
  const BSIZE: nat := 1024
  const FSMAGIC: nat := 0x10203040
  const ROOTINO: nat := 1
  const ROOTDEV: nat := 1

  const T_FILE: u16 := 1
  const T_DIR: u16 := 2
  const T_DEVICE: u16 := 3

  type byte = x: int | 0 <= x < 256
  type u16 = x: int | 0 <= x < 0x1_0000
  type u32 = x: int | 0 <= x < 0x1_0000_0000
  type Block = s: seq<byte> | |s| == 1024 witness seq(1024, i => 0)

  /** struct superblock. */
  datatype SuperBlock = SuperBlock(magic: u32, size: u32, nblocks: u32, ninodes: u32,
                                   nlog: u32, logstart: u32, inodestart: u32, bmapstart: u32)

  /** struct dinode; the 16-bit fields are kept as unsigned bit patterns. */
  datatype Dinode = Dinode(kind: u16, major: u16, minor: u16, nlink: u16, size: u32, addrs: seq<u32>)

  function ZeroBlock(): (r: Block)
    ensures forall i :: 0 <= i < 1024 ==> r[i] == 0
  {
    seq(1024, i => 0)
  }

  // ---------------------------------------------------------------- slices

  /** What memmove(dst + at, x, |x|) leaves in dst. */
  function Splice<T>(dst: seq<T>, at: nat, x: seq<T>): (r: seq<T>)
    requires at + |x| <= |dst|
    ensures |r| == |dst|
    ensures forall i :: at <= i < at + |x| ==> r[i] == x[i - at]
    ensures forall i :: 0 <= i < at || at + |x| <= i < |dst| ==> r[i] == dst[i]
  {
    dst[..at] + x + dst[at + |x|..]
  }

  lemma SpliceInside<T>(dst: seq<T>, at: nat, x: seq<T>)
    requires at + |x| <= |dst|
    ensures Splice(dst, at, x)[at..at + |x|] == x
  {}

  lemma SpliceOutside<T>(dst: seq<T>, at: nat, x: seq<T>, lo: nat, hi: nat)
    requires at + |x| <= |dst| && lo <= hi <= |dst|
    requires hi <= at || at + |x| <= lo
    ensures Splice(dst, at, x)[lo..hi] == dst[lo..hi]
  {}

  // ---------------------------------------------------------------- little-endian words

  function Half(b: seq<byte>, i: nat): u16
    requires 2 * i + 2 <= |b|
  {
    b[2 * i] + 0x100 * (b[2 * i + 1] as int)
  }

  function Word(b: seq<byte>, i: nat): u32
    requires 4 * i + 4 <= |b|
  {
    b[4 * i] + 0x100 * (b[4 * i + 1] as int) + 0x1_0000 * (b[4 * i + 2] as int) + 0x100_0000 * (b[4 * i + 3] as int)
  }

  function Le16(x: u16): (r: seq<byte>)
    ensures |r| == 2 && Half(r, 0) == x
  {
    [x % 0x100, x / 0x100]
  }

  function Le32(x: u32): (r: seq<byte>)
    ensures |r| == 4 && Word(r, 0) == x
  {
    [x % 0x100, x / 0x100 % 0x100, x / 0x1_0000 % 0x100, x / 0x100_0000]
  }

  /** A store through a uint pointer into a block. */
  function PutWord(b: Block, i: nat, v: u32): (r: Block)
    requires i < 256
  {
    Splice(b, 4 * i, Le32(v))
  }

  lemma PutWordWord(b: Block, i: nat, v: u32, j: nat)
    requires i < 256 && j < 256
    ensures Word(PutWord(b, i, v), j) == if i == j then v else Word(b, j)
  {
    var r := PutWord(b, i, v);
    if i == j {
      assert r[4 * i] == Le32(v)[0] && r[4 * i + 1] == Le32(v)[1] && r[4 * i + 2] == Le32(v)[2] &&
        r[4 * i + 3] == Le32(v)[3];
    } else {
      assert forall k :: 4 * j <= k < 4 * j + 4 ==> r[k] == b[k];
    }
  }

  /** A 16-bit field is two bytes, the lower one first. */
  lemma HalfBytes(b: seq<byte>, i: nat)
    requires 2 * i + 2 <= |b|
    ensures b[2 * i] == Half(b, i) % 0x100 && b[2 * i + 1] == Half(b, i) / 0x100
  {}

  /** A 32-bit word is four bytes, the lowest one first. */
  lemma WordBytes(b: seq<byte>, i: nat)
    requires 4 * i + 4 <= |b|
    ensures b[4 * i] == Word(b, i) % 0x100 && b[4 * i + 1] == Word(b, i) / 0x100 % 0x100
    ensures b[4 * i + 2] == Word(b, i) / 0x1_0000 % 0x100 && b[4 * i + 3] == Word(b, i) / 0x100_0000
  {
    var b0, b1, b2, b3 := b[4 * i] as int, b[4 * i + 1] as int, b[4 * i + 2] as int, b[4 * i + 3] as int;
    var w: int := Word(b, i);
    assert w / 0x100 == b1 + 0x100 * b2 + 0x1_0000 * b3;
    assert w / 0x1_0000 == b2 + 0x100 * b3;
    assert w / 0x100_0000 == b3;
  }

  /** The bytes a store of a word leaves in a block. */
  lemma PutWordBytes(b: Block, i: nat, v: u32)
    requires i < 256
    ensures var r := PutWord(b, i, v);
      r[4 * i] == v % 0x100 && r[4 * i + 1] == v / 0x100 % 0x100 &&
      r[4 * i + 2] == v / 0x1_0000 % 0x100 && r[4 * i + 3] == v / 0x100_0000
    ensures forall k :: 0 <= k < 1024 && !(4 * i <= k < 4 * i + 4) ==> PutWord(b, i, v)[k] == b[k]
  {
    PutWordWord(b, i, v, i);
    WordBytes(PutWord(b, i, v), i);
  }

  lemma ZeroWord(j: nat)
    requires j < 256
    ensures Word(ZeroBlock(), j) == 0
  {}

  function LeWords(ws: seq<u32>): (r: seq<byte>)
    ensures |r| == 4 * |ws|
  {
    if ws == [] then [] else Le32(ws[0]) + LeWords(ws[1..])
  }

  lemma {:induction false} LeWordsWord(ws: seq<u32>, k: nat)
    requires k < |ws|
    ensures Word(LeWords(ws), k) == ws[k]
  {
    var r := LeWords(ws);
    if k == 0 {
      assert r[0] == Le32(ws[0])[0] && r[1] == Le32(ws[0])[1] && r[2] == Le32(ws[0])[2] && r[3] == Le32(ws[0])[3];
    } else {
      LeWordsWord(ws[1..], k - 1);
      var t := LeWords(ws[1..]);
      var a := 4 * k;
      assert r[a] == t[a - 4] && r[a + 1] == t[a - 3] && r[a + 2] == t[a - 2] && r[a + 3] == t[a - 1];
    }
  }

  // ---------------------------------------------------------------- dinode records

  function DecDinode(x: seq<byte>): (d: Dinode)
    requires |x| == 64
  {
    Dinode(Half(x, 0), Half(x, 1), Half(x, 2), Half(x, 3), Word(x, 2),
           seq(13, k requires 0 <= k < 13 => Word(x, 3 + k)))
  }

  function EncDinode(d: Dinode): (r: seq<byte>)
    requires |d.addrs| == 13
    ensures |r| == 64 && r[12..] == LeWords(d.addrs)
  {
    Le16(d.kind) + Le16(d.major) + Le16(d.minor) + Le16(d.nlink) + Le32(d.size) + LeWords(d.addrs)
  }

  lemma EncodedHeader(d: Dinode)
    requires |d.addrs| == 13
    ensures var r := EncDinode(d);
      Half(r, 0) == d.kind && Half(r, 1) == d.major && Half(r, 2) == d.minor && Half(r, 3) == d.nlink &&
      Word(r, 2) == d.size
  {
    hide LeWords;
    var r := EncDinode(d);
    var h0, h1, h2, h3, w := Le16(d.kind), Le16(d.major), Le16(d.minor), Le16(d.nlink), Le32(d.size);
    assert r[0] == h0[0] && r[1] == h0[1];
    assert r[2] == h1[0] && r[3] == h1[1];
    assert r[4] == h2[0] && r[5] == h2[1];
    assert r[6] == h3[0] && r[7] == h3[1];
    assert r[8] == w[0] && r[9] == w[1] && r[10] == w[2] && r[11] == w[3];
  }

  lemma EncodedAddr(d: Dinode, k: nat)
    requires |d.addrs| == 13 && k < 13
    ensures Word(EncDinode(d), 3 + k) == d.addrs[k]
  {
    hide EncDinode, LeWords;
    var r := EncDinode(d);
    LeWordsWord(d.addrs, k);
    var t := r[12..];
    assert t[4 * k] == r[12 + 4 * k] && t[4 * k + 1] == r[13 + 4 * k] && t[4 * k + 2] == r[14 + 4 * k] &&
      t[4 * k + 3] == r[15 + 4 * k];
  }

  /** A dinode written to disk reads back as itself. */
  lemma DinodeRoundTrip(d: Dinode)
    requires |d.addrs| == 13
    ensures DecDinode(EncDinode(d)) == d
  {
    EncodedHeader(d);
    forall k | 0 <= k < 13
      ensures Word(EncDinode(d), 3 + k) == d.addrs[k]
    {
      EncodedAddr(d, k);
    }
    hide EncDinode, Word, Half;
    assert DecDinode(EncDinode(d)).addrs == d.addrs;
  }

  /** The 64 bytes of a dinode, field by field at its offset, the lower byte of each first. */
  lemma DinodeBytes(r: seq<byte>, d: Dinode)
    requires |r| == 64 && |d.addrs| == 13 && (d == DecDinode(r) || r == EncDinode(d))
    ensures r[0] == d.kind % 0x100 && r[1] == d.kind / 0x100 && r[2] == d.major % 0x100 && r[3] == d.major / 0x100
    ensures r[4] == d.minor % 0x100 && r[5] == d.minor / 0x100 && r[6] == d.nlink % 0x100 && r[7] == d.nlink / 0x100
    ensures r[8] == d.size % 0x100 && r[9] == d.size / 0x100 % 0x100
    ensures r[10] == d.size / 0x1_0000 % 0x100 && r[11] == d.size / 0x100_0000
    ensures forall k :: 0 <= k < 13 ==>
      r[12 + 4 * k] == d.addrs[k] % 0x100 && r[13 + 4 * k] == d.addrs[k] / 0x100 % 0x100 &&
      r[14 + 4 * k] == d.addrs[k] / 0x1_0000 % 0x100 && r[15 + 4 * k] == d.addrs[k] / 0x100_0000
  {
    hide EncDinode, Half, Word;
    DinodeRoundTrip(d);
    HalfBytes(r, 0);
    HalfBytes(r, 1);
    HalfBytes(r, 2);
    HalfBytes(r, 3);
    WordBytes(r, 2);
    forall k | 0 <= k < 13
      ensures r[12 + 4 * k] == d.addrs[k] % 0x100 && r[13 + 4 * k] == d.addrs[k] / 0x100 % 0x100
      ensures r[14 + 4 * k] == d.addrs[k] / 0x1_0000 % 0x100 && r[15 + 4 * k] == d.addrs[k] / 0x100_0000
    {
      WordBytes(r, 3 + k);
    }
  }

  function GetDinode(b: Block, s: nat): (d: Dinode)
    requires s < 16
    ensures |d.addrs| == 13
  {
    DecDinode(b[64 * s..64 * s + 64])
  }

  function PutDinode(b: Block, s: nat, d: Dinode): (r: Block)
    requires s < 16 && |d.addrs| == 13
  {
    Splice(b, 64 * s, EncDinode(d))
  }

  lemma PutGetDinode(b: Block, s: nat, d: Dinode, t: nat)
    requires s < 16 && t < 16 && |d.addrs| == 13
    ensures GetDinode(PutDinode(b, s, d), t) == if s == t then d else GetDinode(b, t)
  {
    if s == t {
      SpliceInside(b, 64 * s, EncDinode(d));
      DinodeRoundTrip(d);
    } else {
      SpliceOutside(b, 64 * s, EncDinode(d), 64 * t, 64 * t + 64);
    }
  }

  function ZeroDinode(): (d: Dinode)
    ensures |d.addrs| == 13 && forall i :: 0 <= i < 13 ==> d.addrs[i] == 0
  {
    Dinode(0, 0, 0, 0, 0, seq(13, i => 0))
  }

  lemma ZeroInodeBlock(s: nat)
    requires s < 16
    ensures GetDinode(ZeroBlock(), s) == ZeroDinode()
  {
    var x := ZeroBlock()[64 * s..64 * s + 64];
    assert forall i :: 0 <= i < 64 ==> x[i] == 0;
    assert DecDinode(x).addrs == ZeroDinode().addrs;
  }

  // ---------------------------------------------------------------- superblock

  function DecSuper(b: Block): SuperBlock
  {
    SuperBlock(Word(b, 0), Word(b, 1), Word(b, 2), Word(b, 3), Word(b, 4), Word(b, 5), Word(b, 6), Word(b, 7))
  }

  function EncSuper(s: SuperBlock): (r: seq<byte>)
    ensures |r| == 32
  {
    LeWords([s.magic, s.size, s.nblocks, s.ninodes, s.nlog, s.logstart, s.inodestart, s.bmapstart])
  }

  lemma SuperRoundTrip(s: SuperBlock)
    ensures DecSuper(Splice(ZeroBlock(), 0, EncSuper(s))) == s
  {
    var ws := [s.magic, s.size, s.nblocks, s.ninodes, s.nlog, s.logstart, s.inodestart, s.bmapstart];
    var b := Splice(ZeroBlock(), 0, EncSuper(s));
    forall k | 0 <= k < 8
      ensures Word(b, k) == ws[k]
    {
      LeWordsWord(ws, k);
      assert forall j :: 4 * k <= j < 4 * k + 4 ==> b[j] == EncSuper(s)[j];
    }
    assert Word(b, 0) == ws[0] && Word(b, 1) == ws[1] && Word(b, 2) == ws[2] && Word(b, 3) == ws[3];
    assert Word(b, 4) == ws[4] && Word(b, 5) == ws[5] && Word(b, 6) == ws[6] && Word(b, 7) == ws[7];
  }

  /** Block 1 of an image: the eight fields in order, the lowest byte of each first, and then zeros. */
  lemma SuperBytes(s: SuperBlock)
    ensures var b := Splice(ZeroBlock(), 0, EncSuper(s));
      var fields := [s.magic, s.size, s.nblocks, s.ninodes, s.nlog, s.logstart, s.inodestart, s.bmapstart];
      (forall k :: 0 <= k < 8 ==>
        b[4 * k] == fields[k] % 0x100 && b[4 * k + 1] == fields[k] / 0x100 % 0x100 &&
        b[4 * k + 2] == fields[k] / 0x1_0000 % 0x100 && b[4 * k + 3] == fields[k] / 0x100_0000) &&
      forall i :: 32 <= i < 1024 ==> b[i] == 0
  {
    hide EncSuper, Word;
    var b := Splice(ZeroBlock(), 0, EncSuper(s));
    SuperRoundTrip(s);
    var ws := [s.magic, s.size, s.nblocks, s.ninodes, s.nlog, s.logstart, s.inodestart, s.bmapstart];
    forall k | 0 <= k < 8
      ensures b[4 * k] == ws[k] % 0x100 && b[4 * k + 1] == ws[k] / 0x100 % 0x100
      ensures b[4 * k + 2] == ws[k] / 0x1_0000 % 0x100 && b[4 * k + 3] == ws[k] / 0x100_0000
    {
      WordBytes(b, k);
      assert Word(b, k) == ws[k];
    }
  }

  // ---------------------------------------------------------------- bits of a byte

  /** (m & (1 << k)) != 0 */
  predicate BitOf(m: nat, k: nat)
  {
    if k == 0 then m % 2 == 1 else BitOf(m / 2, k - 1)
  }

  /** m | (1 << k) */
  function SetBitOf(m: nat, k: nat): nat
  {
    if k == 0 then m / 2 * 2 + 1 else SetBitOf(m / 2, k - 1) * 2 + m % 2
  }

  /** m & ~(1 << k) */
  function ClearBitOf(m: nat, k: nat): nat
  {
    if k == 0 then m / 2 * 2 else ClearBitOf(m / 2, k - 1) * 2 + m % 2
  }

  function Pow2(n: nat): (r: nat)
    ensures r >= 1
  {
    if n == 0 then 1 else 2 * Pow2(n - 1)
  }

  lemma {:induction false} SetBitOfBit(m: nat, k: nat, j: nat)
    ensures BitOf(SetBitOf(m, k), j) == (j == k || BitOf(m, j))
  {
    if k > 0 && j > 0 {
      SetBitOfBit(m / 2, k - 1, j - 1);
    }
  }

  lemma {:induction false} ClearBitOfBit(m: nat, k: nat, j: nat)
    ensures BitOf(ClearBitOf(m, k), j) == (j != k && BitOf(m, j))
  {
    if k > 0 && j > 0 {
      ClearBitOfBit(m / 2, k - 1, j - 1);
    }
  }

  lemma {:induction false} SetBitOfBound(m: nat, k: nat, n: nat)
    requires k < n && m < Pow2(n)
    ensures SetBitOf(m, k) < Pow2(n) && ClearBitOf(m, k) < Pow2(n)
  {
    var h := Pow2(n - 1);
    assert Pow2(n) == 2 * h && m / 2 < h;
    if k > 0 {
      SetBitOfBound(m / 2, k - 1, n - 1);
    }
  }

  lemma {:induction false} ClearUndoesSet(m: nat, k: nat)
    requires !BitOf(m, k)
    ensures ClearBitOf(SetBitOf(m, k), k) == m
  {
    if k > 0 {
      ClearUndoesSet(m / 2, k - 1);
    }
  }

  lemma {:induction false} FullByteBit(n: nat, k: nat)
    requires k < n
    ensures BitOf(Pow2(n) - 1, k)
  {
    assert (Pow2(n) - 1) / 2 == Pow2(n - 1) - 1;
    if k > 0 {
      FullByteBit(n - 1, k - 1);
    }
  }

  /** A byte that is not all ones has a clear bit. */
  lemma {:induction false} NotFullByte(m: nat, n: nat) returns (k: nat)
    requires m < Pow2(n) - 1
    ensures k < n && !BitOf(m, k)
  {
    if m % 2 == 0 {
      k := 0;
    } else {
      k := NotFullByte(m / 2, n - 1);
      k := k + 1;
    }
  }

  lemma Pow2Of8()
    ensures Pow2(8) == 256
  {
    assert Pow2(4) == 16;
  }

  lemma HalfThenDivide(m: nat, p: nat)
    requires p >= 1
    ensures m / 2 / p == m / (2 * p)
  {
    var q, r := m / 2 / p, m / 2 % p;
    assert m == 2 * p * q + (2 * r + m % 2) by {
      assert m / 2 == p * q + r;
    }
    Quotient(m, 2 * p, q, 2 * r + m % 2);
  }

  lemma Quotient(m: nat, d: nat, q: nat, r: nat)
    requires r < d && m == d * q + r
    ensures m / d == q
  {
    var q' := m / d;
    assert d * (q - q') == m % d - r;
    AtLeast(d, q - q');
    AtLeast(d, q' - q);
    assert d * (q' - q) == -(d * (q - q'));
  }

  lemma AtLeast(d: nat, x: int)
    ensures x >= 1 ==> d * x >= d
  {}

  /** A bit by its weight. */
  lemma {:induction false} BitOfWeight(m: nat, k: nat)
    ensures BitOf(m, k) <==> m / Pow2(k) % 2 == 1
    ensures SetBitOf(m, k) == m + if BitOf(m, k) then 0 else Pow2(k)
    ensures ClearBitOf(m, k) == m - if BitOf(m, k) then Pow2(k) else 0
  {
    if k > 0 {
      BitOfWeight(m / 2, k - 1);
      HalfThenDivide(m, Pow2(k - 1));
    }
  }

  lemma Weights(k: nat)
    requires k < 8
    ensures Pow2(k) == [1, 2, 4, 8, 16, 32, 64, 128][k]
  {
    assert Pow2(0) == 1 && Pow2(1) == 2 && Pow2(2) == 4;
    assert Pow2(3) == 8 && Pow2(4) == 16 && Pow2(5) == 32;
    assert Pow2(6) == 64 && Pow2(7) == 128;
  }

  // ---------------------------------------------------------------- bitmap blocks

  predicate Bit(b: Block, i: nat)
    requires i < 8192
  {
    BitOf(b[i / 8], i % 8)
  }

  function SetBit(b: Block, i: nat): (r: Block)
    requires i < 8192
  {
    Pow2Of8();
    SetBitOfBound(b[i / 8], i % 8, 8);
    b[i / 8 := SetBitOf(b[i / 8], i % 8)]
  }

  function ClearBit(b: Block, i: nat): (r: Block)
    requires i < 8192
  {
    Pow2Of8();
    SetBitOfBound(b[i / 8], i % 8, 8);
    b[i / 8 := ClearBitOf(b[i / 8], i % 8)]
  }

  /** Bit i of a bitmap block is the bit of weight 1 << i % 8 in byte i / 8. */
  lemma BitPlace(b: Block, i: nat)
    requires i < 8192
    ensures var w := [1, 2, 4, 8, 16, 32, 64, 128][i % 8];
      (Bit(b, i) <==> b[i / 8] / w % 2 == 1) &&
      SetBit(b, i)[i / 8] == b[i / 8] + (if b[i / 8] / w % 2 == 1 then 0 else w) &&
      ClearBit(b, i)[i / 8] == b[i / 8] - (if b[i / 8] / w % 2 == 1 then w else 0)
    ensures forall j :: 0 <= j < 1024 && j != i / 8 ==> SetBit(b, i)[j] == b[j] == ClearBit(b, i)[j]
  {
    hide Pow2, BitOf, SetBitOf, ClearBitOf;
    BitOfWeight(b[i / 8], i % 8);
    Weights(i % 8);
  }

  lemma {:induction false} ZeroBits(k: nat)
    ensures !BitOf(0, k)
  {
    if k > 0 {
      ZeroBits(k - 1);
    }
  }

  lemma SetBitBit(b: Block, i: nat, j: nat)
    requires i < 8192 && j < 8192
    ensures Bit(SetBit(b, i), j) == (i == j || Bit(b, j))
  {
    SetBitOfBit(b[i / 8], i % 8, j % 8);
  }

  lemma ClearBitBit(b: Block, i: nat, j: nat)
    requires i < 8192 && j < 8192
    ensures Bit(ClearBit(b, i), j) == (i != j && Bit(b, j))
  {
    ClearBitOfBit(b[i / 8], i % 8, j % 8);
  }

  lemma ClearBitSetBit(b: Block, i: nat)
    requires i < 8192 && !Bit(b, i)
    ensures ClearBit(SetBit(b, i), i) == b
  {
    ClearUndoesSet(b[i / 8], i % 8);
  }
}
