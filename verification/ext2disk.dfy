/** The blocks of an ext2 volume and the little-endian numbers in them. */
module Ext2Disk {
  import opened Bits
  import opened Common

  type Block = seq<Byte>
  type Disk = map<nat, Block>

  function Zeros(bs: nat): (z: Block)
    ensures |z| == bs && forall i :: 0 <= i < bs ==> z[i] == 0
  {
    seq(bs, _ => 0)
  }

  /** What reading block n gives; blocks never written hold zeros. */
  function BlockAt(bs: nat, disk: Disk, n: nat): Block {
    if n in disk then disk[n] else Zeros(bs)
  }

  predicate BlocksFit(bs: nat, disk: Disk) {
    forall n :: n in disk ==> |disk[n]| == bs
  }

  // ----- 32-bit words

  function Word(blk: Block, k: nat): (w: nat)
    requires 4 * k + 4 <= |blk|
    ensures w < WORD
  {
    var a: nat, b: nat, c: nat, d: nat := blk[4 * k], blk[4 * k + 1], blk[4 * k + 2], blk[4 * k + 3];
    a + 0x100 * b + 0x1_0000 * c + 0x100_0000 * d
  }

  /** Byte j of a word, the lowest first. */
  function ByteOf(w: nat, j: nat): Byte
    requires w < WORD && j < 4
  {
    if j == 0 then w % 0x100
    else if j == 1 then w / 0x100 % 0x100
    else if j == 2 then w / 0x1_0000 % 0x100
    else w / 0x100_0000
  }

  lemma BytesOfWord(w: nat)
    requires w < WORD
    ensures var a: nat, b: nat, c: nat, d: nat := ByteOf(w, 0), ByteOf(w, 1), ByteOf(w, 2), ByteOf(w, 3);
            a + 0x100 * b + 0x1_0000 * c + 0x100_0000 * d == w
  {
    var x, y := w / 0x100, w / 0x1_0000;
    assert y == x / 0x100 && w / 0x100_0000 == y / 0x100;
  }

  function SetWord(blk: Block, k: nat, w: nat): (r: Block)
    requires 4 * k + 4 <= |blk| && w < WORD
    ensures |r| == |blk|
    ensures forall i :: 0 <= i < |blk| ==> r[i] == if 4 * k <= i < 4 * k + 4 then ByteOf(w, i - 4 * k) else blk[i]
  {
    blk[4 * k := ByteOf(w, 0)][4 * k + 1 := ByteOf(w, 1)][4 * k + 2 := ByteOf(w, 2)][4 * k + 3 := ByteOf(w, 3)]
  }

  /** A stored word is read back, and the other words of the block are as they were. */
  lemma WordSet(blk: Block, k: nat, w: nat, j: nat)
    requires 4 * k + 4 <= |blk| && 4 * j + 4 <= |blk| && w < WORD
    ensures Word(SetWord(blk, k, w), j) == if j == k then w else Word(blk, j)
  {
    hide SetWord, ByteOf;
    BytesOfWord(w);
    var r := SetWord(blk, k, w);
    if j == k {
      assert r[4 * j] == ByteOf(w, 0);
      assert r[4 * j + 1] == ByteOf(w, 1);
      assert r[4 * j + 2] == ByteOf(w, 2);
      assert r[4 * j + 3] == ByteOf(w, 3);
    } else {
      assert r[4 * j] == blk[4 * j];
      assert r[4 * j + 1] == blk[4 * j + 1];
      assert r[4 * j + 2] == blk[4 * j + 2];
      assert r[4 * j + 3] == blk[4 * j + 3];
    }
  }

  lemma WordOfZeros(bs: nat, k: nat)
    requires 4 * k + 4 <= bs
    ensures Word(Zeros(bs), k) == 0
  {
  }

  /** All words of a block. */
  function WordsOf(blk: Block): (ws: seq<nat>)
    ensures |ws| == |blk| / 4 && forall k :: 0 <= k < |ws| ==> ws[k] == Word(blk, k)
    ensures forall k :: 0 <= k < |ws| ==> ws[k] < WORD
  {
    seq(|blk| / 4, k requires 0 <= k < |blk| / 4 => Word(blk, k))
  }

  /** The block that holds these words. */
  function FromWords(ws: seq<nat>): (blk: Block)
    requires forall k :: 0 <= k < |ws| ==> ws[k] < WORD
    ensures |blk| == 4 * |ws|
  {
    seq<Byte>(4 * |ws|, i requires 0 <= i < 4 * |ws| => ByteOf(ws[i / 4], i % 4))
  }

  lemma WordsRoundTrip(ws: seq<nat>)
    requires forall k :: 0 <= k < |ws| ==> ws[k] < WORD
    ensures WordsOf(FromWords(ws)) == ws
  {
    hide ByteOf;
    var blk := FromWords(ws);
    forall k | 0 <= k < |ws|
      ensures Word(blk, k) == ws[k]
    {
      BytesOfWord(ws[k]);
      assert (4 * k) / 4 == k && (4 * k + 1) / 4 == k && (4 * k + 2) / 4 == k && (4 * k + 3) / 4 == k;
    }
  }

  // ----- 16-bit words

  function Half(blk: Block, at: nat): (w: nat)
    requires at + 2 <= |blk|
    ensures w < 0x1_0000
  {
    var a: nat, b: nat := blk[at], blk[at + 1];
    a + 0x100 * b
  }

  function SetHalf(blk: Block, at: nat, w: nat): (r: Block)
    requires at + 2 <= |blk| && w < 0x1_0000
    ensures |r| == |blk| && Half(r, at) == w
    ensures forall i :: 0 <= i < |blk| && i != at && i != at + 1 ==> r[i] == blk[i]
  {
    blk[at := w % 0x100][at + 1 := w / 0x100]
  }

  // ----- the bytes of the disk themselves

  /** The little-endian number in bytes 4 i to 4 i + 3 of block n; no block holds zeros. */
  function DiskWord(disk: Disk, n: nat, i: nat): nat {
    if n in disk && 4 * i + 4 <= |disk[n]|
    then
      var a: nat, b: nat, c: nat, d: nat := disk[n][4 * i], disk[n][4 * i + 1], disk[n][4 * i + 2], disk[n][4 * i + 3];
      a + 256 * b + 65536 * c + 16777216 * d
    else 0
  }

  function DiskByte(disk: Disk, n: nat, j: nat): Byte {
    if n in disk && j < |disk[n]| then disk[n][j] else 0
  }

  /** The little-endian number in two bytes of block n. */
  function DiskHalf(disk: Disk, n: nat, at: nat): nat {
    var a: nat, b: nat := DiskByte(disk, n, at), DiskByte(disk, n, at + 1);
    a + 256 * b
  }

  /** Bit k of block n: eight to a byte, the lowest first. */
  predicate DiskBit(disk: Disk, n: nat, k: nat) {
    Bit(DiskByte(disk, n, k / 8), k % 8)
  }

  lemma WordIsDiskWord(bs: nat, disk: Disk, n: nat, i: nat)
    requires BlocksFit(bs, disk) && 4 * i + 4 <= bs
    ensures |BlockAt(bs, disk, n)| == bs && Word(BlockAt(bs, disk, n), i) == DiskWord(disk, n, i)
  {
  }

  lemma ByteIsDiskByte(bs: nat, disk: Disk, n: nat, j: nat)
    requires BlocksFit(bs, disk) && j < bs
    ensures |BlockAt(bs, disk, n)| == bs && BlockAt(bs, disk, n)[j] == DiskByte(disk, n, j)
  {
  }

  lemma HalfIsDiskHalf(bs: nat, disk: Disk, n: nat, at: nat)
    requires BlocksFit(bs, disk) && at + 2 <= bs
    ensures |BlockAt(bs, disk, n)| == bs && Half(BlockAt(bs, disk, n), at) == DiskHalf(disk, n, at)
  {
    ByteIsDiskByte(bs, disk, n, at);
    ByteIsDiskByte(bs, disk, n, at + 1);
  }

  /** The bits of a number in two parts. */
  lemma {:induction false} BitOfParts(n: nat, low: nat, high: nat, i: nat)
    requires low < Pow2(n)
    ensures Bit(low + Pow2(n) * high, i) <==> if i < n then Bit(low, i) else Bit(high, i - n)
  {
    if n > 0 {
      var p := Pow2(n - 1);
      assert (2 * p) * high == 2 * (p * high);
      assert (low + 2 * (p * high)) / 2 == low / 2 + p * high;
      assert (low + 2 * (p * high)) % 2 == low % 2;
      if i > 0 { BitOfParts(n - 1, low / 2, high, i - 1); }
    }
  }

  lemma BitOfBytes(a: Byte, b: nat, i: nat)
    ensures var x: nat := a; Bit(x + 256 * b, i) <==> if i < 8 then Bit(x, i) else Bit(b, i - 8)
  {
    assert Pow2(8) == 256;
    BitOfParts(8, a, b, i);
  }

  /** Bit j of a word is a bit of the byte that it falls in. */
  lemma BitOfWord(blk: Block, w: nat, j: nat)
    requires 4 * w + 4 <= |blk| && j < 32
    ensures Bit(Word(blk, w), j) <==> Bit(blk[4 * w + j / 8], j % 8)
  {
    hide Bit;
    var a, b, c, d: nat := blk[4 * w], blk[4 * w + 1], blk[4 * w + 2], blk[4 * w + 3];
    var z: nat := c + 256 * d;
    var y: nat := b + 256 * z;
    assert Word(blk, w) == a + 256 * y;
    BitOfBytes(a, y, j);
    if j >= 8 { BitOfBytes(b, z, j - 8); }
    if j >= 16 { BitOfBytes(c, d, j - 16); }
  }
}
