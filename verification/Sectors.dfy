/** Disk sectors and the 32-bit little-endian words that index blocks and on-disk
    inodes are made of. */
module Sectors {

  const SECTOR_SIZE: nat := 512

  /** BLOCK_SECTOR_NONE, the all-ones sector number. */
  const NONE: Word := 0xFFFF_FFFF

  /** Words in one sector: both `struct indirect_block` and `struct inode_disk`
      fill a sector with 32-bit fields. */
  const WORDS: nat := 128

  type Byte = b: int | 0 <= b < 256
  type Word = w: int | 0 <= w < 0x1_0000_0000

  /** Byte `j` of word `w`, least significant first. */
  function ByteOf(w: Word, j: nat): (b: Byte)
    requires j < 4
  {
    if j == 0 then w % 256
    else if j == 1 then w / 256 % 256
    else if j == 2 then w / 65536 % 256
    else w / 16777216
  }

  /** The memory image of an array of words. */
  function Pack(ws: seq<Word>): (b: seq<Byte>)
    ensures |b| == 4 * |ws|
  {
    seq(4 * |ws|, k requires 0 <= k < 4 * |ws| => ByteOf(ws[k / 4], k % 4))
  }

  function Join(b0: Byte, b1: Byte, b2: Byte, b3: Byte): (w: Word) {
    b0 + 256 * b1 + 65536 * b2 + 16777216 * b3
  }

  /** The words that a memory image spells out. */
  function Unpack(b: seq<Byte>): (ws: seq<Word>)
    ensures |ws| == |b| / 4
  {
    seq(|b| / 4, i requires 0 <= i < |b| / 4 => Join(b[4 * i], b[4 * i + 1], b[4 * i + 2], b[4 * i + 3]))
  }

  lemma JoinBytes(w: Word)
    ensures Join(ByteOf(w, 0), ByteOf(w, 1), ByteOf(w, 2), ByteOf(w, 3)) == w
  {
    var w1, w2 := w / 256, w / 65536;
    assert w2 == w1 / 256;
    assert w / 16777216 == w2 / 256;
    assert w == 256 * w1 + w % 256;
    assert w1 == 256 * w2 + w1 % 256;
    assert w2 == 256 * (w2 / 256) + w2 % 256;
  }

  lemma BytesJoin(b0: Byte, b1: Byte, b2: Byte, b3: Byte)
    ensures var w := Join(b0, b1, b2, b3);
            ByteOf(w, 0) == b0 && ByteOf(w, 1) == b1 && ByteOf(w, 2) == b2 && ByteOf(w, 3) == b3
  {
    var w := Join(b0, b1, b2, b3);
    assert w / 16777216 == b3;
    assert w / 65536 == b2 + 256 * b3;
    assert w / 256 == b1 + 256 * (b2 + 256 * b3);
  }

  /** Reading back a written index block or inode gives the same words. */
  lemma PackAt(ws: seq<Word>, i: nat, j: nat)
    requires i < |ws| && j < 4
    ensures Pack(ws)[4 * i + j] == ByteOf(ws[i], j)
  {
    assert (4 * i + j) / 4 == i && (4 * i + j) % 4 == j;
  }

  lemma UnpackPack(ws: seq<Word>)
    ensures Unpack(Pack(ws)) == ws
  {
    hide Pack, ByteOf, Join;
    var b := Pack(ws);
    forall i | 0 <= i < |ws| ensures Unpack(b)[i] == ws[i] {
      JoinBytes(ws[i]);
      PackAt(ws, i, 0);
      PackAt(ws, i, 1);
      PackAt(ws, i, 2);
      PackAt(ws, i, 3);
    }
  }

  /** Writing back the words that were read leaves a sector unchanged. */
  lemma PackUnpack(b: seq<Byte>)
    requires |b| % 4 == 0
    ensures Pack(Unpack(b)) == b
  {
    var ws := Unpack(b);
    forall k | 0 <= k < |b| ensures Pack(ws)[k] == b[k] {
      var i := k / 4;
      BytesJoin(b[4 * i], b[4 * i + 1], b[4 * i + 2], b[4 * i + 3]);
      assert k == 4 * i + k % 4;
    }
  }
}
