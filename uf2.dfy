/**
 * The firmware image converter: a flat binary becomes a sequence of 512-byte UF2 blocks
 * (the block layout of the "File format" section of Microsoft's UF2 specification), one
 * per 256 bytes of input, addressed from the start of the RP2350's flash and tagged with
 * the family ID the script writes. A decoder reads such an image back.
 */
module Uf2 {
  import opened Wrappers

  /** An element of a Python `bytes` object: an int from 0 to 255. */
  type uint8 = x: int | 0 <= x < 0x100

  /** `b"\x00" * n`. */
  function Zeros(n: nat): (z: seq<uint8>)
    ensures |z| == n && forall k :: 0 <= k < n ==> z[k] == 0
  {
    seq(n, _ => 0)
  }

  const MAGIC_START0: nat := 0x0A324655
  const MAGIC_START1: nat := 0x9E5D5157
  const MAGIC_END: nat := 0x0AB16F30
  /** Flag 0x2000: the family ID field is present. */
  const FLAG_FAMILY_ID_PRESENT: nat := 0x00002000
  /** The family ID the script writes into every block. */
  const FAMILY_ID: nat := 0xe48bff56
  /** Payload bytes carried by every block of this encoder. */
  const PAYLOAD_SIZE: nat := 256
  /** Size of the data area of a block, between the 32-byte header and the final magic. */
  const DATA_AREA: nat := 476
  /** Where the image is written: the start of flash. */
  const FLASH_BASE: nat := 0x10000000
  /** `struct.pack("<I", v)` accepts exactly the values below this bound. */
  const U32_LIMIT: nat := 0x1_0000_0000
  /** Block numbers whose target address still fits in 32 bits. */
  const MAX_BLOCKS: nat := 0xF0_0000

  // ---------------------------------------------------------------------------
  // Little-endian 32-bit words
  // ---------------------------------------------------------------------------

  /** A value `struct.pack("<I", ·)` accepts. */
  type uint32 = x: int | 0 <= x < 0x1_0000_0000

  /** 256 to the power `width`: the number of values `width` bytes can hold. */
  function Pow256(width: nat): nat
  {
    if width == 0 then 1 else 0x100 * Pow256(width - 1)
  }

  /** The `width`-byte little-endian encoding of `v`, least significant byte first. */
  function LittleEndian(v: nat, width: nat): (r: seq<uint8>)
    ensures |r| == width
  {
    if width == 0 then [] else [v % 0x100] + LittleEndian(v / 0x100, width - 1)
  }

  /** The value of little-endian bytes. */
  function FromLittleEndian(b: seq<uint8>): nat
  {
    if b == [] then 0 else b[0] + 0x100 * FromLittleEndian(b[1..])
  }

  /** Decoding undoes encoding for every value the width can hold. */
  lemma {:induction false} FromLittleEndianInverse(v: nat, width: nat)
    requires v < Pow256(width)
    ensures FromLittleEndian(LittleEndian(v, width)) == v
  {
    if width > 0 {
      var r := LittleEndian(v, width);
      assert r[1..] == LittleEndian(v / 0x100, width - 1);
      FromLittleEndianInverse(v / 0x100, width - 1);
    }
  }

  /** `struct.pack("<I", v)`: four bytes, least significant first. */
  function PackU32(v: uint32): (r: seq<uint8>)
    ensures |r| == 4
  {
    LittleEndian(v, 4)
  }

  /** `struct.unpack("<I", b)`. */
  function UnpackU32(b: seq<uint8>): nat
    requires |b| == 4
  {
    FromLittleEndian(b)
  }

  lemma UnpackPackU32(v: uint32)
    ensures UnpackU32(PackU32(v)) == v
  {
    assert Pow256(4) == 0x1_0000_0000;
    FromLittleEndianInverse(v, 4);
  }

  /** Several words packed one after the other, as one `struct.pack("<II…")`. */
  function PackWords(ws: seq<uint32>): (r: seq<uint8>)
    ensures |r| == 4 * |ws|
  {
    if ws == [] then [] else PackWords(ws[..|ws| - 1]) + PackU32(ws[|ws| - 1])
  }

  /** Word `k` of a packed header sits at bytes `4k .. 4k+4`. */
  lemma {:induction false} PackWordsAt(ws: seq<uint32>, k: nat)
    requires k < |ws|
    ensures PackWords(ws)[4 * k..4 * k + 4] == PackU32(ws[k])
    decreases |ws|
  {
    var init := ws[..|ws| - 1];
    assert PackWords(ws) == PackWords(init) + PackU32(ws[|ws| - 1]);
    if k < |ws| - 1 {
      PackWordsAt(init, k);
    }
  }

  // ---------------------------------------------------------------------------
  // The block layout
  // ---------------------------------------------------------------------------

  /** `(len(data) + 255) // 256`: the number of blocks of the image. */
  function NumBlocks(len: nat): (n: nat)
    ensures 256 * n >= len && (n > 0 ==> 256 * (n - 1) < len)
  {
    (len + 255) / 256
  }

  /**
   * Whether `struct.pack` accepts the header of block `i` of `n`: its target address and
   * the block count both fit in 32 bits, which holds exactly for the blocks numbered
   * below 0xF00000 of an image whose count is below 2^32.
   */
  function Packable(i: nat, n: nat): (ok: bool)
    ensures ok <==> i < MAX_BLOCKS && n < U32_LIMIT
  {
    FLASH_BASE + 256 * i < U32_LIMIT && n < U32_LIMIT
  }

  /**
   * The 32-bit fields of block `i` of `n`, in header order: the two start magics, the
   * flags, the target address, the payload size, the block number, the block count and
   * the family ID.
   */
  function HeaderWords(i: nat, n: nat): (ws: seq<uint32>)
    requires Packable(i, n)
    ensures |ws| == 8
  {
    [MAGIC_START0, MAGIC_START1, FLAG_FAMILY_ID_PRESENT, FLASH_BASE + 256 * i,
     PAYLOAD_SIZE, i, n, FAMILY_ID]
  }

  /** The 32-byte header of block `i` of `n`. */
  function Header(i: nat, n: nat): (h: seq<uint8>)
    requires Packable(i, n)
    ensures |h| == 32
  {
    PackWords(HeaderWords(i, n))
  }

  /** Block `i`'s payload: input bytes `256 i .. 256 i + 255`, zero past the end of the input. */
  function Chunk(data: seq<uint8>, i: nat): (c: seq<uint8>)
    ensures |c| == 256
  {
    seq(256, k requires 0 <= k < 256 => if 256 * i + k < |data| then data[256 * i + k] else 0)
  }

  /** Block `i` of an image of `n` blocks: header, payload, 220 zero bytes, final magic. */
  function Block(data: seq<uint8>, i: nat, n: nat): (b: seq<uint8>)
    requires Packable(i, n)
    ensures |b| == 512
  {
    Header(i, n) + Chunk(data, i) + Zeros(220) + PackU32(MAGIC_END)
  }

  /** The image `convert_bin_to_uf2` has written once its first `k` blocks are out. */
  function Blocks(data: seq<uint8>, n: nat, k: nat): (img: seq<uint8>)
    requires k <= n && (k > 0 ==> Packable(k - 1, n))
    ensures |img| == 512 * k
  {
    if k == 0 then [] else Blocks(data, n, k - 1) + Block(data, k - 1, n)
  }

  /**
   * How many blocks are written before `struct.pack` raises, if it raises at all: the
   * blocks whose header packs are exactly the first `w`.
   */
  function WrittenBlocks(n: nat): (w: nat)
    ensures w <= n
    ensures forall i :: 0 <= i < n ==> (Packable(i, n) <==> i < w)
    ensures (w == n) == (n <= MAX_BLOCKS)
  {
    if n >= U32_LIMIT then 0 else if n <= MAX_BLOCKS then n else MAX_BLOCKS
  }

  /**
   * The whole image of a binary that fits the 32-bit address space: `ceil(|data| / 256)`
   * blocks of 512 bytes; empty input gives an empty image, and only empty input does.
   */
  function Uf2Image(data: seq<uint8>): (img: seq<uint8>)
    requires NumBlocks(|data|) <= MAX_BLOCKS
    ensures |img| == 512 * NumBlocks(|data|)
    ensures data == [] <==> img == []
  {
    Blocks(data, NumBlocks(|data|), NumBlocks(|data|))
  }

  // ---------------------------------------------------------------------------
  // The encoder
  // ---------------------------------------------------------------------------

  /**
   * `convert_bin_to_uf2` from the bytes read to the bytes written. `ok` is false when
   * `struct.pack` raises because an address or the block count does not fit in 32 bits;
   * `out` then holds the blocks already written to the file.
   */
  method ConvertBinToUf2(data: seq<uint8>) returns (out: seq<uint8>, ok: bool)
    ensures ok == (NumBlocks(|data|) <= MAX_BLOCKS)
    ensures out == Blocks(data, NumBlocks(|data|), WrittenBlocks(NumBlocks(|data|)))
  {
    var numBlocks := (|data| + 255) / 256;
    assert numBlocks == NumBlocks(|data|);
    out := [];
    var i := 0;
    while i < numBlocks
      invariant i <= WrittenBlocks(numBlocks)
      invariant out == Blocks(data, numBlocks, i)
    {
      var chunk := NextChunk(data, i);
      if !Packable(i, numBlocks) {
        // struct.error: the exception leaves the blocks written so far in the file
        assert i == WrittenBlocks(numBlocks);
        return out, false;
      }
      var header := PackWords(HeaderWords(i, numBlocks));
      var footer := PackU32(MAGIC_END);
      out := out + (header + chunk + Zeros(220) + footer);
      i := i + 1;
    }
    assert i == WrittenBlocks(numBlocks);
    ok := true;
  }

  /**
   * One iteration's `chunk = data[i*256:(i+1)*256]`, a slice Python clamps at the end of
   * `data`, and its padding to 256 bytes: the payload of block `i`.
   */
  method NextChunk(data: seq<uint8>, i: nat) returns (chunk: seq<uint8>)
    requires 256 * i < |data|
    ensures chunk == Chunk(data, i)
  {
    var lo := i * 256;
    var hi := if (i + 1) * 256 < |data| then (i + 1) * 256 else |data|;
    chunk := data[lo..hi];
    if |chunk| < 256 {
      chunk := chunk + Zeros(256 - |chunk|);
    }
  }

  // ---------------------------------------------------------------------------
  // Properties of the image
  // ---------------------------------------------------------------------------

  /** Slicing a whole 512-byte unit out of a concatenation of units. */
  lemma UnitOfAppend(prev: seq<uint8>, blk: seq<uint8>, j: nat)
    requires |prev| % 512 == 0 && |blk| == 512 && 512 * j < |prev| + 512
    ensures (prev + blk)[512 * j..512 * j + 512]
            == if 512 * j < |prev| then prev[512 * j..512 * j + 512] else blk
  {
  }

  /** Block `j` of a partial image sits at bytes `512 j .. 512 j + 512`. */
  lemma {:induction false} BlocksAt(data: seq<uint8>, n: nat, k: nat, j: nat)
    requires k <= n && (k > 0 ==> Packable(k - 1, n))
    requires j < k
    ensures Packable(j, n)
    ensures Blocks(data, n, k)[512 * j..512 * j + 512] == Block(data, j, n)
    decreases k
  {
    UnitOfAppend(Blocks(data, n, k - 1), Block(data, k - 1, n), j);
    if j < k - 1 {
      BlocksAt(data, n, k - 1, j);
    }
  }

  /**
   * The layout of every block: the eight header words of `HeaderWords` in little-endian
   * order at bytes 0..31, the payload at 32..287, zeros at 288..507 and the end magic
   * at 508..511.
   */
  lemma BlockLayout(data: seq<uint8>, i: nat, n: nat)
    requires Packable(i, n)
    ensures var b := Block(data, i, n);
      && (forall k :: 0 <= k < 8 ==> b[4 * k..4 * k + 4] == PackU32(HeaderWords(i, n)[k]))
      && b[32..288] == Chunk(data, i)
      && (forall k :: 288 <= k < 508 ==> b[k] == 0)
      && b[508..512] == PackU32(MAGIC_END)
  {
    var h := Header(i, n);
    var b := Block(data, i, n);
    assert b[..32] == h;
    forall k | 0 <= k < 8
      ensures b[4 * k..4 * k + 4] == PackU32(HeaderWords(i, n)[k])
    {
      PackWordsAt(HeaderWords(i, n), k);
      assert b[4 * k..4 * k + 4] == h[4 * k..4 * k + 4];
    }
  }

  // ---------------------------------------------------------------------------
  // The decoder
  // ---------------------------------------------------------------------------

  /** The header fields of a block after the two start magics. */
  datatype BlockHeader = BlockHeader(flags: nat, targetAddr: nat, payloadSize: nat,
                                     blockNo: nat, numBlocks: nat, familyId: nat)

  /** Little-endian word `k` of a block. */
  function Word(b: seq<uint8>, k: nat): nat
    requires 4 * k + 4 <= |b|
  {
    UnpackU32(b[4 * k..4 * k + 4])
  }

  /** A 512-byte block with both start magics and the end magic: its header and payload. */
  function DecodeBlock(b: seq<uint8>): Option<(BlockHeader, seq<uint8>)>
    requires |b| == 512
  {
    if Word(b, 0) != MAGIC_START0 || Word(b, 1) != MAGIC_START1 || Word(b, 127) != MAGIC_END then None
    else
      var h := BlockHeader(Word(b, 2), Word(b, 3), Word(b, 4), Word(b, 5), Word(b, 6), Word(b, 7));
      if h.payloadSize > DATA_AREA then None else Some((h, b[32..32 + h.payloadSize]))
  }

  /** The payloads of the first `k` blocks of an image of `total` blocks, numbered in order. */
  function DecodeBlocks(img: seq<uint8>, total: nat, k: nat): Option<seq<uint8>>
    requires 512 * k <= |img|
  {
    if k == 0 then Some([])
    else
      var prev := DecodeBlocks(img, total, k - 1);
      var blk := DecodeBlock(img[512 * (k - 1)..512 * k]);
      if prev.None? || blk.None? then None
      else if blk.value.0.blockNo != k - 1 || blk.value.0.numBlocks != total then None
      else Some(prev.value + blk.value.1)
  }

  /** A UF2 image read back: the concatenated payloads of all its blocks. */
  function DecodeImage(img: seq<uint8>): Option<seq<uint8>>
  {
    if |img| % 512 != 0 then None else DecodeBlocks(img, |img| / 512, |img| / 512)
  }

  /** The words of a block the encoder writes read back as the fields it packed. */
  lemma BlockWords(data: seq<uint8>, i: nat, n: nat)
    requires Packable(i, n)
    ensures forall k :: 0 <= k < 8 ==> Word(Block(data, i, n), k) == HeaderWords(i, n)[k]
    ensures Word(Block(data, i, n), 127) == MAGIC_END
  {
    var b := Block(data, i, n);
    BlockLayout(data, i, n);
    forall k | 0 <= k < 8
      ensures Word(b, k) == HeaderWords(i, n)[k]
    {
      UnpackPackU32(HeaderWords(i, n)[k]);
    }
    UnpackPackU32(MAGIC_END);
    assert b[4 * 127..4 * 127 + 4] == b[508..512];
  }

  /** Every block the encoder writes decodes to its header fields and its payload. */
  lemma DecodeEncodedBlock(data: seq<uint8>, i: nat, n: nat)
    requires Packable(i, n)
    ensures DecodeBlock(Block(data, i, n))
            == Some((BlockHeader(FLAG_FAMILY_ID_PRESENT, (FLASH_BASE + 256 * i) as uint32, PAYLOAD_SIZE,
                                 i, n, FAMILY_ID),
                     Chunk(data, i)))
  {
    var b := Block(data, i, n);
    var ws := HeaderWords(i, n);
    BlockWords(data, i, n);
    BlockLayout(data, i, n);
    assert Word(b, 0) == ws[0] && Word(b, 1) == ws[1] && Word(b, 2) == ws[2] && Word(b, 3) == ws[3];
    assert Word(b, 4) == ws[4] && Word(b, 5) == ws[5] && Word(b, 6) == ws[6] && Word(b, 7) == ws[7];
  }

  /** The input, zero-padded to whole blocks. */
  function Padded(data: seq<uint8>): (p: seq<uint8>)
    ensures |p| == 256 * NumBlocks(|data|) && p[..|data|] == data
  {
    data + Zeros(256 * NumBlocks(|data|) - |data|)
  }

  /** Chunk `i` is bytes `256 i .. 256 i + 255` of the padded input. */
  lemma PaddedChunk(data: seq<uint8>, i: nat)
    requires i < NumBlocks(|data|)
    ensures Padded(data)[256 * i..256 * i + 256] == Chunk(data, i)
  {
    var p := Padded(data);
    assert forall k :: 0 <= k < 256 ==> p[256 * i..256 * i + 256][k] == Chunk(data, i)[k];
  }

  /** The header fields the encoder writes into block `i` of `n`. */
  function EncodedHeader(i: nat, n: nat): BlockHeader
    requires Packable(i, n)
  {
    BlockHeader(FLAG_FAMILY_ID_PRESENT, FLASH_BASE + 256 * i, PAYLOAD_SIZE, i, n, FAMILY_ID)
  }

  /** Block `j` of the image decodes to its header fields and chunk `j` of the input. */
  lemma ImageBlockDecodes(data: seq<uint8>, j: nat)
    requires NumBlocks(|data|) <= MAX_BLOCKS && j < NumBlocks(|data|)
    ensures 512 * j + 512 <= |Uf2Image(data)|
    ensures DecodeBlock(Uf2Image(data)[512 * j..512 * j + 512])
            == Some((EncodedHeader(j, NumBlocks(|data|)), Chunk(data, j)))
  {
    var n := NumBlocks(|data|);
    BlocksAt(data, n, n, j);
    DecodeEncodedBlock(data, j, n);
  }

  /** Block `j` of `img` decodes as block `j` of `total`, carrying bytes `256 j .. 256 j + 256` of `p`. */
  predicate BlockDecodesTo(img: seq<uint8>, total: nat, j: nat, p: seq<uint8>)
    requires 512 * j + 512 <= |img| && 256 * j + 256 <= |p|
  {
    var d := DecodeBlock(img[512 * j..512 * j + 512]);
    d.Some? && d.value.0.blockNo == j && d.value.0.numBlocks == total && d.value.1 == p[256 * j..256 * j + 256]
  }

  /** Decoding one more block that carries the next 256 bytes of `p` extends the decoded prefix of `p`. */
  lemma DecodeBlocksStep(img: seq<uint8>, total: nat, p: seq<uint8>, k: nat)
    requires 0 < k && 512 * k <= |img| && 256 * k <= |p|
    requires DecodeBlocks(img, total, k - 1) == Some(p[..256 * (k - 1)])
    requires BlockDecodesTo(img, total, k - 1, p)
    ensures DecodeBlocks(img, total, k) == Some(p[..256 * k])
  {
    assert p[..256 * k] == p[..256 * (k - 1)] + p[256 * (k - 1)..256 * k];
  }

  /** When each of the first `k` blocks carries its 256 bytes of `p`, decoding them yields `p`'s prefix. */
  lemma {:induction false} DecodeBlocksPrefix(img: seq<uint8>, total: nat, p: seq<uint8>, k: nat)
    requires 512 * k <= |img| && 256 * k <= |p|
    requires forall j :: 0 <= j < k ==> BlockDecodesTo(img, total, j, p)
    ensures DecodeBlocks(img, total, k) == Some(p[..256 * k])
    decreases k
  {
    if k > 0 {
      DecodeBlocksPrefix(img, total, p, k - 1);
      DecodeBlocksStep(img, total, p, k);
    }
  }

  /**
   * Round trip: reading the image back yields the input followed by the zero padding of
   * its last block, so truncating the payloads to `|data|` bytes gives back the input.
   */
  lemma DecodeImageRoundTrip(data: seq<uint8>)
    requires NumBlocks(|data|) <= MAX_BLOCKS
    ensures DecodeImage(Uf2Image(data)) == Some(Padded(data))
    ensures DecodeImage(Uf2Image(data)).value[..|data|] == data
  {
    var n := NumBlocks(|data|);
    var img := Uf2Image(data);
    var p := Padded(data);
    forall j | 0 <= j < n
      ensures BlockDecodesTo(img, n, j, p)
    {
      ImageBlockDecodes(data, j);
      PaddedChunk(data, j);
    }
    DecodeBlocksPrefix(img, n, p, n);
    assert |img| / 512 == n;
    assert p[..256 * n] == p;
  }
}
