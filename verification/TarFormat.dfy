/**
 The parts of the tar format that the archive code reads: 512-byte blocks, the
 header checksum, and the questions it leaves to the tar crate.
 */
module TarFormat {
  import opened Machine

  const BLOCK_SIZE: nat := 512
  const EXT_SPARSE_IS_EXTENDED_OFFSET: nat := 504
  const CKSUM_START: nat := 148
  const CKSUM_END: nat := 156
  const CKSUM_FILL: nat := 32
  const MAX_EXTENDED_HEADER_BYTES: nat := 1024 * 1024
  /** The bytes of `size`, the PAX key that overrides the entry size. */
  const PAX_SIZE_KEY: seq<Byte> := [115, 105, 122, 101]

  datatype EntryKind =
    | Regular | Continuous | Directory | Symlink | Link
    | GnuLongName | GnuLongLink | PaxLocal | PaxGlobal
    | GnuSparse | Special

  datatype PaxRecord = Malformed | Record(key: seq<Byte>, value: seq<Byte>)

  /**
   What the tar crate answers about a header block or a PAX body. Every theorem
   holds for any such answers, so none of them depends on the crate's parsers.
   */
  datatype TarCrate = TarCrate(
    storedChecksum: seq<Byte> -> Option<nat>,
    entrySize: seq<Byte> -> Option<U64>,
    expandedSize: seq<Byte> -> U64,
    kind: seq<Byte> -> EntryKind,
    gnuExtended: seq<Byte> -> bool,
    paxRecords: seq<Byte> -> seq<PaxRecord>,
    paxNumber: seq<Byte> -> Option<nat>)

  predicate IsZero(block: seq<Byte>) {
    forall i :: 0 <= i < |block| ==> block[i] == 0
  }

  /** Sum of `block[i..]` with the checksum field counted as spaces. */
  function HeaderSum(block: seq<Byte>, i: nat): nat
    requires i <= |block|
    decreases |block| - i
  {
    if i == |block| then 0
    else (if CKSUM_START <= i < CKSUM_END then CKSUM_FILL else block[i]) + HeaderSum(block, i + 1)
  }

  function ByteSum(s: seq<Byte>): nat {
    if s == [] then 0 else s[0] + ByteSum(s[1..])
  }

  /** A header block with spaces in its checksum field. */
  function Blanked(block: seq<Byte>): seq<Byte>
    requires CKSUM_END <= |block|
  {
    block[..CKSUM_START] + seq(CKSUM_END - CKSUM_START, _ => CKSUM_FILL) + block[CKSUM_END..]
  }

  /** The checksum is the plain byte sum of the blanked block, so it never reads its own field. */
  lemma {:induction false} HeaderSumIsBlankedSum(block: seq<Byte>, i: nat)
    requires CKSUM_END <= |block| && i <= |block|
    ensures HeaderSum(block, i) == ByteSum(Blanked(block)[i..])
    decreases |block| - i
  {
    if i < |block| {
      HeaderSumIsBlankedSum(block, i + 1);
      assert Blanked(block)[i..][1..] == Blanked(block)[i + 1..];
    }
  }

  predicate ChecksumMatches(tar: TarCrate, block: seq<Byte>) {
    tar.storedChecksum(block) == Some(HeaderSum(block, 0))
  }

  predicate IsPax(kind: EntryKind) {
    kind.PaxLocal? || kind.PaxGlobal?
  }

  /** Headers that carry data about a later entry and are capped in size. */
  predicate IsExtension(kind: EntryKind) {
    kind.GnuLongName? || kind.GnuLongLink? || IsPax(kind)
  }

  /** `size` rounded up to whole blocks, with no machine limit. */
  function Padded(size: nat): (r: nat)
    ensures size <= r < size + BLOCK_SIZE
    ensures r % BLOCK_SIZE == 0
  {
    var blocks := (size + BLOCK_SIZE - 1) / BLOCK_SIZE;
    WholeBlocks(blocks);
    blocks * BLOCK_SIZE
  }

  lemma WholeBlocks(blocks: nat)
    ensures blocks * BLOCK_SIZE % BLOCK_SIZE == 0
  {
    assert blocks * BLOCK_SIZE == BLOCK_SIZE * blocks + 0;
  }
}
