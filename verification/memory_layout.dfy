/** `Memory.export` of templates/src/types/Memory.ts as the structure it
    emits: an empty header list, an empty ids list, enough empty data arrays
    for the requested size, the array selector and index helpers, and three
    constants. */
module MemoryLayout {
  import opened Wrappers
  import opened Float
  import opened Addressing

  /** `MEMORY_BLOCK_SIZE`. */
  const MemoryBlockSize: nat := 5

  /** `HEADER_BLOCKS_SIZE` of a memory. */
  const MemoryHeaderBlocksSize: nat := 2

  /** `HEADER_SIZE = 1 + HEADER_BLOCKS_SIZE`. */
  const MemoryHeaderSize: nat := 1 + MemoryHeaderBlocksSize

  /** A registered memory: its name and requested size. Nothing updates it
      after construction. */
  datatype Memory = Memory(name: string, size: int)

  /** What the export declares. */
  datatype MemoryImage = MemoryImage(
    header: seq<int>,
    ids: seq<int>,
    dataArrays: seq<seq<int>>,
    selector: Selector,
    headerBlocksSize: nat,
    headerSize: nat,
    blockSize: nat)

  /** `requestedSize = max(1, ceil(size / BYTES_PER_FLOAT / 10000))`. */
  function MemoryArrayCount(size: int): nat
  {
    Max(1, CeilDiv(size, BytesPerFloat * ChunkSize))
  }

  /** At least one array is declared, and enough of them to hold `size`
      entries at six per word, 10,000 words per array; no more than that
      unless one is the minimum. */
  lemma MemoryArrayCountBounds(size: int)
    ensures MemoryArrayCount(size) >= 1
    ensures BytesPerFloat * ChunkSize * MemoryArrayCount(size) >= size
    ensures MemoryArrayCount(size) == 1 || BytesPerFloat * ChunkSize * (MemoryArrayCount(size) - 1) < size
  {
    CeilDivBounds(size, BytesPerFloat * ChunkSize);
  }

  /** The image a memory of the given size exports. */
  function MemoryImageOf(m: Memory): MemoryImage
  {
    var n := MemoryArrayCount(m.size);
    MemoryImage([], [], seq(n, _ => []), SelectorFor(n), MemoryHeaderBlocksSize, MemoryHeaderSize, MemoryBlockSize)
  }

  /** `Memory.export()`: declares the empty lists, then `requestedSize` empty
      data arrays, then builds the selector. */
  method Export(m: Memory) returns (img: MemoryImage)
    ensures img == MemoryImageOf(m)
  {
    var requestedSize := Max(1, CeilDiv(m.size, BytesPerFloat * ChunkSize));
    var arrays: seq<seq<int>> := [];
    for i := 0 to requestedSize
      invariant arrays == seq(i, _ => [])
    {
      arrays := arrays + [[]];
    }
    var selector := BuildSelector(requestedSize);
    img := MemoryImage([], [], arrays, selector, MemoryHeaderBlocksSize, MemoryHeaderSize, MemoryBlockSize);
  }

  /** The export declares `requestedSize` empty arrays, an empty header and
      an empty ids list, and its selector sends every array number in range
      to that array and all others to the last one. */
  lemma MemoryImageShape(m: Memory, a: int)
    ensures var img := MemoryImageOf(m);
            && img.header == [] && img.ids == []
            && |img.dataArrays| == MemoryArrayCount(m.size) >= 1
            && (forall k :: 0 <= k < |img.dataArrays| ==> img.dataArrays[k] == [])
            && Choose(img.selector, a) == (if 0 <= a < |img.dataArrays| then a else |img.dataArrays| - 1)
            && img.headerSize == 1 + img.headerBlocksSize == 3
            && img.blockSize == 5
  {
    MemoryArrayCountBounds(m.size);
    SelectorPicks(MemoryArrayCount(m.size), a);
  }

  /** A memory with one array returns it outright; with more, the selector is
      a chain of tests ending in the last array. */
  lemma MemorySelectorForm(m: Memory)
    ensures var n := MemoryArrayCount(m.size);
            (n == 1 ==> MemoryImageOf(m).selector == Direct(0)) &&
            (n > 1 ==> MemoryImageOf(m).selector.Chain? && MemoryImageOf(m).selector.fallback == n - 1
                       && |MemoryImageOf(m).selector.tests| == n - 1)
  {
  }
}
