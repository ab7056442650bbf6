/** `Disk.export` in both of its versions, as the lists it emits rather than
    the text around them. A disk holds named files; the export walks them in
    insertion order and builds
    - the header `table`: per file a 1, ten name words and the file's block
      ids packed two bytes per id into words;
    - `data`: the file contents, block by block;
    - `occupiedIDs`: every block id handed out, in order;
    and then splits `data` into arrays of 10,000 entries. The current
    version starts ids at 1, uses blocks of 10 entries, two header words for
    ids, at least one data array, and emits the array selector and index
    helpers; the older version starts ids at 0, uses blocks of 100 entries,
    five header words for ids, pads every emitted list to 10,000 entries and
    emits no helpers. */
module DiskLayout {
  import opened Wrappers
  import opened Util
  import opened Float
  import opened Addressing

  /** Words reserved for a file name in a header record. */
  const HeaderNameSize: nat := 10

  /** The longest name that fits in the name words. */
  const MaxNameLength: nat := 60

  /** The constants that tell the two export versions apart. */
  datatype Layout = Layout(
    firstBlockId: nat,
    blockSize: nat,
    headerBlocksSize: nat,
    minDataArrays: nat,
    legacy: bool)

  /** The current export: ids from 1, `BLOCK_SIZE` 10, `HEADER_BLOCKS_SIZE` 2,
      at least one data array, selector and index helpers emitted. */
  const TemplatesLayout := Layout(1, 10, 2, 1, false)

  /** The older export: ids from 0, `BLOCK_SIZE` 100, `HEADER_BLOCKS_SIZE` 5,
      no minimum array count, every list padded to 10,000 entries. */
  const LegacyLayout := Layout(0, 100, 5, 0, true)

  predicate ValidLayout(l: Layout)
  {
    l.blockSize > 0 && (!l.legacy ==> l.minDataArrays >= 1)
  }

  /** `HEADER_SIZE = 1 + HEADER_NAME_SIZE + HEADER_BLOCKS_SIZE`. */
  function HeaderSize(l: Layout): nat
  {
    1 + HeaderNameSize + l.headerBlocksSize
  }

  /** A file stored on a disk: its name and its list of numbers. */
  datatype File = File(name: string, bytes: seq<int>)

  /** "<name> exceeds the maximum name length!" */
  datatype DiskError = NameTooLong(name: string)

  /** The three lists the export builds. */
  datatype Tables = Tables(table: seq<int>, data: seq<int>, ids: seq<int>)

  /** `files[name] = bytes` on a JavaScript record: an existing entry keeps
      its place and takes the new contents, a new name goes last. */
  function Store(files: seq<File>, f: File): (r: seq<File>)
    ensures |r| == |files| || r == files + [f]
  {
    if files == [] then [f]
    else if files[0].name == f.name then [f] + files[1..]
    else [files[0]] + Store(files[1..], f)
  }

  /** The contents stored under a name, if any. */
  function Lookup(files: seq<File>, name: string): Option<seq<int>>
  {
    if files == [] then None
    else if files[0].name == name then Some(files[0].bytes)
    else Lookup(files[1..], name)
  }

  /** Storing a file makes its name map to its contents and leaves every
      other name as it was. */
  lemma {:induction false} StoreLookup(files: seq<File>, f: File, name: string)
    ensures Lookup(Store(files, f), name) == if name == f.name then Some(f.bytes) else Lookup(files, name)
  {
    if files != [] && files[0].name != f.name {
      StoreLookup(files[1..], f, name);
    }
  }

  /** Storing under a name already present keeps the number of files, so
      re-adding a file overwrites it in place. */
  lemma {:induction false} StoreOverwrites(files: seq<File>, f: File)
    requires Lookup(files, f.name).Some?
    ensures |Store(files, f)| == |files|
  {
    if files[0].name != f.name {
      StoreOverwrites(files[1..], f);
    }
  }

  /** The name words: the name's character codes packed into words and
      padded to ten. */
  function NameWords(name: string): (r: seq<int>)
    ensures |r| == Max(HeaderNameSize, CeilDiv(|name|, BytesPerFloat))
  {
    Padded(Encode(CharCodes(name)), HeaderNameSize)
  }

  /** The name words are exactly ten precisely when the name has at most 60
      characters. */
  lemma NameFits(name: string)
    ensures |NameWords(name)| == HeaderNameSize <==> |name| <= MaxNameLength
  {
    var c := CeilDiv(|name|, BytesPerFloat);
    if |name| <= MaxNameLength {
      assert c <= HeaderNameSize;
    } else {
      assert c > HeaderNameSize;
    }
  }

  /** `requiredBlocks = ceil(|bytes| / (BLOCK_SIZE * BYTES_PER_FLOAT))`. */
  function RequiredBlocks(l: Layout, bytes: seq<int>): nat
    requires l.blockSize > 0
  {
    CeilDiv(|bytes|, l.blockSize * BytesPerFloat)
  }

  /** A file gets the fewest blocks whose `BLOCK_SIZE * BYTES_PER_FLOAT`
      capacity covers its length. */
  lemma RequiredBlocksBounds(l: Layout, bytes: seq<int>)
    requires l.blockSize > 0
    ensures var c := RequiredBlocks(l, bytes);
            (c - 1) * (l.blockSize * BytesPerFloat) < |bytes| <= c * (l.blockSize * BytesPerFloat)
  {
    CeilDivBounds(|bytes|, l.blockSize * BytesPerFloat);
  }

  /** The ids `first, first + 1, …` handed out by the bump counter. */
  function BlockIds(first: int, count: nat): (r: seq<int>)
    ensures |r| == count
  {
    seq(count, k => first + k)
  }

  /** Each id as two entries, `floor(id / 256)` and `id % 256`. */
  function IdBytes(ids: seq<int>): (r: seq<int>)
    ensures |r| == 2 * |ids|
  {
    if ids == [] then []
    else IdBytes(ids[..|ids| - 1]) + [ids[|ids| - 1] / 256, ids[|ids| - 1] % 256]
  }

  /** The two entries of id k put it back together, and the low one is a byte. */
  lemma {:induction false} IdBytesSplit(ids: seq<int>, k: nat)
    requires k < |ids|
    ensures IdBytes(ids)[2 * k] * 256 + IdBytes(ids)[2 * k + 1] == ids[k]
    ensures 0 <= IdBytes(ids)[2 * k + 1] < 256
    decreases |ids|
  {
    var n := |ids| - 1;
    if k < n {
      assert ids[..n][k] == ids[k];
      IdBytesSplit(ids[..n], k);
    }
  }

  /** What the first `count` blocks of a file append to `data`: block i is
      `bytes.slice(bs * i, bs * (i + 1))` padded to bs entries. */
  function BlockData(bytes: seq<int>, bs: nat, count: nat): seq<int>
  {
    if count == 0 then []
    else BlockData(bytes, bs, count - 1) + Padded(Slice(bytes, bs * (count - 1), bs * count), bs)
  }

  /** The blocks hold the first bs * count entries of the file, zero-filled
      past its end. */
  lemma {:induction false} BlockDataIsPrefix(bytes: seq<int>, bs: nat, count: nat)
    ensures BlockData(bytes, bs, count) == ZeroFilled(bytes, bs * count)
  {
    if count > 0 {
      var m := bs * (count - 1);
      MulAdd(bs, count - 1, 1);
      BlockDataIsPrefix(bytes, bs, count - 1);
      var block := Padded(Slice(bytes, m, m + bs), bs);
      forall j | 0 <= j < |block|
        ensures block[j] == if m + j < |bytes| then bytes[m + j] else 0
      {
        BlockEntry(bytes, m, bs, j);
      }
      ZeroFilledExtend(bytes, m, block);
    }
  }

  /** The first n entries of a list, zero-filled past its end. */
  function ZeroFilled(bytes: seq<int>, n: nat): (r: seq<int>)
    ensures |r| == n
  {
    seq(n, k => if 0 <= k < |bytes| then bytes[k] else 0)
  }

  lemma ZeroFilledExtend(bytes: seq<int>, m: nat, block: seq<int>)
    requires forall j :: 0 <= j < |block| ==> block[j] == if m + j < |bytes| then bytes[m + j] else 0
    ensures ZeroFilled(bytes, m) + block == ZeroFilled(bytes, m + |block|)
  {
    var r := ZeroFilled(bytes, m) + block;
    forall k | 0 <= k < m + |block|
      ensures r[k] == ZeroFilled(bytes, m + |block|)[k]
    {
      if k >= m {
        assert block[k - m] == if m + (k - m) < |bytes| then bytes[m + (k - m)] else 0;
      }
    }
  }

  /** Entry j of a padded block starting at m. */
  lemma BlockEntry(bytes: seq<int>, m: nat, bs: nat, j: nat)
    requires j < bs
    ensures Padded(Slice(bytes, m, m + bs), bs)[j] == if m + j < |bytes| then bytes[m + j] else 0
  {
  }

  /** An eleven-entry file on the current layout needs one block, which keeps
      ten of its entries. */
  lemma FileDataDropsTail()
    ensures RequiredBlocks(TemplatesLayout, seq(11, k => k)) == 1
    ensures BlockData(seq(11, k => k), TemplatesLayout.blockSize, 1) == seq(10, k => k)
  {
    var bytes := seq(11, k => k);
    BlockDataIsPrefix(bytes, 10, 1);
  }

  /** The block count the layout evidently intends: a file's entries are
      already words, and a block holds `BLOCK_SIZE` of them. */
  function CorrectedBlocks(l: Layout, bytes: seq<int>): nat
    requires l.blockSize > 0
  {
    CeilDiv(|bytes|, l.blockSize)
  }

  /** With the corrected count the blocks hold the whole file, followed by
      fewer than one block of zeros. */
  lemma {:induction false} CorrectedBlocksKeepFile(l: Layout, bytes: seq<int>)
    requires l.blockSize > 0
    ensures var data := BlockData(bytes, l.blockSize, CorrectedBlocks(l, bytes));
            && |bytes| <= |data| < |bytes| + l.blockSize
            && data[..|bytes|] == bytes
            && (forall k :: |bytes| <= k < |data| ==> data[k] == 0)
  {
    var c, bs := CorrectedBlocks(l, bytes), l.blockSize;
    CeilDivBounds(|bytes|, bs);
    assert (c as int - 1) * bs == (c * bs) as int - bs;
    BlockDataIsPrefix(bytes, bs, c);
    var data := ZeroFilled(bytes, bs * c);
    assert data[..|bytes|] == bytes;
  }

  /** A file's header record: 1, the name words, then the id words padded to
      at least `HEADER_BLOCKS_SIZE` (never cut short). */
  function HeaderRecord(l: Layout, name: string, ids: seq<int>): seq<int>
  {
    [1] + NameWords(name) + Padded(Encode(IdBytes(ids)), l.headerBlocksSize)
  }

  /** A record for a name that fits is 11 + max(`HEADER_BLOCKS_SIZE`,
      ceil(2 |ids| / 6)) entries, which is `HEADER_SIZE` exactly when the
      file has at most 3 * `HEADER_BLOCKS_SIZE` blocks. */
  lemma HeaderRecordSize(l: Layout, name: string, ids: seq<int>)
    requires |name| <= MaxNameLength
    ensures |HeaderRecord(l, name, ids)| == 1 + HeaderNameSize + Max(l.headerBlocksSize, CeilDiv(2 * |ids|, BytesPerFloat))
    ensures |HeaderRecord(l, name, ids)| == HeaderSize(l) <==> |ids| <= 3 * l.headerBlocksSize
    ensures HeaderRecord(l, name, ids)[0] == 1
  {
    NameFits(name);
    var c := CeilDiv(2 * |ids|, BytesPerFloat);
    if |ids| <= 3 * l.headerBlocksSize {
      assert c <= l.headerBlocksSize;
    } else {
      assert c > l.headerBlocksSize;
    }
  }

  /** The number of blocks the first n files need together. */
  function TotalBlocks(l: Layout, files: seq<File>, n: nat): nat
    requires l.blockSize > 0 && n <= |files|
  {
    if n == 0 then 0 else TotalBlocks(l, files, n - 1) + RequiredBlocks(l, files[n - 1].bytes)
  }

  /** The header table after n rounds of the outer loop: one record per
      file, each file's ids continuing where the previous file's stopped. */
  function TableOf(l: Layout, files: seq<File>, n: nat): seq<int>
    requires l.blockSize > 0 && n <= |files|
  {
    if n == 0 then []
    else
      TableOf(l, files, n - 1)
        + HeaderRecord(l, files[n - 1].name,
                       BlockIds(l.firstBlockId + TotalBlocks(l, files, n - 1), RequiredBlocks(l, files[n - 1].bytes)))
  }

  /** The data list after n rounds of the outer loop: each file's blocks in
      turn. */
  function DataOf(l: Layout, files: seq<File>, n: nat): seq<int>
    requires l.blockSize > 0 && n <= |files|
  {
    if n == 0 then []
    else DataOf(l, files, n - 1) + BlockData(files[n - 1].bytes, l.blockSize, RequiredBlocks(l, files[n - 1].bytes))
  }

  /** The data list holds `BLOCK_SIZE` entries per block handed out. */
  lemma {:induction false} DataOfLength(l: Layout, files: seq<File>, n: nat)
    requires l.blockSize > 0 && n <= |files|
    ensures |DataOf(l, files, n)| == l.blockSize * TotalBlocks(l, files, n)
  {
    if n > 0 {
      var count := RequiredBlocks(l, files[n - 1].bytes);
      DataOfLength(l, files, n - 1);
      BlockDataIsPrefix(files[n - 1].bytes, l.blockSize, count);
      MulAdd(l.blockSize, TotalBlocks(l, files, n - 1), count);
    }
  }

  /** Consecutive runs of ids join into one run. */
  lemma BlockIdsAppend(first: int, a: nat, b: nat)
    ensures BlockIds(first, a) + BlockIds(first + a, b) == BlockIds(first, a + b)
  {
  }

  lemma MulAdd(a: int, b: int, c: int)
    ensures a * b + a * c == a * (b + c)
  {
  }

  /** Among the first n files, the first one whose name words do not come to
      exactly ten, if any. */
  function FirstMisfit(files: seq<File>, n: nat): (r: Option<nat>)
    requires n <= |files|
    ensures r.Some? ==> r.value < n
  {
    if n == 0 then None
    else
      match FirstMisfit(files, n - 1)
      case Some(k) => Some(k)
      case None => if |NameWords(files[n - 1].name)| != HeaderNameSize then Some(n - 1) else None
  }

  /** Each of the first n file names fits in the name words. */
  predicate AllNamesFit(files: seq<File>, n: nat)
    requires n <= |files|
  {
    forall k :: 0 <= k < n ==> |files[k].name| <= MaxNameLength
  }

  /** The outer loop gets through the first n files exactly when each of
      their names has at most 60 characters, and otherwise stops at the first
      longer one. */
  lemma {:induction false} FirstMisfitIsFirstLongName(files: seq<File>, n: nat)
    requires n <= |files|
    ensures FirstMisfit(files, n).None? <==> AllNamesFit(files, n)
    ensures FirstMisfit(files, n).Some? ==>
      var k := FirstMisfit(files, n).value;
      |files[k].name| > MaxNameLength && AllNamesFit(files, k)
  {
    if n > 0 {
      FirstMisfitIsFirstLongName(files, n - 1);
      NameFits(files[n - 1].name);
    }
  }

  /** Once the first m files have a misfit, so do the first n >= m, the same one. */
  lemma {:induction false} MisfitPersists(files: seq<File>, m: nat, n: nat)
    requires m <= n <= |files| && FirstMisfit(files, m).Some?
    ensures FirstMisfit(files, n) == FirstMisfit(files, m)
    decreases n - m
  {
    if m < n {
      MisfitPersists(files, m, n - 1);
    }
  }

  /** The helper declarations the current export emits next to the data. */
  datatype Accessors = Accessors(
    selector: Selector,
    headerNameSize: nat,
    headerBlocksSize: nat,
    headerSize: nat,
    blockSize: nat)

  /** The lists an export emits, and its helpers if it emits any. */
  datatype DiskImage = DiskImage(
    header: seq<int>,
    ids: seq<int>,
    dataArrays: seq<seq<int>>,
    accessors: Option<Accessors>)

  /** `numDataArrays = max(ceil(size / 6 / 10000), ceil(|data| / 10000), min)`. */
  function DataArrayCount(l: Layout, size: int, dataLength: nat): (n: nat)
    ensures n >= l.minDataArrays
    ensures ChunkSize * n >= dataLength
    ensures n >= CeilDiv(size, BytesPerFloat * ChunkSize)
    ensures n == l.minDataArrays || n == CeilDiv(size, BytesPerFloat * ChunkSize) || n == CeilDiv(dataLength, ChunkSize)
  {
    Max(Max(CeilDiv(size, BytesPerFloat * ChunkSize), CeilDiv(dataLength, ChunkSize)), l.minDataArrays)
  }

  /** The emitted data arrays: the chunks of `data`, each padded to 10,000
      entries in the older version. */
  function DataArrays(l: Layout, data: seq<int>, n: nat): (r: seq<seq<int>>)
    ensures |r| == n
  {
    seq(n, i requires 0 <= i < n => if l.legacy then Padded(Chunks(data, n)[i], ChunkSize) else Chunks(data, n)[i])
  }

  /** The three lists after the outer loop, when every name fits. */
  function TablesOf(l: Layout, files: seq<File>): Tables
    requires l.blockSize > 0
  {
    Tables(TableOf(l, files, |files|), DataOf(l, files, |files|), BlockIds(l.firstBlockId, TotalBlocks(l, files, |files|)))
  }

  /** The outcome of the outer loop: the three lists, or the first name
      that does not fit. */
  function Tabulated(l: Layout, files: seq<File>): Result<Tables, DiskError>
    requires l.blockSize > 0
  {
    match FirstMisfit(files, |files|)
    case Some(k) => Failure(NameTooLong(files[k].name))
    case None => Success(TablesOf(l, files))
  }

  /** What `export()` emits for a disk of the given size holding `files`. */
  function Image(l: Layout, files: seq<File>, size: int): Result<DiskImage, DiskError>
    requires ValidLayout(l)
  {
    match Tabulated(l, files)
    case Failure(e) => Failure(e)
    case Success(t) =>
      var n := DataArrayCount(l, size, |t.data|);
      if l.legacy then
        Success(DiskImage(Padded(t.table, DefaultPadLength), Padded(t.ids, DefaultPadLength), DataArrays(l, t.data, n), None))
      else
        Success(DiskImage(t.table, t.ids, DataArrays(l, t.data, n),
          Some(Accessors(SelectorFor(n), HeaderNameSize, l.headerBlocksSize, HeaderSize(l), l.blockSize))))
  }

  /** The export fails exactly when some name is longer than 60 characters,
      and then with the first such name. */
  lemma ImageFails(l: Layout, files: seq<File>, size: int)
    requires ValidLayout(l)
    ensures Image(l, files, size).Failure? <==> !AllNamesFit(files, |files|)
    ensures Image(l, files, size).Failure? ==>
      exists k :: 0 <= k < |files| && AllNamesFit(files, k) && |files[k].name| > MaxNameLength &&
                  Image(l, files, size).error == NameTooLong(files[k].name)
  {
    FirstMisfitIsFirstLongName(files, |files|);
    if FirstMisfit(files, |files|).Some? {
      var k := FirstMisfit(files, |files|).value;
      assert AllNamesFit(files, k) && |files[k].name| > MaxNameLength;
    }
  }

  /** When every name fits, the ids are `first, first + 1, …` over all blocks
      of all files, and `data` holds `BLOCK_SIZE` entries per block. */
  lemma TablesShape(l: Layout, files: seq<File>)
    requires l.blockSize > 0
    ensures TablesOf(l, files).ids == seq(TotalBlocks(l, files, |files|), k => l.firstBlockId + k)
    ensures |TablesOf(l, files).data| == l.blockSize * TotalBlocks(l, files, |files|)
  {
    DataOfLength(l, files, |files|);
  }

  /** File k's header record follows the records of the files before it
      and names the ids that follow theirs. */
  lemma TableRecord(l: Layout, files: seq<File>, k: nat, first: int)
    requires l.blockSize > 0 && k < |files|
    requires first == l.firstBlockId + TotalBlocks(l, files, k)
    ensures TableOf(l, files, k + 1) == TableOf(l, files, k)
              + HeaderRecord(l, files[k].name, BlockIds(first, RequiredBlocks(l, files[k].bytes)))
  {
  }

  /** File k's ids continue the run of ids handed out before it. */
  lemma IdsRecord(l: Layout, files: seq<File>, k: nat, first: int)
    requires l.blockSize > 0 && k < |files|
    requires first == l.firstBlockId + TotalBlocks(l, files, k)
    ensures first + RequiredBlocks(l, files[k].bytes) == l.firstBlockId + TotalBlocks(l, files, k + 1)
    ensures BlockIds(l.firstBlockId, TotalBlocks(l, files, k + 1))
         == BlockIds(l.firstBlockId, TotalBlocks(l, files, k)) + BlockIds(first, RequiredBlocks(l, files[k].bytes))
  {
    BlockIdsAppend(l.firstBlockId, TotalBlocks(l, files, k), RequiredBlocks(l, files[k].bytes));
  }

  /** The table after m files is a prefix of the table after n >= m files:
      later files only append records. */
  lemma {:induction false} TablePrefix(l: Layout, files: seq<File>, m: nat, n: nat)
    requires l.blockSize > 0 && m <= n <= |files|
    ensures TableOf(l, files, m) <= TableOf(l, files, n)
    decreases n
  {
    if m < n {
      TablePrefix(l, files, m, n - 1);
      TableRecord(l, files, n - 1, l.firstBlockId + TotalBlocks(l, files, n - 1));
      PrefixAppend(TableOf(l, files, m), TableOf(l, files, n - 1),
                   HeaderRecord(l, files[n - 1].name,
                                BlockIds(l.firstBlockId + TotalBlocks(l, files, n - 1), RequiredBlocks(l, files[n - 1].bytes))));
    }
  }

  /** The current export emits at least one data array, and its arrays
      concatenated give back the data list. */
  lemma TemplatesArrays(files: seq<File>, size: int)
    requires AllNamesFit(files, |files|)
    ensures Image(TemplatesLayout, files, size).Success?
    ensures |Image(TemplatesLayout, files, size).value.dataArrays| >= 1
    ensures Concat(Image(TemplatesLayout, files, size).value.dataArrays) == TablesOf(TemplatesLayout, files).data
  {
    FirstMisfitIsFirstLongName(files, |files|);
    var data := TablesOf(TemplatesLayout, files).data;
    var n := DataArrayCount(TemplatesLayout, size, |data|);
    assert DataArrays(TemplatesLayout, data, n) == Chunks(data, n);
    ChunksConcat(data, n);
  }

  /** The older export pads the header and id lists to at least 10,000
      entries, keeping them as prefixes, and every data array to exactly
      10,000 entries, of which the chunk of `data` is a prefix. */
  lemma LegacyPadding(files: seq<File>, size: int, i: nat)
    requires AllNamesFit(files, |files|)
    ensures Image(LegacyLayout, files, size).Success?
    ensures var img := Image(LegacyLayout, files, size).value;
            var t := TablesOf(LegacyLayout, files);
            |img.header| >= DefaultPadLength && img.header[..|t.table|] == t.table &&
            |img.ids| >= DefaultPadLength && img.ids[..|t.ids|] == t.ids &&
            img.accessors.None? &&
            (i < |img.dataArrays| ==>
               |img.dataArrays[i]| == ChunkSize &&
               img.dataArrays[i][..|Chunks(t.data, |img.dataArrays|)[i]|] == Chunks(t.data, |img.dataArrays|)[i])
  {
    FirstMisfitIsFirstLongName(files, |files|);
    var t := TablesOf(LegacyLayout, files);
    PaddedShape(t.table, DefaultPadLength);
    PaddedShape(t.ids, DefaultPadLength);
    var n := DataArrayCount(LegacyLayout, size, |t.data|);
    if i < n {
      PaddedShape(Chunks(t.data, n)[i], ChunkSize);
    }
  }

  /** The inner loop of the export for one file: hands out the file's block
      ids from `first` on, records each id as two entries and appends each
      block's entries to `data`. */
  method AppendBlocks(l: Layout, bytes: seq<int>, data: seq<int>, occupiedIds: seq<int>, first: int)
    returns (newData: seq<int>, newIds: seq<int>, tableIds: seq<int>, nextBlockId: int)
    requires l.blockSize > 0
    ensures newData == data + BlockData(bytes, l.blockSize, RequiredBlocks(l, bytes))
    ensures newIds == occupiedIds + BlockIds(first, RequiredBlocks(l, bytes))
    ensures tableIds == IdBytes(BlockIds(first, RequiredBlocks(l, bytes)))
    ensures nextBlockId == first + RequiredBlocks(l, bytes)
  {
    newData, newIds, tableIds, nextBlockId := data, occupiedIds, [], first;
    var requiredBlocks := RequiredBlocks(l, bytes);
    var i := 0;
    while i < requiredBlocks
      invariant 0 <= i <= requiredBlocks
      invariant nextBlockId == first + i
      invariant newIds == occupiedIds + BlockIds(first, i)
      invariant tableIds == IdBytes(BlockIds(first, i))
      invariant newData == data + BlockData(bytes, l.blockSize, i)
    {
      var blockId := nextBlockId;
      nextBlockId := nextBlockId + 1;
      newIds := newIds + [blockId];
      tableIds := tableIds + [blockId / 256, blockId % 256];
      IdsStep(first, i);
      var block := PadList(Slice(bytes, l.blockSize * i, l.blockSize * (i + 1)), l.blockSize);
      DataStep(data, bytes, l.blockSize, i, block);
      newData := newData + block;
      i := i + 1;
    }
  }

  /** One more block extends the data by its zero-filled slice. */
  lemma DataStep(data: seq<int>, bytes: seq<int>, bs: nat, i: nat, block: seq<int>)
    requires block == Padded(Slice(bytes, bs * i, bs * (i + 1)), bs)
    ensures data + BlockData(bytes, bs, i + 1) == data + BlockData(bytes, bs, i) + block
  {
    AppendAssoc(data, BlockData(bytes, bs, i), block);
  }

  /** One more block id extends the id run and its two-entry encoding. */
  lemma IdsStep(first: int, i: nat)
    ensures BlockIds(first, i + 1) == BlockIds(first, i) + [first + i]
    ensures IdBytes(BlockIds(first, i + 1)) == IdBytes(BlockIds(first, i)) + [(first + i) / 256, (first + i) % 256]
  {
    assert BlockIds(first, i + 1)[..i] == BlockIds(first, i);
  }

  /** The export's last loop: the data list cut into n arrays, each padded
      to 10,000 entries in the older version. */
  method SplitData(l: Layout, data: seq<int>, n: nat) returns (arrays: seq<seq<int>>)
    ensures arrays == DataArrays(l, data, n)
  {
    arrays := [];
    for i := 0 to n
      invariant |arrays| == i
      invariant forall k :: 0 <= k < i ==> arrays[k] == DataArrays(l, data, n)[k]
    {
      var chunk := Slice(data, ChunkSize * i, ChunkSize * (i + 1));
      if l.legacy {
        chunk := PadList(chunk, DefaultPadLength);
      }
      arrays := arrays + [chunk];
    }
  }

  /** One round of the outer loop: the file's name words, then (when they
      come to exactly ten) its blocks, ids and header record. */
  method AddFile(l: Layout, file: File, table: seq<int>, data: seq<int>, occupiedIds: seq<int>, nextBlockId: int)
    returns (fits: bool, table': seq<int>, data': seq<int>, occupiedIds': seq<int>, nextBlockId': int)
    requires l.blockSize > 0
    ensures fits <==> |NameWords(file.name)| == HeaderNameSize
    ensures fits ==>
      var count := RequiredBlocks(l, file.bytes);
      && table' == table + HeaderRecord(l, file.name, BlockIds(nextBlockId, count))
      && data' == data + BlockData(file.bytes, l.blockSize, count)
      && occupiedIds' == occupiedIds + BlockIds(nextBlockId, count)
      && nextBlockId' == nextBlockId + count
  {
    table', data', occupiedIds', nextBlockId' := table, data, occupiedIds, nextBlockId;
    var nameWords := FromManyBytes(CharCodes(file.name), 0);
    var nameEncoded := PadList(nameWords, HeaderNameSize);
    assert nameEncoded == NameWords(file.name);
    if |nameEncoded| != HeaderNameSize {
      return false, table', data', occupiedIds', nextBlockId';
    }
    ghost var ids := BlockIds(nextBlockId, RequiredBlocks(l, file.bytes));
    var tableIds;
    data', occupiedIds', tableIds, nextBlockId' := AppendBlocks(l, file.bytes, data, occupiedIds, nextBlockId);
    var idWords := FromManyBytes(tableIds, 0);
    var paddedIds := PadList(idWords, l.headerBlocksSize);
    assert paddedIds == Padded(Encode(IdBytes(ids)), l.headerBlocksSize);
    table' := table + ([1] + nameEncoded + paddedIds);
    fits := true;
  }

  /** The loop state after n files: the three lists and the next free id. */
  predicate Progress(l: Layout, files: seq<File>, n: nat, table: seq<int>, data: seq<int>, occupiedIds: seq<int>, nextBlockId: int)
    requires l.blockSize > 0 && n <= |files|
  {
    && table == TableOf(l, files, n)
    && data == DataOf(l, files, n)
    && occupiedIds == BlockIds(l.firstBlockId, TotalBlocks(l, files, n))
    && nextBlockId == l.firstBlockId + TotalBlocks(l, files, n)
  }

  /** One round of `AddFile` on a fitting name takes the loop state from n
      files to n + 1. */
  lemma ProgressStep(l: Layout, files: seq<File>, n: nat,
                     table: seq<int>, data: seq<int>, occupiedIds: seq<int>, nextBlockId: int,
                     table': seq<int>, data': seq<int>, occupiedIds': seq<int>, nextBlockId': int)
    requires l.blockSize > 0 && n < |files|
    requires Progress(l, files, n, table, data, occupiedIds, nextBlockId)
    requires var count := RequiredBlocks(l, files[n].bytes);
      && table' == table + HeaderRecord(l, files[n].name, BlockIds(nextBlockId, count))
      && data' == data + BlockData(files[n].bytes, l.blockSize, count)
      && occupiedIds' == occupiedIds + BlockIds(nextBlockId, count)
      && nextBlockId' == nextBlockId + count
    ensures Progress(l, files, n + 1, table', data', occupiedIds', nextBlockId')
  {
    TableRecord(l, files, n, nextBlockId);
    IdsRecord(l, files, n, nextBlockId);
  }

  /** The outer loop stops at the first file whose name words are not ten. */
  lemma TabulatedFails(l: Layout, files: seq<File>, n: nat)
    requires l.blockSize > 0 && n < |files|
    requires FirstMisfit(files, n).None? && |NameWords(files[n].name)| != HeaderNameSize
    ensures Tabulated(l, files) == Failure(NameTooLong(files[n].name))
  {
    MisfitPersists(files, n + 1, |files|);
  }

  /** A loop that got through every file yields its three lists. */
  lemma TabulatedSucceeds(l: Layout, files: seq<File>, table: seq<int>, data: seq<int>, occupiedIds: seq<int>, nextBlockId: int)
    requires l.blockSize > 0
    requires FirstMisfit(files, |files|).None?
    requires Progress(l, files, |files|, table, data, occupiedIds, nextBlockId)
    ensures Tabulated(l, files) == Success(Tables(table, data, occupiedIds))
  {
  }

  /** The outer loop of the export over the files in insertion order. */
  method Tabulate(l: Layout, files: seq<File>) returns (r: Result<Tables, DiskError>)
    requires l.blockSize > 0
    ensures r == Tabulated(l, files)
  {
    var table: seq<int> := [];
    var data: seq<int> := [];
    var occupiedIds: seq<int> := [];
    var nextBlockId := l.firstBlockId;
    var f := 0;
    while f < |files|
      invariant 0 <= f <= |files|
      invariant FirstMisfit(files, f).None?
      invariant Progress(l, files, f, table, data, occupiedIds, nextBlockId)
    {
      var fits, table', data', occupiedIds', nextBlockId' := AddFile(l, files[f], table, data, occupiedIds, nextBlockId);
      if !fits {
        TabulatedFails(l, files, f);
        return Failure(NameTooLong(files[f].name));
      }
      ProgressStep(l, files, f, table, data, occupiedIds, nextBlockId, table', data', occupiedIds', nextBlockId');
      table, data, occupiedIds, nextBlockId := table', data', occupiedIds', nextBlockId';
      f := f + 1;
    }
    TabulatedSucceeds(l, files, table, data, occupiedIds, nextBlockId);
    r := Success(Tables(table, data, occupiedIds));
  }

  /** A disk: its name, requested size, files in insertion order and the
      export lock. */
  class Disk {
    var name: string
    var size: int
    var files: seq<File>
    var locked: bool

    constructor (name: string, size: int)
      ensures this.name == name && this.size == size
      ensures files == [] && !locked
    {
      this.name := name;
      this.size := size;
      files := [];
      locked := false;
    }

    /** `export()`: the outer loop over the files, then the split into data
        arrays and the helpers. */
    method Export(l: Layout) returns (r: Result<DiskImage, DiskError>)
      requires ValidLayout(l)
      ensures r == Image(l, files, size)
    {
      var t := Tabulate(l, files);
      if t.Failure? {
        return Failure(t.error);
      }
      var table, data, occupiedIds := t.value.table, t.value.data, t.value.ids;
      var n := Max(Max(CeilDiv(size, BytesPerFloat * ChunkSize), CeilDiv(|data|, ChunkSize)), l.minDataArrays);
      var arrays := SplitData(l, data, n);
      if l.legacy {
        var header := PadList(table, DefaultPadLength);
        var ids := PadList(occupiedIds, DefaultPadLength);
        r := Success(DiskImage(header, ids, arrays, None));
      } else {
        var selector := BuildSelector(n);
        r := Success(DiskImage(table, occupiedIds, arrays,
          Some(Accessors(selector, HeaderNameSize, l.headerBlocksSize, HeaderSize(l), l.blockSize))));
      }
    }
  }
}
