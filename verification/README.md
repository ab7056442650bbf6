# CalculatorOS storage and string templates in Dafny

CalculatorOS is a set of logimat templates. At compile time they emit Desmos code for an
operating system that runs inside a graphing calculator. This project models the parts of
those templates that are plain integer and sequence logic, and proves what they guarantee.

- **The word codec** (`Float`). Six bytes at a time (`BYTES_PER_FLOAT`) are packed into one
  integer word, most significant byte first. Words are unpacked again by digit extraction.
  Words stay below 256^6, so the model uses mathematical integers.
- **Zero padding** (`Util`). `padList`, as it behaves on a growing JS array.
- **The disk image** (`DiskLayout`). Both versions of `Disk.export` are one algorithm over a
  `Layout` record:
  - `TemplatesLayout`: block ids from 1, blocks of 10, two id words, at least one data array.
  - `LegacyLayout`: block ids from 0, blocks of 100, five id words, every list padded to
    10,000, possibly no data array.
- **Header records.** The export builds a header table, a data list and a list of occupied
  block ids. It fails on the first file whose name does not fit in ten words.
- **Data arrays.** The data list is cut into arrays of 10,000.
- **Memory scaffolding** (`MemoryLayout`). The number of arrays and the empty lists
  `Memory.export` declares.
- **Array addressing** (`Addressing`). The selector that picks an array and the
  `1 + mod(i - 1, 10000)` index helper.
- **String templates** (`Strings`). `string`, `stringRaw`, `stringLen`, `char`, `replace`,
  `forEachChar` and `allocString`. It also has the `trim().toLowerCase()` normalisation
  that every registry name goes through.
- **`stringJumpFast`** (`StringJump`, `StringJumpArgs`).
  - How the arguments are read.
  - Candidates are grouped by their word at a read position, in ascending key order
    (`mergeAndSortAscPrefixes`).
  - `binarySearch` builds a decision tree from the groups.
  - The tree is a datatype with an evaluator. This lets completeness be stated: every
    candidate's words reach that candidate's code.
- **The session registry** (`Registry`). A class holding the disk and memory maps.
  - Registering disks and memories.
  - Adding files to disks.
  - Exporting, with the lock that keeps an exported disk from changing.

The emitted text is not modelled. What is modelled is the structured content that the text
carries: lists, counts, constants, and the decision tree. Imperative source code is
modelled as methods with loops. Each method is proved equal to a specification function,
and the properties are proved about that function. The methods are `PadList`, `ToBytes`,
`FromManyBytes`, `Tabulate`, `AddFile`, `MergeAndSortAscPrefixes`, `ForEachChar`,
`AllocString`, `ReadArgs` and the `Session` methods. Template arguments that are missing or
of the wrong kind are `None`. Thrown errors are `Failure` values that carry the source's
message.

Where the repository's own description and the code disagree, the model follows the code:
- **`exportDisk` locks first.** It sets the lock before the export runs
  (templates/src/disk.ts:86-87). A disk whose export throws therefore stays locked, and it
  can be exported again.
- **Inherited names.** The registries are plain objects, so `name in registry` also finds
  "constructor" and "__proto__" on Object.prototype. Registering under them fails with
  "already exists", and using them as a disk or memory passes the existence check and then
  throws a TypeError.
- **Unlisted strings.** A string that is not one of the `stringJumpFast` candidates is not
  guaranteed to reach the no-match block. A candidate's leaf is reached on the first word
  alone, so other strings can end there too.

## Model

| member | source | states |
|---|---|---|
| Float.GetDigitBase | templates/src/types/Float.ts:40-48 | digit j of a word in base b is floor(v / b^(5-j)) mod b and lies in [0, b) |
| Float.WordBytes | templates/src/types/Float.ts:3-8 | a word unpacks to exactly six values, each a byte |
| Float.Decode | templates/src/types/Float.ts:10-14 | a word list unpacks to six bytes per word |
| Float.ToBytes | templates/src/types/Float.ts:3-8 | appends the word's six digits after the buffer's old contents, which stay as they were |
| Float.ToManyBytes | templates/src/types/Float.ts:10-14 | appends six digits per word, in input order, after the old contents |
| Float.FromBytes | templates/src/types/Float.ts:16-23 | returns the sum of b_i * 256^(5-i) over the six bytes at the offset, with a missing byte read as 0 |
| Float.FromManyBytes | templates/src/types/Float.ts:25-34 | returns ceil(len/6) words; word i is built from the six bytes at offset + 6i |
| Float.EncodeFrom | templates/src/types/Float.ts:25-34 | the packed list has ceil(len/6) words |
| Float.Encode | templates/src/types/Float.ts:25-34 | packing from offset 0 gives ceil(len/6) words |
| Float.CeilDivBounds | templates/src/types/Float.ts:26 | the rounded-up quotient c satisfies (c-1)d < n <= cd |
| Float.WordInRange | templates/src/types/Float.ts:19 | when every byte is in [0, 255], the packed word is in [0, 256^6) |
| Float.EncodeInRange | templates/src/types/Float.ts:25-34 | when every byte is in [0, 255], every packed word is in [0, 256^6) |
| Float.WordRoundTrip | templates/src/types/Float.ts:3-23 | for 0 <= v < 256^6, packing the six digits of v gives back v |
| Float.BytesRoundTrip | templates/src/types/Float.ts:3-23 | unpacking a packed word gives back the six bytes it was read from, missing bytes as 0 |
| Float.DigitOfWord | templates/src/types/Float.ts:40-48 | digit j of a packed word is the j-th byte it was packed from |
| Float.DecodeEncode | templates/src/types/Float.ts:10-34 | unpacking a packed byte list gives the list followed by zeros up to the next multiple of 6 |
| Float.DecodeEncodeExact | templates/src/types/Float.ts:10-34 | unpacking a packed byte list gives the list exactly if and only if its length is a multiple of 6 |
| Float.EncodeDecode | templates/src/types/Float.ts:10-34 | packing the unpacked bytes of in-range words gives the words back |
| Float.CeilDiv | templates/src/types/Float.ts:26 | `Math.ceil(n / d)` on integers, non-negative for a non-negative n; CeilDivBounds states that it is the least c with n <= c * d |
| Float.WordAt | templates/src/types/Float.ts:16-23 | `fromBytes(buffer, off)` as a value; FromBytes states its digits and WordRoundTrip and BytesRoundTrip state that it inverts `toBytes` |
| Util.PadList | templates/src/util.ts:88-95 | the loop's result is the zero-padded list `Padded(list, length)` |
| Util.Padded | templates/src/util.ts:88-92 | the padded list has length max(n, len); a longer list is not cut |
| Util.PaddedShape | templates/src/util.ts:89-92 | the first len entries are the list, and every later entry is 0 |
| Util.PaddedLong | templates/src/util.ts:88-92 | a list at least n long comes back unchanged |
| Util.PaddedIdempotent | templates/src/util.ts:88-95 | padding twice to n is padding once |
| Util.PaddedTwice | templates/src/util.ts:88-95 | padding to n and then to m is padding to max(n, m) |
| Util.Slice | templates/src/types/Disk.ts:66 | `slice(a, b)` is clamped to the list, and entry k is list[a + k] |
| Util.CharCodes | templates/src/string.ts:19 | one code per character, equal to the character's code |
| Addressing.BuildSelector | templates/src/types/Disk.ts:102-117 | the selector built in the loop is `SelectorFor(n)`: direct for one array, else a chain of equality tests with the last array as the else |
| Addressing.SelectorPicks | templates/src/types/Disk.ts:102-117 | array number a selects array a when 0 <= a < n, and the last array otherwise; the same holds at templates/src/types/Memory.ts:54-67 |
| Addressing.ChainPicks | templates/src/types/Disk.ts:107-115 | the chain of `a_rray_num == k` tests picks a when some test compares with a, and the fallback otherwise |
| Addressing.IndexInArray | templates/src/types/Disk.ts:123-125 | the index helper lies in [1, 10000] and agrees with i modulo 10,000; the same holds at templates/src/types/Memory.ts:74-76 |
| Addressing.Chunks | templates/src/types/Disk.ts:94-96 | n arrays are declared |
| Addressing.ChunksConcat | templates/src/types/Disk.ts:94-96 | when the arrays hold at least the whole list, concatenating them gives the list back |
| Addressing.ChunksPrefix | templates/src/types/Disk.ts:94-96 | concatenating n arrays gives the first 10,000 * n entries |
| Addressing.ReadAsWrittenAgrees | templates/src/types/Disk.ts:102-132 | the emitted read returns element i when there is one array, or when i is not a multiple of 10,000 |
| Addressing.ReadAsWrittenMisses | templates/src/types/Disk.ts:102-132 | with two full arrays, the emitted read of element 10,000 returns element 20,000 |
| Addressing.CorrectedReadIsElement | templates/src/types/Memory.ts:54-82 | with array number floor((i-1)/10000), the read returns element i for every i in range |
| Addressing.SelectorFor | templates/src/types/Disk.ts:103-116 | the selector the export emits for n arrays: `_data_0` alone for one array, otherwise tests `a_rray_num == k` for k < n - 1 and the last array as the `else`; SelectorPicks and MemorySelectorForm state what it returns; the same holds at templates/src/types/Memory.ts:54-67 |
| Addressing.FirstMatch | templates/src/types/Disk.ts:107-115 | the `if` / `else if` chain: the target of the first test whose number equals the array number, else the fallback; ChainPicks states this |
| Addressing.Choose | templates/src/types/Disk.ts:102-117 | the array an emitted `_array` function returns for an array number; SelectorPicks states it for every number |
| Addressing.ArrayNum | templates/src/types/Disk.ts:105 | `floor(i_ndex / 10000)` as written; ReadAsWrittenMisses shows that it picks the next array for multiples of 10,000 |
| Addressing.Fetch | templates/src/types/Disk.ts:131 | 1-based list indexing: element x of an array when 1 <= x <= its length, and nothing otherwise |
| Addressing.ReadAsWritten | templates/src/types/Disk.ts:130-132 | the emitted `_read(i)`: element `IndexInArray(i)` of array `ArrayNum(i)`; ReadAsWrittenAgrees and ReadAsWrittenMisses state where it is right and where not; the same holds at templates/src/types/Memory.ts:80-82 |
| Addressing.CorrectedArrayNum | templates/src/types/Disk.ts:105 | the evidently intended array number `floor((i - 1) / 10000)`, which agrees with the 1-based index helper |
| Addressing.CorrectedRead | templates/src/types/Disk.ts:130-132 | the read with the corrected array number; CorrectedReadIsElement states that it returns element i for every i in range |
| MemoryLayout.MemoryArrayCountBounds | templates/src/types/Memory.ts:43 | the array count is at least 1, covers the requested size, and is the smallest count that does |
| MemoryLayout.Export | templates/src/types/Memory.ts:14-96 | the export is a value computed from name and size alone; the memory is not changed |
| MemoryLayout.MemoryImageShape | templates/src/types/Memory.ts:26-91 | empty header and ids lists; that many data arrays, all empty; the selector maps a in range to a and anything else to the last array; header size 3 = 1 + 2; block size 5 |
| MemoryLayout.MemorySelectorForm | templates/src/types/Memory.ts:54-67 | with one array the selector is `_data_0`; otherwise n - 1 tests with the last array as fallback |
| MemoryLayout.MemoryArrayCount | templates/src/types/Memory.ts:43 | `max(1, ceil(size / 6 / 10000))`; MemoryArrayCountBounds states that it is the least count of at least 1 that covers the size |
| MemoryLayout.MemoryImageOf | templates/src/types/Memory.ts:14-96 | the memory export: empty header and ids lists, `MemoryArrayCount(size)` empty arrays, their selector, and the constants 2, 3 and 5; Export and MemoryImageShape state its shape |
| DiskLayout.Store | templates/src/disk.ts:43 | storing a file keeps the file count, or appends the file when its name is new |
| DiskLayout.StoreLookup | templates/src/disk.ts:43-66 | after storing, the stored name maps to the new data and every other name to what it had |
| DiskLayout.StoreOverwrites | templates/src/disk.ts:43-66 | re-adding a file name does not add a file |
| DiskLayout.NameWords | templates/src/types/Disk.ts:47 | an encoded name has max(10, ceil(len/6)) words |
| DiskLayout.NameFits | templates/src/types/Disk.ts:47-48 | the name takes exactly ten words if and only if it has at most 60 characters; the same holds at src/types/Disk.ts:45-46 |
| DiskLayout.RequiredBlocksBounds | templates/src/types/Disk.ts:55 | the block count c satisfies (c-1) * bs * 6 < len <= c * bs * 6 |
| DiskLayout.BlockIds | templates/src/types/Disk.ts:57-58 | a file gets as many consecutive ids as it needs blocks |
| DiskLayout.IdBytes | templates/src/types/Disk.ts:63-64 | two values per id |
| DiskLayout.IdBytesSplit | templates/src/types/Disk.ts:63-64 | the pair for id k is hi, lo with hi * 256 + lo = id and 0 <= lo < 256 |
| DiskLayout.BlockDataIsPrefix | templates/src/types/Disk.ts:56-67 | c blocks of size bs copy the first bs * c bytes, zero-filled past the end |
| DiskLayout.FileDataDropsTail | templates/src/types/Disk.ts:55-66 | an 11-byte file needs one block and keeps only its first 10 bytes |
| DiskLayout.HeaderRecordSize | templates/src/types/Disk.ts:30-69 | a record is 1 + 10 + max(id words, packed ids) entries, starts with 1, and is exactly the header size if and only if the file has at most 3 * id-words blocks; the same holds at src/types/Disk.ts:30-67 |
| DiskLayout.DataOfLength | templates/src/types/Disk.ts:56-66 | the data list holds block size entries per allocated block; the same holds at src/types/Disk.ts:53-64 |
| DiskLayout.FirstMisfitIsFirstLongName | templates/src/types/Disk.ts:44-48 | no file fails if and only if every name fits; a failing file has a long name, and every earlier name fits |
| DiskLayout.MisfitPersists | templates/src/types/Disk.ts:44-48 | once a file fails, later files do not change which one is reported |
| DiskLayout.ImageFails | templates/src/types/Disk.ts:44-48 | the export fails if and only if some name is too long; the error names the first such file |
| DiskLayout.TablesShape | templates/src/types/Disk.ts:42-66 | the occupied ids list is first, first + 1, ... up to the total block count, and the data list has block size entries per block; IdsRecord states that each file's ids continue from the previous files' ids; the same holds at src/types/Disk.ts:40-56 |
| DiskLayout.TableRecord | templates/src/types/Disk.ts:50-69 | each file adds its header record to the table, in file order |
| DiskLayout.IdsRecord | templates/src/types/Disk.ts:57-58 | each file's ids follow on from the previous files' ids |
| DiskLayout.TablePrefix | templates/src/types/Disk.ts:44-70 | the table for the first m files is a prefix of the table for the first n files, for m <= n |
| DiskLayout.DataArrayCount | templates/src/types/Disk.ts:89-92 | the array count is at least the minimum, covers the data and the requested size, and equals one of the three candidates; the same holds at src/types/Disk.ts:79-81 |
| DiskLayout.DataArrays | templates/src/types/Disk.ts:94-96 | that many arrays are declared |
| DiskLayout.TemplatesArrays | templates/src/types/Disk.ts:89-96 | when names fit: at least one array, and the arrays concatenate to the data list |
| DiskLayout.LegacyPadding | src/types/Disk.ts:74-84 | header and ids lists are padded to at least 10,000 entries with their contents first; every array has 10,000 entries and starts with its chunk |
| DiskLayout.AppendBlocks | templates/src/types/Disk.ts:56-67 | the block loop appends the block data, the consecutive ids and their byte pairs, and advances the counter by the block count |
| DiskLayout.SplitData | templates/src/types/Disk.ts:94-98 | the loop yields the declared arrays |
| DiskLayout.AddFile | templates/src/types/Disk.ts:45-69 | one file fits if and only if its name is ten words; it then appends its record, data and ids |
| DiskLayout.Tabulate | templates/src/types/Disk.ts:36-70 | the file loop returns the tables, or the error for the first long name |
| DiskLayout.Disk.constructor | templates/src/types/Disk.ts:12-15 | a new disk has the given name and size, no files, and no lock |
| DiskLayout.Disk.Export | templates/src/types/Disk.ts:17-149 | the export is the image of the disk's files and size under the layout; the same holds at src/types/Disk.ts:17-90 |
| DiskLayout.HeaderSize | templates/src/types/Disk.ts:32 | `HEADER_SIZE = 1 + HEADER_NAME_SIZE + HEADER_BLOCKS_SIZE`; HeaderRecordSize states when a record has exactly this size |
| DiskLayout.Lookup | templates/src/types/Disk.ts:45 | the contents a disk holds under a file name, if any; StoreLookup states how storing a file changes it |
| DiskLayout.RequiredBlocks | templates/src/types/Disk.ts:55 | the block count as written, `ceil(len / (BLOCK_SIZE * 6))`; RequiredBlocksBounds states its bounds and FileDataDropsTail that it is too small for a word list; the same holds at src/types/Disk.ts:53 |
| DiskLayout.BlockData | templates/src/types/Disk.ts:56-67 | what the first c blocks append: block i is `slice(bs * i, bs * (i + 1))` padded to bs; BlockDataIsPrefix states that this is the first bs * c entries, zero-filled |
| DiskLayout.ZeroFilled | templates/src/types/Disk.ts:66 | the first n entries of a list, zero past its end; it has exactly n entries |
| DiskLayout.CorrectedBlocks | templates/src/types/Disk.ts:55 | the evidently intended block count `ceil(len / BLOCK_SIZE)`; CorrectedBlocksKeepFile states that it keeps the whole file |
| DiskLayout.CorrectedBlocksKeepFile | templates/src/types/Disk.ts:55-67 | with the corrected count the data holds the whole file followed by fewer than `BLOCK_SIZE` zeros |
| DiskLayout.HeaderRecord | templates/src/types/Disk.ts:47-69 | one file's record: 1, the name words, then the packed ids padded to `HEADER_BLOCKS_SIZE`; HeaderRecordSize states its size |
| DiskLayout.TotalBlocks | templates/src/types/Disk.ts:55-57 | the blocks handed out to the first n files; DataOfLength and IdsRecord state how the lists follow it |
| DiskLayout.TableOf | templates/src/types/Disk.ts:44-70 | the header table after n files; TableRecord and TablePrefix state how it grows |
| DiskLayout.DataOf | templates/src/types/Disk.ts:44-67 | the data list after n files; DataOfLength states its length; the same holds at src/types/Disk.ts:54-65 |
| DiskLayout.FirstMisfit | templates/src/types/Disk.ts:44-48 | the first of n files whose name is not ten words, which is one of those n; FirstMisfitIsFirstLongName and MisfitPersists state which one |
| DiskLayout.TablesOf | templates/src/types/Disk.ts:36-70 | the three lists the file loop builds when every name fits; TablesShape states their contents |
| DiskLayout.Tabulated | templates/src/types/Disk.ts:36-70 | the file loop's outcome, the lists or the first long name; Tabulate is proved to compute it |
| DiskLayout.Image | templates/src/types/Disk.ts:17-149 | the export of a disk; ImageFails, TemplatesArrays and Disk.Export state its properties; the same holds at src/types/Disk.ts:17-90 |
| Strings.TrimShape | templates/src/disk.ts:16 | `trim()` yields a slice of the input with only whitespace cut on both sides, and the result has no edge whitespace |
| Strings.TrimKeeps | templates/src/disk.ts:16 | a string without edge whitespace is unchanged by `trim()` |
| Strings.LowerShape | templates/src/disk.ts:16 | `toLowerCase()` maps A-Z to a-z, keeps every other character, and leaves no upper-case letter |
| Strings.LowerIdempotent | templates/src/disk.ts:16 | lower-casing twice is lower-casing once |
| Strings.NormalizeIdempotent | templates/src/memory.ts:17 | normalising a normalised name changes nothing |
| Strings.NormalizeShape | src/disk.ts:14 | a normalised name has no edge whitespace and no upper-case letter |
| Strings.InterleaveLength | templates/src/string.ts:115 | replacing the empty string inserts the replacement at each of the len + 1 positions |
| Strings.ReplaceAllSelf | templates/src/string.ts:115 | replacing a non-empty pattern by itself changes nothing |
| Strings.ReplaceAllAbsent | templates/src/string.ts:115 | a pattern that never occurs leaves the text unchanged |
| Strings.ReplaceAllNoStart | templates/src/string.ts:115 | a text without the pattern's first character is unchanged |
| Strings.ReplaceAllFront | templates/src/string.ts:115 | a leading occurrence is replaced, and scanning resumes after it |
| Strings.NatToString | templates/src/string.ts:51 | `toString()` of a count is a non-empty run of decimal digits |
| Strings.NatToStringValue | templates/src/string.ts:51 | the digits denote the number, with no leading zero |
| Strings.StringTemplateWords | templates/src/string.ts:12-36 | `string!` fails exactly without a string argument; it returns the packed `stringRaw!` codes, ceil(len/6) words, which unpack to the codes |
| Strings.LegacyStringNormalizes | src/string.ts:10-18 | the older `string!` packs the normalised value, so names equal up to case and edge whitespace give the same words |
| Strings.StringLenValue | templates/src/string.ts:42-53 | `stringLen!` renders the number of characters |
| Strings.CharTemplateValue | templates/src/string.ts:59-68 | `char!` renders the first character's code, or NaN for the empty string |
| Strings.ReplaceTemplateShape | templates/src/string.ts:107-117 | `replace!` fails exactly when an argument is missing; replacing a pattern by itself returns the code |
| Strings.PiecePlaceholders | templates/src/string.ts:92-94 | `CHARCODE` becomes the code and `CHAR` the escaped character, `CHARCODE` first |
| Strings.Pieces | templates/src/string.ts:89-94 | one piece per character |
| Strings.ForEachChar | templates/src/string.ts:77-100 | errors for missing characters or code; otherwise before + the pieces joined by the separator + after |
| Strings.JoinPieces | templates/src/string.ts:87-96 | the loop joins the pieces with the separator between neighbours only |
| Strings.JoinStep | templates/src/string.ts:90-96 | one more piece adds the separator and the piece |
| Strings.JoinWithLength | templates/src/string.ts:90-96 | n pieces of length L joined give n * L + (n - 1) * len(sep) characters |
| Strings.ForEachCharCodes | templates/src/string.ts:77-100 | with `CHARCODE` as the code, the output lists the decimal codes, separated by the separator (newline by default) |
| Strings.ForEachCharDefaultSeparator | templates/src/string.ts:83-85 | an empty separator acts as the newline default |
| Strings.AllocCapacityBounds | templates/src/string.ts:138 | the capacity is a multiple of 5, at least the word count, and less than the word count plus 5 |
| Strings.AllocString | templates/src/string.ts:126-155 | the four missing-argument errors in order; otherwise the allocation of the string |
| Strings.AllocationFits | templates/src/string.ts:138-151 | one write per packed word, at indices 0, 1, ..., all below the capacity, which is a multiple of 5 |
| Strings.TrimStart | templates/src/disk.ts:16 | the leading-whitespace half of `trim()`; TrimStartShape states that it cuts only whitespace |
| Strings.TrimEnd | templates/src/disk.ts:16 | the trailing-whitespace half of `trim()`; TrimEndShape and TrimEndKeeps state what it cuts |
| Strings.Trim | templates/src/disk.ts:16 | `trim()`; TrimShape, TrimSlice, TrimIsTrimmed and TrimKeeps state its properties |
| Strings.Lower | templates/src/disk.ts:16 | `toLowerCase()` for A-Z: the result is as long as the input; LowerShape and LowerIdempotent state the rest |
| Strings.Normalize | templates/src/disk.ts:16 | `trim().toLowerCase()`; NormalizeIdempotent and NormalizeShape state its properties; the same holds at templates/src/memory.ts:17 |
| Strings.ReplaceAll | templates/src/string.ts:115 | `replaceAll` with a string pattern; the ReplaceAll lemmas and InterleaveLength state its properties |
| Strings.Interleave | templates/src/string.ts:115 | `replaceAll("", r)`: r before every character and at the end; InterleaveLength states its length |
| Strings.DigitChar | templates/src/string.ts:51 | a decimal digit character whose value is the digit |
| Strings.StringTemplate | templates/src/string.ts:12-21 | `string!`; StringTemplateWords states its error and its words |
| Strings.StringRaw | templates/src/string.ts:27-36 | `stringRaw!`; StringTemplateWords states that `string!` packs exactly these codes |
| Strings.LegacyStringTemplate | src/string.ts:10-18 | the older `string!`; LegacyStringNormalizes states that it depends on the normal form only |
| Strings.StringLen | templates/src/string.ts:42-53 | `stringLen!`; StringLenValue states that it renders the character count |
| Strings.CharTemplate | templates/src/string.ts:59-68 | `char!`; CharTemplateValue states that it renders the first code, or NaN |
| Strings.ReplaceTemplate | templates/src/string.ts:107-117 | `replace!`; ReplaceTemplateShape states its errors and the self-replacement |
| Strings.Escape | templates/src/string.ts:92 | a quote or backslash gets a backslash in front; PiecePlaceholders uses it |
| Strings.Piece | templates/src/string.ts:94 | the block for one character; PiecePlaceholders states how the two placeholders render |
| Strings.JoinWith | templates/src/string.ts:90-96 | the pieces with the separator between neighbours; JoinStep and JoinWithLength state its shape |
| Strings.OrDefault | templates/src/string.ts:83-85 | `getString(...) || d`; ForEachCharDefaultSeparator states that an empty string falls back |
| Strings.ForEachCharOf | templates/src/string.ts:77-100 | the output of `forEachChar!`; ForEachChar is proved to compute it and ForEachCharCodes states it for `CHARCODE` |
| Strings.AllocCapacity | templates/src/string.ts:138 | the capacity `allocString!` sets; AllocCapacityBounds states that it is the least multiple of 5 holding the words |
| Strings.AllocationOf | templates/src/string.ts:138-151 | what `allocString!` sets and writes; AllocString is proved to compute it and AllocationFits states that the writes fit |
| StringJump.FindGroup | templates/src/string.ts:220 | a found group has the key; no group has it when none is found |
| StringJump.MergeAndSortAscPrefixes | templates/src/string.ts:213-233 | the dictionary loop and sort return `MergedGroups(values)` |
| StringJump.CollectProps | templates/src/string.ts:216-226 | the dictionary holds one group per first word, with paired rests and codes in input order |
| StringJump.SortMembers | templates/src/string.ts:230 | sorting keeps exactly the same groups |
| StringJump.SortAscending | templates/src/string.ts:230 | groups with distinct keys come out in strictly ascending key order |
| StringJump.SortSize | templates/src/string.ts:230 | sorting keeps the total number of codes |
| StringJump.MergedProps | templates/src/string.ts:213-233 | keys strictly ascend; each group is exactly the candidates with that first word, in order; every candidate has a group; sizes add up to the input count |
| StringJump.MergedSize | templates/src/string.ts:213-233 | group sizes add up to the number of candidates |
| StringJump.FilterPrefixFree | templates/src/string.ts:253-254 | descending into a group keeps the candidates prefix-free |
| StringJump.Middle | templates/src/string.ts:275 | for three or more groups, left < middle < right, so both halves are non-empty and smaller |
| StringJump.HalfShape | templates/src/string.ts:275-276 | three or more groups give a `<` test on the middle key, with the left half below it |
| StringJump.PairShape | templates/src/string.ts:271-272 | two groups give an equality test on the left key, with the right group as the else |
| StringJump.DescendOK | templates/src/string.ts:253-256 | a group with several codes descends to searchable groups of smaller height |
| StringJump.BinarySearchIsBisect | templates/src/string.ts:235-277 | the tree equals a bisection over the keys whose leaves are the groups' subtrees |
| StringJump.BisectFinds | templates/src/string.ts:271-276 | bisection over strictly ordered keys reaches the subtree of the matching key |
| StringJump.MergedOK | templates/src/string.ts:213-256 | prefix-free candidates give searchable groups at every level |
| StringJump.JumpTreeIs | templates/src/string.ts:282-285 | the emitted tree is the search over the merged groups from position 0 |
| StringJump.SearchFinds | templates/src/string.ts:248-276 | a key present at the read position reaches its group's code |
| StringJump.JumpFinds | templates/src/string.ts:235-285 | completeness: for prefix-free candidates, evaluating the tree on a candidate's words reaches its code |
| StringJump.SearchStartsWithGuard | templates/src/string.ts:264-268 | with two or more codes, the first node is the bounds check and read, with the no-match else |
| StringJump.EmptyRunsNoMatch | templates/src/string.ts:264-268 | with two or more candidates, the empty string runs the no-match block, or nothing |
| StringJump.SingleCandidate | templates/src/string.ts:238-250 | a single candidate is its code alone, with no read or check |
| StringJump.Collect | templates/src/string.ts:214-226 | the dictionary loop: one group per first word; CollectProps states its contents |
| StringJump.SortGroups | templates/src/string.ts:228-230 | the sort by key; SortMembers, SortAscending and SortSize state that it keeps the groups and orders them |
| StringJump.MergedGroups | templates/src/string.ts:213-233 | `mergeAndSortAscPrefixes`; MergedProps and MergedSize state its contents and order, and MergeAndSortAscPrefixes is proved to compute it |
| StringJump.Descend | templates/src/string.ts:253-254 | a group's rests paired with their codes and merged again; DescendOK and FilterPrefixFree state that this stays searchable |
| StringJump.BinarySearch | templates/src/string.ts:235-277 | `binarySearch`; BinarySearchIsBisect, SearchFinds and SearchStartsWithGuard state its properties |
| StringJump.SearchGroup | templates/src/string.ts:243-257 | one group: its code when alone, else the descent to the next word; SingleCandidate and DescendOK state both cases |
| StringJump.SearchNext | templates/src/string.ts:253-256 | the descent: search the merged rests from the next read position; DescendOK states that it is smaller and searchable |
| StringJump.Eval | templates/src/string.ts:264-276 | running the emitted code: a bounds check reads the next word or falls to no-match, then the `==` and `<` tests; JumpFinds and EmptyRunsNoMatch state what it reaches |
| StringJump.JumpTree | templates/src/string.ts:281-285 | the tree for the candidates; JumpTreeIs and JumpFinds state its properties |
| StringJump.SharedWordTree | templates/src/string.ts:238-276 | the tree the source emits for "abcdef" and "abcdefg", which share their only first word |
| StringJump.SharedWordMissesShorter | templates/src/string.ts:160-163 | as written, "abcdef" never reaches a block: the guard on its missing second word sends it to no-match, although every given value is promised its block |
| StringJumpArgs.ArgString | templates/src/util.ts:40-45 | a string is read exactly when the argument is present and a string |
| StringJumpArgs.ArgBlock | templates/src/util.ts:65-70 | a block is read exactly when the argument is present and a block |
| StringJumpArgs.ParsePairsSuccess | templates/src/string.ts:180-192 | the pair loop succeeds if and only if every pair is a non-empty string and a block; it then yields them all, in order |
| StringJumpArgs.ParsePairsFailure | templates/src/string.ts:180-187 | on failure, the first bad pair raises the message of its first failing check |
| StringJumpArgs.ParsedNonEmpty | templates/src/string.ts:185-187 | every pair read has a non-empty value |
| StringJumpArgs.Candidates | templates/src/string.ts:281 | one candidate per pair |
| StringJumpArgs.CandidatesNonEmpty | templates/src/string.ts:281 | non-empty values pack to non-empty word lists |
| StringJumpArgs.ParseArgs | templates/src/string.ts:169-199 | a successful read has at least one pair, and every value is non-empty |
| StringJumpArgs.ReadArgs | templates/src/string.ts:169-199 | the argument loop returns `ParseArgs(args)` |
| StringJumpArgs.StringJumpFast | templates/src/string.ts:168-287 | the template returns `StringJumpOf(args)`: its error, or the tree of the merged candidates |
| StringJumpArgs.RejectedWhenParseFails | templates/src/string.ts:173-199 | the template is rejected exactly when reading the arguments fails, with the same message |
| StringJumpArgs.NamesRequired | templates/src/string.ts:173-174 | the pointer and length errors occur exactly when those arguments are missing; on success they are the first two arguments |
| StringJumpArgs.AtLeastOnePair | templates/src/string.ts:194-196 | with pointer and length present, "At least one test value" occurs exactly when there are at most three arguments |
| StringJumpArgs.FirstBadPair | templates/src/string.ts:180-187 | a failing pair loop reports the first bad pair |
| StringJumpArgs.NoMatchSlot | templates/src/string.ts:198-199 | an odd argument count leaves a no-match slot, which must be a block |
| StringJumpArgs.ParseArgsSuccess | templates/src/string.ts:176-199 | on success, pair k is arguments 2 + 2k and 3 + 2k, and no-match is the last argument when the count is odd |
| StringJumpArgs.JumpIs | templates/src/string.ts:281-285 | the tree is built from the packed values of the pairs, in argument order |
| StringJumpArgs.StringJumpFinds | templates/src/string.ts:235-285 | every given value's words reach that value's block |
| StringJumpArgs.StringJumpEmpty | templates/src/string.ts:264-268 | with two or more pairs, the empty string reaches the no-match block |
| StringJumpArgs.StringJumpSingle | templates/src/string.ts:238-250 | with one pair, the output is that pair's block alone |
| StringJumpArgs.PairCount | templates/src/string.ts:180 | the number of rounds of the pair loop; ParseArgsSuccess states that a successful read has that many pairs |
| StringJumpArgs.PairError | templates/src/string.ts:181-187 | the message of one bad pair, in the order the loop checks; ParsePairsFailure states which pair reports it |
| StringJumpArgs.ParsePairs | templates/src/string.ts:180-192 | the pair loop; ParsePairsSuccess and ParsePairsFailure state both outcomes |
| StringJumpArgs.NoMatchOf | templates/src/string.ts:198-199 | the trailing no-match block; ParseArgsSuccess and NoMatchSlot state when it is present |
| StringJumpArgs.StringJumpOf | templates/src/string.ts:168-287 | the outcome of `stringJumpFast!`; RejectedWhenParseFails, StringJumpFinds, StringJumpEmpty and StringJumpSingle state its properties |
| Registry.Session.constructor | templates/src/util.ts:4-6 | a fresh session has no disks and no memories |
| Registry.Session.RegisterDisk | templates/src/disk.ts:11-25 | errors in source order; a taken name, or one `in` finds on Object.prototype ("constructor", "__proto__"), gives "already exists" and changes nothing; otherwise exactly the normalised key is added, holding a new, empty, unlocked disk, and returns ""; the same holds at src/disk.ts:10-23 |
| Registry.Session.PutFile | templates/src/disk.ts:40-43 | an unknown disk fails with "does not exist", an inherited name passes that check and then fails with a TypeError, an exported disk fails with "already been exported", and none of these changes a file; otherwise the file is stored on that disk only |
| Registry.Session.AddFileString | templates/src/disk.ts:31-47 | argument errors in order, then the disk errors, a TypeError for an inherited disk name; stores the packed character codes under the normalised file name; every disk keeps its name, size and lock |
| Registry.Session.AddFileBytes | templates/src/disk.ts:54-70 | the same, storing the list as given; every disk keeps its name, size and lock |
| Registry.Session.ExportDisk | templates/src/disk.ts:77-89 | an unknown name fails and an inherited one fails with a TypeError; otherwise the disk is locked, whether or not the export throws, and the result is the image of its files and size as they were, or the name error; no file, name or size changes, and no other disk's lock |
| Registry.Session.RegisterMemory | templates/src/memory.ts:12-26 | errors in order; a taken or inherited name changes nothing; otherwise it stores `Memory(name, size)` under the normalised name; the disks are untouched |
| Registry.Session.ExportMemory | templates/src/memory.ts:32-43 | an unknown name fails and an inherited one fails with a TypeError; otherwise it returns that memory's export and changes nothing |
| Registry.ExportThenAddFile | templates/src/disk.ts:31-89 | after `exportDisk!` on a registered disk, `addFileString!` on it fails with "already been exported" and changes no file |
| Registry.DiskExists | templates/src/disk.ts:19 | the text thrown for a taken disk name; RegisterDisk states when |
| Registry.NoSuchDisk | templates/src/disk.ts:40 | the text thrown for an unknown disk name; PutFile and ExportDisk state when; the same holds at templates/src/disk.ts:63 and 84 |
| Registry.DiskExported | templates/src/disk.ts:41 | the text thrown for an exported disk; PutFile and ExportThenAddFile state when; the same holds at templates/src/disk.ts:64 |
| Registry.MemoryExists | templates/src/memory.ts:20 | the text thrown for a taken memory name; RegisterMemory states when |
| Registry.NoSuchMemory | templates/src/memory.ts:39 | the text thrown for an unknown memory name; ExportMemory states when |
| Registry.ExportMessage | templates/src/types/Disk.ts:48 | the text `Disk.export` throws for a long file name; ExportDisk states when |

## Left out

- The emitted text. `createBehavior!`, `setVal!`, `JSON.stringify`, function bodies and
  `define!` lines are not modelled. Their structured content is: lists, counts, constants
  and the decision tree as a datatype.
- The context checks and argument typing of templates/src/util.ts:10-81. Template arguments
  arrive already classified as strings, numbers, blocks or missing.
- `JSON.parse` in `addFileBytes!` is not modelled. The list arrives parsed, so a malformed
  block has no error path here.
- Floating point. Words and sizes are integers. Words stay below 2^48 and every divisor is a
  power of two, so this is exact for the codec. A `NaN` size from the argument reader is a
  missing size.
- Character codes of 256 or more, and surrogate pairs. Properties that need bytes carry that
  condition; otherwise the codes are used as given.
- Strings.LowerShape: `toLowerCase` is modelled for the letters A-Z only, so other letters
  such as "É" are kept where the source lowers them. Trimming removes the ECMAScript
  whitespace and line terminator characters.
- Strings.NormalizeShape: the same A-Z-only lower-casing as Strings.LowerShape.
- Strings.Lower: lower-cases A-Z only. Its length clause holds of this model, not of the
  source: in JavaScript `"İ".toLowerCase()` has two code units.
- Strings.Normalize: built on Strings.Lower, so it has the same A-Z-only lower-casing.
- Strings.InterleaveLength: `replaceAll` is literal, without `$` replacement patterns; in the
  source `"x$$y".replaceAll("$$", "$$")` is "x$y".
- Strings.ReplaceAllSelf: literal replacement, as for Strings.InterleaveLength; a replacement
  holding `$$`, `$&` and the like is expanded by the source.
- Strings.ReplaceAllFront: literal replacement, as for Strings.InterleaveLength.
- Strings.ReplaceTemplateShape: literal replacement, as for Strings.InterleaveLength.
- Strings.ReplaceAll: literal, without the `$$`, `$&`, `` $` `` and `$'` replacement patterns
  the source expands.
- Strings.Interleave: the empty-pattern case of Strings.ReplaceAll, literal in the same way.
- JS `Record` key order. A disk's files are a sequence in insertion order, and an existing
  name keeps its place.
- The `stringJumpFastVar` counter and the read-variable name. The name is taken as fresh and
  does not appear in the tree.
- Block ids above 65535 are not checked, as in the source.
- Registry.Session.RegisterMemory: `ensureState` creates only the disk map
  (templates/src/util.ts:5), so as written the `in` check of `registerMemory!`
  (templates/src/memory.ts:20) throws a TypeError on the missing memory map. The session
  constructor creates both maps, and the memory registry is modelled as it is evidently meant
  to work.
- Registry.Session.ExportMemory: for the same reason the `in` check of `exportMemory!`
  (templates/src/memory.ts:39) throws a TypeError as written.
- Registry.Session.RegisterDisk: the older `registerDisk!` (src/disk.ts:10-23) never calls
  `ensureState`, so on a state without `calculatoros` its `in` check (src/disk.ts:17) throws a
  TypeError; the model always starts from a session.
- Registry.Session.ExportDisk: on an inherited name the source sets `locked` on `Object` or on
  Object.prototype before its TypeError. After `exportDisk!("__proto__")` every disk without an
  own `locked` field then reads as exported. The model records only the TypeError.
- Registry.Session.AddFileString: a file named "__proto__" replaces the prototype of the
  disk's file record instead of adding an entry, and the export then lists that prototype's
  keys. The model stores it as an ordinary file (DiskLayout.Store).
- Registry.Session.AddFileBytes: the same "__proto__" file name case as
  Registry.Session.AddFileString.
- DiskLayout.Store: an ordinary entry even for the name "__proto__", as for
  Registry.Session.AddFileString.
- The text of the host's TypeError is the engine's. The model returns the fixed message
  "TypeError".
- A disk's `locked` field starts undefined in the source. It is modelled as `false`, which
  behaves the same.
- `diskDataForEach` and `memoryDataForEach` are not part of this model. Neither are
  templates/src/index.ts, src/index.ts or TemplateState.ts, which only register templates.
- The runtime primitives `r_ead`, `w_rite` and `m_alloc`. Only the index arithmetic around
  them is modelled.
- StringJump.MergeAndSortAscPrefixes: the library sort is modelled as a sorted insertion.
  Keys within one call are distinct, so the order is the same.
- StringJump.JumpFinds: completeness requires that no candidate's words equal, or are a
  proper prefix of, another candidate's words. The source has no such check; what it does on
  such input is listed under Findings.
- StringJumpArgs.StringJumpFast: candidates that are not prefix-free give the outcome
  `NotPrefixFree` rather than the source's behaviour on them.
- StringJumpArgs.StringJumpOf: the same `NotPrefixFree` outcome as
  StringJumpArgs.StringJumpFast, in place of the source's tree for such candidates.

## Findings

| source | as written | input that shows it | evidently intended | confidence | as-written member | corrected member |
|---|---|---|---|---|---|---|
| templates/src/types/Disk.ts:102-125 | the read picks array `floor(i / 10000)` but element `1 + mod(i - 1, 10000)` of it, so i = 10000k reads from the array after the right one; the memory accessor repeats this at templates/src/types/Memory.ts:54-76 | two full data arrays (20,000 entries) and i = 10000: the read returns element 20,000 instead of element 10,000 | pick array `floor((i - 1) / 10000)`, the array the 1-based index helper assumes | medium, not executed | Addressing.ReadAsWrittenMisses | Addressing.CorrectedReadIsElement |
| templates/src/types/Disk.ts:55-66 | a file gets `ceil(len / (BLOCK_SIZE * 6))` blocks, but each block copies only `BLOCK_SIZE` entries; the entries are already words, so everything past `BLOCK_SIZE * ceil(len / 60)` is dropped; the older export does the same with 100 at src/types/Disk.ts:53-64 | `addFileString!` with 61 characters packs to 11 words, and the export stores 10 of them | `ceil(len / BLOCK_SIZE)` blocks, so every word of the file is stored | high, not executed | DiskLayout.FileDataDropsTail | DiskLayout.CorrectedBlocksKeepFile |
| templates/src/string.ts:235-285 | values whose words are a prefix of another value's words share a group; descending into it reads a second word guarded by `readPos < ceil(strLen / 6)`, so the shorter value falls to no-match. Two equal values recurse on the same `undefined` group without end. The promise at templates/src/string.ts:160 is that every given value reaches its block | values "abcdef" and "abcdefg": the string "abcdef" runs the no-match block, or nothing | reject such values, or give the shorter value its block when the guard fails | high, not executed | StringJump.SharedWordMissesShorter | StringJumpArgs.StringJumpFinds |
