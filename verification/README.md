# Sorting, rewriting, boxes, shared files and archives, verified

This project models the algorithms and protocols at the core of the go4 libraries in Dafny and
proves what they promise. `dafny verify dfyconfig.toml` checks all of it.

- **Sorting** (`Sort*.dfy`). Introsort and the stable in-place SymMerge, on an array that is touched
  through `Less` and `Swap` only, as in `sort/sort.go`. The answers of the comparator are a function
  of the number of the question and the two elements, so that any comparator is covered, also one
  that contradicts itself or answers at random. If it is a strict weak order, the result is sorted
  (and stable); if not, the routines still end, stay in bounds, permute and keep to the same bounds
  on questions and exchanges. Without an order the two scans of the partition may pass each other by
  one position, so the two remaining ranges need not be separated by an element; they are strictly
  smaller all the same.
- **Replacing bytes** (`Replace*.dfy`). The compressed trie is a heap structure that is rewritten in
  place. It is proved against a map from keys to values and priorities, lookup against "the earliest
  pair that matches", and the replacement loop, which overwrites the buffer it reads from, against a
  left-to-right rewrite. Its documentation says that a new slice is made if the capacity is not
  sufficient. The code does not count what other replacements shorten: `FitsYetGrows` has an input
  for which the result fits and yet a new slice is made, and `Replace` states exactly when the
  buffer is left.
- **HEIF files** (`Bmff*.dfy`, `Heif*.dfy`). Boxes of ISO/IEC 14496-12 (sections 4.2, 4.3, 8.11.1,
  8.11.3, 8.11.4 and 8.11.6) and the item properties of ISO/IEC 23008-12 (section 9.3), read by a
  buffered reader that seeks where it can, and by parsers with a sticky error. `Bmff` and `HeifSpec`
  say what the bytes mean; the methods are proved against them. `BmffWritten` and `BmffItemsWritten`
  write boxes and bodies field by field and prove that they are read as what was written, in all
  versions and widths; `HeifItems` says what belongs to an item among others; and `HeifRoundTrip`
  and `HeifStandalone` prove that reading undoes `EncodeImage` and that a copy of an item is the
  same image. The name of an item is read with its type in front, because the parser only peeks at
  the type; so the type comes back as the name of a written item, which has none. Item types "mime"
  and "uri " ask for strings that are not written; reading such a file fails. `setMetaErr` keeps an
  error only if there is one already, so errors are never remembered; the model does the same.
- **Shared files** (`SharedOpen.dfy`, `SharedOneFile.dfy`, `SharedOpener.dfy`). `Open`, `Close` and
  `Group.Do` as steps between lock operations, of any number of goroutines in any order.
  `SharedOpen` is the state machine with its invariant and the theorems about all runs; the methods
  of `SharedOpener` change tables and counts as the critical sections do and are proved to be these
  steps. More than one open file for a path is possible, and a file in use can drop out of the
  table. `SharedOneFile` has runs for both and the conditions: there is one file per path, and it
  stays in the table, as long as nobody starts to open a path that is in the table; and a goroutine
  that is about to start makes a second file exactly if there is one.
- **ZIP archives** (`Zip*.dfy`, `MultiReaderAt.dfy`). The table of contents as in sections 4.3.12
  and 4.3.14 to 4.3.16 of PKWARE's APPNOTE, read from the last bytes of a file with zeros in place
  of the rest. `ZipSpec` says what is found in a file that is completely known. `ZipWritten`,
  `ZipArchive` and `ZipToc` write headers, records and whole archives byte by byte and prove that
  the table of contents is what was written, also behind a prefix. `ZipSuffix` says what is found
  with any number of its first bytes replaced by zeros: in what `ZipTOCSize` asks for, given the
  whole file, the same, if a zip64 record lies before its locator. The documentation of `ZipTOCSize`
  says that a small suffix of the file is enough to compute the size. That fails in two ways: the
  suffix may hide the locator of a zip64 record, and then the short record is used instead; and it
  may hide a header that overrides the base offset. `SizeFromFooter` says exactly when the size is
  right, `SizeFromEnd` what can be seen in the suffix itself, and `ZipExamples` has a file for each.
- **Smaller cores** (`RollSum.dfy`, `PrefixSuffixSaver.dfy`, `ParseUint.dfy`). The rolling checksum
  equals closed forms over its window although it is computed in wrapping arithmetic; the saver
  keeps both ends of what was written; numbers are parsed exactly, and what was written in any base
  parses to the number. The documentation of `OnSplitWithBits` speaks of the checksum; the code
  looks at the second sum. `DigestTells` says for which numbers of bits that makes no difference: up
  to 16, and from 31 on, where there is never a split.

Some branches and inner loops of long functions are methods of their own here, so that each has a
contract: the two one-element cases and the search of `symMerge`, the scans and the bands of
`doPivot`, the three ways to put a replacement, the loops over extents, associations and headers.

## Model

| member | source | states |
|---|---|---|
| `SortData.Data.Less` | sort/sort.go:33-41 | a question about two positions inside the data is answered for the elements there, and counted; for a strict weak order the answer is that of a ranking of the elements |
| `SortData.Data.Swap` | sort/sort.go:33-41 | exactly the elements at two positions inside the data trade places |
| `SortOrder.RankOfRespects` | sort/sort.go:33-41 | every strict weak order is, on the elements at hand, the comparison of integer ranks; what is proved for ranks holds for the comparator |
| `SortStable.InsertionSort` | sort/sort.go:84-90 | the range is a permutation of what it was; for a strict weak order it is sorted and equivalent elements keep their order; at most a triangular number of questions and exchanges |
| `SortHeap.SiftDown` | sort/sort.go:94-110 | if all positions behind the root were in heap order, the whole heap is afterwards, also in the middle of a larger array; for any comparator only the heap is rearranged, with at most a logarithm of exchanges |
| `SortHeap.HeapSort` | sort/sort.go:112-127 | sorts a sub-range, for any comparator permutes only it, with n log n questions and exchanges |
| `SortHeap.PopSift` | sort/sort.go:122-126 | after moving the greatest element behind the heap and sifting, what is popped is sorted and not below what is left |
| `SortPivot.MedianOfThree` | sort/sort.go:133-147 | of three different positions the median ends up in the middle one, whatever the order in which they are given |
| `SortPivot.ChoosePivot` | sort/sort.go:156-164 | before partitioning the last element is not below the pivot, so the scans stop inside the range |
| `SortPivot.Partition` | sort/sort.go:173-192 | what is below or equal, and above the pivot is separated; without an order the two scans may cross by one position, but stay in range |
| `SortPivot.SkimDuplicates` | sort/sort.go:198-215 | elements equal to the pivot are moved into the middle band, the middle position included, or nothing is lost if the comparator is inconsistent |
| `SortPivot.GatherDuplicates` | sort/sort.go:218-236 | of those not above the pivot, the ones equal to it are gathered behind the others |
| `SortPivot.Protect` | sort/sort.go:193-236 | with or without the tests for duplicates there are three bands: below or equal, equal, and above or equal the pivot |
| `SortPivot.DoPivot` | sort/sort.go:155-240 | everything before midlo is not above, everything from midlo to midhi equal to, and everything from midhi on not below the pivot; for any comparator both remaining ranges are strictly smaller than the whole and do not overlap |
| `SortQuick.SmallSort` | sort/sort.go:259-269 | at most twelve elements are sorted, by exchanges at distance six and insertion |
| `SortQuick.QuickSort` | sort/sort.go:242-270 | sorts the range, or permutes it for any comparator; the stack is at most as deep as the logarithm of the size, as only the smaller part is sorted recursively; how much it costs with the levels that are left before heapsort takes over |
| `SortCost.FloorLgIsGreatest` | sort/sort.go:250-251 | the logarithm that bounds the depth of the stack is the greatest k with 2^k <= n |
| `SortQuick.MaxDepth` | sort/sort.go:294-302 | the loop computes exactly 2 * ceil(lg(n+1)) |
| `SortCost.CeilLgIsLeast` | sort/sort.go:294-295 | ceil(lg n) is at most k exactly if n <= 2^k |
| `SortQuick.Sort` | sort/sort.go:272-285 | for every strict weak order the result is sorted and a permutation; for any answers whatsoever it terminates, stays in bounds, permutes, and needs at most n(19 ceil(lg(n+1)) + 7) questions and exchanges |
| `SortStable.SwapRange` | sort/sort.go:149-153 | two blocks of equal length trade places |
| `SortStable.Rotate` | sort/sort.go:551-570 | x u v y becomes x v u y, with at most b-a exchanges, for all lengths of u and v |
| `SortOrder.RotatedStable` | sort/sort.go:551-554 | a rotation of two blocks without equivalent elements in common keeps equivalent elements in order |
| `SortStable.InsertFirst` | sort/sort.go:469-494 | a single first element is inserted before the first element that is not below it |
| `SortStable.InsertLast` | sort/sort.go:496-519 | a single last element is inserted behind the last element that is not above it |
| `SortStable.SymMergeSearch` | sort/sort.go:521-539 | binary search finds a cut such that after the rotation both halves are two sorted runs each, nothing in the left half belongs behind anything in the right half, and equivalent elements have kept their order |
| `SortStable.SymMerge` | sort/sort.go:450-549 | two adjacent sorted runs become one, stably; for any comparator it terminates and permutes only the range; its recursion is at most ceil(lg(b-a)) deep |
| `SortStable.MergePass` | sort/sort.go:434-446 | sorted blocks of one size become sorted blocks of twice the size, stably, the incomplete last blocks included |
| `SortStable.StableRanked` | sort/sort.go:426-448 | blocks of twenty, then passes with doubling size, until one block is everything |
| `SortStable.StableSort` | sort/sort.go:388-424 | for every strict weak order: a sorted permutation in which equivalent elements have kept their relative order; for any answers it terminates, in bounds, with a permutation, within the documented order of calls |
| `ReplaceTrie.TrieNode.Add` | bytereplacer/bytereplacer.go:84-145 | the node holds afterwards the entries it held before and the new one, which loses against an earlier one with the same key; every shape of node, prefix and table included |
| `ReplaceTrie.TrieNode.PrefixToTable` | bytereplacer/bytereplacer.go:104-121 | a node whose prefix differs in its first byte becomes a table without a change of its entries |
| `ReplaceTrie.TrieNode.SplitFirst` | bytereplacer/bytereplacer.go:103-122 | then the new key is added to the slot of its first byte |
| `ReplaceTrie.TrieNode.CutPrefix` | bytereplacer/bytereplacer.go:124-130 | a node between this one and the next takes over the rest of the prefix, without a change of the entries |
| `ReplaceTrie.TrieNode.SplitMiddle` | bytereplacer/bytereplacer.go:123-132 | a node whose prefix differs further behind is split in two, and the new key is added below |
| `ReplaceTrie.TrieNode.AddTable` | bytereplacer/bytereplacer.go:133-139 | the key goes to the slot of its first byte, all other slots keep their entries |
| `ReplaceTrie.TrieNode.AddFresh` | bytereplacer/bytereplacer.go:140-144 | a leaf gets the whole key as its prefix |
| `ReplaceTrie.TrieNode.AddHere` | bytereplacer/bytereplacer.go:85-91 | a value for the node itself, unless it has one already |
| `ReplaceTrie.TrieNode.Root` | bytereplacer/bytereplacer.go:217-218 | the root has a table from the start and no entries |
| `ReplaceGeneric.MakeCoding` | bytereplacer/bytereplacer.go:194-216 | the bytes that occur in a key get different numbers below the size of the tables, and all other bytes the size itself |
| `ReplaceGeneric.BuildTrie` | bytereplacer/bytereplacer.go:217-223 | after all pairs are added with falling priorities, the entries are, for each key, the value and priority of the first pair that has it |
| `ReplaceGeneric.BestIsFirst` | bytereplacer/bytereplacer.go:147-181 | the entry of highest priority among all keys that begin the input is that of the earliest pair that matches |
| `ReplaceGeneric.GenericReplacer.Lookup` | bytereplacer/bytereplacer.go:147-181 | gives value and key length of the first pair in the list that matches, ignoring the empty key if asked to, and says not found exactly if there is none |
| `ReplaceGeneric.GenericReplacer.NothingStarts` | bytereplacer/bytereplacer.go:232-239 | where the table of the root has nothing for a byte, no pair matches, so it may be skipped without a lookup |
| `Replacer.Splice` | bytereplacer/bytereplacer.go:244-253 | in the buffer: what is before the match is appended to the output, then the value, and the bytes still to be read survive, moved to the right if the value is longer than the key |
| `Replacer.Accept` | bytereplacer/bytereplacer.go:242-268 | one match, in all three cases: the value does not lengthen, fits into the spare capacity, or makes the output leave the buffer |
| `Replacer.Replace` | bytereplacer/bytereplacer.go:226-274 | for all pairs, inputs and capacities the output is the left-to-right rewrite of the input, and terminates; it stays in the buffer exactly if the sum of what single replacements lengthen fits into the spare capacity |
| `Replacer.FitsYetGrows` | bytereplacer/bytereplacer.go:69-71 | an input for which a new buffer is made although the result would have fitted; the documentation says otherwise |
| `Replacer.TableRewrites` | bytereplacer/bytereplacer.go:276-286 | mapping every byte through the table is the same rewrite if all pairs are of single bytes |
| `Replacer.MakeTable` | bytereplacer/bytereplacer.go:50-63 | the table has the value of the first pair for each byte, and else the byte itself |
| `Replacer.ReplaceBytes` | bytereplacer/bytereplacer.go:281-286 | every byte of the buffer, and no other, is mapped |
| `Replacer.New` | bytereplacer/bytereplacer.go:36-67 | fails exactly for an odd number of arguments; chooses the table exactly if all keys and values are single bytes |
| `Replacer.ReplaceAll` | bytereplacer/bytereplacer.go:69-74 | both kinds of replacer compute the same rewrite; the table never leaves the buffer, and the generic one exactly if what single replacements lengthen does not fit |
| `BmffReader.Stream.Read` | media/heif/bmff/bmff.go:43-49 | a buffered reader gives the next bytes of the input, however its buffer was filled |
| `BmffReader.NextHeader` | media/heif/bmff/bmff.go:216-257 | reading sizes of 32 and 64 bits, negative ones and those to the end of the file gives the header that the bytes say, or the error or the end |
| `BmffReader.Reader.SkipRest` | media/heif/bmff/bmff.go:268-286 | seeking past the buffered bytes, seeking that fails, and reading lead to the same rest of the input, also if that is cut short |
| `BmffReader.Reader.ReadBody` | media/heif/bmff/bmff.go:258-263 | any part of a body can be read without an effect on which boxes follow |
| `BmffReader.Reader.ReadBox` | media/heif/bmff/bmff.go:193-266 | type, size, offset and header of the next box, whatever was read of the last one, however the rest is skipped |
| `BmffReader.Walk` | media/heif/bmff/bmff.go:193-286 | reading all boxes, and any amount of each body in between, gives the list that the bytes define |
| `BmffReader.OffsetsAreSums` | media/heif/bmff/bmff.go:146-148 | each offset is the sum of the sizes of the boxes before |
| `BmffWritten.ShortHeader` | media/heif/bmff/bmff.go:216-257 | a size of 32 bits and a type, written, are read as type, size and size of the body; 0 is a body to the end of the file, 2 to 7 are errors |
| `BmffWritten.LongHeader` | media/heif/bmff/bmff.go:234-248 | the same for 1, type and a size of 64 bits, the most significant byte first, exactly from 16 up to the largest signed number |
| `BmffWritten.HeaderCut` | media/heif/bmff/bmff.go:205-257 | an input that ends in a header is at its end if it ends before a field, and else wrong |
| `BmffWritten.SplitWritten` | media/heif/bmff/bmff.go:376-398 | boxes with sizes of 32 or 64 bits, the last one also without a size, written behind each other are split into the same boxes |
| `Bytes.U64IsBigEndian` | media/heif/bmff/bmff.go:527-554 | eight bytes are the number with these digits in base 256, as those of 4 and 2 bytes are |
| `BmffWritten.TakeNumber` | media/heif/bmff/bmff.go:527-554 | numbers of 0, 1, 2, 4 and 8 bytes that were written are read back |
| `BmffWritten.TakeFullWritten` | media/heif/bmff/bmff.go:305-315 | version and flags that were written are read back |
| `BmffWritten.TakeStringWritten` | media/heif/bmff/bmff.go:596-612 | a string with a zero byte behind it is read back |
| `BmffWritten.NoString` | media/heif/bmff/bmff.go:596-612 | without a zero byte there is none |
| `BmffWritten.FileTypesAreSpelled` | media/heif/bmff/bmff.go:326-374 | the types of boxes and the brand are these characters |
| `BmffParser.BufReader.ReadUintN` | media/heif/bmff/bmff.go:527-554 | integers of 0, 1, 2, 4 and 8 bytes, an error for other widths, and nothing after an error |
| `BmffParser.BufReader.ReadUint16` | media/heif/bmff/bmff.go:568-580 | two bytes, or the first error is kept and everything behind it reads as zero |
| `BmffParser.BufReader.ReadString` | media/heif/bmff/bmff.go:596-612 | the bytes up to a zero byte, which must be there |
| `BmffParser.BufReader.ParseAppendBoxes` | media/heif/bmff/bmff.go:376-398 | all boxes of the rest with their bodies, a last one without a size or cut short included, or an error if anything is not a box |
| `BmffParser.NextBody` | media/heif/bmff/bmff.go:400-416 | the next box with its whole body, read at once or growing |
| `BmffParser.ParseFileTypeBox` | media/heif/bmff/bmff.go:326-348 | brands in groups of four bytes up to an incomplete one |
| `BmffParser.ParseMetaBox` | media/heif/bmff/bmff.go:361-374 | both forms of the meta box, told apart by the type of a first child |
| `BmffParser.ParseHandlerBox` | media/heif/bmff/bmff.go:861-884 | the type of the handler, if the fixed part is there, and its name, with or without a zero byte behind it |
| `BmffParser.ParsePrimaryItemBox` | media/heif/bmff/bmff.go:920-936 | an item of 16 or 32 bits, by version |
| `BmffParser.ParseInfe` | media/heif/bmff/bmff.go:438-473 | numbers, type and strings of an item; the type is not consumed and so begins the name; two types ask for more strings, one of them optional |
| `BmffParser.ParseItemInfoBox` | media/heif/bmff/bmff.go:482-508 | all children must parse, those of other types are dropped |
| `BmffParser.ParseIpma` | media/heif/bmff/bmff.go:692-737 | entries and associations, narrow or wide, as many as are declared, or an error |
| `BmffParser.ParseItemLocationBox` | media/heif/bmff/bmff.go:792-852 | locations in all three versions and all widths of their fields, or an error |
| `BmffParser.ParseItemPropertiesBox` | media/heif/bmff/bmff.go:632-671 | one container and at least one association box, in this order and nothing else |
| `BmffParser.ParseImageSpatialExtents` | media/heif/bmff/bmff.go:745-763 | width and height behind version and flags |
| `BmffParser.ParseImageRotation` | media/heif/bmff/bmff.go:992-998 | the two low bits of one byte |
| `BmffParser.Parse` | media/heif/bmff/bmff.go:164-178 | the parser for the type, for boxes inside boxes of any depth; unknown types are told from errors |
| `BmffWritten.ReadFtypWritten` | media/heif/bmff/bmff.go:326-348 | brands and minor version that were written are read back, and up to three bytes behind them ignored |
| `BmffWritten.ReadMetaWritten` | media/heif/bmff/bmff.go:361-374 | version, flags and children written are read as the children |
| `BmffWritten.ReadQuickTimeMeta` | media/heif/bmff/bmff.go:361-374 | children alone, if the first is hdlr, too |
| `BmffWritten.ReadHdlrWritten` | media/heif/bmff/bmff.go:861-884 | type and name written are read back, whether a zero byte is behind the name or not |
| `BmffWritten.ReadPitmWritten` | media/heif/bmff/bmff.go:920-936 | numbers of 16 bits in version 0, and of 32 bits in others, are read back |
| `BmffWritten.ReadIspeWritten` | media/heif/bmff/bmff.go:745-763 | width and height written, in this order, are read back |
| `BmffWritten.ReadIrotWritten` | media/heif/bmff/bmff.go:992-998 | whatever the six high bits, the angle is read back |
| `BmffItemsWritten.ReadInfeWritten` | media/heif/bmff/bmff.go:438-473 | all fields of an entry written are read back, with the strings that its type asks for |
| `BmffItemsWritten.OtherInfe` | media/heif/bmff/bmff.go:438-473 | other versions are errors |
| `BmffItemsWritten.ReadIpmaWritten` | media/heif/bmff/bmff.go:692-737 | all entries and associations written, narrow or wide, are read back |
| `BmffItemsWritten.ReadIlocWritten` | media/heif/bmff/bmff.go:792-852 | all locations written are read back, in all versions and all widths of fields, whatever the reserved bits and the indexes of extents |
| `BmffItemsWritten.ReadIinfWritten` | media/heif/bmff/bmff.go:482-508 | all entries are read back in order, whatever their declared count |
| `BmffItemsWritten.OtherInIinf` | media/heif/bmff/bmff.go:494-505 | a child of another type is left out, and one that does not parse an error |
| `BmffItemsWritten.ReadIprpWritten` | media/heif/bmff/bmff.go:632-671 | the properties of the container and the entries of all association boxes are read back |
| `BmffItemsWritten.NoContainer` | media/heif/bmff/bmff.go:632-671 | anything else in first place and fewer than two boxes are errors |
| `BmffWritten.MetaTypesAreSpelled` | media/heif/bmff/bmff.go:118-138 | the types of the boxes for items are these characters |
| `BmffWritten.PropertyTypesAreSpelled` | media/heif/bmff/bmff.go:118-138 | as are those of the boxes for properties, and the two item types with more strings |
| `Heif.AppendBox` | media/heif/heif.go:387-392 | size, type and body are appended; the size is truncated to 32 bits |
| `Heif.BuildMeta` | media/heif/heif.go:353-369 | the meta box for an offset and a length of the data |
| `Heif.EncodeImage` | media/heif/heif.go:302-377 | succeeds exactly for four-character brand and type, at most 127 properties that are boxes, and a file below 4 GiB; then it is the file that the functions of HeifSpec describe |
| `HeifRoundTrip.FileLayout` | media/heif/heif.go:352-376 | no length or offset is truncated, and the offset in iloc, which is 191 more than the size and the number of the properties, is where the payload of mdat begins although iloc lies before it |
| `HeifRoundTrip.DataBox` | media/heif/heif.go:362-376 | right before the data there is the header of mdat with the size of the box |
| `HeifRoundTrip.SplitContainer` | media/heif/heif.go:314-326 | concatenated property boxes are split again into the same boxes |
| `HeifRoundTrip.ReadIpma` | media/heif/heif.go:345-350 | the associations that are written are read back with their indexes and flags |
| `HeifRoundTrip.ReadIloc` | media/heif/heif.go:354-360 | the location that is written is read back |
| `HeifRoundTrip.ReadInfe` | media/heif/heif.go:336-341 | the item entry is read back, with the type as its name, except for the two types whose strings are not written |
| `HeifRoundTrip.NameIsType` | media/heif/bmff/bmff.go:453-458 | all of the type, unless a zero byte is in it |
| `HeifRoundTrip.ReadIprp` | media/heif/heif.go:345-350 | container and associations are read back from the properties box |
| `HeifRoundTrip.CollectMeta` | media/heif/heif.go:362-368 | all five children of the meta box are read back, or fail for the two types |
| `HeifRoundTrip.ReadEncoded` | media/heif/heif.go:302-377 | reading what was written gives the brand, primary item 1, its type, all properties and the location; it fails exactly for the types "mime" and "uri " |
| `HeifRoundTrip.DataReadsBack` | media/heif/heif.go:172-212 | the data is read back exactly if there are 1 to 64 MiB of it |
| `HeifRoundTrip.RoundTrip` | media/heif/heif.go:302-377 | the primary item of the written file has the given type, property boxes in order, flags and data |
| `HeifStandalone.CopiesAreEqual` | media/heif/heif.go:260-271 | copied properties are the boxes of the item, with the same flags, in the same order |
| `HeifStandalone.DataSize` | media/heif/heif.go:192-201 | data that can be read at all has a size with which it can be read again |
| `HeifStandalone.StandalonePreserves` | media/heif/heif.go:239-273 | re-opened, the copy's primary item has the type, data, property boxes and flags of the original, and hence its extents, rotation and visual dimensions |
| `HeifStandalone.StandaloneSucceeds` | media/heif/heif.go:247-273 | a copy can be made exactly of supported types with readable data, up to 127 associations and a size below 4 GiB |
| `HeifStandalone.ExtentsReadBack` | media/heif/heif.go:286-293 | a property made for a width and a height is parsed as these |
| `HeifStandalone.RotationReadsBack` | media/heif/heif.go:295-300 | a property made for any number of quarter turns, also a negative one, is parsed as that number modulo 4 |
| `HeifStandalone.DisplayedAsWritten` | media/heif/heif.go:82-112 | an image written with extents and a rotation is displayed with them, width and height exchanged for odd numbers of turns |
| `Heif.ReadAndParseBox` | media/heif/bmff/bmff.go:288-303 | the next box, if it has the type and parses |
| `Heif.ReadBoxMeta` | media/heif/heif.go:408-449 | the first box must be ftyp and the second meta; of several children of one type the last counts, unknown ones are skipped |
| `Heif.File.GetMeta` | media/heif/heif.go:394-452 | what is cached is what reading again would give; errors are not remembered |
| `Heif.File.Associations` | media/heif/heif.go:506-538 | only valid indexes, from the first association box that has any for the item |
| `Heif.File.ItemByID` | media/heif/heif.go:466-504 | the last location and the last entry for the number, and the properties in order |
| `HeifItems.InfoIs` | media/heif/heif.go:466-504 | the entry of an item is the last one with its number, wherever those of other items are |
| `HeifItems.LocationIs` | media/heif/heif.go:466-504 | so is its location |
| `HeifItems.OthersDoNotMatter` | media/heif/heif.go:526-533 | changing or removing the entries of other items in the association boxes changes nothing for the item |
| `HeifItems.ItemGetsItsEntry` | media/heif/heif.go:526-533 | with one entry for each item, each item gets exactly the associations of its entry, and an item without an entry none |
| `HeifItems.TwoItems` | media/heif/heif.go:526-533 | of two items with an entry each, each gets its own |
| `HeifItems.InvalidIsOmitted` | media/heif/heif.go:506-538 | one more association is kept exactly if its index is that of a property |
| `HeifItems.FirstBoxCounts` | media/heif/heif.go:506-538 | a further association box counts only if those before have nothing for the item |
| `HeifItems.ItemsApart` | media/heif/heif.go:466-504 | in a file with any number of items, each has its own entry, location, associations and properties |
| `HeifItems.NoItem` | media/heif/heif.go:466-504 | a number without an entry is no item |
| `HeifItems.OneMoreChild` | media/heif/heif.go:428-449 | one more child of meta replaces what was there for its type, is skipped if its type is unknown, and is an error if it does not parse |
| `HeifItems.ReadMetaBoxes` | media/heif/heif.go:408-449 | ftyp and meta, however their sizes are written, are read, whatever follows |
| `HeifItems.OtherBoxes` | media/heif/heif.go:408-427 | other boxes in first or second place, and a first one without an end, are errors |
| `Heif.File.PrimaryItem` | media/heif/heif.go:454-464 | the item that the file declares as primary |
| `Heif.File.Data` | media/heif/heif.go:174-212 | the extents behind each other, if all of them are allowed and lie inside the file; additions that wrap around are errors |
| `HeifItems.DataIff` | media/heif/heif.go:174-212 | data can be read exactly if it is in the file itself, in extents that are not empty, inside the file, together at most 64 MiB |
| `HeifItems.DataBytes` | media/heif/heif.go:202-212 | each byte of each extent is the one of the file, in the order of the extents |
| `HeifItems.ExtentsAre` | media/heif/heif.go:82-91 | the first property with extents counts |
| `HeifItems.RotationIs` | media/heif/heif.go:93-102 | the first rotation counts, and none without one |
| `Heif.CheckSizes` | media/heif/heif.go:192-201 | the loop, which never adds beyond the limit, accepts exactly extents that are not empty and are together not too long |
| `Heif.File.StandaloneHEIF` | media/heif/heif.go:239-273 | the copy that HeifSpec.Standalone describes, or an error in exactly the cases in which there is none |
| `HeifItems.UnsupportedTypes` | media/heif/heif.go:251-256 | the types that are not copied are these six, in their characters |
| `Heif.Dimensions` | media/heif/heif.go:104-112 | swapping once for each turn |
| `SharedOpen.RefCountsAreExact` | readerutil/singlereader/opener.go:47-118 | in every reachable state the count is the number of live handles plus that of goroutines about to receive one; the file is closed at most once, not before that is zero, and has been closed once it is zero and nobody is closing it |
| `SharedOpen.HandlesAreUsable` | readerutil/singlereader/opener.go:69-79 | a live handle is for the path that was asked for, and its file is open |
| `SharedOpen.TableIsInUse` | readerutil/singlereader/opener.go:69-79 | every file in openFiles has a positive count and is open |
| `SharedOpen.ZeroIsAbsorbing` | readerutil/singlereader/opener.go:107-115 | a count that has reached zero stays zero in every run |
| `SharedOpen.CloseNeverPanics` | readerutil/singlereader/opener.go:53-56 | the count of a live handle's file does not become negative |
| `SharedOpen.OneExecutionPerKey` | syncutil/singleflight/singleflight.go:37-64 | at most one goroutine executes the function for a key at a time |
| `SharedOpen.DeleteIsOwn` | syncutil/singleflight/singleflight.go:58-61 | what is deleted from the group is the deleter's own call |
| `SharedOpen.DuplicatesShareTheResult` | syncutil/singleflight/singleflight.go:46-49 | who waits gets the result of exactly the call that was joined |
| `SharedOpen.ResultsAreFinal` | syncutil/singleflight/singleflight.go:55-57 | the result of a call does not change any more |
| `SharedOpen.RetryNeverRejoins` | readerutil/singlereader/opener.go:107-113 | a retry after the count was found to be zero can never join the call again that produced the closed file |
| `SharedOpen.NobodyIsStuck` | syncutil/singleflight/singleflight.go:46-61 | whoever waits, waits for a goroutine that can act |
| `SharedOpen.ActionKeepsInv` | readerutil/singlereader/opener.go:47-118 | every step of every goroutine keeps the invariant of both protocols together |
| `SharedOpen.RunKeepsInv` | readerutil/singlereader/opener.go:47-118 | so does every interleaving of any number of goroutines |
| `SharedOneFile.OneFilePerPath` | readerutil/singlereader/opener.go:69-99 | in every run in which nobody starts to open a path while it is in openFiles there is at most one file of the path in use, and openFiles has it from when it was inserted for as long as it is in use |
| `SharedOneFile.ActionKeepsSingle` | readerutil/singlereader/opener.go:47-118 | every step keeps this, the last Close and the insertion included |
| `SharedOneFile.TwoFilesIff` | readerutil/singlereader/opener.go:79-99 | a goroutine that is about to start opening a path can alone lead to two files of it in use exactly if there is one in use already |
| `SharedOneFile.TwoFilesIffInTable` | readerutil/singlereader/opener.go:72-99 | if nobody has started to open the path while it was in openFiles before, that is so exactly if it is in openFiles now, which the function that is passed to Do could check |
| `SharedOneFile.TwoDescriptorsForOnePath` | readerutil/singlereader/opener.go:69-80 | a run after which one path has two open files, both in use |
| `SharedOneFile.UsedFileDropsOut` | readerutil/singlereader/opener.go:57-60 | closing one of them takes the other one, which is in use, out of openFiles, so that it is missed by who looks for it |
| `SharedOneFile.SecondFileUnseen` | readerutil/singlereader/opener.go:72-99 | then a second file is made although the path is not in openFiles |
| `SharedOneFile.StaysInTable` | readerutil/singlereader/opener.go:57-60 | a step takes a file that stays in use out of openFiles exactly if it inserts another file for the path or closes the last handle of another file of the path |
| `SharedOpener.Shared.CallsOpen` | readerutil/singlereader/opener.go:71 | a goroutine that did nothing before looks for a path |
| `SharedOpener.Shared.LookUp` | readerutil/singlereader/opener.go:72-80 | one more reference to an open file, or a miss |
| `SharedOpener.Shared.EnterGroup` | syncutil/singleflight/singleflight.go:42-54 | joins the call for the key or makes a new one |
| `SharedOpener.Shared.MakeCall` | syncutil/singleflight/singleflight.go:51-54 | a call without a result for the key |
| `SharedOpener.Shared.OpenFile` | readerutil/singlereader/opener.go:86-96 | the function of the call: an error, or a file with one reference |
| `SharedOpener.Shared.InsertFile` | readerutil/singlereader/opener.go:97-99 | the new file replaces what openFiles had for the path |
| `SharedOpener.Shared.FinishCall` | syncutil/singleflight/singleflight.go:56-57 | the result is stored and whoever waits can go on |
| `SharedOpener.Shared.DeleteCall` | syncutil/singleflight/singleflight.go:59-63 | the key is free again |
| `SharedOpener.Shared.Wait` | syncutil/singleflight/singleflight.go:46-49 | the result of the joined call |
| `SharedOpener.Shared.JoinFile` | readerutil/singlereader/opener.go:105-116 | one more reference, or a retry if there is none left |
| `SharedOpener.Shared.NewHandle` | readerutil/singlereader/opener.go:117 | a handle that is not closed |
| `SharedOpener.Shared.CloseHandle` | readerutil/singlereader/opener.go:47-62 | a handle is closed once only; the count is never negative; the last one takes the path out of openFiles |
| `SharedOpener.Shared.DropReference` | readerutil/singlereader/opener.go:53-57 | the handle is marked and its file counts one less |
| `SharedOpener.Shared.CloseUnderlying` | readerutil/singlereader/opener.go:63-67 | the underlying file is closed for the first time |
| `Zip.PaddedReader` | ziputil/ziputil.go:111-119 | reads as the known end of the file behind zeros, an empty end included |
| `Zip.FindSignatureInBlock` | ziputil/ziputil.go:583-599 | the last signature of the block, unless its comment is cut off |
| `Zip.DirectoryEnd.ReadShort` | ziputil/ziputil.go:214-229 | the fields of the end record, if its comment fits |
| `Zip.FindDirectory64End` | ziputil/ziputil.go:533-557 | where a valid locator before the end record points, or a negative number |
| `Zip.DirectoryEnd.ReadDirectory64End` | ziputil/ziputil.go:559-581 | the long record overwrites the short one, or an error |
| `Zip.ReadDirectoryHeader` | ziputil/ziputil.go:359-531 | one header with its wide fields, or which kind of error |
| `Zip.ParseExtras` | ziputil/ziputil.go:424-459 | the extra fields one by one, up to one that does not fit; a zip64 field that is too short is an error |
| `Zip.UpdateWide` | ziputil/ziputil.go:434-457 | only fields at their limit are replaced, in order, and only by the first zip64 field |
| `Zip.ReadShortEnd` | ziputil/ziputil.go:193-229 | the end record in the last 1 KiB or else in the last 65 KiB |
| `Zip.ReadLongEnd` | ziputil/ziputil.go:231-241 | the long record if the short one hints at it and it is located, or an error if that is none |
| `Zip.FindBase` | ziputil/ziputil.go:243-266 | the offset of the archive, checked and overridden |
| `Zip.ReadDirectoryEnd` | ziputil/ziputil.go:192-269 | the record that counts and the offset of the archive, the override to zero included, or an error |
| `Zip.ReadHeaders` | ziputil/ziputil.go:169-182 | all headers up to one that is none; an end of the input between headers is an error |
| `Zip.ZipTOCSize` | ziputil/ziputil.go:94-132 | what the specification says for the footer behind zeros |
| `Zip.ParseTOC` | ziputil/ziputil.go:148-190 | what the specification says for the known end behind zeros |
| `ZipWritten.ReadWritten` | ziputil/ziputil.go:359-531 | a header written field by field, the least significant byte first, is read as these fields, with sizes and offset of 64 bits from the zip64 field where the narrow ones are at their limits, whatever other extra fields there are |
| `ZipWritten.ExtrasWritten` | ziputil/ziputil.go:424-459 | of extra fields that were written only the first zip64 field counts, and too short a rest is ignored |
| `ZipWritten.ValuesWritten` | ziputil/ziputil.go:434-457 | values written for the fields at their limits, in this order, are read back |
| `ZipWritten.ValuesMissing` | ziputil/ziputil.go:434-457 | without a value that is needed the header is wrong, except for a missing uncompressed size alone |
| `ZipWritten.HeaderCut` | ziputil/ziputil.go:362-395 | a header that is cut off is an unexpected end, except right before it and behind its fixed part |
| `ZipWritten.NoHeader` | ziputil/ziputil.go:362-370 | other bytes in front are no header |
| `Bytes.LE64IsLittleEndian` | ziputil/ziputil.go:601-631 | eight bytes are the number with these digits in base 256, the least significant first, as those of 4 and 2 bytes are |
| `ZipArchive.FindEndIs` | ziputil/ziputil.go:192-212 | the end record that is found is at the last signature, if that is in the last 65 KiB and its comment is not cut off |
| `ZipArchive.EndRead` | ziputil/ziputil.go:214-229 | an end record written field by field is read as these fields |
| `ZipArchive.LocatorIs` | ziputil/ziputil.go:533-557 | exactly these 20 bytes in front of the end record lead to the long record |
| `ZipArchive.LocatorsAre` | ziputil/ziputil.go:533-557 | nothing else leads anywhere |
| `ZipArchive.LongRead` | ziputil/ziputil.go:559-581 | a long record written field by field is read as these fields, with the comment of the short one |
| `ZipArchive.LongMissing` | ziputil/ziputil.go:559-581 | it is missing exactly if it does not fit or has other bytes in front |
| `ZipArchive.LongOrShort` | ziputil/ziputil.go:231-241 | with a locator and a long record, that one counts exactly if the bytes of one of three fields of the short one are at their limit: records 255 255, size 255 255 0 0, or offset four times 255 |
| `ZipArchive.OnlyShort` | ziputil/ziputil.go:231-241 | the short record counts if none is or no locator is there |
| `ZipArchive.NoLongRecord` | ziputil/ziputil.go:231-241 | a locator that leads to something else is an error exactly if one of the fields is at its limit |
| `ZipToc.HeadersRead` | ziputil/ziputil.go:169-182 | all headers that were written are returned in order, with their offsets plus the offset of the archive |
| `ZipToc.TocIs` | ziputil/ziputil.go:94-190 | the directory begins as many bytes before the record that counts as its size says; its headers are read back, shifted by how far that is from the offset in the record, if their number agrees modulo 2^16; everything from there on is needed to read it |
| `ZipToc.TocOverridden` | ziputil/ziputil.go:255-266 | with a header where the record says the directory is, that place counts and nothing is shifted |
| `ZipToc.NoDirectory` | ziputil/ziputil.go:243-253 | a directory that would begin before the file or behind its end is not read |
| `ZipToc.ArchiveRead` | ziputil/ziputil.go:148-190 | headers and an end record behind any bytes have the table of contents that was written |
| `ZipToc.Archive64Read` | ziputil/ziputil.go:148-190 | so do headers, a long record, its locator and an end record with one of the fields at its limit |
| `ZipToc.PrefixShifts` | ziputil/ziputil.go:148-190 | bytes in front of a file shift the offset of the archive and of each header and change nothing else, if neither file has an overriding header; the size that is returned stays the same |
| `ZipSuffix.FindEndMasked` | ziputil/ziputil.go:192-212 | with zeros in front the same end record is found exactly if it is not hidden, in both blocks that are searched |
| `ZipSuffix.Locate64Masked` | ziputil/ziputil.go:536-557 | zeros never make a locator appear, and one that is partly hidden is not seen |
| `ZipSuffix.StartsAtZeroMasked` | ziputil/ziputil.go:255-266 | the header that overrides the base offset is seen exactly if it is not hidden |
| `ZipSuffix.NothingWraps` | ziputil/ziputil.go:243-253 | whatever passes the check of the offset was computed without wrap-around, although 64-bit arithmetic may wrap in between |
| `ZipSuffix.RecordMasked` | ziputil/ziputil.go:192-241 | which record is used behind any number of zeros: none if the end record is hidden, the short one if the locator is, none if only the long one is, and else that of the whole file |
| `ZipSuffix.TocSizeMasked` | ziputil/ziputil.go:94-132 | the size that is returned, for every file and every number of its first bytes replaced by zeros |
| `ZipSuffix.ParseTocMasked` | ziputil/ziputil.go:148-190 | the table of contents that is returned, for every file and every number of its first bytes replaced by zeros |
| `ZipSuffix.StartIs` | ziputil/ziputil.go:248-266 | a directory that is found begins in the file, and not behind its record |
| `ZipSuffix.SuffixSuffices` | ziputil/ziputil.go:94-190 | parsing the last t bytes, for t at least the size that is returned for the whole file, gives the headers, base offset and comment, or the error, of the whole file, if the locator of a used zip64 record is among them |
| `ZipSuffix.RecordBeforeLocator` | ziputil/ziputil.go:533-557 | that is so if the zip64 record is before its locator |
| `ZipSuffix.HiddenLocator` | ziputil/ziputil.go:533-557 | and otherwise nothing is found if the end record is hidden, or the short record is used; the results agree exactly if the whole file gives an error too, or the short record says the same |
| `ZipSuffix.SizeFromFooter` | ziputil/ziputil.go:94-132 | a footer gives the size of the whole file exactly if it has the end record, and either hides the locator of a used zip64 record and the short record happens to say the same, or has the zip64 record and any header that overrides the base offset |
| `ZipSuffix.SizeFromEnd` | ziputil/ziputil.go:94-132 | if it can be seen in the footer that no record is missing, only that header can be, and exactly then too little is asked for |
| `ZipSuffix.TwoRequests` | ziputil/ziputil.go:94-110 | with such a footer, reading what it asks for gives the table of contents of the whole file |
| `ZipExamples.FooterTooSmall` | ziputil/ziputil.go:94-132 | a file of 69 bytes for which a footer of 22 bytes asks for one byte too little, as it hides an overriding header |
| `ZipExamples.LocatorHidden` | ziputil/ziputil.go:94-190 | a file of 190 bytes with two headers for which a footer of 22 bytes asks for 114 bytes, with which parsing fails, as it hides a locator |
| `ZipExamples.RecordBehindLocator` | ziputil/ziputil.go:94-190 | a file of 98 bytes with the zip64 record behind its locator, for which parsing what is asked for fails |
| `MultiReaderAt.MultiRA.constructor` | readerutil/multireaderat.go:24-37 | the parts' offsets are the sums of the sizes before |
| `MultiReaderAt.MultiRA.SkipParts` | readerutil/multireaderat.go:54-61 | binary search finds the first part that ends behind the offset |
| `MultiReaderAt.MultiRA.ReadAt` | readerutil/multireaderat.go:51-91 | the buffer gets the slice of the concatenation, up to the end or to an empty part that refuses to be read, and nothing else of it changes; an error exactly if it could not be filled |
| `MultiReaderAt.MultiRA.NoLimit` | readerutil/multireaderat.go:51-91 | if no empty part between others refuses, everything up to the total size can be read |
| `MultiReaderAt.ZerosServe` | readerutil/multireaderat.go:93-108 | zeros of any size satisfy all reads |
| `RollSum.RollSum.constructor` | rollsum/rollsum.go:40-45 | the sums of a window of zeros |
| `RollSum.RollSum.Add` | rollsum/rollsum.go:47-51 | in arithmetic modulo 2^32 |
| `RollSum.RollSum.Roll` | rollsum/rollsum.go:53-59 | the ring holds the last 64 bytes, and both sums are the closed forms over them |
| `RollSum.NextState` | rollsum/rollsum.go:47-51 | one step of the wrapping update is one step of the closed forms |
| `RollSum.Bounds` | rollsum/rollsum.go:28-32 | s1 is at most 64 * 286 and s2 never wraps |
| `RollSum.WindowForgets` | rollsum/rollsum.go:53-59 | nothing before the last 64 bytes matters |
| `RollSum.SplitsAreLocal` | rollsum/rollsum.go:61-81 | so sums, splits and digest are the same after any two histories that end with the same 64 bytes |
| `RollSum.RollSum.OnSplit` | rollsum/rollsum.go:61-65 | at least 13 low bits of s2 are set, the same as OnSplitWithBits of 13 |
| `RollSum.RollSum.OnSplitWithBits` | rollsum/rollsum.go:67-72 | at least n low bits of s2 are set, or all 32 for larger n |
| `RollSum.NoSplits` | rollsum/rollsum.go:67-72 | never so for 20 bits and more |
| `RollSum.DigestShowsSplits` | rollsum/rollsum.go:61-81 | up to 16 bits, those of s2 are those of the checksum that the documentation speaks of |
| `RollSum.DigestTells` | rollsum/rollsum.go:67-81 | for all windows the two have at least n set low bits together exactly for n up to 16, and from 31 on, where neither has |
| `RollSum.DigestAhead` | rollsum/rollsum.go:67-81 | a window with 16 set low bits in s2 and 30 in the checksum |
| `RollSum.DigestBehind` | rollsum/rollsum.go:67-81 | a window with 19 set low bits in s2 and 16 in the checksum |
| `RollSum.RollSum.Digest` | rollsum/rollsum.go:79-81 | the digest of the window, without loss of bits of s1 |
| `RollSum.RollSum.Bits` | rollsum/rollsum.go:74-77 | 13 plus the number of set low bits of the digest from bit 14 on, between 13 and 29 |
| `RollSum.BitsAre` | rollsum/rollsum.go:74-77 | they are at least 13 + k exactly if all bits of the digest from bit 14 to bit 13 + k are set |
| `RollSum.OnesAreBits` | rollsum/rollsum.go:61-72 | n low bits are set exactly if each of them is |
| `PrefixSuffixSaver.PrefixSuffixSaver.Write` | writerutil/writerutil.go:43-65 | prefix, ring and count of skipped bytes are right after any sequence of writes |
| `PrefixSuffixSaver.PrefixSuffixSaver.WritePrefix` | writerutil/writerutil.go:44-45 | the prefix is filled, and what is returned is what does not belong to it |
| `PrefixSuffixSaver.PrefixSuffixSaver.Circle` | writerutil/writerutil.go:54-63 | the ring loop keeps the last N bytes, in at most two rounds |
| `PrefixSuffixSaver.PrefixSuffixSaver.Fill` | writerutil/writerutil.go:67-76 | as much as fits is appended and the rest returned |
| `PrefixSuffixSaver.PrefixSuffixSaver.Kept` | writerutil/writerutil.go:28-41 | the prefix is the first N bytes, the unrotated suffix the last N of the rest, and skipped what is beyond 2N; up to 2N bytes nothing is lost |
| `PrefixSuffixSaver.PrefixSuffixSaver.Bytes` | writerutil/writerutil.go:78-98 | the whole input if it is at most 2N bytes, else both ends and how much is between them; nothing at all for N = 0 |
| `PrefixSuffixSaver.OmittedIsCounted` | writerutil/writerutil.go:78-98 | of three parts, of which the outer ones have N bytes, the middle one is replaced by a note with its length, in these characters |
| `PrefixSuffixSaver.DecimalMeans` | writerutil/writerutil.go:93 | the digits of the number of skipped bytes parse to that number, and have no zero in front |
| `PrefixSuffixSaver.Overwrite` | writerutil/writerutil.go:55-58 | overwriting the oldest bytes of the ring is dropping them and appending |
| `ParseUint.ParseUintBytes` | strutil/strconv.go:24-109 | for all inputs, bases and sizes: value or error, without an overflow going unnoticed |
| `ParseUint.ScanDigits` | strutil/strconv.go:62-104 | digits up to the first byte that is none; too large a number is noticed before that byte |
| `ParseUint.ExactOrRange` | strutil/strconv.go:62-104 | digits parse to their exact value if that is below 2^bitSize, and else give the range error |
| `ParseUint.OnlyDigits` | strutil/strconv.go:62-109 | there is no error exactly for digits with a value below 2^bitSize |
| `ParseUint.BadByte` | strutil/strconv.go:67-104 | a byte that is no digit is a syntax error, unless the digits before it are out of range already |
| `ParseUint.BaseFromPrefix` | strutil/strconv.go:27-58 | base 0 is 16 behind 0x or 0X, 8 behind 0 and else 10; other bases outside 2 to 36 are errors |
| `ParseUint.DigitIs` | strutil/strconv.go:67-84 | the digits are the characters 0 to 9, a to z and A to Z, and each means its place |
| `ParseUint.WrittenIsRead` | strutil/strconv.go:62-104 | every number, written in any base in either case, with any number of leading zeros, is parsed to itself exactly if it is below 2^bitSize |
| `ParseUint.Cutoff64` | strutil/strconv.go:111-117 | n times base fits into 64 bits exactly for n below the cutoff |

## Left out

- Sorting through a pair of functions (`sort/zfuncversion.go`) is a generated copy of the same algorithms.
- Overflow of indexes: lengths above 2^61 would make `2*root+1` overflow; indexes are unbounded here, and so is the count of skipped bytes of the saver.
- `IsSorted`, `Reverse`, `Search` on its own and the slice types of the sort package are easy.
- Input and output: files and readers are byte sequences; a read that lies inside a file succeeds in full, and other errors of readers are not modelled, nor is a limit on the buffer for peeking, which is larger than all that is peeked at.
- Aliasing of slices: keys, values and bodies of boxes are values; the replacement buffer, the ring of the checksum and the array that is sorted are real arrays.
- BmffParser.Parse: the types data, dinf, dref, ilst, iref, keys and mvhd count as unknown here, because their parsers have the shape of others that are modelled. Directly inside meta, a malformed box of these types is rejected by the code and skipped by the model.
- BmffParser.ParseItemInfoBox: inside iinf, a box of these types is dropped by the code if it is well-formed, and makes the model fail, as boxes of unknown types make both.
- Heif.ReadBoxMeta: skips the children of these types, and does not keep item references.
- Heif.File.ItemByID: properties are kept as boxes and parsed when they are looked at; the cached result of a parse is the same value. The documentation of `Box.Parse` says that a second call returns nil; the code returns the first result.
- Heif.File.GetMeta: what the parsers of the two first boxes leave buffered is not modelled, as no further box is read.
- Minor fields of full boxes, EXIF data and thumbnails.
- Zip.ReadDirectoryHeader: timestamps, which are computed from fields that are kept, and whether names are UTF-8; neither decides about success.
- Zip.ParseTOC: which error is returned; there is only one kind here.
- Decompression, checksums of files in archives and `OpenWithReader`.
- MultiReaderAt.MultiRA.ReadAt: negative offsets, and parts that return less than was asked for without an error.
- SharedOpen.RunKeepsInv: a panic inside the function that is passed to `Group.Do`; opening a file is a free choice between success and error.
- ParseUint.ParseUintBytes: the text of errors, and the wrapper with the name of the function.
