# dat-shape bundle decoding, modelled in Dafny

This project models the part of dat-shape that reads Path of Exile bundle
archives, and proves properties of that model. There are three layers,
plus the `.dat64` summary the console tool builds:

- **Compressed containers** (`CompressedBundle`). A header holds:
  - `<III` then `<IIQQII`;
  - 16 reserved bytes;
  - `block_count` u32 block sizes.

  `decompress_all` seeks to the data start. It decompresses every block
  with the size it expects and concatenates the results in block order.
- **The bundle index** (`BundleIndex`). A strictly sequential little-endian
  reader over the decompressed index payload. It reads, in order:
  - the bundle records (`u32 len, name, u32`);
  - the 20-byte `<QIII` file records;
  - the 20-byte `<QIII` path records;
  - the untouched remainder, `path_comp`.
- **The path table** (`generate_path_hash_table` and
  `enumerate_path_table`). A state machine run over each path record's
  region of the decompressed `path_comp` container:
  - u32 command words;
  - a `base_phase` toggle;
  - a list of `bases` for prefix sharing;
  - NUL-terminated fragments cut by `_cut_ntmbs`.
- **`DatInfo` and `dat64_filter`**.
  - `DatInfo` takes the row count from bytes 0–4, finds the first
    eight-byte `0xBB` marker, and derives the fixed and variable sizes and
    the row width by floor division.
  - `dat64_filter` keeps paths that end in `.dat64` and hold exactly one
    `/`.

The code works by changing state step by step in these places:
- the stream reader (`io.BytesIO`);
- the header reader and the block loop;
- the record loops of `BundleIndex.__init__`;
- the `while` loop over each region of the path table, which both path
  decoders run.

Each of those becomes a Dafny `class` or a `method` with loop invariants.
Each method is proved equal to a specification function
(`ReadfAt`, `ParseHeader`, `DecompressBlocks`, `DecodePayload`,
`PathHashTable`, `EnumeratedPaths`). The properties are then proved as
lemmas about those functions. `readf`, `_cut_ntmbs`, `bin_path`,
`DatInfo` and `dat64_filter` are pure, and are modelled as functions.

The modules, one or two per layer:
- `Wrappers`: `Option`, `Result` and the three Python exceptions that can
  surface (`struct.error`, a decompressor failure, `ValueError`).
- `Wire`: little-endian integers, `struct.unpack`/`pack`, and `ByteStream`
  (the `io.BytesIO` model, with reads clipped at the end of the data).
- `Records`: the record types, `readf` and `bin_path`.
- `Container` and `ContainerProperties`: the compressed container.
- `Index` and `IndexProperties`: the bundle index.
- `PathTable` and `PathTableProperties`: the path table.
- `Console`: `DatInfo` and `dat64_filter`.

Foreign calls are parameters; nothing is assumed about them beyond what a
lemma states in its `requires`:
- `ooz.decompress` is a `Decompressor`: a function from a compressed block
  and the requested size to `Some(bytes)`, or `None` when it raises. The
  length lemma requires `ExactLength`: an accepted block decompresses to
  exactly the requested size.
- `poe_util.hash_file_path` is a `Hasher`: any function from a path to a
  u64.
- The `filter` argument is an optional `PathFilter`.

How the code handles malformed input, which the model keeps:
- File records and path records are both 20 bytes (`<QIII`,
  `dat_shape/bundles.py:36,43`).
- The code raises no error of its own for truncated or malformed data:
  - A short read surfaces as a `struct.error` in the next `readf` or
    `struct.unpack`.
  - A bundle name read short is not detected by itself; the size word
    after it then fails.
  - A fragment without a terminator raises `ValueError` in `_cut_ntmbs`.
- A short compressed block is passed to the decompressor as it is.
- A short block-size array whose length is a multiple of four silently
  gives fewer block sizes.
- A failing region is not skipped. The exception leaves
  `generate_path_hash_table` with nothing. `enumerate_path_table` has
  already yielded the earlier pairs, and stops there.

## Model

| member | source | states |
|---|---|---|
| Wire.DecodeEncode | dat_shape/bundles.py:49 | reading back the `n`-byte little-endian encoding of a value below 256^n gives the value |
| Wire.EncodeDecode | dat_shape/bundles.py:49 | re-encoding the little-endian value of any byte string gives the same bytes |
| Wire.Unpack | dat_shape/bundles.py:49 | `struct.unpack` succeeds exactly when the buffer has the format's size, fails only with `struct.error`, returns values that fit their fields, and reads the first field little-endian from its own bytes |
| Wire.UnpackPack | dat_shape/bundles.py:49 | unpacking the packing of values that fit the format gives the values back |
| Wire.PackUnpack | dat_shape/bundles.py:49 | packing what unpacking returned gives the original bytes |
| Wire.Window | dat_shape/bundles.py:49 | `read(n)` returns at most `n` bytes, exactly `n` when the stream holds them, and then exactly the bytes at the position |
| Wire.NextPos | dat_shape/bundles.py:49 | after a read the position moves by the bytes read, clipped at the end; a read at or past the end does not move it |
| Wire.ByteStream.Read | dat_shape/bundles.py:49 | `read(n)` returns the clipped window at the position and advances the position past it |
| Wire.ByteStream.ReadRest | dat_shape/bundles.py:46 | `read()` returns everything from the position on, or nothing past the end, and moves to the end |
| Wire.ByteStream.Seek | dat_shape/bundles.py:95 | `seek(p)` sets the position, also past the end |
| Wire.ByteStream.Skip | dat_shape/bundles.py:88 | `seek(16, 1)` moves the position forward by the offset |
| Wire.ReadfAt | dat_shape/bundles.py:48-49 | `readf` succeeds exactly when the format's size fits before the end, fails only with `struct.error`, and returns values that fit the format |
| Wire.ReadfAtPacked | dat_shape/bundles.py:48-49 | a successful `readf` consumed exactly the packing of the values it returned |
| Wire.ReadfOfSlice | dat_shape/bundles.py:48-49 | `readf` over bytes that are the packing of some values returns those values |
| Records.Readf | dat_shape/bundles.py:48-49 | the stream method returns what `ReadfAt` says, and leaves the stream where `read(calcsize(fmt))` leaves it |
| Records.BinPath | dat_shape/bundles.py:61-62 | for a name whose inner components are neither empty nor `.`, `PurePosixPath` leaves the path unchanged: `Bundles2/`, then the name, then `.bundle.bin`, and the name can be read back from it |
| Records.BinPathInjective | dat_shape/bundles.py:61-62 | two such names with the same path are the same name |
| Records.BinPathCollapses | dat_shape/bundles.py:62 | `PurePosixPath` merges a doubled slash and drops a `.` component: `x//y` and `x/./y` give the path of `x/y` |
| Records.JoinSplit | dat_shape/bundles.py:62 | joining the slash-separated pieces of a path with single slashes gives the path back |
| Records.SplitJoin | dat_shape/bundles.py:62 | splitting slash-free pieces joined by slashes gives the pieces back |
| Records.PosixPathIdempotent | dat_shape/bundles.py:62 | the normalised path of a relative path is non-empty and relative, and normalising it again leaves it unchanged |
| Container.Words | dat_shape/bundles.py:89-90 | `iter_unpack('<I', raw)` gives one word per four bytes, word `i` the little-endian value of bytes `4i..4i+4` |
| Container.WordsOfEncodeWords | dat_shape/bundles.py:89-90 | reading back written block sizes gives the same sizes |
| Container.ParseHeader | dat_shape/bundles.py:82-91 | the header reader fails only with `struct.error` (its layout is stated by the lemmas below) |
| Container.CompressedBundle.Open | dat_shape/bundles.py:82-91 | the constructor succeeds exactly when `ParseHeader` does, and keeps the header it describes, on the same stream |
| Container.CompressedBundle.ReadBlock | dat_shape/bundles.py:101 | `fh.read(bsize)` for block `i` returns the block's window and leaves the stream past it |
| Container.CompressedBundle.DecompressAll | dat_shape/bundles.py:93-102 | the block loop returns `DecompressBlocks` of the bytes and the header, wherever the stream stood before |
| Container.DecompressAllTwice | dat_shape/bundles.py:93-102 | two calls of `decompress_all` on one container return the same result |
| Container.DecompressStep | dat_shape/bundles.py:96-101 | one more block decompressed moves the loop's result forward by that block, or ends it with the decompressor's failure |
| Container.DecompressBytes | dat_shape/bundles.py:19-20 | `CompressedBundle(BytesIO(data)).decompress_all()` returns `ContainerPayload(data)` |
| ContainerProperties.HeaderLayout | dat_shape/bundles.py:84-91 | the header takes 12 + 32 + 16 bytes. The data start is 60 plus four bytes per block size read. At most `block_count` sizes are read, and exactly `block_count` when the count is zero or the stream holds them all |
| ContainerProperties.BlockSizesAt | dat_shape/bundles.py:89-91 | the block sizes are the u32 words between byte 60 of the header and the data start |
| ContainerProperties.EncodedPrologue | dat_shape/bundles.py:84-85 | a written header's `<III` part reads back its uncompressed and total payload sizes |
| ContainerProperties.EncodedGeometry | dat_shape/bundles.py:86-87 | a written header's `<IIQQII` part reads back its block count and granularity |
| ContainerProperties.EncodedSizes | dat_shape/bundles.py:88-90 | after the 16 skipped bytes a written header's block-size array is read back whole |
| ContainerProperties.HeaderRoundTrip | dat_shape/bundles.py:82-91 | parsing a written header gives back its sizes, granularity and block sizes, with the data start just past it |
| ContainerProperties.DecompressFromShape | dat_shape/bundles.py:96-102 | decompressing from block `i` succeeds iff every later block decompresses, and then returns their outputs concatenated in order; its only failure is the decompressor's |
| ContainerProperties.DecompressInBlockOrder | dat_shape/bundles.py:96-102 | `decompress_all` succeeds iff the decompressor accepts every block, and returns the outputs concatenated in block order |
| ContainerProperties.BlockLocation | dat_shape/bundles.py:95-101 | block `i` is read from `data_start + Σ sizes[0..i)` up to that plus `sizes[i]` |
| ContainerProperties.DecompressedLength | dat_shape/bundles.py:96-102 | when the decompressor returns the requested size, every block but the last gives `granularity` bytes and the last gives `uncompressed_size - (n-1)*granularity`. The output is `uncompressed_size` bytes long, or empty when there are no blocks |
| ContainerProperties.BuiltBlocks | dat_shape/bundles.py:95-101 | in a written container, block `i` reads back exactly the `i`-th written block |
| ContainerProperties.BuiltOutputs | dat_shape/bundles.py:96-101 | each block of a written container decompresses to its original |
| ContainerProperties.ContainerRoundTrip | dat_shape/bundles.py:82-102 | writing a container from blocks and decompressing it gives the originals concatenated in order |
| Index.ReadTuplesFit | dat_shape/bundles.py:34-36 | every tuple the record loop reads fits `<QIII` |
| Index.RecordSection | dat_shape/bundles.py:33-36 | a count word and that many records: every record read fits `<QIII` |
| Index.FilesOf | dat_shape/bundles.py:37-38 | one `FileRecord` per tuple read |
| Index.PathRepsOf | dat_shape/bundles.py:44-45 | one `PathRep` per tuple read |
| Index.ReadBundle | dat_shape/bundles.py:25-30 | one bundle record is read as `BundleAt` says, or fails as it says |
| Index.ReadBundleRecords | dat_shape/bundles.py:24-30 | the bundle loop reads `count` records in order, as `ReadBundles` says, or fails where it says |
| Index.ReadBundleList | dat_shape/bundles.py:23-30 | the count word and the bundle records, as `BundleSection` says |
| Index.ReadRecordTuples | dat_shape/bundles.py:34-36 | the 20-byte record loop, as `ReadTuples` says |
| Index.ReadFileList | dat_shape/bundles.py:33-38 | the file count and the file records, as `RecordSection` says |
| Index.ReadPathRepList | dat_shape/bundles.py:41-45 | the path-record count and the path records, as `RecordSection` says |
| Index.ParsePayload | dat_shape/bundles.py:20-46 | `BundleIndex.__init__` after decompression returns `DecodePayload` of the payload |
| Index.Load | dat_shape/bundles.py:16-46 | `BundleIndex(index_data)` returns `LoadIndex`: decompress the container, then decode the payload |
| IndexProperties.WordValue | dat_shape/bundles.py:23 | a successful `<I` read is the little-endian word at the position |
| IndexProperties.BundleRecordSize | dat_shape/bundles.py:25-30 | a bundle record consumes `8 + name_len` bytes. The length word is the name's length, the name is the bytes after it, and `uncompressed_size` is the little-endian word after the name |
| IndexProperties.ReadBundlesSize | dat_shape/bundles.py:24-30 | `count` bundle records are `count` records and take `8*count` bytes plus their names |
| IndexProperties.RecordTuplesSize | dat_shape/bundles.py:34-36 | `count` file or path records are `count` tuples and take exactly `20*count` bytes |
| IndexProperties.BundleSectionSize | dat_shape/bundles.py:23-30 | the bundle list has as many records as its count word says and ends where its length says |
| IndexProperties.RecordSectionSize | dat_shape/bundles.py:41-45 | a file or path list has as many records as its count word says and ends `4 + 20*count` bytes on |
| IndexProperties.SectionsLayout | dat_shape/bundles.py:23-46 | the three lists follow one another, each as long as its count word says, and ending within the payload |
| IndexProperties.PayloadLayout | dat_shape/bundles.py:23-46 | in a decoded index each list's length is the count word read before it, and `path_comp` is exactly the unread suffix |
| IndexProperties.BundleAtEncoded | dat_shape/bundles.py:25-30 | a written bundle record reads back as itself, ending just past it |
| IndexProperties.BundlesAtEncoded | dat_shape/bundles.py:24-30 | written bundle records read back as themselves, in order |
| IndexProperties.TuplesAtEncoded | dat_shape/bundles.py:34-36 | written 20-byte records read back as themselves, in order |
| IndexProperties.BundleSectionEncoded | dat_shape/bundles.py:23-30 | a written bundle list reads back whole |
| IndexProperties.RecordSectionEncoded | dat_shape/bundles.py:33-45 | a written file or path list reads back whole |
| IndexProperties.PayloadRoundTrip | dat_shape/bundles.py:22-46 | serialising an index and parsing the payload gives the same bundles, files, path records and `path_comp` back |
| IndexProperties.LoadRoundTrip | dat_shape/bundles.py:16-46 | `BundleIndex` over a container whose payload is a serialised index returns that index |
| PathTable.CutNtmbs | dat_shape/bundles.py:104-108 | `_cut_ntmbs(s)` fails with `ValueError` exactly when `s` holds no zero byte; otherwise it returns `(p, r)` with no zero in `p` and `s == p + [0] + r` |
| PathTable.Command | dat_shape/bundles.py:122 | `struct.unpack('<I', slice[:4])` succeeds exactly when four bytes remain, and is their little-endian value |
| PathTable.DecodeStep | dat_shape/bundles.py:121-123 | a command succeeds only with at least four bytes left and consumes at least those four, so the loop over a region ends |
| PathTable.DecodeCommand | dat_shape/bundles.py:122-144 | one pass of the loop body: the command read, the phase toggled or a fragment cut and extended, added to the bases or emitted, as `DecodeStep` says |
| PathTable.DecodeRegion | dat_shape/bundles.py:118-144 | the `while len(slice)` loop over one region, from `base_phase = False` and no bases, returns the paths `RegionTrace` emits, in order, and the exception that ended it |
| PathTable.InsertPaths | dat_shape/bundles.py:144 | inserting a region's paths one by one extends the table to `HashTable` of all paths so far |
| PathTable.YieldPaths | dat_shape/bundles.py:175-177 | yielding a region's accepted paths one by one extends the output to `Yields` of all paths so far |
| PathTable.GeneratePathHashTable | dat_shape/bundles.py:111-146 | the method returns `PathHashTable`: decompress `path_comp`, decode every region in order, insert each path under its hash; any exception is the result |
| PathTable.EnumeratePathTable | dat_shape/bundles.py:148-177 | running the generator to its end gives the pairs `EnumeratedPaths` lists and the exception that ended it, if any |
| PathTableProperties.CutAtFirstNul | dat_shape/bundles.py:104-108 | the split is at the first zero byte |
| PathTableProperties.CutWritten | dat_shape/bundles.py:104-108 | a NUL-free fragment written with its terminator is cut back out, leaving the bytes after it |
| PathTableProperties.CommandWord | dat_shape/bundles.py:122-123 | a written command word reads back, and the cursor moves past its four bytes |
| PathTableProperties.ToggleStep | dat_shape/bundles.py:126-130 | command 0 flips `base_phase`, clears `bases` only on entering the base phase, and consumes no string |
| PathTableProperties.NameStep | dat_shape/bundles.py:133-144 | a non-zero command consumes exactly one NUL-terminated fragment. The string is `bases[cmd-1] + s` when `cmd <= len(bases)`, else `s`. In the base phase it becomes one more base; otherwise it is emitted and the state is unchanged |
| PathTableProperties.ShortCommand | dat_shape/bundles.py:121-122 | a region that ends inside a command word fails with `struct.error` |
| PathTableProperties.MissingTerminator | dat_shape/bundles.py:133 | a non-zero command without a terminated fragment fails with `ValueError` |
| PathTableProperties.InstrStep | dat_shape/bundles.py:122-144 | one written instruction decodes as that instruction |
| PathTableProperties.RegionOfInstrs | dat_shape/bundles.py:121-144 | decoding a written instruction list emits exactly the paths the instruction-level reading `Run` gives, with no failure |
| PathTableProperties.RunExample | dat_shape/bundles.py:118-144 | for `[0, 1, abc, 1, def, 0, 1, xyz]` the reading builds the bases `abc`, `abc+def` and emits only `abc+xyz` |
| PathTableProperties.BasesExample | dat_shape/bundles.py:118-144 | the bytes of `[0, 1, abc, 1, def, 0, 1, xyz]` decode from a fresh state to the one path `abc+xyz`, for any NUL-free fragments, so "abc", "def", "xyz" give only "abcxyz" |
| PathTableProperties.TableOfRegions | dat_shape/bundles.py:117-121 | when no region fails, the paths are those of the regions in path-record order, each decoded from `base_phase = False, bases = []` |
| PathTableProperties.TableStep | dat_shape/bundles.py:117-121 | the decoding fails at a region when that region fails, and otherwise fails as the rest does |
| PathTableProperties.TableFailure | dat_shape/bundles.py:117-133 | the decoding fails exactly when one of the regions does |
| PathTableProperties.HashTableKeys | dat_shape/bundles.py:144 | the keys of the table are exactly the hashes of the decoded paths |
| PathTableProperties.HashTableLastWriter | dat_shape/bundles.py:144 | each key holds the last path with that hash: later strings overwrite earlier ones |
| PathTableProperties.YieldsAreKeptPaths | dat_shape/bundles.py:173-177 | the pairs yielded are the accepted paths, each with its hash, in stream order |
| PathTableProperties.EnumerateIsFilteredTrace | dat_shape/bundles.py:148-177 | the paths decoded and the exception raised do not depend on the filter, which only selects the pairs yielded |
| PathTableProperties.KeptMembers | dat_shape/bundles.py:175 | a path is yielded exactly when it was decoded outside the base phase and the filter accepts it |
| PathTableProperties.KeptUnfiltered | dat_shape/bundles.py:175 | without a filter every decoded path is yielded |
| PathTableProperties.MapOfYields | dat_shape/bundles.py:175-177 | inserting the unfiltered yields in order into a dictionary gives the hash table of the same paths |
| PathTableProperties.GenerateIsEnumerated | dat_shape/bundles.py:148-177 | with no filter, inserting the yields into a map equals `generate_path_hash_table` (lines 111-146), and one raises exactly when the other does |
| Console.Find | dat_shape/console.py:153 | `data.index(marker)` is the first position at or after the start where the marker occurs, or none when it does not occur |
| Console.DatInfoOf | dat_shape/console.py:150-156 | `struct.error` on fewer than 4 bytes. `ValueError` when the marker is absent. Otherwise construction succeeds: `row_count` is the little-endian u32 of bytes 0..4; `var_offset` is the first marker position; `var_offset + var_size == len(data)` and `fixed_size == var_offset - 4`; `row_width` is `fixed_size // row_count` (floor) when `row_count > 0`, else 0 |
| Console.FloorDiv | dat_shape/console.py:156 | Python's `//` for a positive divisor: the largest `q` with `q*b <= a` |
| Console.MarkerAtStart | dat_shape/console.py:152-156 | a file that starts with the marker has `var_offset` 0, `fixed_size` -4, `row_count` 0xBBBBBBBB and `row_width` -1 |
| Console.AsDict | dat_shape/console.py:162-173 | the five summary fields by name, and no `ids` key |
| Console.CountZero | dat_shape/console.py:88 | `count(b)` is zero exactly when `b` does not occur |
| Console.CountOne | dat_shape/console.py:88 | `count(b)` is one exactly when `b` occurs at one position only |
| Console.Dat64Filter | dat_shape/console.py:87-88 | `dat64_filter(p)` holds exactly when `p` ends with `.dat64` and holds `/` at exactly one position |
| Console.CountAppend | dat_shape/console.py:88 | counting over a concatenation adds the counts |
| Console.Dat64Accepts | dat_shape/console.py:88 | `dir/name.dat64` with no `/` in `dir` or `name` passes the filter |
| Console.Dat64RejectsNested | dat_shape/console.py:88 | a path with two `/` does not pass |

## Left out

- I/O and orchestration. `console.run()` (HTTP fetches, zstd streams, JSON output, `atomic_write`, chmod, `git`), `dat_shape/manifests.py` and `profile-it.py` are not part of this model.
- `ooz.decompress` and `poe_util.hash_file_path` are not modelled inside: they are the `Decompressor` and `Hasher` parameters. The length assumption on the decompressor is a `requires` of `ContainerProperties.DecompressedLength` only.
- UTF-8 decoding. Bundle names and paths stay byte strings, so a `UnicodeDecodeError` on malformed UTF-8 is not modelled. `bin_path` returns the bytes of the normalised path rather than a `PurePosixPath` object.
- The `uncompressed_size` of a `BundleRecord` is stored by the code as the one-element tuple `readf` returns (`dat_shape/bundles.py:28`). The model stores the u32 inside it.
- The header fields `head_payload_size`, `first_file_encode`, `unk10` and the two 64-bit size copies are read and then never used. The model reads them as part of the two formats and keeps nothing of them, as the code does. `ContainerProperties.HeaderFields` writes them.
- No length check is made on `fh.read(bsize)`: a short block goes to the decompressor as it is, as in the code.
- `readfi` is modelled only for its one use, the block-size array (`Container.Words`).
- The generator `enumerate_path_table` is modelled as running to its end: the list of pairs it yields, then the exception that stopped it, if any. Laziness, and a consumer that stops early, are not modelled.
- Both path decoders run the shared region loop `DecodeRegion`, then insert or yield that region's paths. In the source, each path is inserted or yielded as soon as it is decoded. The contents and order of the table and of the yields are the same either way. What differs is the timing of the yields, which matters only to a lazy consumer.
- The dead `running_string_size` accumulator is not modelled (`dat_shape/bundles.py:116,142`).
- `DatInfo(data, name)`: `name` is unused and `ids` is always `None`, so neither is kept. `__str__` is not modelled.
- Records.BinPath: the contract states the plain concatenation only for names whose components before the last are neither empty nor `.`, since `PurePosixPath` rewrites other names. For other names the path is `PosixPath` of the concatenation, which `BinPathCollapses` and `PosixPathIdempotent` describe. `BinPathInjective` is stated for those names only, because `a//b` and `a/b` give one path.
- Records.PosixPath models `PurePosixPath` for relative paths only. An absolute path keeps its root in Python, and `bin_path` never builds one.
- `dat64_filter` lines 89-90 are unreachable after the `return` on line 88 and are not modelled.
- `bytes.index` is modelled as the function `Console.Find` rather than as a loop, since the code calls it as a library routine.
- PathTableProperties.BasesExample: the decoding example is proved for any NUL-free fragments in place of the literal bytes of "abc", "def" and "xyz", which include them.
- Console.Dat64Filter: `path.count('/')` is counted over the bytes of the path, not over Unicode characters. For UTF-8 this gives the same answer, since '/' never occurs inside a multi-byte character.
