# DZSimulator core, modelled in Dafny

DZSimulator is a movement simulator for CS:GO's Danger Zone mode. It reads a map file
(a BSP file and the model files packed inside it or found in VPK packages), builds a
collision world from it, and simulates the player ticking through that world. This
project models the parts of it that are exact, not floating point:

- **Map shrinker** (`shrinker*.dfy`): the Python tool that cuts a map file down to the
  lumps the simulator parses.
- **Map parsing** (`bsp_*.dfy`, `entity_parsers.dfy`, `spawn_order.dfy`, `bsp_map.dfy`,
  `brush_separation.dfy`, `memory_fields.dfy`): the header and lump directory, the
  fixed-record lumps, the entity lump grammar, spawn ordering, the game lump, the pakfile
  walk, and the BspMap queries and brush category predicates.
- **Asset files** (`asset_reader.dfy`, `asset_finder.dfy`, `phy_model.dfy`, `phy_mesh.dfy`,
  `csgo_utils.dfy`): the asset file reader over an in-memory file, the Steam library
  file parser and map file filter, the PHY collision model parser, and the string helpers.
- **Collision structures** (`xprop_lut.dfy`, `displacement.dfy`, `bvh.dfy`, `debugger.dfy`):
  the bevel-plane look-up table, the displacement triangle/tree layout and plane cache,
  the BVH node hierarchy, and the collision debugger's protocol.
- **Simulation** (`csgo_game.dfy`, `world_state.dfy`): the game-tick scheduler and the
  player's input-command counters.
- **Small pieces** (`version_check.dfy`, `popup.dfy`): the version-tag comparison and the
  popup message queue.
- **fsal, the file system abstraction layer** (`path_normalization.dfy`, `file_list.dfy`,
  `vpk.dfy`, `vpk_open.dfy`, `fsal_files.dfy`, `bfio.dfy`): path normalisation, the sorted
  file list, the VPK package reader, the memory files and sub-file windows, and the memory
  streams.

Shared modules: `wrappers.dfy` (Option and Result), `bytes.dfy` (bytes and little-endian
words), `bits.dfy` (bit tests on natural numbers).

Everything is modelled as pure functions over immutable values. Files are byte
sequences, and the operating system, the clock, the network and the GUI are parameters
or are left out. Where the program behaves differently from what its authors evidently
meant, the model keeps the behaviour as written next to a corrected version. A lemma
relates the two, and each such case is listed under "Findings".

One behaviour of the shrinker script is easy to misread, and the model follows the script: when
the game lump holds no static props, its directory entry keeps length 0 and gets the current
write position as its offset, not 0.

## Model

| member | source | states |
|---|---|---|
| Shrinker.UnpackI32s | DZSimulator-main/tools/MapFileShrinker-CSGO.py:71 | struct.unpack of n '<i' values: one signed little-endian 32-bit value per four bytes, in order |
| Shrinker.PackU32s | DZSimulator-main/tools/MapFileShrinker-CSGO.py:135 | struct.pack of '<L' values succeeds exactly when every value lies in [0, 2^32), and each four-byte group reads back as its value |
| Shrinker.UnpackPacked | DZSimulator-main/tools/MapFileShrinker-CSGO.py:71 | values below 2^31 packed as '<L' unpack as '<i' to themselves, which is what lets the script read its own directory |
| Shrinker.ParseDirectory | DZSimulator-main/tools/MapFileShrinker-CSGO.py:66-71 | the directory parses exactly when the file holds the 1024 bytes after offset 8, and entry i is the signed word at 8 + 4i |
| Shrinker.FirstSprp | DZSimulator-main/tools/MapFileShrinker-CSGO.py:87-95 | the sub-lump scan stops at the first entry whose id is 'sprp' (1936749168); no earlier entry has that id, and None means no entry has it |
| Shrinker.RebuiltGameLump | DZSimulator-main/tools/MapFileShrinker-CSGO.py:100-108 | the rebuilt game lump is five LE u32 {1, 'sprp', flags/version, 0, length} then the sprp bytes; packing fails when flags/version or the length do not fit in 32 unsigned bits |
| Shrinker.SubLumpEntries | DZSimulator-main/tools/MapFileShrinker-CSGO.py:84-86 | a game lump shorter than four bytes raises; otherwise the count is read signed and 16 bytes per entry must follow (none for a negative count) |
| Shrinker.GameLumpAsWritten | DZSimulator-main/tools/MapFileShrinker-CSGO.py:81-108 | the game lump step as written raises on a lump shorter than four bytes, and a non-empty result is longer than its 20-byte header |
| Shrinker.GameLump | DZSimulator-main/tools/MapFileShrinker-CSGO.py:84 | the corrected step treats a game lump shorter than four bytes as holding no props and otherwise agrees with the step as written |
| Shrinker.CollectLumps | DZSimulator-main/tools/MapFileShrinker-CSGO.py:73-110 | collecting fails exactly when the game lump is listed and its step raises; each other listed lump is its directory slice of the input, and unlisted lumps stay empty |
| Shrinker.PadTo16 | DZSimulator-main/tools/MapFileShrinker-CSGO.py:123-125 | the padded length is the least multiple of 16 not below the length |
| Shrinker.Body | DZSimulator-main/tools/MapFileShrinker-CSGO.py:138-142 | the payload region is as long as the padded sizes of the listed lumps together |
| Shrinker.ShrinkAsWritten | DZSimulator-main/tools/MapFileShrinker-CSGO.py:65-142 | the script as written fails on a file too short to hold the directory; any output it writes keeps the input's first 8 bytes and, when the input holds them, the 4 revision bytes after the directory |
| Shrinker.Shrink | DZSimulator-main/tools/MapFileShrinker-CSGO.py:65-142 | the corrected script likewise fails on a file too short to hold the directory, and every output keeps the input's first 8 bytes and, when the input holds them, the 4 revision bytes after the directory |
| ShrinkerProofs.WhitelistIsValid | DZSimulator-main/tools/MapFileShrinker-CSGO.py:25-46 | the 20 whitelisted lumps are distinct directory entries (below 64), and the game lump is among them |
| ShrinkerProofs.PayloadAligned | DZSimulator-main/tools/MapFileShrinker-CSGO.py:114 | the payload base 1040 is 16-byte aligned, so an aligned total keeps the next offset aligned |
| ShrinkerProofs.ShrinkDirectory | DZSimulator-main/tools/MapFileShrinker-CSGO.py:113-125 | each listed lump's new entry has offset 1040 plus the padded lengths of the lumps listed before it (so a multiple of 16), its collected length, its old version and a zero fourth field |
| ShrinkerProofs.ShrinkDropsUnlisted | DZSimulator-main/tools/MapFileShrinker-CSGO.py:113 | every directory word of a lump that is not listed is zero in the output |
| ShrinkerProofs.ShrinkOutput | DZSimulator-main/tools/MapFileShrinker-CSGO.py:134-142 | the output is the first 8 input bytes, the packed new directory, input bytes 1032..1036, four zeros and the padded payload; an input cut inside bytes 1032..1036 contributes only the bytes it has, and the zeros and payload follow them directly |
| ShrinkerProofs.ShrinkSize | DZSimulator-main/tools/MapFileShrinker-CSGO.py:134-142 | the output is 1040 bytes plus every declared lump length padded to 16, keeping the ident/version and revision bytes, with four zero bytes before the payload; for a 1032-1035-byte input it is 1036 - n bytes shorter than its directory declares, with the revision bytes it has followed by the four zeros |
| ShrinkerProofs.ShrinkKeepsLump | DZSimulator-main/tools/MapFileShrinker-CSGO.py:76-139 | each listed lump other than the game lump occupies, at its new offset and length, the bytes its old entry addressed (with Python's slice clamping) |
| ShrinkerProofs.ShrinkGameLumpAbsent | DZSimulator-main/tools/MapFileShrinker-CSGO.py:96-119 | the output's game lump has length zero exactly when the input's game lump holds no props |
| ShrinkerProofs.ShrinkGameLumpRebuilt | DZSimulator-main/tools/MapFileShrinker-CSGO.py:86-131 | a non-empty output game lump is the input's first 'sprp' sub-lump behind a one-entry header whose offset field is the lump's new offset plus 20 |
| ShrinkerProofs.NegativeVersionRejected | DZSimulator-main/tools/MapFileShrinker-CSGO.py:118-135 | a listed lump whose version reads negative makes the run raise when the new directory is packed unsigned |
| ShrinkerIdempotence.ShrinkIdempotent | DZSimulator-main/tools/MapFileShrinker-CSGO.py:65-142 | the corrected shrinker applied to its own output (below 2 GiB) gives that output again |
| ShrinkerIdempotence.AsWrittenRejectsOwnOutput | DZSimulator-main/tools/MapFileShrinker-CSGO.py:84-97 | the script as written raises on its own output whenever the input's game lump holds no props |
| ShrinkerIdempotence.AsWrittenAgrees | DZSimulator-main/tools/MapFileShrinker-CSGO.py:84 | with a game lump of at least four bytes, the script as written and the corrected one give the same result |
| ShrinkerIdempotence.AsWrittenShortGameLump | DZSimulator-main/tools/MapFileShrinker-CSGO.py:84 | a game lump shorter than four bytes makes the script as written raise |
| Bytes.U16 | DZSimulator-main/src/csgo_parsing/AssetFileReader.cpp:197 | two bytes read little-endian give a value below 2^16 |
| Bytes.U32 | DZSimulator-main/src/csgo_parsing/AssetFileReader.cpp:207 | four bytes read little-endian give a value below 2^32 |
| Bytes.Signed16 | DZSimulator-main/src/csgo_parsing/AssetFileReader.cpp:216-221 | the signed view of a 16-bit value is the one in [-2^15, 2^15) congruent to it modulo 2^16 |
| Bytes.Signed32 | DZSimulator-main/tools/MapFileShrinker-CSGO.py:71 | the signed view of a 32-bit value is the one in [-2^31, 2^31) congruent to it modulo 2^32 |
| Bytes.I16 | DZSimulator-main/src/csgo_parsing/AssetFileReader.cpp:211-223 | a signed 16-bit read lies in [-2^15, 2^15) and is negative exactly when the high byte has its top bit set |
| Bytes.I32 | DZSimulator-main/tools/MapFileShrinker-CSGO.py:71 | a '<i' unpack lies in [-2^31, 2^31) and agrees with the unsigned read modulo 2^32 |
| Bytes.Le32 | DZSimulator-main/tools/MapFileShrinker-CSGO.py:135 | a '<L' pack of a 32-bit value is four bytes that read back as the value |
| Bytes.Le32OfU32 | DZSimulator-main/tools/MapFileShrinker-CSGO.py:135 | re-encoding the value of four bytes gives the same four bytes |
| Bytes.I32OfLe32 | DZSimulator-main/tools/MapFileShrinker-CSGO.py:71 | a value below 2^31 packed as '<L' unpacks as '<i' to the same value |
| Bytes.I32OfSmallU32 | DZSimulator-main/tools/MapFileShrinker-CSGO.py:71 | four bytes whose unsigned value is below 2^31 have the same signed value |
| Bytes.PyIndex | DZSimulator-main/tools/MapFileShrinker-CSGO.py:78 | a Python slice bound: a non-negative index is clamped to the length, a negative one counts from the end and is clamped at 0 |
| Bytes.Slice | DZSimulator-main/tools/MapFileShrinker-CSGO.py:78 | a Python slice is never longer than the sequence; within bounds it is the ordinary slice, with its stop before its start it is empty, and it is cut short at the end |
| Bytes.SliceFullLength | DZSimulator-main/tools/MapFileShrinker-CSGO.py:78 | a slice from a non-negative start gets its full length exactly when it is empty or ends inside the sequence |
| Shrinker.PaddedSize | DZSimulator-main/tools/MapFileShrinker-CSGO.py:115-125 | the space the kept lumps take, each padded, is a multiple of 16 |
| BspHeader.ParseHeader | DZSimulator-main/src/csgo_parsing/BspMapParsing.cpp:1254-1302 | a file shorter than the identifier and version is a read error; an accepted header has the VBSP identifier, version at least 21 and all 64 lump entries, and the newer-version warning is given exactly when the version is above 21 |
| BspHeader.HeaderRejects | DZSimulator-main/src/csgo_parsing/BspMapParsing.cpp:1265-1295 | the byte-swapped identifier is reported as big-endian, any other foreign identifier as unknown with its value, a version below 21 as unsupported with its value, and a header cut short inside the directory as a read error |
| BspHeader.MagicBytes | DZSimulator-main/src/csgo_parsing/BspMapParsing.cpp:1265-1275 | the identifier constant is the characters V, B, S, P in file order, and the big-endian constant the same characters reversed |
| BspHeader.HeaderRoundTrip | DZSimulator-main/src/csgo_parsing/BspMapParsing.cpp:1287-1300 | a header written as the map compiler lays it out parses back to the same header, whatever bytes follow it, with the warning that its version calls for |
| BspHeader.LumpIndexInjective | DZSimulator-main/tools/MapFileShrinker-CSGO.py:25-45 | two different lumps never share a directory slot of Valve's BSP format |
| BspHeader.RequiredLumpsComplete | DZSimulator-main/src/csgo_parsing/BspMapParsing.cpp:1309-1333 | every lump the parser knows is on the required list |
| BspHeader.RequiredLumpsDistinct | DZSimulator-main/src/csgo_parsing/BspMapParsing.cpp:1309-1333 | no lump is on the required list twice |
| BspHeader.DisplacementLimits | DZSimulator-main/src/csgo_parsing/BspMap.h:38-42 | the displacement vertex and triangle limits are 289 vertices (17 x 17) and 512 triangles (2 x 16 x 16) per displacement, for up to 32768 displacements |
| BspHeader.CountRecords | DZSimulator-main/src/csgo_parsing/BspMapParsing.cpp:377-389 | a fixed-record lump is accepted exactly when its length is a whole number of records and that number is within the lump's limit; the count times the record size is then the length, and a ragged length is reported with that length |
| BspHeader.RecordCountOfRecords | DZSimulator-main/src/csgo_parsing/BspMapParsing.cpp:377-389 | a lump of n whole records is accepted with count n when n is within the limit and rejected as too many with n otherwise |
| BspHeader.RecordsFillLump | DZSimulator-main/src/csgo_parsing/BspMapParsing.cpp:391-405 | every record an accepted lump announces ends inside the lump |
| BspHeader.Bevel | DZSimulator-main/src/csgo_parsing/BspMapParsing.cpp:846-849 | the bevel flag of a brush side is the low bit of its stored 16-bit field, 0 or 1 |
| BspHeader.BevelValues | DZSimulator-main/src/csgo_parsing/BspMapParsing.cpp:846-849 | the stored values 0, 1, 256 and 257 give the bevel flags 0, 1, 0 and 1 |
| BspHeader.CheckDispPower | DZSimulator-main/src/csgo_parsing/BspMapParsing.cpp:663-665 | a displacement power is accepted exactly when it lies in [2, 4], and is reported with its value otherwise |
| BspHeader.ParseTexDataStringData | DZSimulator-main/src/csgo_parsing/BspMapParsing.cpp:766-787 | an empty lump gives no data; an accepted non-empty lump is the lump's bytes, within the size limit, and ends with a NUL |
| BspHeader.TexDataStringDataAccepts | DZSimulator-main/src/csgo_parsing/BspMapParsing.cpp:766-787 | every NUL-terminated block within the size limit is accepted as it stands |
| BspHeader.InsertByOffset | DZSimulator-main/src/csgo_parsing/BspMapParsing.cpp:1338-1341 | inserting a lump into a list sorted by file offset keeps it sorted and adds exactly that lump |
| BspHeader.SortByOffset | DZSimulator-main/src/csgo_parsing/BspMapParsing.cpp:1338-1341 | the lumps are visited in ascending file offset order, and the order is a permutation of the required list |
| BspHeader.VisitLumps | DZSimulator-main/src/csgo_parsing/BspMapParsing.cpp:1344-1412 | a visit that gets through has met no compressed lump |
| BspHeader.ParseLumpData | DZSimulator-main/src/csgo_parsing/BspMapParsing.cpp:1304-1415 | a map whose lump data parses has no compressed lump at all |
| BspHeader.SortedVisitSucceeds | DZSimulator-main/src/csgo_parsing/BspMapParsing.cpp:1344-1412 | with lumps that do not overlap, are not compressed, and parsers that stay inside their lump, visiting in offset order never finds the reader already past a lump |
| BspHeader.ParseLumpDataSucceeds | DZSimulator-main/src/csgo_parsing/BspMapParsing.cpp:1304-1415 | a map with non-overlapping, uncompressed lumps that all start after the header parses through when every lump parser succeeds and ends inside its lump; a parser that fails (an empty entity lump, say) is outside this lemma |
| BspHeader.VisitOrderDistinct | DZSimulator-main/src/csgo_parsing/BspMapParsing.cpp:1338-1344 | no lump is visited twice |
| BspHeader.VisitedLump | DZSimulator-main/src/csgo_parsing/BspMapParsing.cpp:1338-1344 | every lump has its place in the visiting order |
| MemoryFields.FieldAt | DZSimulator-main/thirdparty/fsal_modified/fsal/sources/MemRefFileReadOnly.cpp:45-70 | n bytes are there at p exactly when p + n is within the file, and then exactly n of them |
| MemoryFields.U16At | DZSimulator-main/src/csgo_parsing/AssetFileReader.cpp:191-199 | a 16-bit field at p exists exactly when two bytes are there, and is below 2^16 |
| MemoryFields.U32At | DZSimulator-main/src/csgo_parsing/AssetFileReader.cpp:201-209 | a 32-bit field at p exists exactly when four bytes are there, and is below 2^32 |
| MemoryFields.ReaderReadsField | DZSimulator-main/src/csgo_parsing/AssetFileReader.cpp:129-137 | the asset file reader over a read-only memory file reads n > 0 bytes at p exactly when the file holds them, delivers that field and moves to p + n |
| MemoryFields.ReaderReadsU32 | DZSimulator-main/src/csgo_parsing/AssetFileReader.cpp:201-209 | reading a 32-bit little-endian word succeeds exactly when the file holds one at p, yields it and moves on four bytes |
| MemoryFields.ReaderReadsU16 | DZSimulator-main/src/csgo_parsing/AssetFileReader.cpp:191-199 | reading a 16-bit little-endian word succeeds exactly when the file holds one at p, yields it and moves on two bytes |
| MemoryFields.ReadRecords | DZSimulator-main/src/csgo_parsing/BspMapParsing.cpp:391-405 | a run of records that was read holds exactly the announced count |
| MemoryFields.ReadRecordsIsTable | DZSimulator-main/src/csgo_parsing/BspMapParsing.cpp:391-405 | reading count records one after another succeeds exactly when the file holds all of them (or there are none), and then record i is the slice at p + size i |
| MemoryFields.EncodeRecordsLength | DZSimulator-main/src/csgo_parsing/BspMapParsing.cpp:391-405 | encoded records take their record size each |
| MemoryFields.RecordsRoundTrip | DZSimulator-main/src/csgo_parsing/BspMapParsing.cpp:391-405 | records written by an encoder that the decoder inverts are read back unchanged |
| BspGameLump.SprpIsItsName | DZSimulator-main/src/csgo_parsing/BspMapParsing.cpp:1054 | the decimal id the parser looks for is the characters p, r, p, s read as a little-endian word, i.e. "sprp" as the map stores it |
| BspGameLump.EntryAt | DZSimulator-main/src/csgo_parsing/BspMapParsing.cpp:1044-1050 | a game lump directory entry is read exactly when its 16 bytes are in the file |
| BspGameLump.FindSprpFrom | DZSimulator-main/src/csgo_parsing/BspMapParsing.cpp:1043-1058 | the only way the directory search fails is a read error |
| BspGameLump.FindSprpFromMeans | DZSimulator-main/src/csgo_parsing/BspMapParsing.cpp:1043-1060 | the search finds a `sprp` entry only when every entry before it was readable and not `sprp`; it finds none only when all entries are readable and none is `sprp`; it fails only when some entry cannot be read |
| BspGameLump.FirstSprpFound | DZSimulator-main/src/csgo_parsing/BspMapParsing.cpp:1043-1058 | a `sprp` entry preceded only by readable non-`sprp` entries is the one found, whatever follows it |
| BspGameLump.CString | DZSimulator-main/src/csgo_parsing/BspMapParsing.cpp:1076-1086 | a dictionary name is never longer than its 128-byte field |
| BspGameLump.ReadCounted | DZSimulator-main/src/csgo_parsing/BspMapParsing.cpp:1066-1116 | a counted run that was read has as many records as the 32-bit count in front of it, that count is within the limit, and the reader stands right after the last record |
| BspGameLump.ParseGameLump | DZSimulator-main/src/csgo_parsing/BspMapParsing.cpp:1028-1030 | a game lump shorter than four bytes is rejected |
| BspGameLump.GameLumpWithoutSprp | DZSimulator-main/src/csgo_parsing/BspMapParsing.cpp:1059-1060 | a directory whose entries are all readable and none is `sprp` succeeds with no static props, leaving the reader after the directory |
| BspGameLump.GameLumpUsesFirstSprp | DZSimulator-main/src/csgo_parsing/BspMapParsing.cpp:1043-1158 | the outcome is decided by the first `sprp` entry's static prop data; the entries after it are never read |
| BspGameLump.SprpVersionChecked | DZSimulator-main/src/csgo_parsing/BspMapParsing.cpp:1062-1064 | static prop data is accepted only for versions 10 and 11, and any other version is rejected with its number |
| BspGameLump.SprpLimits | DZSimulator-main/src/csgo_parsing/BspMapParsing.cpp:1070-1114 | accepted data has fewer dictionary entries than the static prop limit, fewer leaf entries than 100 times that, and at most the limit of props |
| BspGameLump.SprpDictFromSlots | DZSimulator-main/src/csgo_parsing/BspMapParsing.cpp:1066-1088 | dictionary name i is the normalised name in the 128 bytes at 4 + 128 i past the entry's offset |
| BspGameLump.SprpScales | DZSimulator-main/src/csgo_parsing/BspMapParsing.cpp:1140-1150 | version 10 props get the unit scale, and version 11 props carry the four bytes of their stored scale |
| BspGameLump.DictNameRoundTrip | DZSimulator-main/src/csgo_parsing/BspMapParsing.cpp:1076-1086 | a valid model path written into a 128-byte dictionary field reads back as that path |
| BspGameLump.ReadCountedRoundTrip | DZSimulator-main/src/csgo_parsing/BspMapParsing.cpp:1066-1116 | a counted run written by the encoder is read back, ending right after it |
| BspGameLump.SprpRoundTrip | DZSimulator-main/src/csgo_parsing/BspMapParsing.cpp:1062-1158 | static prop data of version 10 or 11 written at the entry's offset is read back unchanged, and the reader ends right after it |
| BspPakfile.SignaturesSpellPK | DZSimulator-main/src/csgo_parsing/BspMapParsing.cpp:1184-1190 | the three signatures are P, K followed by 1 2, 3 4 and 5 6 |
| BspPakfile.HeaderAt | DZSimulator-main/src/csgo_parsing/BspMapParsing.cpp:1194-1214 | a local file header is read exactly when its 30 bytes are in the file, and its 16-bit fields are below 2^16 |
| BspPakfile.VarLen | DZSimulator-main/src/csgo_parsing/BspMapParsing.cpp:1225-1226 | the length of the variable fields is the true sum of name, extra field and data lengths when that sum fits in 32 bits, and wraps below 2^32 otherwise |
| BspPakfile.Step | DZSimulator-main/src/csgo_parsing/BspMapParsing.cpp:1171-1247 | a turn that finds a file moves the reader forward |
| BspPakfile.StepFound | DZSimulator-main/src/csgo_parsing/BspMapParsing.cpp:1172-1245 | a turn that finds a file read its signature before the lump end; the file's data starts after its 30-byte header and ends where the next turn begins |
| BspPakfile.ParsePakfile | DZSimulator-main/src/csgo_parsing/BspMapParsing.cpp:1162-1168 | an empty lump has no packed files |
| BspPakfile.ParseIsWalk | DZSimulator-main/src/csgo_parsing/BspMapParsing.cpp:1165-1171 | a lump that ends below 4 GiB is walked up to its true end |
| BspPakfile.StopsAtDirectory | DZSimulator-main/src/csgo_parsing/BspMapParsing.cpp:1184-1187 | a central directory header or end record ends the walk with no further files |
| BspPakfile.RejectsOtherSignature | DZSimulator-main/src/csgo_parsing/BspMapParsing.cpp:1190-1192 | any other signature than the three fails the walk, reporting that signature |
| BspPakfile.RejectsCompressed | DZSimulator-main/src/csgo_parsing/BspMapParsing.cpp:1217-1219 | a compressed file fails the walk with its compression method, whatever follows |
| BspPakfile.RejectsLongName | DZSimulator-main/src/csgo_parsing/BspMapParsing.cpp:1221-1223 | a stored file whose name is longer than 2048 bytes fails the walk with that length |
| BspPakfile.Walk | DZSimulator-main/src/csgo_parsing/BspMapParsing.cpp:1174-1229 | every packed file of a successful walk lies inside the lump, after its header, with room for the next signature before the lump end |
| BspPakfile.WalkAscending | DZSimulator-main/src/csgo_parsing/BspMapParsing.cpp:1239-1247 | the files of a successful walk follow one another: each file's data ends at least a header before the next one starts |
| BspPakfile.HeaderRoundTrip | DZSimulator-main/src/csgo_parsing/BspMapParsing.cpp:1178-1214 | the local file header of a stored file reads back as that header, behind the local file header signature |
| BspPakfile.WalkArchive | DZSimulator-main/src/csgo_parsing/BspMapParsing.cpp:1171-1248 | stored files laid out one after another and followed by a central directory header or end record, all before the lump end, are walked back as exactly their entries |
| BspPakfile.PakfileRoundTrip | DZSimulator-main/src/csgo_parsing/BspMapParsing.cpp:1162-1250 | a lump holding a stored archive followed by a directory signature parses to the archive's entries |
| BspHeader.EntryRoundTrip | DZSimulator-main/src/csgo_parsing/BspMapParsing.cpp:1287-1295 | a directory entry written as four little-endian 32-bit fields at its slot reads back as the same offset, length, version and compression code |
| BspHeader.DirRoundTrip | DZSimulator-main/src/csgo_parsing/BspMapParsing.cpp:1287-1295 | all 64 directory entries of a written header read back as the directory they came from, whatever bytes follow the header |
| BspHeader.RequiredLumps | DZSimulator-main/src/csgo_parsing/BspMapParsing.cpp:1309-1333 | the required list holds 23 lumps, each at the place the parser's list gives it |
| BspHeader.RequiredPosition | DZSimulator-main/src/csgo_parsing/BspMapParsing.cpp:1309-1333 | every known lump has a place on the required list, and that place holds it |
| BspHeader.LumpIndex | DZSimulator-main/tools/MapFileShrinker-CSGO.py:25-45 | every lump's directory slot is one of the 64 slots of the header |
| BspHeader.VisitAllSucceeds | DZSimulator-main/src/csgo_parsing/BspMapParsing.cpp:1344-1412 | visiting non-overlapping, uncompressed lumps in offset order, from a reader position no later than any non-empty lump, gets through when every lump parser succeeds and ends inside its lump |
| BspEntities.LineAt | DZSimulator-main/src/csgo_parsing/AssetFileReader.cpp:158-184 | a line read is shorter than the fail length and its newline lies inside the file |
| BspEntities.LineAtIsRun | DZSimulator-main/src/csgo_parsing/AssetFileReader.cpp:158-184 | a line read is the newline-free run of the file in front of the newline that ends it; the newline is consumed but not returned |
| BspEntities.LineAtReads | DZSimulator-main/src/csgo_parsing/AssetFileReader.cpp:158-184 | every newline-free run followed by a newline and shorter than the fail length is read back as the line |
| BspEntities.KeyEnd | DZSimulator-main/src/csgo_parsing/BspMapParsing.cpp:350-358 | the key search stops at the first quote in range, and stops past the range only when it holds no quote |
| BspEntities.KeyEndFinds | DZSimulator-main/src/csgo_parsing/BspMapParsing.cpp:350-358 | when a quote lies in range, the key ends at the first one |
| BspEntities.KeyValueRoundTrip | DZSimulator-main/src/csgo_parsing/BspMapParsing.cpp:347-369 | a pair with a valid key, written as `"KEY" "VALUE"`, parses back to that pair |
| BspEntities.KeyValueParsedIsLine | DZSimulator-main/src/csgo_parsing/BspMapParsing.cpp:347-369 | every line the pair parser accepts has a valid key and is exactly the written text of the pair it yields |
| BspEntities.NextLine | DZSimulator-main/src/csgo_parsing/BspMapParsing.cpp:311-330 | a line read inside the lump is at most MAX_LINE_LEN long and leaves room for its newline and the terminator before the lump end |
| BspEntities.EmptyLumpRejected | DZSimulator-main/src/csgo_parsing/BspMapParsing.cpp:311-314 | a lump of zero length is rejected, by either reader |
| BspEntities.LumpRoundTrip | DZSimulator-main/src/csgo_parsing/BspMapParsing.cpp:293-374 | a written entity lump of well-formed pairs is read back block for block, by the reader as written and by the strict reader |
| BspEntities.BlocksSound | DZSimulator-main/src/csgo_parsing/BspMapParsing.cpp:293-374 | whatever the strict reader accepts is the text of a written lump of the blocks it yields |
| BspEntities.StrictAgrees | DZSimulator-main/src/csgo_parsing/BspMapParsing.cpp:310-323 | wherever the strict reader accepts, the reader as written accepts too and yields the same blocks |
| BspEntities.EntityBlocksAsWritten | DZSimulator-main/src/csgo_parsing/BspMapParsing.cpp:310-323 | the reader as written rejects an empty remainder and, wherever the strict reader accepts, yields the same blocks |
| BspEntities.EntityLumpBlocks | DZSimulator-main/src/csgo_parsing/BspMapParsing.cpp:293-374 | a lump of length zero is rejected, and wherever the strict reader accepts a lump, the reader as written yields the same blocks |
| BspEntities.EntityLumpExactly | DZSimulator-main/src/csgo_parsing/BspMapParsing.cpp:293-374 | the strict reader accepts a lump exactly when it is the written text of well-formed blocks, and then yields those blocks |
| BspEntities.EntityLumpAgrees | DZSimulator-main/src/csgo_parsing/BspMapParsing.cpp:293-374 | the reader as written yields the blocks of every written lump, and agrees with the strict reader wherever that one accepts |
| BspEntities.UnclosedBlockAccepted | DZSimulator-main/src/csgo_parsing/BspMapParsing.cpp:310-323 | the reader as written accepts a `{` line followed by the terminator and reports no block, where the strict reader fails |
| BspEntities.UnclosedLumpAccepted | DZSimulator-main/src/csgo_parsing/BspMapParsing.cpp:310-323 | the lump "{\n" plus terminator parses to no entities in the program and is rejected by the strict reader |
| EntityParsers.FirstWithKey | DZSimulator-main/src/csgo_parsing/BspMapParsing.cpp:67 | the first pair with the key: every pair before it has another key |
| EntityParsers.Find | DZSimulator-main/src/csgo_parsing/BspMapParsing.cpp:67 | a key is found exactly when some pair of the block has it, and the value found belongs to such a pair |
| EntityParsers.FindFirstWins | DZSimulator-main/src/csgo_parsing/BspMapParsing.cpp:369 | of several pairs with one key, the one read first is found, as a multimap keeps equal keys in insertion order |
| EntityParsers.Floats | DZSimulator-main/src/csgo_parsing/utils.cpp:59-72 | one float per space-separated token |
| EntityParsers.Vector3 | DZSimulator-main/src/csgo_parsing/BspMapParsing.cpp:78-80 | a vector is read exactly when the value has at least three tokens, and it is their first three floats |
| EntityParsers.ReadSpawn | DZSimulator-main/src/csgo_parsing/BspMapParsing.cpp:63-91 | a spawn is skipped exactly when it has an `enabled` value that reads as 0; an enabled spawn fails only when origin or angles are missing or short; a missing priority is 0; the spawn has three origin and three angle components, and the priority is the parsed value converted to int16_t (ToInt16: congruent modulo 2^16, unchanged when it fits), so it lies in [-2^15, 2^15) |
| EntityParsers.ReadFuncBrush | DZSimulator-main/src/csgo_parsing/BspMapParsing.cpp:110-146 | a func_brush is read exactly when it has an origin of three components and, if present, angles of three; a missing model is empty, missing angles are zero, a missing Solidity is 0 (toggled), StartDisabled holds exactly when its value reads as 1, and the stored Solidity is the parsed value converted to int16_t (ToInt16: congruent modulo 2^16, unchanged when it fits), so it lies in [-2^15, 2^15) |
| EntityParsers.PriorityWrapSortsFirst | DZSimulator-main/src/csgo_parsing/BspMapParsing.cpp:88-101 | a spawn whose priority is written as 40000 is stored with priority -25536 and is inserted in front of a priority-0 spawn |
| EntityParsers.SolidityWrapNeverSolid | DZSimulator-main/src/csgo_parsing/BspMapParsing.cpp:135-137 | a func_brush whose Solidity is written as 65537 is stored with Solidity 1 and is never solid |
| EntityParsers.FuncBrushDefaultsSolid | DZSimulator-main/src/csgo_parsing/BspMapParsing.cpp:135-141 | a func_brush without Solidity and StartDisabled is toggled, starts enabled, and so is solid |
| EntityParsers.ParseEntity | DZSimulator-main/src/csgo_parsing/BspMapParsing.cpp:272-290 | a block without classname fails; a block of another class leaves the spawn list alone, and one that is not a func_brush leaves the func_brush list alone |
| EntityParsers.ParseEntityLump | DZSimulator-main/src/csgo_parsing/BspMapParsing.cpp:293-374 | a lump the reader rejects yields no entities |
| EntityParsers.SpawnOfBlock | DZSimulator-main/src/csgo_parsing/BspMapParsing.cpp:63-103 | a block contributes at most one spawn |
| EntityParsers.ParseEntitySpawns | DZSimulator-main/src/csgo_parsing/BspMapParsing.cpp:92-101 | one block inserts its spawn, if it has one, and changes nothing else in the spawn list |
| EntityParsers.ParseEntities | DZSimulator-main/src/csgo_parsing/BspMapParsing.cpp:92-101 | the spawn list after a run of blocks is their enabled spawns, with their int16_t priorities, inserted in block order |
| EntityParsers.ParseEntitiesSortsSpawns | DZSimulator-main/src/csgo_parsing/BspMapParsing.cpp:92-101 | parsing blocks keeps the spawn list sorted by the stored int16_t priority, adds exactly the blocks' enabled spawns, and within each priority keeps the old spawns first and the new ones in block order |
| SpawnOrder.FirstGreater | DZSimulator-main/src/csgo_parsing/BspMapParsing.cpp:93-99 | the insert position is the first spawn with a strictly greater priority: every spawn before it has a priority at most the new one's |
| SpawnOrder.InsertSpawn | DZSimulator-main/src/csgo_parsing/BspMapParsing.cpp:101 | insertion adds exactly the new spawn |
| SpawnOrder.InsertSpawnSorted | DZSimulator-main/src/csgo_parsing/BspMapParsing.cpp:93-101 | insertion keeps a list sorted by priority sorted |
| SpawnOrder.InsertSpawnStable | DZSimulator-main/src/csgo_parsing/BspMapParsing.cpp:93-101 | among spawns of equal priority, a new spawn goes after all spawns already there, and the others keep their order |
| SpawnOrder.InsertEachSorted | DZSimulator-main/src/csgo_parsing/BspMapParsing.cpp:93-101 | inserting spawns one by one keeps the list sorted |
| SpawnOrder.InsertEachAdds | DZSimulator-main/src/csgo_parsing/BspMapParsing.cpp:93-101 | inserting spawns one by one adds exactly those spawns |
| SpawnOrder.InsertEachStable | DZSimulator-main/src/csgo_parsing/BspMapParsing.cpp:93-101 | within each priority the new spawns follow the old ones, in the order they were inserted |
| BspMap.FlagBitIsBit | DZSimulator-main/src/csgo_parsing/BspMap.cpp:56-74 | a single-bit flag test reads exactly bit n of the flags |
| BspMap.SurfBit | DZSimulator-main/src/csgo_parsing/BspMap.cpp:56-71 | every texture-info flag is one of the 16 low bits |
| BspMap.SurfBitsDistinct | DZSimulator-main/src/csgo_parsing/BspMap.cpp:56-71 | two different texture-info flags never share a bit |
| BspMap.DispFlagsAreBits | DZSimulator-main/src/csgo_parsing/BspMap.cpp:729-733 | each displacement flag test reads its own bit, one of 1, 2, 3, 30 and 31 |
| BspMap.TriggerPushFlags | DZSimulator-main/src/csgo_parsing/BspMap.cpp:739-740 | a trigger_push pushes players on bit 0 of spawnflags and accounts for mass on bit 12 |
| BspMap.ContentsBits | DZSimulator-main/src/csgo_parsing/BspMap.h:173-183 | the brush contents constants are bits 0, 1, 3, 5, 16, 19 and 29 |
| BspMap.BrushHasFlagBit | DZSimulator-main/src/csgo_parsing/BspMap.cpp:74 | testing one contents constant tests its bit |
| BspMap.PropSolidityExclusive | DZSimulator-main/src/csgo_parsing/BspMap.cpp:735-737 | at most one of the static prop solidity predicates holds, and one holds exactly for the values 0, 2 and 6 |
| BspMap.FuncBrushIsSolid | DZSimulator-main/src/csgo_parsing/BspMap.cpp:720-727 | a func_brush with Solidity 1 is never solid, with 2 always, and otherwise solid exactly when it does not start disabled |
| BspMap.FuncBrushSolidCases | DZSimulator-main/src/csgo_parsing/BspMap.cpp:720-727 | a func_brush is solid exactly when it is always solid, or not never-solid and enabled at start |
| BspMap.SurfedgeVertex | DZSimulator-main/src/csgo_parsing/BspMap.cpp:99-101 | a surfedge names a vertex of the map: the start of its edge walked in the surfedge's direction |
| BspMap.GetFaceVertices | DZSimulator-main/src/csgo_parsing/BspMap.cpp:93-104 | one vertex per edge of the face, vertex i being the start of the i-th directed edge |
| BspMap.SurfedgeSign | DZSimulator-main/src/csgo_parsing/BspMap.cpp:100-101 | reversing a surfedge's sign swaps the ends of its edge |
| BspMap.FaceVerticesWalkLoop | DZSimulator-main/src/csgo_parsing/BspMap.cpp:93-104 | on a face whose edges form a closed loop, vertex i + 1 is where the i-th directed edge ends, and the last edge ends at vertex 0 |
| BspMap.DisplacementVertexSources | DZSimulator-main/src/csgo_parsing/BspMap.cpp:107-160 | a displacement whose face is not a quad yields no vertices; otherwise (2^power + 1)^2 of them, vertex i offset by dispverts entry dispVertStart + i |
| BspMap.CornersArePermutation | DZSimulator-main/src/csgo_parsing/BspMap.cpp:140-143 | the four corners are the four face vertices, each once, with the start vertex as the top right corner |
| BspMap.InsertLeafBrushes | DZSimulator-main/src/csgo_parsing/BspMap.cpp:710-713 | the leaf's brushes are added to the set |
| BspMap.GetModelBrushIndices | DZSimulator-main/src/csgo_parsing/BspMap.cpp:680-718 | on node links that form a tree (some ranking of the nodes falls from parent to child), the walk from the model's head node ends and collects exactly the brushes of the leaves below it |
| BspMap.ParentFirstIsTree | DZSimulator-main/src/csgo_parsing/BspMapParsing.cpp:879-880 | node links that always point to a later node, as the map compiler writes them, form a tree |
| BspMap.WalkFinishes | DZSimulator-main/src/csgo_parsing/BspMap.cpp:689-716 | on a tree, the loop as written ends within as many turns as there are entries below the pending ones, with the brushes of their leaves |
| BspMap.SelfLoopNotTree | DZSimulator-main/src/csgo_parsing/BspMapParsing.cpp:879-880 | a node that names itself as a child has no ranking, so the parser's unchecked children need not form a tree |
| BspMap.SelfLoopWalkNeverEnds | DZSimulator-main/src/csgo_parsing/BspMap.cpp:689-716 | on a node that names itself as a child, the loop as written has a node pending after any number of turns |
| BspMap.BrushesOfNode | DZSimulator-main/src/csgo_parsing/BspMap.cpp:693-701 | the brushes below a node are those below its two children, so the order of the walk does not matter |
| BspMap.BrushesUnderMeans | DZSimulator-main/src/csgo_parsing/BspMap.cpp:680-718 | a brush is collected exactly when some leaf below the head lists it |
| BrushSeparation.CStringAt | DZSimulator-main/src/csgo_parsing/BrushSeparation.cpp:33 | a texture name is the NUL-free run of the string data from its offset up to the next NUL or the end |
| BrushSeparation.CStringIs | DZSimulator-main/src/csgo_parsing/BrushSeparation.cpp:33 | any NUL-free run ending at a NUL or the end is the name read there |
| BrushSeparation.CategoryTests | DZSimulator-main/src/csgo_parsing/BrushSeparation.cpp:80-94 | every category but sky has a brush test, and only solid and sky have a brush side test |
| BrushSeparation.EveryCategoryTests | DZSimulator-main/src/csgo_parsing/BrushSeparation.cpp:80-94 | every category has at least one test |
| BrushSeparation.ContentsTests | DZSimulator-main/src/csgo_parsing/BspMap.h:173-183 | each contents test reads its single bit of the contents word |
| BrushSeparation.SolidBrushBits | DZSimulator-main/src/csgo_parsing/BrushSeparation.cpp:18-24 | a brush is solid exactly when it is neither water nor a ladder and has the solid, grate or window bit |
| BrushSeparation.FlagCategoryBits | DZSimulator-main/src/csgo_parsing/BrushSeparation.cpp:46-66 | a brush is a playerclip, grenadeclip, ladder or water brush exactly when its bit 16, 19, 29 or 5 is set |
| BrushSeparation.SolidExcludesWaterAndLadder | DZSimulator-main/src/csgo_parsing/BrushSeparation.cpp:18-24 | no brush is both solid and water, or both solid and a ladder |
| BrushSeparation.SolidSideMeans | DZSimulator-main/src/csgo_parsing/BrushSeparation.cpp:26-42 | a brush side is solid exactly when it is not sky and its texture is not TOOLS/TOOLSTRIGGER |
| BrushSeparation.TriggerSideIsNeither | DZSimulator-main/src/csgo_parsing/BrushSeparation.cpp:26-42 | a non-sky side with the trigger texture is neither solid nor sky |
| CsgoUtils.RetCodeOf | DZSimulator-main/src/csgo_parsing/utils.cpp:8-9 | the boolean constructor gives a successful code exactly for true, a success or generic failure, without description |
| CsgoUtils.Lower | DZSimulator-main/src/csgo_parsing/utils.cpp:30-31 | the result is never an upper-case ASCII letter, other characters are kept, and '/' stays '/' |
| CsgoUtils.NormalizeGameFilePath | DZSimulator-main/src/csgo_parsing/utils.cpp:23-36 | the normalised path is never longer than the input |
| CsgoUtils.NormalizeGameFilePathNormal | DZSimulator-main/src/csgo_parsing/utils.cpp:23-36 | a normalised path has no upper-case ASCII letter and no "//" |
| CsgoUtils.NormalizeGameFilePathIdempotent | DZSimulator-main/src/csgo_parsing/utils.cpp:23-36 | normalising a normalised path changes nothing |
| CsgoUtils.NormalizeMatchesRef | DZSimulator-main/src/csgo_parsing/utils.cpp:23-36 | the loop agrees with an independent reference definition (drop each '/' that directly follows a '/' of the input and lower-case the rest) |
| CsgoUtils.Find | DZSimulator-main/src/csgo_parsing/utils.cpp:44 | string::find gives the first index at or after the position holding the delimiter, and reports none only when there is none |
| CsgoUtils.SplitString | DZSimulator-main/src/csgo_parsing/utils.cpp:38-57 | every piece is non-empty and free of the delimiter |
| CsgoUtils.SplitStringConcat | DZSimulator-main/src/csgo_parsing/utils.cpp:38-57 | joining the pieces gives the input with every delimiter removed |
| CsgoUtils.SplitStringWhole | DZSimulator-main/src/csgo_parsing/utils.cpp:52-54 | a string without the delimiter is one piece, or none when it is empty |
| CsgoUtils.StoLL | DZSimulator-main/src/csgo_parsing/utils.cpp:80-83 | a token without a leading integer reads as 0, one whose integer fits in 64 bits reads as that integer, and every result is a 64-bit value |
| CsgoUtils.ParseIntsFromString | DZSimulator-main/src/csgo_parsing/utils.cpp:74-87 | one integer per space-separated token, each read with std::stoll |
| CsgoUtils.ParseIntFromString | DZSimulator-main/src/csgo_parsing/utils.cpp:97-103 | the default when there is no token, otherwise the first token's integer |
| CsgoUtils.StoLLShowInt | DZSimulator-main/src/csgo_parsing/utils.cpp:80-83 | reading the decimal rendering of a 64-bit integer gives it back |
| CsgoUtils.ParseIntOfShowInt | DZSimulator-main/src/csgo_parsing/utils.cpp:97-103 | a single rendered integer parses to itself, and a blank string to the default |
| AssetReader.FileRead | DZSimulator-main/thirdparty/fsal_modified/fsal/sources/SubFile.cpp:32-47 | without a file nothing is delivered and the read fails; a read never delivers more than was asked, and keeps the kind of file and its data (or window size); a sub-file read is SubFile::ReadData as written, end-of-file test after the pointer moved included |
| AssetReader.OpenFromMemory | DZSimulator-main/src/csgo_parsing/AssetFileReader.cpp:67-88 | the position is reset to 0, and the reader is open, and the call succeeds, exactly when the data pointer is not null |
| AssetReader.OpenSubFile | DZSimulator-main/src/csgo_parsing/AssetFileReader.cpp:90-107 | the position is reset to 0; the call succeeds, and the reader is open, exactly when a file was open, and then it reads a window of len bytes at pos of that file |
| AssetReader.SetPos | DZSimulator-main/src/csgo_parsing/AssetFileReader.cpp:119-127 | without a file the call fails and changes nothing; otherwise it succeeds, records the position, and moves a memory file to it or clamps a sub-file to its window |
| AssetReader.ReadByteArray | DZSimulator-main/src/csgo_parsing/AssetFileReader.cpp:129-137 | without a file nothing happens and the read fails; otherwise the position advances by len whatever happened, and the read succeeds exactly when the file read neither failed nor reported end of file |
| AssetReader.ReadByteArrayOfSub | DZSimulator-main/src/csgo_parsing/AssetFileReader.cpp:129-137 | on a sub-file whose window lies inside its file, a byte-array read succeeds exactly when the pointer is inside the window and the window still holds twice the request from the pointer |
| AssetReader.SubFileReadFailsEarly | DZSimulator-main/src/csgo_parsing/AssetFileReader.cpp:129-137 | four bytes at pointer 2 of an eight-byte window fail to read through the asset reader, though the corrected ReadData delivers them without end of file |
| AssetReader.ReadByteArrayDelivers | DZSimulator-main/src/csgo_parsing/AssetFileReader.cpp:129-137 | a successful read delivers exactly the requested number of bytes |
| AssetReader.ReadByteArrayOfMemory | DZSimulator-main/thirdparty/fsal_modified/fsal/sources/MemRefFileReadOnly.cpp:45-70 | bytes that lie inside a memory file are read successfully and in order, and file and reader both move past them |
| AssetReader.ReadCharArray | DZSimulator-main/src/csgo_parsing/AssetFileReader.cpp:139-156 | the position advances once per byte attempted, including the one that failed; a successful read delivers exactly len bytes |
| AssetReader.ReadCharArrayIsByteArray | DZSimulator-main/src/csgo_parsing/AssetFileReader.cpp:129-156 | inside a memory file, reading byte by byte and reading in one block give the same result |
| AssetReader.ByteArraysJoin | DZSimulator-main/thirdparty/fsal_modified/fsal/sources/MemRefFileReadOnly.cpp:45-70 | inside a memory file, one byte followed by len - 1 bytes reads the same as len bytes at once |
| AssetReader.ReadLine | DZSimulator-main/src/csgo_parsing/AssetFileReader.cpp:158-184 | no file or a zero fail length fails at once; a line read is shorter than the fail length and holds no delimiter |
| AssetReader.ReadLineOfMemory | DZSimulator-main/src/csgo_parsing/AssetFileReader.cpp:158-184 | a delimiter-free line followed by the delimiter inside a memory file is read back without the delimiter, and file and reader both end just past the delimiter |
| AssetReader.ReadUint8 | DZSimulator-main/src/csgo_parsing/AssetFileReader.cpp:186-189 | a one-byte read that yields that byte |
| AssetReader.ReadUint16 | DZSimulator-main/src/csgo_parsing/AssetFileReader.cpp:191-199 | succeeds exactly when the two-byte read does and yields a 16-bit value |
| AssetReader.ReadUint32 | DZSimulator-main/src/csgo_parsing/AssetFileReader.cpp:201-209 | succeeds exactly when the four-byte read does and yields a 32-bit value |
| AssetReader.ToInt16 | DZSimulator-main/src/csgo_parsing/AssetFileReader.cpp:216-219 | the conversion to int16_t is the value's residue modulo 2^16 in [-2^15, 2^15), and leaves a value that fits unchanged |
| AssetReader.ToInt32 | DZSimulator-main/src/csgo_parsing/AssetFileReader.cpp:230-233 | the conversion to int32_t is the value's residue modulo 2^32 in [-2^31, 2^31) |
| AssetReader.SourceInt16IsTwosComplement | DZSimulator-main/src/csgo_parsing/AssetFileReader.cpp:211-223 | the program's negation formula for a set sign bit gives the two's complement value |
| AssetReader.SourceInt32IsTwosComplement | DZSimulator-main/src/csgo_parsing/AssetFileReader.cpp:225-237 | the program's negation formula for a set sign bit gives the two's complement value |
| AssetReader.ReadInt16 | DZSimulator-main/src/csgo_parsing/AssetFileReader.cpp:211-223 | reads like the unsigned read and yields the two's complement value of its 16 bits |
| AssetReader.ReadInt32 | DZSimulator-main/src/csgo_parsing/AssetFileReader.cpp:225-237 | reads like the unsigned read and yields the two's complement value of its 32 bits |
| AssetReader.ReadUint32OfLe32 | DZSimulator-main/src/csgo_parsing/AssetFileReader.cpp:201-209 | a 32-bit value stored little-endian in a memory file is read back, four bytes on |
| AssetReader.ReadUint16OfLe16 | DZSimulator-main/src/csgo_parsing/AssetFileReader.cpp:191-199 | a 16-bit value stored little-endian in a memory file is read back, two bytes on |
| AssetFinder.FirstNonSpace | DZSimulator-main/src/csgo_parsing/AssetFinder.cpp:265-272 | the first non-whitespace position at or after from, with only whitespace before it; none when the rest is all whitespace |
| AssetFinder.FirstQuote | DZSimulator-main/src/csgo_parsing/AssetFinder.cpp:301-308 | the first double quote at or after from, none when the rest has none |
| AssetFinder.Unescape | DZSimulator-main/src/csgo_parsing/AssetFinder.cpp:324-344 | an unescaped value is never longer than its stored form |
| AssetFinder.Escape | DZSimulator-main/src/csgo_parsing/AssetFinder.cpp:324-344 | the stored form is never shorter than the path |
| AssetFinder.UnescapeEscape | DZSimulator-main/src/csgo_parsing/AssetFinder.cpp:324-344 | unescaping the stored form of a path gives the path back |
| AssetFinder.EscapeUnescape | DZSimulator-main/src/csgo_parsing/AssetFinder.cpp:324-344 | every value that unescapes is the stored form of the path it gives, so a lone backslash is always rejected |
| AssetFinder.KeyEnd | DZSimulator-main/src/csgo_parsing/AssetFinder.cpp:262-286 | the position after the `"path"` key lies inside the line |
| AssetFinder.Quotes | DZSimulator-main/src/csgo_parsing/AssetFinder.cpp:288-310 | the opening and closing quotes of the value lie in order inside the line |
| AssetFinder.PathLineRoundTrip | DZSimulator-main/src/csgo_parsing/AssetFinder.cpp:262-347 | a line laid out as whitespace, `"path"`, whitespace, the quoted stored form of a quote-free path and trailing whitespace gives that path |
| AssetFinder.PathLineSound | DZSimulator-main/src/csgo_parsing/AssetFinder.cpp:262-347 | a line gives a path only when it is laid out that way for that path |
| AssetFinder.LibraryPaths | DZSimulator-main/src/csgo_parsing/AssetFinder.cpp:264-348 | at most one path per line |
| AssetFinder.LibraryPathsComplete | DZSimulator-main/src/csgo_parsing/AssetFinder.cpp:264-348 | the path of every line that gives one is listed |
| AssetFinder.LibraryPathsSound | DZSimulator-main/src/csgo_parsing/AssetFinder.cpp:264-348 | every listed path is given by some line of the file |
| AssetFinder.FileName | DZSimulator-main/src/csgo_parsing/AssetFinder.cpp:475 | the file name is a '/'-free suffix of the path |
| AssetFinder.IsMapNameLower | DZSimulator-main/src/csgo_parsing/AssetFinder.cpp:476-481 | the letter checks are ASCII case folding: a name is a map file exactly when its last four characters lower-case to ".bsp" |
| AssetFinder.MapFiles | DZSimulator-main/src/csgo_parsing/AssetFinder.cpp:473-483 | the map list is no longer than the listing |
| AssetFinder.MapFilesComplete | DZSimulator-main/src/csgo_parsing/AssetFinder.cpp:473-483 | every listed path whose file name is a map file is kept |
| AssetFinder.MapFilesSound | DZSimulator-main/src/csgo_parsing/AssetFinder.cpp:473-483 | only listed paths whose file name is a map file are kept |
| PhyModel.IdsSpellTheirNames | DZSimulator-main/src/csgo_parsing/PhyModelParsing.cpp:146-150 | the two ids are the letters VPHY and IVPS in file order |
| PhyModel.ParseHeader | DZSimulator-main/src/csgo_parsing/PhyModelParsing.cpp:108-150 | an accepted header lies in the file, and the text section it announces lies within the read limit, behind the header's size field |
| PhyModel.RejectsMultipleSolids | DZSimulator-main/src/csgo_parsing/PhyModelParsing.cpp:124-128 | a header of size 16 with a solid count other than 1 fails with the special multiple-solids error |
| PhyModel.HeaderAccepted | DZSimulator-main/src/csgo_parsing/PhyModelParsing.cpp:117-150 | an accepted header has size field 16, one solid and both ids, and the text section starts the binary data size after that field |
| PhyModel.HighestBounds | DZSimulator-main/src/csgo_parsing/PhyModelParsing.cpp:225-227 | the highest index is at least the starting value, bounds every face's indices, and is either the starting value or one of them |
| PhyModel.SectionStep | DZSimulator-main/src/csgo_parsing/PhyModelParsing.cpp:167-232 | a turn ends the loop exactly when no section header fits before the section end; it fails only with one of the loop's five errors, and a further turn moves forward and stops the sections at the vertices, before the text section |
| PhyModel.Sections | DZSimulator-main/src/csgo_parsing/PhyModelParsing.cpp:165-232 | the loop fails only with one of its five errors, and when it ends no further section header fits |
| PhyModel.SectionsKeep | DZSimulator-main/src/csgo_parsing/PhyModelParsing.cpp:165-232 | the loop keeps the sections read before, never lowers the highest index, and every kept section is non-empty, within the triangle limit, with indices up to the highest |
| PhyModel.ShrinkWrapDropped | DZSimulator-main/src/csgo_parsing/PhyModelParsing.cpp:188-231 | a shrink-wrap section, when those shapes are not wanted, is read and checked but changes neither the kept sections nor the highest index |
| PhyModel.EmptySectionDropped | DZSimulator-main/src/csgo_parsing/PhyModelParsing.cpp:230-231 | a section without triangles changes neither the kept sections nor the highest index |
| PhyModel.SectionLimitReached | DZSimulator-main/src/csgo_parsing/PhyModelParsing.cpp:168-169 | with more than 16000 sections kept, a further section header fails the model |
| PhyModel.Vertices | DZSimulator-main/src/csgo_parsing/PhyModelParsing.cpp:234-265 | no vertices when no index was read, otherwise exactly highest + 1 of them |
| PhyModel.SectionsHighest16Bit | DZSimulator-main/src/csgo_parsing/PhyModelParsing.cpp:209-227 | face indices are 16-bit, so the loop never raises the highest index to 65536 or more |
| PhyModel.NoVertexLimit | DZSimulator-main/src/csgo_parsing/PhyModelParsing.cpp:236-241 | at most 65536 vertices are read, so the vertex limit of 256000 never fails a model |
| PhyModel.LineAt | DZSimulator-main/src/csgo_parsing/PhyModelParsing.cpp:273-279 | a line read is the newline-free run before a newline in the file, ending within the read limit |
| PhyModel.LineAtIsReadLine | DZSimulator-main/src/csgo_parsing/AssetFileReader.cpp:158-184 | the line is what the asset reader's ReadLine delivers from a memory file with the bytes left as fail length |
| PhyModel.SurfacePropRoundTrip | DZSimulator-main/src/csgo_parsing/PhyModelParsing.cpp:267-291 | the lines `solid {` and `"surfaceprop" "v"` at the text section, within the limit, give the surface property v |
| PhyModel.ParseBinary | DZSimulator-main/src/csgo_parsing/PhyModelParsing.cpp:108-265 | an accepted binary part has at most 16001 sections, in order, whose faces only use vertices that were read |
| PhyModel.ParsePhy | DZSimulator-main/src/csgo_parsing/PhyModelParsing.cpp:87-381 | the model fails exactly when its binary part fails, with that error; the text section never fails it |
| PhyModel.ParsedMeshesWellFormed | DZSimulator-main/src/csgo_parsing/PhyModelParsing.cpp:296-381 | a parsed model has at most 16001 sections, each a well-formed mesh: non-empty, at most 128000 triangles, indices within its vertices, edges unique and covering |
| PhyMesh.Winding | DZSimulator-main/src/csgo_parsing/PhyModelParsing.cpp:303-311 | one triangle per stored face |
| PhyMesh.WindingInverts | DZSimulator-main/src/csgo_parsing/PhyModelParsing.cpp:305-311 | a triangle runs the other way round from its face: each directed edge is a face edge reversed, with the same corners |
| PhyMesh.Flat | DZSimulator-main/src/csgo_parsing/PhyModelParsing.cpp:316-317 | three indices per triangle in the visiting order |
| PhyMesh.LutIsFirstAppearance | DZSimulator-main/src/csgo_parsing/PhyModelParsing.cpp:315-325 | the table maps exactly the indices that occur, and the k-th index to appear first is renumbered k |
| PhyMesh.LutBelowSize | DZSimulator-main/src/csgo_parsing/PhyModelParsing.cpp:315-330 | every index that occurs is renumbered below the table size and leads back to itself |
| PhyMesh.NovelMeans | DZSimulator-main/src/csgo_parsing/PhyModelParsing.cpp:348-358 | an edge is novel exactly when no listed edge joins the same two vertices in either orientation |
| PhyMesh.UniqueEdgesDistinct | DZSimulator-main/src/csgo_parsing/PhyModelParsing.cpp:338-363 | no two unique edges join the same vertices, in either orientation |
| PhyMesh.UniqueEdgesCover | DZSimulator-main/src/csgo_parsing/PhyModelParsing.cpp:338-363 | every side of every triangle is joined by one of the unique edges |
| PhyMesh.UniqueEdgesSound | DZSimulator-main/src/csgo_parsing/PhyModelParsing.cpp:338-363 | every unique edge is a directed side of some triangle |
| PhyMesh.Renumber | DZSimulator-main/src/csgo_parsing/PhyModelParsing.cpp:327-330 | one renumbered triangle per triangle |
| PhyMesh.Gather | DZSimulator-main/src/csgo_parsing/PhyModelParsing.cpp:332-336 | new vertex k is the model's vertex with the k-th old index |
| PhyMesh.BuildMesh | DZSimulator-main/src/csgo_parsing/PhyModelParsing.cpp:300-372 | one triangle per face of the section |
| PhyMesh.BuildMeshCorrect | DZSimulator-main/src/csgo_parsing/PhyModelParsing.cpp:300-372 | the section mesh keeps the geometry: one vertex per distinct index its faces use, and triangle i lies on the model's vertices v1, v3, v2 of face i |
| PhyMesh.BuildMeshEdges | DZSimulator-main/src/csgo_parsing/PhyModelParsing.cpp:338-372 | the section's edges have no duplicates in either orientation, list every triangle side, are all triangle sides, and index its vertices |
| XPropLut.GetGenParams | DZSimulator-main/src/coll/CollidableWorld-xprop.h:84-91 | a candidate index names a valid axis (0 to 2) and direction (+1 or -1) and belongs to the unique edge index / 6 |
| XPropLut.GetCandidateIdx | DZSimulator-main/src/coll/CollidableWorld-xprop.h:93-99 | a candidate index lies in its edge's block of six, in its axis' pair |
| XPropLut.CandidateIdxOfGenParams | DZSimulator-main/src/coll/CollidableWorld-xprop.h:84-99 | every candidate index is recovered from its generation parameters |
| XPropLut.GenParamsOfCandidateIdx | DZSimulator-main/src/coll/CollidableWorld-xprop.h:84-99 | generation parameters with a valid axis and direction are recovered from their candidate index |
| XPropLut.Insert | DZSimulator-main/src/coll/CollidableWorld-xprop.cpp:693-694 | inserting into a sorted list keeps it sorted and adds exactly that one element |
| XPropLut.Sort | DZSimulator-main/src/coll/CollidableWorld-xprop.cpp:693-694 | the valid candidate indices are put in ascending order without losing or adding any |
| XPropLut.EncodeGap | DZSimulator-main/src/coll/CollidableWorld-xprop.cpp:699-706 | recursive indexing writes a gap as a run of 255s closed by one value below 255 |
| XPropLut.EncodeFrom | DZSimulator-main/src/coll/CollidableWorld-xprop.cpp:696-710 | the table is empty exactly when there are no indices, and otherwise ends on a value below 255 |
| XPropLut.Encode | DZSimulator-main/src/coll/CollidableWorld-xprop.cpp:518-712 | the table is empty exactly when no bevel candidate is valid, and never ends inside a run of 255s |
| XPropLut.EncodeGapSize | DZSimulator-main/src/coll/CollidableWorld-xprop.cpp:699-706 | a gap is stored in one byte for every full 255 in it plus the byte that closes it |
| XPropLut.MemorySizeOfEncode | DZSimulator-main/src/coll/CollidableWorld-xprop.cpp:696-716 | the table built from valid candidate indices that are all at most a bound takes at least one byte per index and at most one more byte for every full 255 in the bound |
| XPropLut.GetNext | DZSimulator-main/src/coll/CollidableWorld-xprop.cpp:734-758 | at the end of the table nothing is generated; otherwise the cursor moves forward, the running index never decreases, and a generated index is the new running index |
| XPropLut.GetNextOfGap | DZSimulator-main/src/coll/CollidableWorld-xprop.cpp:744-758 | one encoded gap is consumed in one call and raises the running index by exactly that gap |
| XPropLut.DecodeEncodeFrom | DZSimulator-main/src/coll/CollidableWorld-xprop.cpp:696-758 | whatever precedes it, the encoding of an ascending list read from its predecessor yields exactly that list |
| XPropLut.DecodeEncode | DZSimulator-main/src/coll/CollidableWorld-xprop.cpp:693-758 | round trip: a fresh generator yields exactly the valid candidate indices in ascending order and then stops |
| Displacement.TriSizeCountsTiles | DZSimulator-main/src/coll/CollidableWorld-displacement.h:157-160 | GetTriSize is two triangles per tile of the (2^p + 1)-wide vertex grid, and GetSize is the square of the width |
| Displacement.MortonIsSum | DZSimulator-main/src/coll/CollidableWorld-displacement.h:249-260 | the two interleave loops set disjoint bits, x's at even positions and y's at odd ones, so their OR is a sum |
| Displacement.MortonDecodes | DZSimulator-main/src/coll/CollidableWorld-displacement.h:249-260 | the column and row are recovered from the interleaved leaf index |
| Displacement.MortonInjective | DZSimulator-main/src/coll/CollidableWorld-displacement.h:249-260 | distinct tiles get distinct leaf indices |
| Displacement.MortonOfSlot | DZSimulator-main/src/coll/CollidableWorld-displacement.h:249-260 | every leaf index is the interleave of the column and row it encodes |
| Displacement.MortonBound | DZSimulator-main/src/coll/CollidableWorld-displacement.h:249-260 | a column and row below 2^k give a leaf index below 4^k |
| Displacement.SlotBound | DZSimulator-main/src/coll/CollidableWorld-displacement.h:249-260 | a leaf index below 4^k encodes a column and row below 2^k |
| Displacement.CalcCountIsQuadTree | DZSimulator-main/src/coll/CollidableWorld-displacement.h:243-247 | 4^(p+1) / 3 is the node count 1 + 4 + ... + 4^p of a complete quad tree of depth p |
| Displacement.InnerNodesCount | DZSimulator-main/src/coll/CollidableWorld-displacement.cpp:969-975 | the node count minus the (w-1)^2 leaves is the size of the depth p-1 tree, so 3 * inner + 1 == 4^p |
| Displacement.NodeChild | DZSimulator-main/src/coll/CollidableWorld-displacement.h:235-241 | the child of an inner node in any of the four directions lies after it and inside the node range |
| Displacement.ChildParent | DZSimulator-main/src/coll/CollidableWorld-displacement.h:235-241 | a child index determines its parent and its direction |
| Displacement.ParentChild | DZSimulator-main/src/coll/CollidableWorld-displacement.h:235-241 | every non-root node is the child of an inner node |
| Displacement.LeafIndex | DZSimulator-main/src/coll/CollidableWorld-displacement.cpp:999-1000 | a leaf node's index minus the inner node count is a valid leaf |
| Displacement.LeafNodes | DZSimulator-main/src/coll/CollidableWorld-displacement.cpp:616-619 | leaf l is node inner + l, which IsLeafNode accepts, maps back to l, and has an inner parent |
| Displacement.TileTrisCorners | DZSimulator-main/src/coll/CollidableWorld-displacement.cpp:937-960 | a tile's two triangles use only its four corner vertices and together use all four |
| Displacement.TileInGrid | DZSimulator-main/src/coll/CollidableWorld-displacement.h:63 | every tile triangle's vertex numbers lie in the vertex grid and fit the 9-bit field SetVert asserts |
| Displacement.TileIndexOrder | DZSimulator-main/src/coll/CollidableWorld-displacement.cpp:981-985 | tiles are numbered row by row, left to right |
| Displacement.CopyDispData | DZSimulator-main/src/coll/CollidableWorld-displacement.cpp:909-966 | GetTriSize triangles, tile (x, y) at positions 2i and 2i+1 for its row-major number i, all vertices inside the grid |
| Displacement.CreateLeafs | DZSimulator-main/src/coll/CollidableWorld-displacement.cpp:969-990 | (w-1)^2 leaves and the depth p-1 tree's inner nodes fill the node count; every tile's leaf sits at its interleaved index, and every slot holds the leaf of the tile it encodes |
| Displacement.SlotsFilled | DZSimulator-main/src/coll/CollidableWorld-displacement.cpp:981-990 | once every tile has been placed, no leaf slot is left unfilled |
| Displacement.FindSame | DZSimulator-main/src/coll/CollidableWorld-displacement.cpp:640-649 | a found entry holds the plane or its negation, and none is found only when no entry does |
| Displacement.AddPlane | DZSimulator-main/src/coll/CollidableWorld-displacement.cpp:1404-1425 | the edge plane list is kept as a prefix and grows by at most one plane |
| Displacement.PlaneIndexBits | DZSimulator-main/src/coll/CollidableWorld-displacement.cpp:1573-1583 | an index below 0x7fff has no negation bit and is not the undefined value; with 0x8000 set it is flagged negated and masks back to itself |
| Displacement.AddPlaneDecodes | DZSimulator-main/src/coll/CollidableWorld-displacement.cpp:1404-1425 | the returned plane index decodes, as EdgeCrossAxis reads it, to exactly the plane that was added, and the lookup table stays consistent |
| Displacement.CacheSlots | DZSimulator-main/src/coll/CollidableWorld-displacement.cpp:1377-1402 | caching one triangle keeps the earlier planes and each of its slots decodes to the plane computed for it, or is undefined when there was none |
| Displacement.CacheAll | DZSimulator-main/src/coll/CollidableWorld-displacement.cpp:1060-1067 | caching every triangle keeps the earlier planes and every triangle's slots decode to its planes |
| Displacement.EnsureCacheIsCreated | DZSimulator-main/src/coll/CollidableWorld-displacement.cpp:1053-1068 | afterwards the cache is generated; an existing cache is left alone; a new one decodes to every triangle's planes; the tree's other fields do not change |
| Displacement.EnsureCacheIdempotent | DZSimulator-main/src/coll/CollidableWorld-displacement.cpp:1053-1056 | a second call changes nothing |
| Displacement.Uncache | DZSimulator-main/src/coll/CollidableWorld-displacement.cpp:1070-1073 | the cache and the edge planes are emptied and nothing else changes |
| Displacement.UncacheDropsCache | DZSimulator-main/src/coll/CollidableWorld-displacement.cpp:1048-1073 | after Uncache the cache counts as not generated |
| Displacement.StoredFlags | DZSimulator-main/src/coll/CollidableWorld-displacement.cpp:1705 | clearing the top bit leaves a value below 2^31 |
| Displacement.StoredFlagsBits | DZSimulator-main/src/coll/CollidableWorld-displacement.cpp:1705 | bit k of the stored flags is set exactly when k < 31 and bit k of the flags on disk is set |
| Displacement.CheckSingleFlag | DZSimulator-main/src/coll/CollidableWorld-displacement.h:154-155 | CheckFlags with a single-bit mask answers whether that flag was set on disk, and is false for the cleared top bit |
| Displacement.NewDispTree | DZSimulator-main/src/coll/CollidableWorld-displacement.cpp:1698-1717 | the tree keeps the power and the cleaned flags, has GetTriSize triangles and (2^p)^2 leaves filling the node count with the inner nodes, every leaf holds its tile's two triangles, and no cache exists yet |
| Bvh.CreateLeaves | DZSimulator-main/src/coll/BVH.cpp:534-540 | a dummy leaf sits at index 0 and the real leaves follow in order |
| Bvh.RangeCounts | DZSimulator-main/src/coll/BVH.cpp:64-69 | the leaf reference list holds each index from lo to hi - 1 exactly once and nothing else |
| Bvh.SortAlong | DZSimulator-main/src/coll/BVH.cpp:81-92 | the references come out sorted by centroid along the axis and are a permutation of the input |
| Bvh.RootRefs | DZSimulator-main/src/coll/BVH.cpp:61-99 | three reference lists, one per axis, each a permutation of the real leaves and sorted along its axis |
| Bvh.SideLut | DZSimulator-main/src/coll/BVH.cpp:795-801 | the lookup marks a leaf as left exactly when it is in the left part of the split axis |
| Bvh.StablePartitionPermutes | DZSimulator-main/src/coll/BVH.cpp:803-822 | copying back left leaves first and right leaves second loses and adds nothing |
| Bvh.FilterMatchesCut | DZSimulator-main/src/coll/BVH.cpp:795-833 | on a non-split axis the left child receives exactly the leaves of the split axis' first split_pos entries, and the right child the rest |
| Bvh.SplitKeepsLeaves | DZSimulator-main/src/coll/BVH.cpp:771-833 | both children's reference lists stay coherent over the three axes, have split_pos and count - split_pos entries, and together hold the parent's leaves |
| Bvh.SplitTopKeepsInv | DZSimulator-main/src/coll/BVH.cpp:752-888 | one split of the top stack entry keeps the hierarchy invariant and makes progress |
| Bvh.CreateNodeHierarchy | DZSimulator-main/src/coll/BVH.cpp:727-889 | leaf count - 1 nodes are built, every child reference is valid, each real leaf is referenced once and each non-root node is the child of exactly one node |
| Bvh.SetNodeContentsInfo | DZSimulator-main/src/coll/BVH.cpp:891-937 | every node's contents are its children's contents, and so exactly the leaf types found in its subtree |
| Bvh.Build | DZSimulator-main/src/coll/BVH.cpp:40-114 | construction succeeds exactly when leaf creation did and there are at least two leaves; on failure there are no nodes; on success the tree has leaf count - 1 well-formed nodes covering every leaf once, with the contents of each subtree |
| Bvh.EachLeafOnce | DZSimulator-main/src/coll/BVH.cpp:56-57 | in a successfully built tree each real leaf is a child of exactly one node and no other index is referenced as a leaf |
| Debugger.Fail | DZSimulator-main/src/coll/Debugger.cpp:34-39 | an error is recorded, the first one is kept, and nothing else changes |
| Debugger.Reset | DZSimulator-main/src/coll/Debugger.cpp:140-147 | the history is empty, no trace is open, no error is recorded and the draw state is the default |
| Debugger.NewHitData | DZSimulator-main/src/coll/Debugger.cpp:194-220 | a hit gets displacement data exactly when its leaf is a displacement, and that data starts with no inner hits |
| Debugger.ApplyKeepsWellFormed | DZSimulator-main/src/coll/Debugger.cpp:98-412 | every entry point keeps the state well formed; in particular the history never holds more than 50 traces |
| Debugger.ErrorLatches | DZSimulator-main/src/coll/Debugger.cpp:149-412 | after a usage error every entry point except Reset leaves the state unchanged |
| Debugger.ErrorLatchesRun | DZSimulator-main/src/coll/Debugger.cpp:149-412 | once an error occurred, no sequence of calls without Reset changes anything |
| Debugger.DebugStartTrace | DZSimulator-main/src/coll/Debugger.cpp:149-163 | after a usage error the call changes nothing; otherwise it fails exactly when a trace is still open, and else opens an empty trace with the given info and keeps the history |
| Debugger.DebugStartBroadPhaseLeafHit | DZSimulator-main/src/coll/Debugger.cpp:165-229 | after a usage error the call changes nothing; otherwise it succeeds exactly inside an open trace with no open hit, and then opens a hit carrying the leaf index, type and type-specific data, the rest of the trace unchanged |
| Debugger.DebugStartDispCollLeafHit | DZSimulator-main/src/coll/Debugger.cpp:231-258 | after a usage error the call changes nothing; otherwise it succeeds exactly inside an open broad-phase hit of any type with no open inner hit, and then opens that inner hit |
| Debugger.DebugFinishDispCollLeafHit | DZSimulator-main/src/coll/Debugger.cpp:283-328 | after a usage error the call changes nothing; otherwise it succeeds exactly inside an open displacement-type hit with an open inner hit, and on a well-formed state it closes that inner hit and appends it to the hit's list |
| Debugger.DebugFinishBroadPhaseLeafHit | DZSimulator-main/src/coll/Debugger.cpp:330-364 | after a usage error the call changes nothing; otherwise it succeeds exactly when a hit is open with no open inner hit, closes it and appends it to the trace's finished hits |
| Debugger.DebugFinishTrace | DZSimulator-main/src/coll/Debugger.cpp:366-412 | after a usage error the call changes nothing; otherwise it succeeds exactly when the trace is open with no open hit; it closes the trace, resets the draw state and ends the history with an entry of the trace's info, the results and its hits |
| Debugger.PushHistoryLength | DZSimulator-main/src/coll/Debugger.cpp:406-408 | a full history keeps its length, any other grows by one, and the new entry is last |
| Debugger.RunHitCalls | DZSimulator-main/src/coll/Debugger.cpp:165-364 | one correctly bracketed broad-phase hit, with its inner displacement hits, appends exactly its record to the finished hits |
| Debugger.RunOpenTrace | DZSimulator-main/src/coll/Debugger.cpp:149-364 | starting a trace and bracketing its hits leaves the trace open with their records in call order |
| Debugger.TraceRecorded | DZSimulator-main/src/coll/Debugger.cpp:149-412 | a correctly nested call sequence records no error and appends exactly one history entry holding the hits in call order |
| CsgoGame.NewGame | DZSimulator-main/src/sim/CsgoGame.cpp:22-38 | a new game has not been started, at tick 0 with no inputs |
| CsgoGame.IntervalOf | DZSimulator-main/src/sim/CsgoGame.cpp:48-49 | the tick interval is the whole number of microseconds in step / timescale seconds, rounded down |
| CsgoGame.Start | DZSimulator-main/src/sim/CsgoGame.cpp:40-66 | a started game is at tick 0 with the initial world state and no inputs, tick k lies k intervals after the start, and tick 1 is predicted from the initial state with no input |
| CsgoGame.StartAllowsZeroInterval | DZSimulator-main/src/sim/CsgoGame.cpp:43-53 | a step of 0.1 microseconds at timescale 1 is accepted and gives a zero interval, so every tick ends before the next microsecond and the tick search in ProcessNewPlayerInput cannot stop |
| CsgoGame.StartChecked | DZSimulator-main/src/sim/CsgoGame.cpp:40-66 | Start with the step refused exactly when it is shorter than one microsecond of wall-clock time; an accepted game has a positive interval and is what Start gives |
| CsgoGame.TargetTickUnique | DZSimulator-main/src/sim/CsgoGame.cpp:92-95 | the tick that directly precedes an input is unique |
| CsgoGame.ProcessNewPlayerInput | DZSimulator-main/src/sim/CsgoGame.cpp:68-165 | before Start the default state comes back and nothing changes; otherwise the finalized tick becomes the one directly preceding the input, ticks passed without input are stepped with no input (the first one copied from the prediction), the inputs since the finalized tick are kept in order, the next tick is predicted from them, and the drawn state interpolates towards it |
| CsgoGame.InputsStayChronological | DZSimulator-main/src/sim/CsgoGame.cpp:80-85 | appending an input no earlier than the stored ones keeps them in chronological order |
| CsgoGame.TickTimesIncrease | DZSimulator-main/src/sim/CsgoGame.cpp:167-171 | with a positive interval a later tick has a later time point |
| CsgoGame.TargetTickIsLastBefore | DZSimulator-main/src/sim/CsgoGame.cpp:92-95 | the found tick is before the input and the next tick is at or after it |
| WorldState.CommandPairs | DZSimulator-main/src/sim/Entities/Player.h:47-83 | every command is the plus or the minus command of the counter it names |
| WorldState.CounterOfPair | DZSimulator-main/src/sim/Entities/Player.h:47-83 | the plus and the minus command of a counter both name that counter, and only the first is a plus command |
| WorldState.Set | DZSimulator-main/src/sim/Entities/Player.h:47-83 | writing a counter through its reference changes that counter and no other |
| WorldState.Bump | DZSimulator-main/src/sim/WorldState.cpp:77-83 | a plus command increments the unsigned counter with wrap-around, and a minus command decrements only a positive one |
| WorldState.PressRelease | DZSimulator-main/src/sim/WorldState.cpp:77-83 | pressing and releasing a key restores its counter unless it was at the maximum, and a pressed key reads as held |
| WorldState.DefaultPlayerCounters | DZSimulator-main/src/sim/Entities/Player.h:18-41 | a new player has every counter at 0, full stamina of 80, is not crouched and holds weapon slot 0 |
| WorldState.OrIfBits | DZSimulator-main/src/sim/WorldState.cpp:146-160 | a conditional OR sets the flag's bit when the condition holds and keeps all others |
| WorldState.FlagValues | DZSimulator-main/src/sim/CsgoMovement.h:13-19 | the button flags are the single bits 1, 2, 3, 4, 9, 10 and 17 |
| WorldState.ButtonsBits | DZSimulator-main/src/sim/WorldState.cpp:146-160 | a button bit is set exactly when its key is held |
| WorldState.MoveAmount | DZSimulator-main/src/sim/WorldState.cpp:162-168 | one key held gives +450 or -450, both or neither give 0 |
| WorldState.WalkingInputs | DZSimulator-main/src/sim/WorldState.cpp:98-168 | without attack2 held the player walks, the button mask holds exactly the bits of the held keys, and forward and side move follow the key pairs |
| WorldState.DoTimeStep | DZSimulator-main/src/sim/WorldState.cpp:35-209 | without a map nothing changes; otherwise every command of every input is applied to its counter in order, the latest input sets pitch and yaw with roll 0, the movement is derived from the new counters and the attack flag, and crouching is updated only by walking movement |
| WorldState.ProcessFrame | DZSimulator-main/src/sim/WorldState.cpp:50-84 | a command changes only the counter it names |
| WorldState.ProcessAll | DZSimulator-main/src/sim/WorldState.cpp:50-85 | each counter sees only its own pair's commands, in order, each one stepping it as Bump does |
| WorldState.UntouchedCounter | DZSimulator-main/src/sim/WorldState.cpp:50-85 | a counter none of whose commands occur keeps its value |
| WorldState.AttackAtPrefix | DZSimulator-main/src/sim/WorldState.cpp:55-57 | later commands do not change whether an earlier +attack finds its counter released |
| WorldState.TryAttack | DZSimulator-main/src/sim/WorldState.cpp:47-57 | the attack flag is set exactly when some +attack is processed while the counter, as the earlier commands left it, is 0 |
| VersionCheck.SkipSpace | DZSimulator-main/src/GitHubChecker.cpp:216-221 | the first non-space position at or after i: everything skipped is whitespace and the stop is not |
| VersionCheck.Component | DZSimulator-main/src/GitHubChecker.cpp:237-248 | an accepted component is one to five characters long and lies inside the text |
| VersionCheck.CompareFrom | DZSimulator-main/src/GitHubChecker.cpp:237-303 | the comparison answers -1, 0 or 1 |
| VersionCheck.VersionText | DZSimulator-main/src/GitHubChecker.cpp:214-232 | an all-whitespace tag has no version text, and a found version text is not empty |
| VersionCheck.IsGitTagFromNewerVersion | DZSimulator-main/src/GitHubChecker.cpp:207-304 | the answer is 1, 0 or -1, and -1 when the tag has no version text |
| VersionCheck.DecRoundTrip | DZSimulator-main/src/GitHubChecker.cpp:244-248 | a number's decimal digits read back as the number, and numbers below 100000 fit the five-digit limit |
| VersionCheck.CompareJoin | DZSimulator-main/src/GitHubChecker.cpp:237-303 | written-out components separated by dots are read back and compared lexicographically with the running version |
| VersionCheck.CompareNext | DZSimulator-main/src/GitHubChecker.cpp:253-259 | a component equal to the running one hands the comparison on to the text after the next dot |
| VersionCheck.TagCompare | DZSimulator-main/src/GitHubChecker.cpp:207-304 | a release tag after any whitespace, followed by nothing or a non-digit, gives 1 exactly when the release is newer than the running version and 0 otherwise |
| VersionCheck.TagComponents | DZSimulator-main/src/GitHubChecker.cpp:244-298 | the written-out components of a release below 100000 are all accepted and stand for its numbers |
| VersionCheck.VersionStart | DZSimulator-main/src/GitHubChecker.cpp:214-232 | leading whitespace and a 'v' are skipped |
| VersionCheck.LexCompareNewer | DZSimulator-main/src/GitHubChecker.cpp:250-303 | comparing major, then minor, then patch is version order |
| VersionCheck.DigitStart | DZSimulator-main/src/GitHubChecker.cpp:214-232 | a tag starting with a digit is its own version text |
| VersionCheck.MajorDecides | DZSimulator-main/src/GitHubChecker.cpp:250-251 | a major component different from the running one decides alone, whatever follows |
| VersionCheck.LongMajorInvalid | DZSimulator-main/src/GitHubChecker.cpp:243-245 | a major component of six or more digits makes the tag malformed |
| VersionCheck.VPrefixOptional | DZSimulator-main/src/GitHubChecker.cpp:226-228 | a 'v' or 'V' prefix may be present or not, with the same result |
| Popup.Encode | DZSimulator-main/src/gui/Popup.cpp:16-27 | a queue entry holds the type id, the title and the message with one NUL between each |
| Popup.Queue | DZSimulator-main/src/gui/Popup.cpp:16-27 | queueing appends one entry behind the ones already queued |
| Popup.SplitNul | DZSimulator-main/src/gui/Popup.cpp:60-66 | an entry always has at least one component |
| Popup.SplitJoin | DZSimulator-main/src/gui/Popup.cpp:60-66 | splitting at NUL loses nothing: the parts joined with NUL give the entry back, and no part holds a NUL |
| Popup.JoinSplit | DZSimulator-main/src/gui/Popup.cpp:60-66 | splitting the join of NUL-free parts gives the parts back |
| Popup.Decode | DZSimulator-main/src/gui/Popup.cpp:67-94 | an entry without NUL is shown as an INFO popup with the entry as its message, and a shown message never holds a NUL |
| Popup.DecodeEncode | DZSimulator-main/src/gui/Popup.cpp:16-94 | round trip: a queued NUL-free message is shown with its own type, its title as the window name, and its text |
| Popup.EmbeddedNulTruncates | DZSimulator-main/src/gui/Popup.cpp:60-94 | a message holding a NUL is shown only up to that NUL |
| Popup.LinesHaveNoNewline | DZSimulator-main/src/gui/Popup.cpp:91-94 | no shown line holds a line break |
| Popup.LinesJoin | DZSimulator-main/src/gui/Popup.cpp:91-94 | the lines joined with line breaks give the message back, less a final line break |
| Popup.NextPopup | DZSimulator-main/src/gui/Popup.cpp:54-59 | while a popup is open or nothing is queued nothing is taken; otherwise exactly one entry is taken and shown |
| Popup.QueueBehind | DZSimulator-main/src/gui/Popup.cpp:16-59 | first in, first out: the oldest entry is shown and a new message waits behind the rest |
| Popup.QueueAlone | DZSimulator-main/src/gui/Popup.cpp:16-94 | a message queued on an empty queue is shown next, with its own type, title and text |
| PathNormalization.Step | DZSimulator-main/thirdparty/fsal_modified/fsal/sources/FastPathNormalization.cpp:88-127 | each turn of the normalisation loop consumes at least one character of the path, read from its end |
| PathNormalization.Loop | DZSimulator-main/thirdparty/fsal_modified/fsal/sources/FastPathNormalization.cpp:88-127 | the loop reads the whole path, stopping only when nothing is left before the read cursor |
| PathNormalization.UpToNul | DZSimulator-main/thirdparty/fsal_modified/fsal/sources/FastPathNormalization.cpp:195 | what strlen keeps is a NUL-free prefix of the buffer |
| PathNormalization.DropNul | DZSimulator-main/thirdparty/fsal_modified/fsal/sources/FastPathNormalization.cpp:130-148 | squeezing the written part to the buffer's start keeps no NUL and never grows it |
| PathNormalization.Normalize | DZSimulator-main/thirdparty/fsal_modified/fsal/sources/FastPathNormalization.cpp:76-196 | for every input, the normalised path is no longer than the input and holds no backslash and no NUL |
| PathNormalization.CleanPathKept | DZSimulator-main/thirdparty/fsal_modified/fsal/sources/FastPathNormalization.cpp:76-196 | a path with single separators of either kind and no "." or ".." entry comes back with every separator written as '/', and its depth is its number of separators, not counting one at the very end |
| PathNormalization.DotEntryDropped | DZSimulator-main/thirdparty/fsal_modified/fsal/sources/FastPathNormalization.cpp:59-73 | a "." entry between two clean stretches is removed together with one separator |
| PathNormalization.DotDotEntryDropped | DZSimulator-main/thirdparty/fsal_modified/fsal/sources/FastPathNormalization.cpp:42-57 | an entry followed by ".." between two clean stretches is removed together with the ".." and one separator |
| FileList.KeyOf | DZSimulator-main/thirdparty/fsal_modified/fsal/sources/FileListBinarySearch.h:15-22 | the key built from a path holds no NUL, so the C-string comparisons see all of it |
| FileList.EntryOf | DZSimulator-main/thirdparty/fsal_modified/fsal/sources/FileListBinarySearch.h:19-22 | an added entry carries its path's normalised key and depth, and the data it was added with |
| FileList.PathLessTotal | DZSimulator-main/thirdparty/fsal_modified/fsal/sources/FileListBinarySearch.h:37-49 | the order on paths is total: of two different paths one is before the other |
| FileList.EntryLeBoth | DZSimulator-main/thirdparty/fsal_modified/fsal/sources/FileListBinarySearch.h:37-49 | two entries neither before the other have the same depth and path, so the entry order sorts by depth first, then by path |
| FileList.Insert | DZSimulator-main/thirdparty/fsal_modified/fsal/sources/FileListBinarySearch.h:81 | inserting keeps every entry and adds exactly the new one |
| FileList.InsertSorted | DZSimulator-main/thirdparty/fsal_modified/fsal/sources/FileListBinarySearch.h:81 | inserting into an ordered list keeps it ordered |
| FileList.SortSorted | DZSimulator-main/thirdparty/fsal_modified/fsal/sources/FileListBinarySearch.h:81 | the sort before the first lookup orders the list by depth, then path, and is a permutation of it |
| FileList.SortSameEntries | DZSimulator-main/thirdparty/fsal_modified/fsal/sources/FileListBinarySearch.h:81 | an entry is in the sorted list exactly when it was added |
| FileList.StrCmpOrder | DZSimulator-main/thirdparty/fsal_modified/fsal/sources/FileListBinarySearch.h:51-56 | for NUL-free strings the comparison is zero exactly for equal strings, and negative exactly when the first is before the second in the path order |
| FileList.Resize | DZSimulator-main/thirdparty/fsal_modified/fsal/sources/FileListBinarySearch.h:89 | a resized table has the new length, keeps its old slots, and fills new slots with the given value |
| FileList.TableTurn | DZSimulator-main/thirdparty/fsal_modified/fsal/sources/FileListBinarySearch.h:84-93 | after an entry is visited the table reaches that entry's depth, and stays ascending and bounded by the next index |
| FileList.DepthTableOk | DZSimulator-main/thirdparty/fsal_modified/fsal/sources/FileListBinarySearch.h:82-94 | in both the as-written and the corrected version, the depth table has at least two slots, ascending and within the list |
| FileList.CorrectedTableCuts | DZSimulator-main/thirdparty/fsal_modified/fsal/sources/FileListBinarySearch.h:82-94 | with skipped slots filled by the index of the deeper entry, slot d of the table over a list sorted by depth is where depth d begins, for every slot, and every depth present has a slot |
| FileList.Search | DZSimulator-main/thirdparty/fsal_modified/fsal/sources/FileListBinarySearch.h:108-145 | the binary search answers with a hit inside the range searched, or a lower bound within it |
| FileList.SearchFinds | DZSimulator-main/thirdparty/fsal_modified/fsal/sources/FileListBinarySearch.h:108-152 | over paths in order, the search finds the key when it is there; otherwise it stops at the key's lower bound, with paths before it below the key and the rest above it |
| FileList.GetIndex | DZSimulator-main/thirdparty/fsal_modified/fsal/sources/FileListBinarySearch.h:98-152 | GetIndex answers (-1, -1) or an index pair within the list |
| FileList.Lookup | DZSimulator-main/thirdparty/fsal_modified/fsal/sources/FileListBinarySearch.h:76-153 | a lookup, sorting and building the table on the way, answers (-1, -1) or an index pair within the list |
| FileList.LookupFinds | DZSimulator-main/thirdparty/fsal_modified/fsal/sources/FileListBinarySearch.h:76-153 | the corrected lookup answers (i, i) at an entry with the key's path and depth exactly when such an entry was added; otherwise it answers (-1, -1), or the key's lower bound when asked for it |
| FileList.Exists | DZSimulator-main/thirdparty/fsal_modified/fsal/sources/FileListBinarySearch.h:155-159 | on a valid list, Exists holds exactly when an entry with the key's path and depth was added: always for the corrected lookup, and for the lookup as written when the list is not empty and skips no depth |
| FileList.FindEntry | DZSimulator-main/thirdparty/fsal_modified/fsal/sources/FileListBinarySearch.h:62-74 | on a valid list, FindEntry answers with the data of an entry added under the path's key, or with the default when there is none |
| FileList.Add | DZSimulator-main/thirdparty/fsal_modified/fsal/sources/FileListBinarySearch.h:161-166 | adding a path at depth 0 or more to a valid list keeps it valid and makes the path's key exist; when the key was not there before, the entry added is the only one that matches it |
| FileList.AddThenFind | DZSimulator-main/thirdparty/fsal_modified/fsal/sources/FileListBinarySearch.h:161-166 | after a path that was not there is added, FindEntry on it answers with the data added |
| FileList.LookupAgrees | DZSimulator-main/thirdparty/fsal_modified/fsal/sources/FileListBinarySearch.h:84-93 | when the list is not empty and no depth is skipped, the lookup as written and the corrected one give the same answer for every key |
| FileList.FindEntryAsWritten | DZSimulator-main/thirdparty/fsal_modified/fsal/sources/FileListBinarySearch.h:62-74 | when the list is not empty and no depth is skipped, FindEntry as written answers as the corrected one does |
| FileList.ExistsAgrees | DZSimulator-main/thirdparty/fsal_modified/fsal/sources/FileListBinarySearch.h:155-159 | when the list is not empty and no depth is skipped, Exists as written holds exactly when the corrected one does |
| FileList.NameKey | DZSimulator-main/thirdparty/fsal_modified/fsal/sources/FileListBinarySearch.h:15-22 | a plain file name with no separator is its own key, at depth 0 |
| FileList.FindAtIndex | DZSimulator-main/thirdparty/fsal_modified/fsal/sources/FileListBinarySearch.h:68-73 | when the lookup gives an index inside a list that is already sorted, FindEntry answers with that entry's data |
| FileList.SkippedDepthAsWritten | DZSimulator-main/thirdparty/fsal_modified/fsal/sources/FileListBinarySearch.h:89 | with files at depths 0 and 2 only, the table as written makes depth 0's bucket look empty, so the lookup of "b" answers with the data of "a"; the corrected one answers with the data of "b" |
| FileList.EmptyListAsWritten | DZSimulator-main/thirdparty/fsal_modified/fsal/sources/FileListBinarySearch.h:108-110 | as written, an empty list answers a lookup with (0, 0), so Exists holds and FindEntry reads past the end; corrected, nothing exists |
| FileList.DotKeyAboveRoot | DZSimulator-main/thirdparty/fsal_modified/fsal/sources/FastPathNormalization.cpp:98-102 | the path "." normalises to depth -1, one above the root, because a "." entry lowers the depth by one |
| FileList.AboveRootPassesGuard | DZSimulator-main/thirdparty/fsal_modified/fsal/sources/FileListBinarySearch.h:98-104 | as written, the guard of GetIndex lets the key of "." through for every list, since the table has at least two slots, so the code goes on to read slot -1 |
| FileList.LookupChecked | DZSimulator-main/thirdparty/fsal_modified/fsal/sources/FileListBinarySearch.h:98-101 | with the guard extended to keys above the root, such a key has no bucket and misses, with (-1, -1) |
| FileList.LookupCheckedFinds | DZSimulator-main/thirdparty/fsal_modified/fsal/sources/FileListBinarySearch.h:98-152 | the guarded lookup of any key, whatever its depth, answers (i, i) at an entry with the key's path and depth exactly when one was added, and (-1, -1) or the lower bound otherwise |
| FileList.FindEntryCheckedFinds | DZSimulator-main/thirdparty/fsal_modified/fsal/sources/FileListBinarySearch.h:62-74 | the guarded FindEntry of any path answers with the data of an entry added under its key, or with the default when there is none |
| FileList.DotNeverFound | DZSimulator-main/thirdparty/fsal_modified/fsal/sources/FileListBinarySearch.h:62-74 | the guarded FindEntry of "." answers with the default, whatever the list holds |
| Vpk.Scan | DZSimulator-main/thirdparty/fsal_modified/fsal/sources/VpkArchive.cpp:14-26 | the scan for a NUL stays inside the data |
| Vpk.ScanSpec | DZSimulator-main/thirdparty/fsal_modified/fsal/sources/VpkArchive.cpp:14-26 | the scan finds the first NUL at or after the start, and finds nothing only when there is none |
| Vpk.ReadString | DZSimulator-main/thirdparty/fsal_modified/fsal/sources/VpkArchive.cpp:14-26 | read_string never moves backwards or past the end, and a non-empty string consumes at least one byte |
| Vpk.ReadStringSpec | DZSimulator-main/thirdparty/fsal_modified/fsal/sources/VpkArchive.cpp:14-26 | a non-empty string is the NUL-free run of bytes before a NUL, which is consumed too; an empty string means a NUL right at the start, or no NUL before the end, where reading stops |
| Vpk.ReadStringAt | DZSimulator-main/thirdparty/fsal_modified/fsal/sources/VpkArchive.cpp:14-26 | a NUL-free string written with its NUL is read back whole, and reading stops right after the NUL |
| Vpk.ParseHeader | DZSimulator-main/thirdparty/fsal_modified/fsal/sources/VpkArchive.cpp:69-88 | the header is accepted exactly when it is long enough, the signature matches, the version is 1 or 2, and a version 2 file holds the longer header; the tree starts right after the header |
| Vpk.HeaderRoundTrip | DZSimulator-main/thirdparty/fsal_modified/fsal/sources/VpkArchive.cpp:69-88 | a version 1 header written for a tree size is read back with that size, the tree starting right after it |
| Vpk.DecodeEntryHeader | DZSimulator-main/thirdparty/fsal_modified/fsal/sources/VpkArchive.cpp:140-151 | the packed entry header is read with its fields in range, the preload count and the terminator from their positions |
| Vpk.EntryHeaderRoundTrip | DZSimulator-main/thirdparty/fsal_modified/fsal/sources/VpkArchive.cpp:140-151 | every entry header whose fields fit is decoded back from its encoding |
| Vpk.EntryAt | DZSimulator-main/thirdparty/fsal_modified/fsal/sources/VpkArchive.cpp:140-170 | an entry read moves past its header and stays inside the file |
| Vpk.EntryAtSpec | DZSimulator-main/thirdparty/fsal_modified/fsal/sources/VpkArchive.cpp:140-170 | an entry is read exactly when its header is there, ends with the terminator, and its preload bytes are there; it carries the header's fields, and the preload bytes only when the file is wanted |
| Vpk.Walk | DZSimulator-main/thirdparty/fsal_modified/fsal/sources/VpkArchive.cpp:94-180 | the tree walk fails with an overrun whenever an extension is to be read at or past the declared tree size |
| Vpk.Exts | DZSimulator-main/thirdparty/fsal_modified/fsal/sources/VpkArchive.cpp:94-100 | reading an extension at or past the declared tree size fails with an overrun |
| Vpk.Index | DZSimulator-main/thirdparty/fsal_modified/fsal/sources/VpkArchive.cpp:176-177 | the file list holds one entry per file found, in order, each under its "path/name.ext" key with its entry |
| Vpk.OpenArchive | DZSimulator-main/thirdparty/fsal_modified/fsal/sources/VpkArchive.cpp:55-186 | opening fails without a directory file; an opened archive has a readable header with a non-empty tree and indexes exactly the files it lists |
| Vpk.WalkFilter | DZSimulator-main/thirdparty/fsal_modified/fsal/sources/VpkArchive.cpp:106-119 | the extension filter changes only which files are listed: the tree is read and fails the same way, and what is listed is the unfiltered files of the wanted extensions |
| Vpk.FilesRoundTrip | DZSimulator-main/thirdparty/fsal_modified/fsal/sources/VpkArchive.cpp:132-178 | a written names level is read back as its files, and the walk goes on right after it |
| Vpk.DirsRoundTrip | DZSimulator-main/thirdparty/fsal_modified/fsal/sources/VpkArchive.cpp:121-179 | a written directories level is read back as the files of its directories, and the walk goes on right after it |
| Vpk.TreeRoundTrip | DZSimulator-main/thirdparty/fsal_modified/fsal/sources/VpkArchive.cpp:94-180 | a written tree inside the declared tree size is read back as all its files |
| Vpk.ArchiveRoundTrip | DZSimulator-main/thirdparty/fsal_modified/fsal/sources/VpkArchive.cpp:55-186 | opening a written directory file indexes exactly the files of the wanted extensions, in tree order, each with its entry and preload bytes |
| VpkOpen.Digit | DZSimulator-main/thirdparty/fsal_modified/fsal/sources/VpkArchive.cpp:197 | a digit character stands for its value |
| VpkOpen.DecimalValue | DZSimulator-main/thirdparty/fsal_modified/fsal/sources/VpkArchive.cpp:197 | the decimal form of a number is all digits and reads back as the number |
| VpkOpen.PakNumberValue | DZSimulator-main/thirdparty/fsal_modified/fsal/sources/VpkArchive.cpp:197 | the "%03d" archive number has at least three digits and reads back as the index |
| VpkOpen.PakNamesDistinct | DZSimulator-main/thirdparty/fsal_modified/fsal/sources/VpkArchive.cpp:63 | different archive indices give different file names, and no archive is named like the directory file |
| VpkOpen.ArchiveOf | DZSimulator-main/thirdparty/fsal_modified/fsal/sources/VpkArchive.cpp:212-219 | index 0x7fff means the directory file itself; any other index names an archive, which is there only when it opened |
| VpkOpen.Fit | DZSimulator-main/thirdparty/fsal_modified/fsal/sources/VpkArchive.cpp:225-237 | copying into a buffer of n bytes leaves the data cut to n bytes, or followed by the bytes the copy does not reach; zero stands in for the program's uninitialised bytes |
| VpkOpen.CopiedBytes | DZSimulator-main/thirdparty/fsal_modified/fsal/sources/VpkArchive.cpp:223-240 | the memory file holds the preload bytes followed by the entry's length of bytes; bytes a short archive read does not deliver are zero, standing in for the program's uninitialised bytes |
| VpkOpen.OpenEntryAsWritten | DZSimulator-main/thirdparty/fsal_modified/fsal/sources/VpkArchive.cpp:221 | as written, an entry with no preload bytes at offset 0 is not opened; any other is opened as the corrected version opens it |
| VpkOpen.Open | DZSimulator-main/thirdparty/fsal_modified/fsal/sources/VpkArchive.cpp:221-250 | a missing archive fails every entry that must be read from it, and only a large entry without preload bytes becomes a window; an entry whose archive holds its bytes is opened: a copy holds the preload bytes then the entry's bytes, a window shows exactly the entry's bytes |
| VpkOpen.OffsetZeroNotOpened | DZSimulator-main/thirdparty/fsal_modified/fsal/sources/VpkArchive.cpp:221 | a three-byte file at offset 0 of its archive with no preload bytes is not opened as written; corrected, it opens with its three bytes |
| VpkOpen.OpenFile | DZSimulator-main/thirdparty/fsal_modified/fsal/sources/VpkArchive.cpp:204-253 | on a valid list, a path that is not indexed opens nothing, and a path indexed by exactly one entry opens as Open opens that entry from its archive |
| VpkOpen.OpenFileAsWritten | DZSimulator-main/thirdparty/fsal_modified/fsal/sources/VpkArchive.cpp:204-221 | on a non-empty list that skips no depth, a path that is not indexed opens nothing, and a path indexed by exactly one entry opens by the as-written entry rule: not at all at offset 0 without preload bytes, otherwise as the corrected version opens it |
| VpkOpen.ExistsPathShape | DZSimulator-main/thirdparty/fsal_modified/fsal/sources/VpkArchive.cpp:256-269 | the key looked up for a directory is the path ending in '/', one added when it lacks it; for a file it is the path itself |
| VpkOpen.Exists | DZSimulator-main/thirdparty/fsal_modified/fsal/sources/VpkArchive.cpp:256-269 | on a valid, non-empty list that skips no depth, Exists holds exactly when some entry has the key |
| FsalFiles.StatusOf | DZSimulator-main/thirdparty/fsal_modified/fsal/sources/Status.h:15-35 | a status built from a flag is ok exactly when the flag holds, and is never end-of-file |
| FsalFiles.Or | DZSimulator-main/thirdparty/fsal_modified/fsal/sources/Status.h:15-23 | combining two statuses fails when either failed and is end-of-file when either is |
| FsalFiles.CursorRead | DZSimulator-main/thirdparty/fsal_modified/fsal/sources/MemRefFileReadOnly.cpp:45-70 | a read at or past the end gives nothing and end-of-file; otherwise it gives the bytes from the offset, as many as asked or as remain, moves the offset past them, and is end-of-file exactly when more were asked than remain |
| FsalFiles.CursorReadsCompose | DZSimulator-main/thirdparty/fsal_modified/fsal/sources/MemRefFileReadOnly.cpp:45-70 | two reads inside the data give together what one read of both lengths gives, ending at the same place |
| FsalFiles.CursorReadAll | DZSimulator-main/thirdparty/fsal_modified/fsal/sources/MemRefFileReadOnly.cpp:45-70 | reading all of a non-empty file from the start gives its contents without end-of-file |
| FsalFiles.ReadOnlyRead | DZSimulator-main/thirdparty/fsal_modified/fsal/sources/MemRefFileReadOnly.cpp:45-70 | a read on a read-only memory file leaves its contents alone and moves its offset to where the read ended |
| FsalFiles.ReadOnlyWrite | DZSimulator-main/thirdparty/fsal_modified/fsal/sources/MemRefFileReadOnly.cpp:72-75 | writing to a read-only memory file fails and changes nothing |
| FsalFiles.ReadOnlySetPosition | DZSimulator-main/thirdparty/fsal_modified/fsal/sources/MemRefFileReadOnly.cpp:77-81 | setting the position moves only the offset, to any value, and succeeds |
| FsalFiles.ReadOnlyReadsKeepContents | DZSimulator-main/thirdparty/fsal_modified/fsal/sources/MemRefFileReadOnly.cpp:45-70 | any sequence of reads leaves a read-only file's contents and size unchanged |
| FsalFiles.ReadOnlyReadsStayInside | DZSimulator-main/thirdparty/fsal_modified/fsal/sources/MemRefFileReadOnly.cpp:45-70 | a read-only file positioned inside its contents stays inside them through any sequence of reads |
| FsalFiles.NewMemRefFile | DZSimulator-main/thirdparty/fsal_modified/fsal/sources/MemRefFile.cpp:10-17 | a new memory file owns a buffer of 0x32 bytes, all of them in use, at offset 0, usable exactly when the allocation succeeded |
| FsalFiles.MemRefFileOf | DZSimulator-main/thirdparty/fsal_modified/fsal/sources/MemRefFile.cpp:19-32 | a memory file over given bytes owns them exactly when it copies them; a copy holds the bytes when its allocation succeeds, and a borrowed buffer always holds them |
| FsalFiles.MemRefRead | DZSimulator-main/thirdparty/fsal_modified/fsal/sources/MemRefFile.cpp:61-86 | reading a memory file is a cursor read over its contents that moves only the offset |
| FsalFiles.MemRefResize | DZSimulator-main/thirdparty/fsal_modified/fsal/sources/MemRefFile.cpp:130-154 | a borrowed buffer never changes, and resizing succeeds exactly when it is already large enough; an owned one takes the new size, grows its reservation to the next power of two above the size only when it must, keeps its old bytes, and succeeds when memory was there |
| FsalFiles.MemRefWrite | DZSimulator-main/thirdparty/fsal_modified/fsal/sources/MemRefFile.cpp:88-97 | a write succeeds exactly when the resize to the write's end does; it then places the bytes at the offset, moves the offset past them, and keeps the bytes before; an owned file ends at the write's end, a borrowed one keeps its size |
| FsalFiles.MemRefSetPosition | DZSimulator-main/thirdparty/fsal_modified/fsal/sources/MemRefFile.cpp:99-103 | setting the position moves only the offset and succeeds |
| FsalFiles.MemRefWriteThenRead | DZSimulator-main/thirdparty/fsal_modified/fsal/sources/MemRefFile.cpp:61-103 | bytes written successfully are read back after seeking to where the write began |
| FsalFiles.MemRefAppends | DZSimulator-main/thirdparty/fsal_modified/fsal/sources/MemRefFile.cpp:88-97 | two writes at the end of an owned file with memory to spare both succeed and append their bytes in order |
| FsalFiles.SubFileFetch | DZSimulator-main/thirdparty/fsal_modified/fsal/sources/SubFile.cpp:38-44 | the read through the underlying file moves the sub-file's pointer by the bytes it got, never past the sub-file's size |
| FsalFiles.SubFileReadAsWritten | DZSimulator-main/thirdparty/fsal_modified/fsal/sources/SubFile.cpp:32-47 | as written, a read at or past the end gives end-of-file; otherwise it gives the underlying read's bytes and marks end-of-file when the pointer after the read plus the size asked passes the end |
| FsalFiles.SubFileRead | DZSimulator-main/thirdparty/fsal_modified/fsal/sources/SubFile.cpp:32-47 | corrected, end-of-file is marked when the pointer before the read plus the size asked passes the end |
| FsalFiles.SubFileIsWindow | DZSimulator-main/thirdparty/fsal_modified/fsal/sources/SubFile.cpp:32-47 | the corrected sub-file read is exactly a cursor read over the window of the underlying file it stands for |
| FsalFiles.FetchInWindow | DZSimulator-main/thirdparty/fsal_modified/fsal/sources/SubFile.cpp:38-44 | the underlying read gives the window's bytes at the pointer and succeeds |
| FsalFiles.SubFileAsWrittenBytes | DZSimulator-main/thirdparty/fsal_modified/fsal/sources/SubFile.cpp:32-47 | the read as written and the corrected one give the same bytes and leave the same pointer; only the end-of-file flag can differ |
| FsalFiles.SubFileEofOnCompleteRead | DZSimulator-main/thirdparty/fsal_modified/fsal/sources/SubFile.cpp:45 | reading 4 of 8 bytes from position 2 delivers all 4, yet as written it is marked end-of-file; corrected, it is not |
| FsalFiles.SubFileWrite | DZSimulator-main/thirdparty/fsal_modified/fsal/sources/SubFile.cpp:49-62 | a write at or past the end writes nothing; otherwise it writes as many bytes as fit, moves the pointer by them, and fails with end-of-file when the pointer after it plus the size asked passes the end |
| FsalFiles.SubFileSetPosition | DZSimulator-main/thirdparty/fsal_modified/fsal/sources/SubFile.cpp:64-68 | setting the position clamps it to the sub-file's size, changes only the pointer, and succeeds |
| FsalFiles.SeekTarget | DZSimulator-main/thirdparty/fsal_modified/fsal/sources/File.cpp:49-61 | the position Seek sets is the offset from the start, the current position or the end, modulo 2^64 |
| FsalFiles.SeekThereAndBack | DZSimulator-main/thirdparty/fsal_modified/fsal/sources/File.cpp:55-56 | seeking by an offset and back from the current position returns to where it started |
| Bfio.PowerOf2RoundUp | DZSimulator-main/thirdparty/fsal_modified/fsal/sources/bfio.h:642-655 | the bit trick gives a power of two that is at least v, and whose half is below v: the smallest power of two not below v |
| Bfio.RoundUpSizeBounds | DZSimulator-main/thirdparty/fsal_modified/fsal/sources/bfio.h:586-609 | the reserved size the streams grow to is a power of two, at least the size asked, and at most twice it |
| Bfio.StaticWrite | DZSimulator-main/thirdparty/fsal_modified/fsal/sources/bfio.h:530-544 | a write to a fixed buffer succeeds exactly when it fits; it then places the bytes at the offset and moves past them; otherwise it writes what fits and stops at the end; the bytes before the offset are kept |
| Bfio.StaticRead | DZSimulator-main/thirdparty/fsal_modified/fsal/sources/bfio.h:546-559 | a read from a fixed buffer succeeds exactly when enough bytes remain and gives them; otherwise it gives the rest and stops at the end |
| Bfio.StaticReadsCompose | DZSimulator-main/thirdparty/fsal_modified/fsal/sources/bfio.h:546-559 | two reads that fit give together what one read of both lengths gives, ending at the same place |
| Bfio.StaticWriteThenRead | DZSimulator-main/thirdparty/fsal_modified/fsal/sources/bfio.h:530-559 | bytes written into a fixed buffer where they fit are read back from the same offset |
| Bfio.DynamicResize | DZSimulator-main/thirdparty/fsal_modified/fsal/sources/bfio.h:586-609 | resizing succeeds when the size fits the reservation or memory was there; a grown reservation is the power of two the bit trick gives; a failed resize changes nothing |
| Bfio.NewDynamicStream | DZSimulator-main/thirdparty/fsal_modified/fsal/sources/bfio.h:571-574 | a new growable stream holds 16 bytes, reserved alike, at offset 0 |
| Bfio.DynamicStreamOf | DZSimulator-main/thirdparty/fsal_modified/fsal/sources/bfio.h:575-579 | a growable stream made from bytes starts with them, at least 16 bytes long, at offset 0 |
| Bfio.DynamicWrite | DZSimulator-main/thirdparty/fsal_modified/fsal/sources/bfio.h:611-623 | a write to a growable stream succeeds when the stream can grow to hold it; it then ends the stream with the bytes written and keeps the bytes before; a failed write changes nothing |
| Bfio.DynamicRead | DZSimulator-main/thirdparty/fsal_modified/fsal/sources/bfio.h:625-639 | a read from a growable stream succeeds exactly when enough bytes remain and gives them; otherwise it gives the rest; the contents never change |
| Bfio.DynamicWritesAppend | DZSimulator-main/thirdparty/fsal_modified/fsal/sources/bfio.h:611-623 | two writes at the end of a growable stream append their bytes in order |
| Bfio.SizeCalculatorCounts | DZSimulator-main/thirdparty/fsal_modified/fsal/sources/bfio.h:432-447 | the size calculator counts exactly the bytes a real stream would receive |
| Bfio.VectorSize | DZSimulator-main/thirdparty/fsal_modified/fsal/sources/bfio.h:312-317 | a vector of 32-bit elements serialises to 8 bytes of length and 4 bytes per element |
| Bfio.VectorRoundTrip | DZSimulator-main/thirdparty/fsal_modified/fsal/sources/bfio.h:312-326 | a vector written by Serialize is read back whole by Serialize |
| Bfio.ReadVector | DZSimulator-main/thirdparty/fsal_modified/fsal/sources/bfio.h:319-325 | the checked vector read succeeds exactly when the 8-byte count and that many 4-byte elements are in the stream, and then gives a vector of that count |
| Bfio.ReadElementsAt | DZSimulator-main/thirdparty/fsal_modified/fsal/sources/bfio.h:305-308 | element i of a vector read from a buffer is the 32-bit value of the buffer's i-th group of four bytes |
| Bfio.Resized | DZSimulator-main/thirdparty/fsal_modified/fsal/sources/bfio.h:322 | after v.resize(count) the vector has count elements: its earlier elements up to the count, zeros after them |
| Bfio.ReadInto | DZSimulator-main/thirdparty/fsal_modified/fsal/sources/bfio.h:546-559 | an unchecked read into an existing buffer overwrites its front with the bytes the stream still holds and leaves the rest of the buffer as it was |
| Bfio.ReadVectorAsProgram | DZSimulator-main/thirdparty/fsal_modified/fsal/sources/bfio.h:319-325 | the unchecked vector read over the vector's earlier contents leaves the stream's bytes alone and its position inside them |
| Bfio.ReadVectorAsProgramAgrees | DZSimulator-main/thirdparty/fsal_modified/fsal/sources/bfio.h:319-325 | where the checked read succeeds, the unchecked read the program does gives the same vector, whatever the count variable and the vector held before |
| Bfio.ReadVectorAsProgramElements | DZSimulator-main/thirdparty/fsal_modified/fsal/sources/bfio.h:319-325 | when the count is in the stream, the unchecked read always gives a vector of that count, however short the stream: the elements whose bytes are there are decoded, and one past the end keeps the vector's earlier element at that index, or is zero where the vector had none |
| Bfio.ShortVectorPadded | DZSimulator-main/thirdparty/fsal_modified/fsal/sources/bfio.h:546-559 | a count of two followed by one element: the checked read fails, while the program's read into an empty vector gives that element and a zero |
| Bfio.ShortVectorKeepsPrior | DZSimulator-main/thirdparty/fsal_modified/fsal/sources/bfio.h:319-325 | the same stream read into a vector holding [5, 6, 9] gives [7, 6]: the vector is cut to two, its first element overwritten and its second kept |

## Left out

- FileList.AddThenFind: the model is stateless and sorts the list and builds the depth table afresh on every lookup. FileList keeps a `sorted` flag and a depth table that is never cleared (FileListBinarySearch.h:78-96), so an Add after a lookup leaves a stale table in the program. The lemma holds for the program only because its callers add every file before the first lookup (VpkArchive.cpp:177 and 183).
- FileList.FindEntry: the lookups are modelled with the same single build after all Adds. Three more simplifications: a stable insertion sort stands in for std::sort, which orders the entries the same way except that two entries added under one path may come out in either order in the program; the strcmpl prefix shortcut (FileListBinarySearch.h:113-144) is left out, because it only skips a prefix already known to match; the table mutex is left out.
- FileList.Lookup: Lookup, Exists, FindAt, FindEntry and FindEntryAsWritten require a key of depth 0 or more, because the program reads `depthTable[-1]` for a key above the root (see Findings). That read is undefined behaviour and has no value to model. LookupChecked and FindEntryChecked model the guarded lookup for every key.
- FileList.Add: the lookups require every entry added to have depth 0 or more (Valid). Adding a path above the root, such as ".", makes the program resize the depth table to length 0 and write slot -1 (FileListBinarySearch.h:88-90), which is undefined behaviour. Such entries are not modelled.
- FileList.ListDirectory (FileListBinarySearch.h:168-194), VPKReader::ListDirectory (VpkArchive.cpp:271-274) and the file name position NormalizePath reports are not modelled. They only list directory contents for browsing.
- PathNormalization.Normalize: it is modelled for every input, but proved only for these cases: the length bound and no backslash, for all inputs; clean paths, which come back unchanged; one "." entry between two clean stretches; and one entry followed by ".." between two clean stretches. A leading "./", a trailing "/.", chained ".." entries and runs of separators, including the vectors of fsal tests/main.cpp:48-53, are not proved. For an input holding NUL the output is not clean either: the squeeze step drops NUL characters.
- CsgoGame.IntervalOf: a real-valued floor stands in for the single-precision product and quotient and the truncating cast to long long. Rounding in float arithmetic is not modelled.
- CsgoGame: DoTimeStep and the draw interpolation are function parameters, the clock is the time carried by each input, and the debug-build check that inputs arrive in order is a precondition. Input times are whole microseconds. sim::Clock (CsgoGame.cpp:46) counts in the finer ticks of the steady clock, so times between two microseconds are not modelled.
- WorldState.DoTimeStep: positions, velocities, the flying-mode movement and the CsgoMovement physics are floating point and are left out. The crouch state the walking movement leaves behind (`m_bDucked`) is the parameter `ducked`.
- Displacement.AddPlane: plane normals are integer vectors in place of float vectors. Equality and negation stay exact. The program hashes the raw float bytes but compares with float `==`, so -0.0 and +0.0 can give two cache entries for one plane; the model cannot show that. The float geometry that produces the normals is a parameter.
- Debugger: the AABBs it stores for drawing are opaque payload, and the IS_ENABLED switch is dropped: the model is the debug build, where every entry point records. Draw and DrawImGuiElements are GUI code and are left out.
- Bvh.CreateNodeHierarchy: bounding boxes, the surface-area heuristic, traversal and the float centroid order are left out. The split choice is a parameter constrained only by the asserts at BVH.cpp:505-507, and leaf centroids along an axis are integer keys.
- XPropLut: the float geometry that decides which bevel-plane candidates are valid is left out. The valid indices are an input of the encoder.
- BspHeader.SortByOffset: a stable insertion sort stands in for std::sort (BspMapParsing.cpp:1338-1341), which is not stable. The two can differ only in the order of lumps that share an offset.
- BspPakfile.Step: the seek past each packed file (BspMapParsing.cpp:1244-1246) and its "Seek to end of packed file failed" error are not modelled as a separate error. AssetReader.SetPos proves that seeking an open file always succeeds. A file whose data runs past the lump end is refused at the next turn with LumpEndTooSmall.
- BspMap: vertex positions, plane and other float fields are opaque reals; brush clipping, GetBrushAABB and the boundary meshes are float geometry and are left out.
- BspMap.GetModelBrushIndices: the walk requires every node child and the head node to name an existing node or leaf, and every leaf brush range to lie inside leafbrushes. Otherwise the program indexes past the end of its vectors, which is undefined behaviour. Node links that are not a tree are modelled by WalkAsWritten instead (see Findings).
- EntityParsers: the value of a float token (strtold) and the verdicts of the worldspawn, trigger_push and prop_dynamic parsers are the parameters `floatOf` and `otherOk`, because those parsers fill lists this model does not keep.
- PhyModel and PhyMesh: vertex positions stay opaque bytes; the scaling of PHY vertices is float arithmetic.
- AssetReader: ReadFLOAT32_LE is float decoding and is left out; the Open functions are file plumbing, and the reader works over a file held in memory. A sub-file of a sub-file is not part of this model.
- AssetFinder: the registry lookup and the directory listing are left to the caller; the lines of the library folder file and the relative file paths are parameters.
- VersionCheck: only IsGitTagFromNewerVersion is modelled. The HTTP request, the JSON reply and the checker thread are left out, and the running version, a build-time constant, is a parameter.
- Popup: the ImGui drawing and window sizing are left out; only the queue and the message encoding and decoding are modelled.
- Vpk.OpenArchive: the directory file's name comes from the format string with sprintf into a 2048-byte buffer; name formatting is modelled, but buffer overflow is not. The open archive cache (`m_pak_files`) and the file mutex are left out: the cache only avoids reopening an archive, and the mutex only orders threads.
- VpkOpen.CopiedBytes: the memory file is assumed to allocate. A failed malloc or realloc while OpenFile copies an entry is not modelled. The buffer MemRefFile gets from malloc and realloc (MemRefFile.cpp:13-16, 150) is not cleared, so the bytes a short archive read (VpkArchive.cpp:237) does not deliver are indeterminate in the program. The model, and VpkOpen.Fit, give them as zero, and no contract promises more about them than that stand-in.
- Bfio.RoundUpSizeBounds: the streams grow to RoundUpSize, the smallest power of two not below the size, on unbounded integers. That this agrees with the 64-bit PowerOf2RoundUp for sizes from 1 to 2^63 is not proved; each is proved to be the smallest power of two on its own. PowerOf2RoundUp requires 1 <= v <= 2^63: for v = 0 and for v above 2^63 the bit trick wraps to 0 (bfio.h:642-655), and those inputs are not modelled. DynamicMemoryStream::Resize calls it only when the new size exceeds the reserved size, so never with 0.
- Bfio.ReadVector: this is the checked read, which fails on a short stream. The program checks neither read (bfio.h:319-325), and ReadVectorAsProgram models that: a count read cut short keeps the uninitialised bytes of the count (a parameter); v.resize keeps the vector's earlier elements up to the count and zero-fills the rest (the earlier elements are a parameter); and an element read cut short leaves the resized vector's bytes past the stream end in place. The bad_alloc that std::vector::resize throws for a huge garbage count is not modelled.
- Bfio.VectorRoundTrip: the count is written as an 8-byte size_t, assumed little-endian as on the program's targets. Serialisation of lists, maps, sets and strings is not modelled.
- fsal FileSystem, Location, StdFile and the Archive interface are operating-system plumbing. The GetPath, Open and Flush members of the memory files are trivial and are left out too.
- ShrinkKeepsLump: stated for inputs of at least 1036 bytes. For a 1032-1035-byte input, the header ends inside the map revision. The script copies the short revision slice, so the payload lands 1036 - n bytes before the offsets its directory declares (ShrinkSize's short case). No lump then sits at its declared offset.
- ShrinkGameLumpRebuilt: stated for inputs of at least 1036 bytes, for the same reason. In the short case the relocated sprp offset points 1036 - n bytes past the props.
- ShrinkIdempotent: stated for inputs of at least 1036 bytes. A 1032-1035-byte input gives an output whose lumps are misplaced (ShrinkSize's short case), so shrinking it again reads other bytes.
- Shrinker: the script's command-line handling and its in-place file read and write are left out; the shrinker is a function from the input bytes to the output bytes.
- Rendering, the GUI, the remote console, the game state integration server, JSON persistence, input event plumbing, and the disabled ZipArchive and FileListHashMap code are left out. They are I/O and UI with nothing exact to state.

## Findings

| source | as written | input that shows it | evidently intended | confidence | as-written member | corrected member |
|---|---|---|---|---|---|---|
| DZSimulator-main/tools/MapFileShrinker-CSGO.py:84 | the game lump count is unpacked with '<i' from `lump_data[0:4]`, which raises struct.error when the lump is shorter than four bytes | a map without static props: the script writes an empty game lump, and shrinking its own output raises | a game lump shorter than four bytes holds no props and is dropped, so shrinking is idempotent | not executed | ShrinkerIdempotence.AsWrittenRejectsOwnOutput | ShrinkerIdempotence.ShrinkIdempotent |
| DZSimulator-main/thirdparty/fsal_modified/fsal/sources/FileListBinarySearch.h:89 | the slots of skipped depths are filled with `depthTable[depth]`, the start of the previous bucket | entries "a", "b" at depth 0 and "x/y/z" at depth 2: the table is [0, 0, 2, 3], depth 0's bucket looks empty, and FindEntry("b") answers with the data of "a" | skipped slots hold the index of the deeper entry, so every bucket spans exactly its depth's entries | not executed | FileList.SkippedDepthAsWritten | FileList.FindEntry |
| DZSimulator-main/thirdparty/fsal_modified/fsal/sources/FileListBinarySearch.h:108-110 | an empty search range returns (left, right), which Exists and FindEntry read as a hit | an empty list: a lookup of "c" gives (0, 0), Exists holds, and FindEntry reads past the end of the list | an empty range is a miss, (-1, -1), unless the lower bound was asked for | not executed | FileList.EmptyListAsWritten | FileList.Exists |
| DZSimulator-main/thirdparty/fsal_modified/fsal/sources/FileListBinarySearch.h:98 | the guard only turns away depths at or past the end of the depth table, and NormalizePath gives depth -1 to paths such as "." and "../x" | FindEntry(".") on any list: the guard passes, and `depthTable[key.depth]` reads the slot at index -1 | a key above the root has no bucket and misses, (-1, -1) | not executed | FileList.AboveRootPassesGuard | FileList.LookupCheckedFinds |
| DZSimulator-main/thirdparty/fsal_modified/fsal/sources/SubFile.cpp:45 | end-of-file is set when `m_pointer + size > m_size`, after the pointer has advanced | a sub-file of 8 bytes at position 2, reading 4 bytes: all 4 are delivered and end-of-file is set | end-of-file only when the read was cut short, as the memory files do | not executed | FsalFiles.SubFileEofOnCompleteRead | FsalFiles.SubFileIsWindow |
| DZSimulator-main/src/csgo_parsing/BspMapParsing.cpp:310-323 | the terminator check does not ask whether an entity block is still open | the lump "{\n" and its NUL terminator: the block is never closed, yet parsing succeeds with no entity | a lump whose last block is still open is rejected | not executed | BspEntities.UnclosedLumpAccepted | BspEntities.EntityLumpExactly |
| DZSimulator-main/src/csgo_parsing/BspMapParsing.cpp:879-880 | the node children are read as they are, with no check that they point to existing entries or that no node lies below itself, and GetModelBrushIndices (BspMap.cpp:689-716) walks them with no visited check | a node whose first child is itself and whose second is leaf 0: the stack gets the node back on every other turn, and the walk never ends | node links that do not form a tree are rejected at parse time, so the walk only ever sees trees | not executed | BspMap.SelfLoopWalkNeverEnds | BspMap.WalkFinishes |
| DZSimulator-main/src/sim/CsgoGame.cpp:48-49 | the tick interval is truncated to whole microseconds, and Start accepts any positive step size and timescale | a step of 0.1 microseconds at timescale 1: the interval is 0, every tick happens at the start time, and the tick search at CsgoGame.cpp:94-95 never ends for a later input | a step shorter than one microsecond of wall-clock time is refused, so the interval is positive | not executed | CsgoGame.StartAllowsZeroInterval | CsgoGame.StartChecked |
| DZSimulator-main/thirdparty/fsal_modified/fsal/sources/VpkArchive.cpp:221 | only an entry with preload bytes or a non-zero offset is opened, because the guard stands in for "was the entry found" | a 3-byte file at offset 0 of its archive with no preload bytes: OpenFile returns no file | every entry that was found is opened, whatever its offset | not executed | VpkOpen.OffsetZeroNotOpened | VpkOpen.OpenFile |
