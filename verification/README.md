# TwilightBoxart in Dafny

A model of the parts of TwilightBoxart that decide which game a file is and which cover it gets, with
proofs of what those parts promise. `dafny verify dfyconfig.toml` checks all of it.

| file | what it models |
|---|---|
| `Crc32Arithmetic.dfy`, `Bits.dfy` | the checksum of a file without its first bytes, from that of the whole |
| `IdentificationLadder.dfy` | the ladder of lookups, and what its CRC rung can answer |
| `DatEntry.dfy`, `EntryOrder.dfy`, `EntryDeduplicator.dfy`, `DeduplicationOutcome.dfy` | ranking rows, ordering them, and making their keys unambiguous; what that keeps |
| `Lz77RomProbe.dfy` | decompressing the LZ77 variant of type 0x10 |
| `ZipRomProbe.dfy`, `ZipArchive.dfy` | the central directory of a zip archive; what an archive is, and a writer of one |
| `DatParser.dfy` | tokens and blocks of the ClrMamePro dialect, and a printer of them |
| `SingleFlight.dfy` | concurrent callers sharing one execution, step by step |
| `ArtRecords.dfy` | the record of a title over every run of requests, fetches and identifications |
| `HttpArtSource.dfy`, `ArtFetcher.dfy` | retries, the one hop, the mirror, and the shared cooldown deadline; the walk over the sources |
| `ThumbnailSnapshot.dfy` | the text a listing is cached as |
| `RomName.dfy`, `RomNameReading.dfy` | tags, titles and regions of names; names as they are written, and what is read off them |
| `ArtNameResolver.dfy`, `ArtAnswers.dfy` | choosing a cover for a name; what the choice means |
| `Text.dfy`, `Models.dfy`, `Wrappers.dfy` | what the others share |

Code that works in place is modelled by methods over arrays, loops and objects, each proved against a
function or a relation; the promises are then lemmas about those. Concurrent code is a step system in
which any enabled step may come next, and the objects beside it take those steps.

## Main results

- Stripping a prefix from a CRC-32 is exact: `Crc32Arithmetic.ShiftZeros`, `TryStripPrefix`, `CheckValue`; and which
  rung of the ladder answers, with what, follows from the lookups: `IdentificationLadder.SerialRowIsAnswered`,
  `CrcRowIsAnswered`, `Sha1RowIsAnswered`, `BareKeyIsAnswered`, `NameRowIsAnswered`.
- The deduplicated index has one answer to each key, loses no hash and keeps the best dump of each:
  `EntryDeduplicator.Deduplicate`, `DatEntry.IsBetterMeans`; output and report are functions of the input:
  `DeduplicationOutcome.InputDetermines`, `KeptCrcs`, `KeptSerials`.
- Decoders undo their encoders and accept nothing else: `Lz77RomProbe.DecompressedExactly`,
  `ZipArchive.ReadsExactly`, `ReadingThrowsExactly`, `DatParser.ReadsBackWhatWasPrinted`,
  `ReadsBackExactlyPlainValues`, `ThumbnailSnapshot.CutTextIsRefused`.
- Shared work runs once for each key, and a caller that leaves changes nothing: `SingleFlight.OneExecutionPerKey`,
  `CancellingIsInvisible`.
- Upstream traffic for a title is bounded, and the bounds are reached: `ArtRecords.WalksAreAllowedFor`,
  `AtMostTwoWalks`, `AllWalksHappen`, `IndexedMissHoldsBack`; a fetch ends, and the cooldown never moves back: `HttpArtSource.TryGet`,
  `DeadlineIsTheLatest`.
- Rewriting names is idempotent and keeps titles: `RomName.RewriteIsIdempotent`, `StrippingKeepsTitleKey`; what is
  written into a name is read off it: `RomNameReading.TagsAreKept`, `LanguagesAreRead`, `RegionsAreRead`; every
  cover that is answered has the title that was asked for, and none comes closer: `ArtNameResolver.AnswerSharesTitle`,
  `AnswerIsUnique`, `ArtAnswers.TitleAnswerIsClosest`.

## What the proofs found

- A zip archive is read in full or refused, and it is refused exactly in three cases (`ZipArchive.ReadsExactly`).
  A Zip64 comment of 4055 to 4074 bytes, or of more than 65515, leaves the locator out of the window in which
  the end record is found. Bytes past the start of the end record can read like another one, without any
  comment when the directory lies at 0x06054B50. And the place in the locator can read like another locator, as
  when the 64-bit record lies at 0x07064B50. `HiddenLocatorHappens`, `FalseEndHappens` and `FalseLocatorHappens`
  exhibit archives of each kind, the last two of 101 and 118 MB. Something else is read instead only where a
  comment leaves room for a whole false end record, or in files past 7.7 TB (`MisleadingTakesRoom`).
- The zip reader throws exactly when the end records give an extent with entries whose offset and size add
  up past 63 bits and whose 32-bit span misses the bytes at hand (`ZipArchive.ReadingThrowsExactly`). A file
  of 98 bytes does that (`WrappingHappens`); in a file past 2 GiB the span can land inside the tail, and other
  bytes are read as the directory (`LargeFilesNeedNotThrow`).
- A DAT value that is a single parenthesis is never read back, quoted or not (`DatParser.BlocksHaveNoParens`);
  a forest without repeated keys is read back exactly when it has none
  (`DatParser.ReadsBackExactlyPlainValues`).
- A cached listing cut inside its last name is accepted, with that name cut; only a cut before it is
  refused (`ThumbnailSnapshot.CutTextIsRefused`).
- The art back-off holds for one art name. Requests for one key that carry different art names in turn walk
  upstream every time (`ArtRecords.OtherNamesDefeatBackoff`). A new title costs two walks while the identities
  carried agree (`AtMostTwoWalks`), and in general one for each change of art name besides
  (`WalksAreAllowedFor`), a bound that is reached.
- A connection that breaks while a body is read is not retried, unlike one that breaks before, and is no
  outage to the libretro source, which then does not ask its mirror (`HttpArtSource.TryGet`, `TryFetch`). The walk
  over the sources still reports the title as unavailable, not as missed (`ArtFetcher.Walk`).
- A language tag after a second opening parenthesis, as in `(USA (En)`, counts as a tag but is not
  stripped (`RomName.StrippingFiltersTags`, `NestedLanguageSurvives`).
- Region codes that are language codes too, `FR`, `DE` or `UK` among them, are stripped as languages
  (`RomName.StrippingKeepsRegions`, `RegionCodeIsStripped`).
- Two rows with one hash and different CRCs can leave one of the CRCs without an answer; `KeptCrcs` in
  `DeduplicationOutcome` says exactly which CRCs are left.
- The conditional removal in the single-flight map never finds another flight in its place, which the comment
  beside it allows for (`SingleFlight.RemovalFindsItself`).

## Model

| member | source | states |
|---|---|---|
| Crc32Arithmetic.StepLinear | TwilightBoxart.Core/Identify/Crc32Arithmetic.cs:110-122 | one register step is linear over exclusive or, which is what lets a matrix stand for it |
| Crc32Arithmetic.StepsCompose | TwilightBoxart.Core/Identify/Crc32Arithmetic.cs:72-95 | stepping m and then n zero bits is stepping m + n |
| Crc32Arithmetic.UpdateAffine | TwilightBoxart.Core/Identify/Crc32Arithmetic.cs:36-44 | a difference between two registers passes through any bytes as it would through as many zero bytes |
| Crc32Arithmetic.CrcConcat | TwilightBoxart.Core/Identify/Crc32Arithmetic.cs:36-44 | the CRC of a concatenation is the CRC of its head moved over as many zero bytes as the tail has, combined with the CRC of the tail; the CRC is the bit-at-a-time register of RFC 1952, section 8 |
| Crc32Arithmetic.ProductLinear | TwilightBoxart.Core/Identify/Crc32Arithmetic.cs:110-122 | the product of a matrix and a vector is linear in the vector |
| Crc32Arithmetic.ProductOfSquare | TwilightBoxart.Core/Identify/Crc32Arithmetic.cs:101-107 | multiplying by the square is multiplying twice |
| Crc32Arithmetic.SquareDoubles | TwilightBoxart.Core/Identify/Crc32Arithmetic.cs:69-76 | squaring an operator for k zero bits gives the operator for 2k |
| Crc32Arithmetic.ProductIsSteps | TwilightBoxart.Core/Identify/Crc32Arithmetic.cs:110-122 | an operator for k zero bits, applied to any register, steps it k times |
| Crc32Arithmetic.Times | TwilightBoxart.Core/Identify/Crc32Arithmetic.cs:110-122 | the early-ending loop computes the whole matrix product |
| Crc32Arithmetic.Square | TwilightBoxart.Core/Identify/Crc32Arithmetic.cs:101-107 | the filled array is the square of the matrix: applying it is applying the matrix twice, for every vector |
| Crc32Arithmetic.OneBitOperator | TwilightBoxart.Core/Identify/Crc32Arithmetic.cs:60-67 | the array filled first steps a register over one zero bit |
| Crc32Arithmetic.PayDigit | TwilightBoxart.Core/Identify/Crc32Arithmetic.cs:74-95 | one iteration leaves the same distance to go: half the length at double the span, with the odd digit applied |
| Crc32Arithmetic.ShiftZeros | TwilightBoxart.Core/Identify/Crc32Arithmetic.cs:50-98 | repeated squaring in two swapped arrays, with the break in the middle of the loop, steps the register over 8n zero bits, for every register and every n |
| Crc32Arithmetic.StripPrefixExact | TwilightBoxart.Core/Identify/Crc32Arithmetic.cs:36-44 | for non-empty parts, the recovered value is the CRC of the suffix if and only if the whole CRC was that of the concatenation |
| Crc32Arithmetic.TryStripPrefix | TwilightBoxart.Core/Identify/Crc32Arithmetic.cs:36-44 | nothing exactly for an empty prefix or no suffix; otherwise the CRC of whatever suffix of that length completes the file |
| Crc32Arithmetic.StepDividesByGenerator | TwilightBoxart.Core/Identify/Crc32Arithmetic.cs:23-26 | on every register, a step shifts out a clear low bit, and with a set one flips exactly the bits 31 - e for the exponents e of the generator polynomial of CRC-32 |
| Crc32Arithmetic.CheckValue | TwilightBoxart.Core/Identify/Crc32Arithmetic.cs:36-44 | the CRC of the text "123456789" is 0xCBF43926 |
| IdentificationLadder.StrippedIsHeaderless | TwilightBoxart.Core/Identify/IdentificationLadder.cs:450-462 | for a fingerprint that describes a file, the stripped CRC is that of the file without its first n bytes, exactly when 0 < n < the file's size and the sample covers the prefix |
| IdentificationLadder.CrcRungIsSound | TwilightBoxart.Core/Identify/IdentificationLadder.cs:108-149 | a row answered by the CRC rung has the CRC of the file, of the file without its detected prefix, or (a SNES row, of the copier shape, with no prefix detected) without 512 bytes; and never the CRC zero |
| IdentificationLadder.HeaderlessRowIsFound | TwilightBoxart.Core/Identify/IdentificationLadder.cs:108-127 | when the serial and the whole-file CRC miss, a row with the headerless CRC is answered exactly when both CRCs are non-zero and the sample covers the prefix |
| IdentificationLadder.CopierRowIsFound | TwilightBoxart.Core/Identify/IdentificationLadder.cs:139-148 | with no prefix detected, the row with the CRC past 512 bytes is answered exactly when both CRCs are non-zero, the sample covers the header, the size has the copier shape and the row is a SNES row |
| IdentificationLadder.DetectionIs | TwilightBoxart.Core/Identify/IdentificationLadder.cs:85-86 | a header that is there is given to the detector; without one there is no console, no serial and no prefix |
| IdentificationLadder.SerialRowIsAnswered | TwilightBoxart.Core/Identify/IdentificationLadder.cs:88-97 | the answer is by serial with a row exactly when the header's console has that row for the serial, or its alternate console has and its console has none |
| IdentificationLadder.CrcRowIsAnswered | TwilightBoxart.Core/Identify/IdentificationLadder.cs:108-149 | when no serial hits, the answer is by CRC with a row exactly when the CRC is not zero and the row is that of the whole file; else that of the file without the detected prefix; else, with none detected and the copier shape, the SNES row of the file without 512 bytes; each looked up only where those before it have missed |
| IdentificationLadder.Sha1RowIsAnswered | TwilightBoxart.Core/Identify/IdentificationLadder.cs:151-158 | when serial and CRC miss, the answer is by SHA-1 with exactly the row the index has for it, whatever the header says |
| IdentificationLadder.BareKeyIsAnswered | TwilightBoxart.Core/Identify/IdentificationLadder.cs:160-164 | a bare key is answered exactly when serial, CRC and SHA-1 all miss, the console is DS, DSi or GBA, and the trimmed serial reads as that key of four capitals and digits, case aside |
| IdentificationLadder.NameRowIsAnswered | TwilightBoxart.Core/Identify/IdentificationLadder.cs:166-186 | the answer is by name with a row exactly when the exact lookups miss, no key is allowed, the file is none to skip, and the row is the first found: on the header's consoles, or else on the extension's console and then on all |
| DatEntry.DumpDominates | TwilightBoxart.Core/Index/DatEntry.cs:53-56 | a better dump rank outranks any release rank |
| DatEntry.IsBetterMeans | TwilightBoxart.Core/Index/DatEntry.cs:50-102 | what the ranks amount to, on the texts: a row outdoes another if it has no status, a blank one, "good" or "verified" and the other has none of these; an unknown status outdoes "baddump" and "nodump", "baddump" outdoes "nodump", all in any ASCII case; where statuses tie, a name with no marker outdoes one with a promotional marker, and either outdoes one with "(Proto" or "(Beta"; then the ordinal order of the names decides |
| DatEntry.NoWorseTransitive | TwilightBoxart.Core/Index/EntryDeduplicator.cs:306-317 | the deduplicator's preference is transitive, ties in rank and name included |
| EntryOrder.OrderSorts | TwilightBoxart.Core/Index/EntryDeduplicator.cs:290-300 | the ordered rows are a permutation of the input and none precedes an earlier one on the six keys |
| EntryOrder.FirstServedIsBest | TwilightBoxart.Core/Index/EntryDeduplicator.cs:290-300 | the first ordered row for a console and serial is outdone, in that sense, by no row for them |
| EntryOrder.OrderMeans | TwilightBoxart.Core/Index/EntryDeduplicator.cs:290-300 | of two ordered rows the earlier is of no later console; then under no later serial, a missing one first; then not outdone; then, name and ranks equal, with no larger CRC, a missing one as the largest, and no later hash |
| Models.ValueCounts | TwilightBoxart.Core/Models/ConsoleType.cs:12-130 | the values of the consoles count them in their order |
| EntryDeduplicator.DropExactDuplicates | TwilightBoxart.Core/Index/EntryDeduplicator.cs:94-107 | the first row of each identity, in order; the rest are counted |
| EntryDeduplicator.FirstOfEachIs | TwilightBoxart.Core/Index/EntryDeduplicator.cs:94-107 | those rows are input rows with exactly the identities of the input, none twice |
| EntryDeduplicator.RepeatsAre | TwilightBoxart.Core/Index/EntryDeduplicator.cs:94-107 | two rows have one identity exactly when they agree in everything but the name of their source and their art name |
| EntryDeduplicator.GatherBoth | TwilightBoxart.Core/Index/EntryDeduplicator.cs:329-337 | merging a merged row into another gathers the keys of both groups: its own where it had one, otherwise one that the group offers, none only when the group has none; which one, the folds `HashMerge` and `CrcMerge` say |
| EntryDeduplicator.WinsOneMore | TwilightBoxart.Core/Index/EntryDeduplicator.cs:306-317 | a later row takes over a group only when strictly better, so the winner is the first of the best |
| EntryDeduplicator.Merge | TwilightBoxart.Core/Index/EntryDeduplicator.cs:133-134 | the winner inherits the loser's keys, the loser alone is struck out, and nothing the input said is lost |
| EntryDeduplicator.MergeIsFaithful | TwilightBoxart.Core/Index/EntryDeduplicator.cs:329-337 | after a merge every row still bears one input row's name, console and status, every key still comes from the input, and every input hash is held by a live row that is no worse |
| EntryDeduplicator.HashesAfterMerge | TwilightBoxart.Core/Index/EntryDeduplicator.cs:129-135 | one collision of hashes leaves the first best row of the larger group, with the keys of all of it, as the fold over the rows of that hash says |
| EntryDeduplicator.SettleSha1 | TwilightBoxart.Core/Index/EntryDeduplicator.cs:123-135 | one collision of hashes: one more row struck out, the map again names the one live row of each hash, every hash so far is settled, and a superseded bad dump is counted exactly when one was |
| EntryDeduplicator.CollapseSha1s | TwilightBoxart.Core/Index/EntryDeduplicator.cs:114-136 | afterwards the rows of every hash have become one, the first best of them with keys inherited in input order; the others are struck out, rows without a hash untouched; duplicates and superseded bad dumps are counted exactly |
| EntryDeduplicator.GroupByCrc32 | TwilightBoxart.Core/Index/EntryDeduplicator.cs:138-154 | the buckets are exactly the live rows of each CRC, ascending, over all consoles |
| EntryDeduplicator.ManyHashesContradict | TwilightBoxart.Core/Index/EntryDeduplicator.cs:163-169 | more than one distinct hash in a bucket means that two of its rows are different files, and the other way round |
| EntryDeduplicator.BestOf | TwilightBoxart.Core/Index/EntryDeduplicator.cs:184-191 | the first of the best rows of the bucket |
| EntryDeduplicator.ClearCrc32 | TwilightBoxart.Core/Index/EntryDeduplicator.cs:175-181 | a contradicted bucket keeps all its rows and every one loses its CRC; no other row changes |
| EntryDeduplicator.FoldInto | TwilightBoxart.Core/Index/EntryDeduplicator.cs:200-212 | folding a row moves its keys to the winner and the map after a moved hash, and says whether a bad dump was superseded |
| EntryDeduplicator.MergeBucket | TwilightBoxart.Core/Index/EntryDeduplicator.cs:193-213 | all rows of an uncontradicted bucket but the best are struck out, and the best alone changes: it inherits from the others in bucket order; the bad dumps it supersedes are counted exactly |
| EntryDeduplicator.SettleCrc32 | TwilightBoxart.Core/Index/EntryDeduplicator.cs:156-214 | each bucket is either cleared in place or reduced to its first best row with the keys of all, exactly according to whether two of its rows contradict each other; all counters exact |
| EntryDeduplicator.HeldBefore | TwilightBoxart.Core/Index/EntryDeduplicator.cs:156-214 | settling gives no row a CRC it did not have, so buckets settle in any order |
| EntryDeduplicator.SettledIsUnique | TwilightBoxart.Core/Index/EntryDeduplicator.cs:156-214 | once every bucket is settled no two live rows share a CRC |
| EntryDeduplicator.LostAfterSettling | TwilightBoxart.Core/Index/EntryDeduplicator.cs:175-179 | the rows that lose their CRC are the whole of the contradicted buckets |
| EntryDeduplicator.CollapseCrc32s | TwilightBoxart.Core/Index/EntryDeduplicator.cs:138-214 | after the pass live CRCs are unique, and the three counters are the rows struck out, the rows cleared and the bad dumps beaten, whatever the order of the buckets |
| EntryDeduplicator.ManyTitlesAmbiguous | TwilightBoxart.Core/Index/EntryDeduplicator.cs:238-242 | a bucket has more than one base title exactly when each of its rows shares its serial with another game |
| EntryDeduplicator.SettleSerial | TwilightBoxart.Core/Index/EntryDeduplicator.cs:231-249 | every row of an ambiguous bucket loses its serial, no other row changes |
| EntryDeduplicator.ClearAmbiguousSerials | TwilightBoxart.Core/Index/EntryDeduplicator.cs:216-249 | a row loses its serial exactly when another live row files a different game under it, and the counter is their number |
| EntryDeduplicator.SettledSerialsAgree | TwilightBoxart.Core/Index/EntryDeduplicator.cs:216-249 | afterwards rows that share console and serial share a base title, and CRCs and hashes are as unique as before |
| EntryDeduplicator.Survivors | TwilightBoxart.Core/Index/EntryDeduplicator.cs:251-258 | the output is the live rows in order, as many as were not struck out |
| EntryDeduplicator.SurvivorsAreUnambiguous | TwilightBoxart.Core/Index/EntryDeduplicator.cs:251-258 | what holds of the live rows holds of the output: unique hashes, unique CRCs, one game to a serial |
| EntryDeduplicator.SurvivorsAreFaithful | TwilightBoxart.Core/Index/EntryDeduplicator.cs:251-258 | every output row bears an input row's label and keys from the input, and every input hash is answered by a row no worse |
| EntryDeduplicator.SameHashes | TwilightBoxart.Core/Index/EntryDeduplicator.cs:114-214 | the output holds the same hashes as the input |
| EntryDeduplicator.Deduplicate | TwilightBoxart.Core/Index/EntryDeduplicator.cs:85-271 | unambiguous keys, conserved hashes, for every hash a row that no input row with it outdoes, every field from the input, rows in = rows out + the three kinds of duplicate; and the output is what the three settled passes leave, with every count of the report |
| EntryDeduplicator.AnswersAreTheBest | TwilightBoxart.Core/Index/EntryDeduplicator.cs:114-136 | for every hash, the output row is outdone by no input row with that hash; so a sound dump is never given up for a bad one, nor a release for a prototype of equal status |
| EntryDeduplicator.SupersedesMeans | TwilightBoxart.Core/Index/EntryDeduplicator.cs:319-326 | a counted bad dump is one whose status reads "baddump" or "nodump" beside a winner with a better status |
| EntryDeduplicator.BaseTitleIs | TwilightBoxart.Core/Index/EntryDeduplicator.cs:278-282 | the base title is what comes before the first opening parenthesis after a space, or the whole name |
| EntryDeduplicator.OneGameMeans | TwilightBoxart.Core/Index/EntryDeduplicator.cs:231-249 | two rows are of one game exactly when their base titles are equal character by character, case aside |
| DeduplicationOutcome.KeptCrcs | TwilightBoxart.Core/Index/EntryDeduplicator.cs:114-214 | a CRC is in the output exactly when a row without a hash has it or the merged row of some hash does, and no two rows that hold it then contradict each other; any other CRC of the input is lost |
| DeduplicationOutcome.HashedRows | TwilightBoxart.Core/Index/EntryDeduplicator.cs:114-136 | the rows that stand after the hash pass are the rows without a hash and, for each hash, what folding all its rows gives |
| DeduplicationOutcome.CheckedRows | TwilightBoxart.Core/Index/EntryDeduplicator.cs:156-214 | the rows that stand after the CRC pass are those without a CRC, those of contradicted CRCs without them, and for every other CRC its best row inheriting from all the others |
| DeduplicationOutcome.KeptSerials | TwilightBoxart.Core/Index/EntryDeduplicator.cs:114-249 | a serial is in the output exactly when some row that stands after those two mergers has it and all that have it are of one game |
| DeduplicationOutcome.CrcsDetermine | TwilightBoxart.Core/Index/EntryDeduplicator.cs:156-214 | the outcome of the CRC pass, counters included, does not depend on the order in which the buckets are visited |
| DeduplicationOutcome.InputDetermines | TwilightBoxart.Core/Index/EntryDeduplicator.cs:85-271 | output and report are functions of the input |
| Lz77RomProbe.CopyRun | TwilightBoxart.Core/Probe/Lz77RomProbe.cs:196-200 | copying byte by byte within one array gives the repeating run, also where source and destination overlap |
| Lz77RomProbe.RunComplete | TwilightBoxart.Core/Probe/Lz77RomProbe.cs:160-202 | input that holds tokens expanding to the declared length is decoded to their expansion |
| Lz77RomProbe.RunSound | TwilightBoxart.Core/Probe/Lz77RomProbe.cs:160-202 | input that decodes holds such tokens |
| Lz77RomProbe.DecompressedExactly | TwilightBoxart.Core/Probe/Lz77RomProbe.cs:142-206 | there is a result exactly when the input starts with a type-0x10 header and legal tokens expanding to exactly the declared length, and the result is that expansion |
| Lz77RomProbe.TryDecompress | TwilightBoxart.Core/Probe/Lz77RomProbe.cs:142-206 | the loops compute that result, within the bounds of both arrays, on every input |
| Lz77RomProbe.EncodingHolds | TwilightBoxart.Core/Probe/Lz77RomProbe.cs:167-200 | bytes written for a list of tokens, eight to a flag byte, hold that list |
| Lz77RomProbe.DecodesEveryEncoding | TwilightBoxart.Core/Probe/Lz77RomProbe.cs:142-206 | decoding undoes every encoding into legal literals and back-references, whatever follows it |
| Lz77RomProbe.StreamsHaveLimits | TwilightBoxart.Core/Probe/Lz77RomProbe.cs:142-158 | only a stream whose first byte is 16 is decoded, and to at most 16 MiB; any such stream with a length in those bounds is run from its fifth byte |
| ZipRomProbe.FindLastSignature | TwilightBoxart.Core/Probe/ZipRomProbe.cs:372-383 | the last place the signature stands, or -1 when it stands nowhere |
| ZipRomProbe.NegativeReads | TwilightBoxart.Core/Probe/ZipRomProbe.cs:404-422 | a read from before the start of the file delivers what of it lies inside |
| ZipRomProbe.ApplyZip64Extra | TwilightBoxart.Core/Probe/ZipRomProbe.cs:249-292 | the loop over extra blocks rewrites the three sizes as the recursive reading does |
| ZipRomProbe.ReadRecords | TwilightBoxart.Core/Probe/ZipRomProbe.cs:176-214 | the records of the span in order, up to the count, the first foreign signature or the first that does not fit; an exception only when the span's bounds have wrapped |
| ZipRomProbe.ReadZip64EndOfCentralDirectory | TwilightBoxart.Core/Probe/ZipRomProbe.cs:217-242 | the extent the Zip64 record gives, or nothing, for at most 56 bytes read |
| ZipRomProbe.ReadTail | TwilightBoxart.Core/Probe/ZipRomProbe.cs:111-128 | the last end record of the 4 KiB tail, otherwise of the largest window it can stand in |
| ZipRomProbe.ReadExtent | TwilightBoxart.Core/Probe/ZipRomProbe.cs:155-214 | the entries of an extent, from the tail when it lies there and from a read of its own otherwise |
| ZipRomProbe.ReadCentralDirectory | TwilightBoxart.Core/Probe/ZipRomProbe.cs:103-215 | on every file the outcome of the specification, with a bound on the bytes read |
| ZipArchive.FromExtraRestores | TwilightBoxart.Core/Probe/ZipRomProbe.cs:249-292 | whichever of the three fields leave their value to the Zip64 block, small values too, the values come back in its fixed order, after any number of other blocks |
| ZipArchive.RecordReads | TwilightBoxart.Core/Probe/ZipRomProbe.cs:188-211 | a record laid out for an entry, each 32-bit field holding its value or the sentinel, is read as that entry |
| ZipArchive.EntriesRead | TwilightBoxart.Core/Probe/ZipRomProbe.cs:176-212 | records laid out one after the other are read as their entries, in order |
| ZipArchive.EocdIsFound | TwilightBoxart.Core/Probe/ZipRomProbe.cs:111-128 | of an archive the last end record signature in the file is found, in the near tail or in the far one; it may be a later one than the archive's own |
| ZipArchive.Zip64ExtentReads | TwilightBoxart.Core/Probe/ZipRomProbe.cs:217-242 | for any file and tail: the last locator signature before the end record, if the tail shows it and 56 bytes stand where it leads, gives the extent found there, and otherwise there is none |
| ZipArchive.DirectoryReads | TwilightBoxart.Core/Probe/ZipRomProbe.cs:155-214 | the directory is read wherever it lies |
| ZipArchive.ReadsByLocator | TwilightBoxart.Core/Probe/ZipRomProbe.cs:103-242 | what reading any Zip64 archive comes to when its end record is the last: nothing, or the directory that the last visible locator signature leads to, be it a false one |
| ZipArchive.ReadsExactly | TwilightBoxart.Core/Probe/ZipRomProbe.cs:103-242 | every archive laid out as APPNOTE sections 4.3.12, 4.3.16 and 4.5.3 say, with at least one entry and a directory of at most 64 MiB, gives exactly its entries in order or nothing; nothing exactly when bytes past the start of its end record read like another end record, when it is Zip64 with a comment of 4055 to 4074 bytes or of more than 65515, or when bytes past the start of its locator read like another locator. Where such bytes lead to a whole record, that is read instead and the lemma does not apply |
| ZipArchive.ReadsExactlyWithoutComment | TwilightBoxart.Core/Probe/ZipRomProbe.cs:103-242 | without a comment and below 7.7 TB it always applies: such an archive is refused exactly for a false end record or a false locator |
| ZipArchive.WhereFalseLocatorsStand | TwilightBoxart.Core/Probe/ZipRomProbe.cs:217-224 | a false locator can only stand in the 8 bytes that name the place of the 64-bit record |
| ZipArchive.SignaturesAre | TwilightBoxart.Core/Probe/ZipRomProbe.cs:20-22 | the three signatures are the bytes 50 4B followed by 01 02, 05 06 and 06 07 |
| ZipArchive.MisleadingTakesRoom | TwilightBoxart.Core/Probe/ZipRomProbe.cs:217-242 | so in a file of less than 7.7 TB it leads nowhere, and only a comment with room for a whole end record can mislead the reader |
| ZipArchive.RefusesFalseEnd | TwilightBoxart.Core/Probe/ZipRomProbe.cs:134-141 | a false end record that the file ends too soon after is not looked behind: the archive is refused |
| ZipArchive.OversizedIsRefused | TwilightBoxart.Core/Probe/ZipRomProbe.cs:155-159 | a directory of more than 64 MiB is refused, wherever it is said to lie |
| ZipArchive.HiddenLocatorHappens | TwilightBoxart.Core/Probe/ZipRomProbe.cs:217-224 | an archive of one empty file and a comment of zero bytes, for each of those lengths, that is well laid out and refused |
| ZipArchive.FalseLocatorHappens | TwilightBoxart.Core/Probe/ZipRomProbe.cs:217-229 | one without a comment that is refused because its 64-bit record lies at 0x07064B50 |
| ZipArchive.FalseEndHappens | TwilightBoxart.Core/Probe/ZipRomProbe.cs:111-141 | a plain one without a comment that is refused because its directory lies at 0x06054B50 |
| ZipArchive.ThrowsOnlyOnWrap | TwilightBoxart.Core/Probe/ZipRomProbe.cs:155-186 | for a file of any length and an extent in it, reading throws exactly when it has entries, offset plus size wraps past the 64-bit range, and the 32-bit span then read from does not lie in the bytes at hand |
| ZipArchive.ReadingThrowsExactly | TwilightBoxart.Core/Probe/ZipRomProbe.cs:103-186 | reading a file throws exactly when its end records give such an extent |
| ZipArchive.WrappingHappens | TwilightBoxart.Core/Probe/ZipRomProbe.cs:155-186 | a file of 98 bytes that makes the reader throw |
| ZipArchive.SmallFilesAlwaysEscape | TwilightBoxart.Core/Probe/ZipRomProbe.cs:155-186 | in a file of up to 2 GiB less the directory limit, every wrapping extent with entries and room for one does |
| ZipArchive.LargeFilesNeedNotThrow | TwilightBoxart.Core/Probe/ZipRomProbe.cs:165-178 | in a file of 4 GiB and 3996 bytes a wrapping extent does not: the cast lands inside the tail |
| ZipArchive.EncodedIsRecord | TwilightBoxart.Core/Probe/ZipRomProbe.cs:188-211 | a written entry is a record of that entry |
| ZipArchive.ReadsBackWhatWasWritten | TwilightBoxart.Core/Probe/ZipRomProbe.cs:103-215 | whatever the body, the entries, the fields left to Zip64 blocks and the comment, what is written is such an archive, and reading it gives the entries back or nothing under exactly those conditions |
| DatParser.Tokenize | TwilightBoxart.Core/Index/DatParser.cs:355-414 | the tokens of a text: words, quoted texts (empty ones too) and parentheses |
| DatParser.Body | TwilightBoxart.Core/Index/DatParser.cs:309-349 | reading a body always moves the index on, and never past the tokens |
| DatParser.ReadBody | TwilightBoxart.Core/Index/DatParser.cs:309-349 | the loop reads the block and leaves the index where the recursive reading does |
| DatParser.NextBlock | TwilightBoxart.Core/Index/DatParser.cs:282-307 | the scan moves on for every block and ends at the last token when there is none |
| DatParser.NextAtNode | TwilightBoxart.Core/Index/DatParser.cs:282-307 | from any words and parentheses that open no block, the scan comes to the next kind and reads its block under the kind in lower case |
| DatParser.TryReadBlock | TwilightBoxart.Core/Index/DatParser.cs:282-307 | the loop finds the block and the index that the recursive scan does |
| DatParser.ReadBlocks | TwilightBoxart.Core/Index/DatParser.cs:229-235 | all blocks of a text |
| DatParser.ItemsTokenise | TwilightBoxart.Core/Index/DatParser.cs:355-414 | a printed body is tokenised into its keys, values, kinds and parentheses |
| DatParser.ForestTokenises | TwilightBoxart.Core/Index/DatParser.cs:355-414 | printed blocks are tokenised one after the other |
| DatParser.BodyReads | TwilightBoxart.Core/Index/DatParser.cs:309-349 | the tokens of a body are read as its pairs (the first of a repeated key wins, keys compared without case) and its children, their kinds in lower case; a group without a kind and a last key without a value leave nothing behind |
| DatParser.ForestReads | TwilightBoxart.Core/Index/DatParser.cs:282-349 | the tokens of printed blocks are read as those blocks |
| DatParser.ReadsBackWhatWasPrinted | TwilightBoxart.Core/Index/DatParser.cs:229-414 | printing any forest of blocks, kinds in any case, with words and parentheses between the blocks and groups without a kind inside, and parsing the text gives the forest back with every kind in lower case at every depth |
| DatParser.AnswersAnyCase | TwilightBoxart.Core/Index/DatParser.cs:276-279 | a block answers any spelling of a key with the first value given under it |
| DatParser.UnclosedReads | TwilightBoxart.Core/Index/DatParser.cs:309-349 | a block at the end of the text is read the same without its last parenthesis |
| DatParser.UnclosedQuotation | TwilightBoxart.Core/Index/DatParser.cs:355-414 | a quotation that is not closed is one token up to the end, or none if empty |
| DatParser.BlocksHaveNoParens | TwilightBoxart.Core/Index/DatParser.cs:282-349 | whatever the tokens, no block that is read holds a lone parenthesis as a value, at any depth |
| DatParser.ReadsBackExactlyPlainValues | TwilightBoxart.Core/Index/DatParser.cs:282-414 | a forest whose keys are distinct in each block is read back if and only if none of its values is a lone parenthesis; and no forest that is read back amounts to such a value |
| DatParser.RepeatedKeyHidesParen | TwilightBoxart.Core/Index/DatParser.cs:339-345 | with a repeated key a lone parenthesis can go unnoticed: the first value wins and the parenthesis closes the block |
| DatParser.QuotedParenIsLost | TwilightBoxart.Core/Index/DatParser.cs:313-345 | a block of one quoted value is read back if and only if the value is not a lone parenthesis |
| SingleFlight.StepKeepsValid | TwilightBoxart.Pipeline/SingleFlight.cs:38-60 | every step of every caller and of the shared work keeps the invariant |
| SingleFlight.RunKeepsValid | TwilightBoxart.Pipeline/SingleFlight.cs:38-60 | and so does every run |
| SingleFlight.OneExecutionPerKey | TwilightBoxart.Pipeline/SingleFlight.cs:44-56 | in every run a factory starts at most once, an unfinished one is the map's entry for its key, and two unfinished ones of a key are the same |
| SingleFlight.CallersShareTheResult | TwilightBoxart.Pipeline/SingleFlight.cs:58-59 | every caller that returns has the result of the flight it joined, which started once |
| SingleFlight.RemovalFindsItself | TwilightBoxart.Pipeline/SingleFlight.cs:51-55 | a finished flight that is removed is still the map's own entry, so the conditional removal never misses |
| SingleFlight.WaitersCanProceed | TwilightBoxart.Pipeline/SingleFlight.cs:58-59 | a waiting caller can return, or can once the work it waits for completes |
| SingleFlight.FinishedFlightsGetRemoved | TwilightBoxart.Pipeline/SingleFlight.cs:45-56 | a finished flight still in the map can be removed, or its creator has yet to attach the removal and can |
| SingleFlight.CancellingIsInvisible | TwilightBoxart.Pipeline/SingleFlight.cs:46-58 | what others do after a caller cancels, they could have done without, with the same map, flights and results |
| SingleFlight.SingleFlight.GetOrAdd | TwilightBoxart.Pipeline/SingleFlight.cs:40-44 | the caller joins the key's flight, or its own when there is none |
| SingleFlight.SingleFlight.TryRemove | TwilightBoxart.Pipeline/SingleFlight.cs:52 | removing the finished flight succeeds |
| ArtRecords.RunIsConsistent | TwilightBoxart.Pipeline/ArtPipeline.cs:158-245 | in every run of requests, fetches, identifications, evictions and pruning, a stored hash excludes a miss, and serial, canonical name and title are written once |
| ArtRecords.KnowledgeSurvives | TwilightBoxart.Pipeline/ArtRecordStore.cs:157-165 | a row that knows a serial, name, title or art name keeps being there, and an art name stays one |
| ArtRecords.MissSettlesIdentity | TwilightBoxart.Pipeline/ArtPipeline.cs:173-219 | a walk attempted with an identity that ends in a miss or an outage leaves nothing more for that identity to add, whatever requests, identifications, evictions and prunings came between its start and its end; unless the identity has a canonical name and the row it returns to holds an empty one |
| ArtRecords.IdentifyReopens | TwilightBoxart.Pipeline/ArtRecordStore.cs:133-149 | an identification opens a backed-off title to anonymous requests exactly when it brings another art name |
| ArtRecords.IdentifyFillsGaps | TwilightBoxart.Pipeline/ArtRecordStore.cs:122-150 | field by field what an identification leaves: it fills serial, canonical name, title and region where the row has none, and replaces the art name by another one, which lifts the back-off |
| ArtRecords.WalkAsksBy | TwilightBoxart.Pipeline/ArtPipeline.cs:253-302 | what a walk asks by, field by field: serial from the row, else the request, else the key unless that is sixteen hexadecimal digits; canonical name from the row, else the request, else the index by that serial; art name from the request, else the row, else the index |
| ArtRecords.IndexedMissHoldsBack | TwilightBoxart.Pipeline/ArtPipeline.cs:158-302 | when the index knows a new key, an anonymous walk that misses holds back every later request that carries the index's names, or none, for twelve hours: one walk in all |
| ArtRecords.WalkIsRemembered | TwilightBoxart.Pipeline/ArtPipeline.cs:189-243 | whatever comes of a walk, the row keeps what it was tried with: the serial unless it repeats the key, case aside, and the canonical name, where the row had none, and the art name; a miss or an outage also the time to wait for, and nothing of an original |
| ArtRecords.StepCounts | TwilightBoxart.Pipeline/ArtPipeline.cs:158-245 | the tally counts every walk, eviction, expiry and pruning exactly once, and a change of art name only for a different one |
| ArtRecords.BackoffLasts | TwilightBoxart.Pipeline/ArtPipeline.cs:203-219 | after a miss the next anonymous request walks exactly from 43200 seconds on, after an outage exactly from 300 |
| ArtRecords.HitIsSaved | TwilightBoxart.Pipeline/ArtPipeline.cs:225-243 | a hit is stored with its hash, address, type and source, and lifts any back-off |
| ArtRecords.HitIsServedUntilEvicted | TwilightBoxart.Pipeline/ArtPipeline.cs:158-180 | from then on, whatever happens short of an eviction, the row keeps all four and no request walks |
| ArtRecords.StepPaysItsWay | TwilightBoxart.Pipeline/ArtPipeline.cs:158-245 | no event adds more upstream walks than its allowance: one for the first canonical name that is heard of, for a change of the art name heard of, for an eviction, an expired back-off or a pruned row, none for anything else |
| ArtRecords.UpstreamTrafficIsBounded | TwilightBoxart.Pipeline/ArtPipeline.cs:158-245 | the walks of every run stay within the budget at its start and the allowances along it |
| ArtRecords.WalksAreAllowedFor | TwilightBoxart.Pipeline/ArtPipeline.cs:318-327 | a new title costs one walk, one more for a canonical name, and one for each change of the carried art name, eviction, expiry or pruning, whatever identities its requests carry (names never empty) |
| ArtRecords.AtMostTwoWalks | TwilightBoxart.Pipeline/ArtPipeline.cs:318-327 | while the identities carried agree in their art name and in having a canonical name, a new title costs two walks and one for each eviction, expiry or pruning |
| ArtRecords.AtMostThreeWalks | TwilightBoxart.Pipeline/ArtPipeline.cs:318-327 | while they agree in the art name only, where they have one, it costs three |
| ArtRecords.OtherNamesDefeatBackoff | TwilightBoxart.Pipeline/ArtPipeline.cs:167-171 | two identities of one key with different art names, asking in turn, make every request walk although each was backed off: n requests, n walks |
| ArtRecords.AllWalksHappen | TwilightBoxart.Pipeline/ArtPipeline.cs:158-245 | the general bound is reached for every number of changes of the art name |
| ArtRecords.ThreeWalksHappen | TwilightBoxart.Pipeline/ArtPipeline.cs:318-327 | so is the bound of three |
| ArtRecords.TwoWalksHappen | TwilightBoxart.Pipeline/ArtPipeline.cs:318-327 | and the bound of two |
| ArtRecords.UnknownKeysArePruned | TwilightBoxart.Pipeline/ArtPipeline.cs:189-194 | what an anonymous request for a new key stores is pruned after its back-off, exactly when the key is a name digest or the index does not know it: a serial that repeats the key is not kept |
| ArtRecords.ArtRecordStore.PruneUnresolved | TwilightBoxart.Pipeline/ArtRecordStore.cs:157-165 | exactly the rows that know nothing and whose miss has passed are deleted, and counted |
| ArtRecords.ArtPipeline.CheckRecord | TwilightBoxart.Pipeline/ArtPipeline.cs:161-171 | the first reading stops a request only where it would not walk |
| ArtRecords.ArtPipeline.EnterFetch | TwilightBoxart.Pipeline/ArtPipeline.cs:173-187 | the second reading takes the one step of the title that the guards allow, touches no other title, and returns a record only with a hash |
| ArtRecords.ArtPipeline.FinishFetch | TwilightBoxart.Pipeline/ArtPipeline.cs:192-243 | the end of a fetch takes the record to its next state and frees the title |
| HttpArtSource.ReadRetryAfter | TwilightBoxart.Core/Art/HttpArtSource.cs:268-283 | the delay asked for, brought between zero and the cap; one second when none was asked for |
| HttpArtSource.TryGet | TwilightBoxart.Core/Art/HttpArtSource.cs:53-110 | for every sequence of responses: at most two more requests than retries, one more without a hop; it ends at the first final response and not before, with its result. It fails exactly on a transport failure that outlasts the retries, as an outage, and on the first body that breaks off (read at lines 191-204, outside the handler at 137), at once and as another exception; each request goes to the first url or the target of the first link; every throttled response starts a cooldown |
| HttpArtSource.TryFetch | TwilightBoxart.Core/Art/LibRetroArtSource.cs:69-112 | the mirror is asked exactly after a miss and after an outage of the primary, and then its result counts, so an outage is only reported when the mirror has one; a body that breaks off ends the fetch without the mirror |
| ArtFetcher.Walk | TwilightBoxart.Pipeline/ArtFetcher.cs:51-93 | the art of the first source that has some, whatever became of those before it; without art the title is unavailable exactly when some source ended in an exception, a broken body included, and missed otherwise |
| HttpArtSource.RaiseKeepsSettled | TwilightBoxart.Core/Art/HttpArtSource.cs:285-297 | one step of one caller keeps the invariant and moves the deadline only forward |
| HttpArtSource.DeadlineNeverMovesBack | TwilightBoxart.Core/Art/HttpArtSource.cs:285-297 | in every interleaving of reads and swaps the deadline never moves back |
| HttpArtSource.DeadlineIsTheLatest | TwilightBoxart.Core/Art/HttpArtSource.cs:285-297 | once callers are done the deadline is at least what each asked for, and is the first deadline or one that was asked for |
| HttpArtSource.FailedSwapMeansProgress | TwilightBoxart.Core/Art/HttpArtSource.cs:296 | a swap has to be tried again exactly when another caller has raised the deadline since |
| ThumbnailSnapshot.CountReads | TwilightBoxart.Core/Index/ThumbnailFetcher.cs:150-154 | a printed count is parsed as that count |
| ThumbnailSnapshot.CountsAreNumbers | TwilightBoxart.Core/Index/ThumbnailFetcher.cs:150-154 | a count that is accepted fits 32 signed bits and is made of digits, signs, the six number spaces and nulls only |
| ThumbnailSnapshot.NumbersCount | TwilightBoxart.Core/Index/ThumbnailFetcher.cs:150-154 | digits with a sign or none, number spaces around them and nulls behind are accepted as the number they spell exactly when it fits |
| ThumbnailSnapshot.LineEnds | TwilightBoxart.Core/Index/ThumbnailFetcher.cs:138 | a line ends at a line feed, at a carriage return, or at the two together |
| ThumbnailSnapshot.NamesRead | TwilightBoxart.Core/Index/ThumbnailFetcher.cs:149-159 | behind a printed header, names are accepted exactly when there are as many as it says |
| ThumbnailSnapshot.ReadsBackWhatWasCached | TwilightBoxart.Core/Index/ThumbnailFetcher.cs:210-225 | reading the text printed for a listing gives the listing back |
| ThumbnailSnapshot.CutLines | TwilightBoxart.Core/Index/ThumbnailFetcher.cs:138 | the lines of a text cut anywhere are the whole lines before the cut and what is left of the next |
| ThumbnailSnapshot.CutTextIsRefused | TwilightBoxart.Core/Index/ThumbnailFetcher.cs:138-159 | a text cut short is refused if and only if nothing of the last name is left; past that it is accepted with the last name cut |
| RomName.Rewrite | TwilightBoxart.Core/Index/RomName.cs:248-295 | the loop rewrites a name as the recursive reading does, for every `keep` |
| RomName.Tags | TwilightBoxart.Core/Index/RomName.cs:190-205 | the one-pass scan yields, for each closed group, what follows its last opening parenthesis, trimmed |
| RomName.TitleKey | TwilightBoxart.Core/Index/RomName.cs:82-95 | the letters, digits and joiners of the bare title, lower-cased |
| RomName.Languages | TwilightBoxart.Core/Index/RomName.cs:27-44 | the codes of every language tag, case aside |
| RomName.Regions | TwilightBoxart.Core/Index/RomName.cs:101-123 | the regions of the first region tag, aliases resolved |
| RomName.RewriteIsIdempotent | TwilightBoxart.Core/Index/RomName.cs:248-295 | rewriting twice is rewriting once, for every `keep`, with brackets kept or dropped; so stripping language tags and baring a title are idempotent on every name |
| RomName.RewriteKeepsGroups | TwilightBoxart.Core/Index/RomName.cs:248-295 | the groups of a rewritten name are exactly those that were kept, in order and unchanged |
| RomName.LanguageGroupIsPlain | TwilightBoxart.Core/Index/RomName.cs:207-226 | a group that is a language tag holds no parenthesis or bracket |
| RomName.KeptInners | TwilightBoxart.Core/Index/RomName.cs:190-295 | for every `keep` that rejects such groups only, the tags of the kept groups are the accepted tags, if and only if no group hides a rejected tag behind a second opening parenthesis; otherwise there are more |
| RomName.StrippingFiltersTags | TwilightBoxart.Core/Index/RomName.cs:18-21 | the tags of a stripped name are the tags without the language tags, if and only if no group has a language tag after a second opening parenthesis |
| RomName.NestedLanguageSurvives | TwilightBoxart.Core/Index/RomName.cs:18-44 | "A (USA (En)" is a name where they are not: its only tag is the language, and stays |
| RomName.StrippedNameHasNoLanguage | TwilightBoxart.Core/Index/RomName.cs:18-44 | a stripped name declares no language under exactly that condition |
| RomName.TitleKeyIsBareKey | TwilightBoxart.Core/Index/RomName.cs:82-95 | the key can be read straight off the name, skipping groups and brackets |
| RomName.TitleKeyIsIdempotent | TwilightBoxart.Core/Index/RomName.cs:82-95 | the key of a key is that key |
| RomName.RewritingKeepsTitleKey | TwilightBoxart.Core/Index/RomName.cs:82-95 | dropping groups that hold no parenthesis or bracket never changes the title key, wherever they stand |
| RomName.StrippingKeepsTitleKey | TwilightBoxart.Core/Index/RomName.cs:18-95 | so stripping the language tags of any name leaves its title key as it was |
| RomName.StrippingKeepsRegions | TwilightBoxart.Core/Index/RomName.cs:101-123 | stripping leaves the group the regions are read from, if and only if that group is not a language tag as well |
| RomName.RegionCodeIsStripped | TwilightBoxart.Core/Index/RomName.cs:101-123 | in "A (FR)" it is: the name has the region France, the stripped name none |
| RomNameReading.TagsAreRead | TwilightBoxart.Core/Index/RomName.cs:189-205 | the tags of a title with any tags behind it are those tags, in order |
| RomNameReading.TagsAreKept | TwilightBoxart.Core/Index/RomName.cs:247-295 | rewriting such a name, for every `keep` and both treatments of brackets, gives the title with the accepted tags behind it |
| RomNameReading.TitleIsRead | TwilightBoxart.Core/Index/RomName.cs:18-95 | its bare title is the title, its key that of the title, and stripping leaves all tags but the languages |
| RomNameReading.FlagsAreDropped | TwilightBoxart.Core/Index/RomName.cs:247-295 | a bare title also loses a bracketed flag behind the tags, and everything from an unclosed bracket on, but keeps an unclosed parenthesis and what follows it |
| RomNameReading.TitleKeysAgree | TwilightBoxart.Core/Index/RomName.cs:82-95 | two such names have one title key if and only if their titles agree, ASCII case aside, in the letters, digits and the four characters _ + , & in them |
| RomNameReading.LanguageTagIs | TwilightBoxart.Core/Index/RomName.cs:207-226 | parts joined by commas and pluses are a language tag exactly when each part, trimmed, is a listed code in any case |
| RomNameReading.LanguagesAreRead | TwilightBoxart.Core/Index/RomName.cs:27-44 | the languages of a name are the codes its one language tag is made of, wherever the tag stands |
| RomNameReading.RegionIs | TwilightBoxart.Core/Index/RomName.cs:228-245 | a part is a region exactly when it is a listed name in any case or a short code as listed, and is read as that region |
| RomNameReading.RegionsAreRead | TwilightBoxart.Core/Index/RomName.cs:101-123 | the regions of a name are those that its first region tag lists |
| RomNameReading.FamiliesAre | TwilightBoxart.Core/Index/RomName.cs:130-141 | two sets of regions share a half of the world exactly when neither is empty and one has the world, or both have one of the six eastern regions, or neither has |
| RomNameReading.RetailIsRead | TwilightBoxart.Core/Index/RomName.cs:148-187 | a name without brackets shows a retail box exactly when no word of its tags is "hack" or begins with one of eleven markers, case aside |
| RomNameReading.FlaggedIsNotRetail | TwilightBoxart.Core/Index/RomName.cs:148-153 | a name with a bracketed flag behind its tags never shows one |
| ArtNameResolver.ThumbnailIndex.constructor | TwilightBoxart.Core/Index/ArtNameResolver.cs:61-78 | the three collections hold the listing's distinct names, and each list is the files of its key in order |
| ArtNameResolver.Pick | TwilightBoxart.Core/Index/ArtNameResolver.cs:160-181 | the first best fitting candidate: beaten by none, beating all before it; nothing exactly when none fits |
| ArtNameResolver.Choose | TwilightBoxart.Core/Index/ArtNameResolver.cs:135-153 | the narrowest tier that some candidate fits, and no foreign file for a divergent title |
| ArtNameResolver.ThumbnailIndex.ResolveByTitle | TwilightBoxart.Core/Index/ArtNameResolver.cs:125-154 | the choice among the retail files with the title of the name |
| ArtNameResolver.ThumbnailIndex.Resolve | TwilightBoxart.Core/Index/ArtNameResolver.cs:86-118 | the answer the listing determines, and always a listed file |
| ArtNameResolver.AnswerIsUnique | TwilightBoxart.Core/Index/ArtNameResolver.cs:86-118 | the specification of an answer leaves no choice |
| ArtNameResolver.TitleAnswerIsBest | TwilightBoxart.Core/Index/ArtNameResolver.cs:135-153 | against every other retail file of the title: the answer's tier is at most as wide as any the other fits, and in the same tier the other is not preferred |
| ArtNameResolver.AnswerSharesTitle | TwilightBoxart.Core/Index/ArtNameResolver.cs:86-118 | whatever the tier, the answered file is listed and has the title key of the query |
| ArtAnswers.NameAnswersAre | TwilightBoxart.Core/Index/ArtNameResolver.cs:86-118 | a file is answered by its very name exactly when it is listed, and by the name without language tags exactly when it alone has that one, and claims no language or the same |
| ArtAnswers.TitleAnswerIsClosest | TwilightBoxart.Core/Index/ArtNameResolver.cs:125-204 | an answer by title is a listed retail file of the title; no other has a region in common with the query, or else belongs to its family, where the answer has none and does not; of those as close none covers the world where it does not, and of those equal in that none has a shorter name |
| ArtAnswers.UnansweredIsForeign | TwilightBoxart.Core/Index/ArtNameResolver.cs:149-153 | a query with candidates goes unanswered only for "Super Mario Bros. 2", and only if none of them has a region in common with it or belongs to its family |
| ArtAnswers.SanitizedIs | TwilightBoxart.Core/Art/LibRetroArtSource.cs:158-168 | ten characters of a name become underscores, one for one, and all others stay |

## Left out

- EntryDeduplicator.Deduplicate: idempotence and independence of the input order are not stated; they do not hold
- ArtRecords.ArtRecordStore.RememberIdentity: one atomic step; the window between reading and saving in which a miss for the new name may be cleared, as the comment in ArtRecordStore.cs describes, is not modelled
- SingleFlight.RunKeepsValid: a factory's exception is one more result; scheduling, threads and memory order are not modelled
- ZipArchive.ReadsExactly: where a false signature leads to bytes that can be read as a record, what is read instead is said for locators only (`ReadsByLocator`); archives split over disks, and any with bytes after the comment, are no archives here
- HttpArtSource.TryGet: caller cancellation and the waits themselves; delays are whole seconds, and what makes a body an image, a link or too large is an input
- DatParser.ReadBody: a block is a value that is returned, not an object that grows
- Text is a sequence of Unicode characters, not of UTF-16 units, so lengths that break ties count characters
- ArtRecords.UnknownKeysArePruned: serial and key are compared ignoring the case of ASCII letters only
- ArtNameResolver.AnswerSharesTitle: ignoring case is a parameter, required only to treat ASCII letters as ASCII does and to keep other characters away from ASCII
- ThumbnailSnapshot.ReadsBackWhatWasCached: the file itself, its temporary name and its encoding are not modelled
- HTTP clients, streams, SQLite and its full-text search, XML DATs, DEFLATE, image rendering, logging and dependency injection: inputs and outcomes stand for them
- Name scoring in the metadata index: a lookup by name is a function
- Console detection, header parsers and the choice of an archive's entry: detection is a function, and the entry's own header is not read
- SHA-1 and SHA-256 are opaque texts, zip names are bytes, file offsets are integers within 64 bits
- Deriving cache keys, copying fields into an identity, and batches of fingerprints with their key of their own
- Building index entries out of parsed blocks, and parsing CRC, hash and serial fields
- The art tier stored with an entry, and the name list as GitHub returns it
- Web endpoints, the desktop application and the DS client
