# FileScanner ingestion and deduplication, modelled in Dafny

This project models the core of the `mst-file-scanner` tool. The tool walks a directory tree of TIFF scans. It hashes every eligible file with SHA-256. The first file with each hash is copied into `<target>/<hash>/`. Every processed file is recorded as one row of a CSV manifest. On startup the two in-memory indexes are rebuilt from that manifest, so later runs resume where earlier ones stopped:

- `filesByHash` maps a hash to its first-seen path.
- `hashesByPath` maps every recorded path to its hash.

All of it lives in `src/main/java/com/sphereon/mst/filescanner/FileScanner.java`.

Files and modules:

- `wrappers.dfy` (`Wrappers`): `Option`, standing for Java's `null` and for a thrown exception.
- `hex.dfy` (`HexEncoding`): Java's signed `byte`, `String.format("%02x", b)`, the `StringBuilder` loop as the method `EncodeHex`, and a reference decoder `Unhex`.
- `collect.dfy` (`Collect`): the stream steps used by the rebuild. These are the stateful filter `distinctByKey` and `Collectors.toMap`, which throws on a repeated key.
- `manifest.dfy` (`ManifestIndex`): the manifest row, the manifest file (present or not, header record, data rows), the header rule, and the rebuild of both maps.
- `ingestion.dfy` (`Ingestion`): the file record, the per-file I/O outcomes, the loop body of `execute` as the pure function `Step`, the whole walk as `Run`, the invariant `Inv`, and the lemmas.
- `scanner.dfy` (`Scanner`): the class `FileScanner`. It holds the two maps and the manifest as fields. Its methods follow the Java statement by statement and are proved equal to `Step`, `Run`, `Rebuild` and `WithHeader`.

Modelling choices:

- SHA-256 is a field `sha256` of `Config`. It can be any function from bytes to 32 bytes. So equal bytes give equal hashes, and nothing else about SHA-256 is used.
- A walked path is a `FileRec`. Its absolute path is non-empty, as `File.getAbsolutePath()` always is.
- What each file's I/O does is an `Io` value, paired with the file in a `Candidate`. It records whether the bytes can be read to the end, how `Files.copy` ended, and what the barcode reader returned (`None` when it threw).
- When an exception is caught in the loop body, the maps keep every change made before it. `Step` models exactly that.

Quirks of the code that the model keeps:

- Duplicates get a destination path too. It is built as `target + "/" + hash + "\" + name` (lines 119-120, 157).
- When the barcode reader throws, no row is written, but the path has already been put in `hashesByPath` (lines 152-155). Any later candidate with that path in the same run is therefore skipped (`BarcodeFailureHalfRecords`).
- The test "owner path equals this path" at line 142 compares a `File` with a `String`, so it is always false (`SameFile`). The test at line 145 repeats the test at line 98, so it is never reached. As a result, every eligible duplicate gets a row.
- The name test is `endsWith("tif")` on the lower-cased name, with no dot. It accepts `motif` and rejects `x.tiff` (`TifSuffixExamples`).
- If the first copy of some content cannot be placed, that file keeps its claim on the hash in `filesByHash` but gets no row. A later file with the same bytes is then recorded as a duplicate of a path that has no row in the manifest, and the content is never copied (`CopyFailureOrphansDuplicate`). So "every duplicate-of names a canonical row" does not hold in general. What does hold is the invariant that no hash gets a second canonical row.

## Model

| member | source | states |
|---|---|---|
| `HexEncoding.Format02x` | src/main/java/com/sphereon/mst/filescanner/FileScanner.java:115 | `%02x` of a signed byte is two lower-case hex digits whose value is the byte read as unsigned (the byte plus 256 when negative) |
| `HexEncoding.HexOf` | src/main/java/com/sphereon/mst/filescanner/FileScanner.java:113-117 | the hex string of a digest has exactly two characters per byte, all in `0-9a-f` |
| `HexEncoding.EncodeHex` | src/main/java/com/sphereon/mst/filescanner/FileScanner.java:113-117 | the `for` loop appending `%02x` of each byte to a `StringBuilder` yields exactly `HexOf` of the digest |
| `HexEncoding.UnhexHexOf` | src/main/java/com/sphereon/mst/filescanner/FileScanner.java:113-117 | decoding the hex string of any byte sequence gives that sequence back |
| `HexEncoding.HexOfUnhex` | src/main/java/com/sphereon/mst/filescanner/FileScanner.java:113-117 | a string that decodes is exactly the encoding of what it decodes to, so encoding and decoding are inverse both ways |
| `HexEncoding.HexOfInjective` | src/main/java/com/sphereon/mst/filescanner/FileScanner.java:113-117 | two digests with the same hex string are equal |
| `HexEncoding.DigestHexLength` | src/main/java/com/sphereon/mst/filescanner/FileScanner.java:107-117 | a 32-byte SHA-256 digest encodes to 64 characters |
| `Collect.ToMapSpec` | src/main/java/com/sphereon/mst/filescanner/FileScanner.java:174-180 | `Collectors.toMap` succeeds exactly when no two elements share a key, and then maps each element's key to its value and holds no other key |
| `Collect.DistinctByKeySpec` | src/main/java/com/sphereon/mst/filescanner/FileScanner.java:76-79 | the `distinctByKey` filter keeps elements with pairwise distinct keys, loses no key, keeps only stream elements, and keeps the first element with each key |
| `ManifestIndex.WithHeader` | src/main/java/com/sphereon/mst/filescanner/FileScanner.java:183-189 | the header record is printed exactly when the manifest is absent or empty; afterwards the file exists and is non-empty, and its data rows are unchanged |
| `ManifestIndex.WithHeaderIdempotent` | src/main/java/com/sphereon/mst/filescanner/FileScanner.java:183-189 | a second application of the header rule writes nothing |
| `ManifestIndex.FilesByHashOfSpec` | src/main/java/com/sphereon/mst/filescanner/FileScanner.java:174-176 | the rebuilt `filesByHash` never throws, holds exactly the rows' hashes, maps each hash to the original path of the first row carrying it, and takes its values from the rows' paths |
| `ManifestIndex.HashesByPathOfSpec` | src/main/java/com/sphereon/mst/filescanner/FileScanner.java:178-180 | the rebuilt `hashesByPath` exists exactly when no two rows share an original path, and then maps every row's path to its hash and holds nothing else |
| `ManifestIndex.RebuildSucceeds` | src/main/java/com/sphereon/mst/filescanner/FileScanner.java:173-181 | `initProcessedFilesFromCsv` throws exactly when two rows share an original path |
| `ManifestIndex.RebuiltOwnersAreRows` | src/main/java/com/sphereon/mst/filescanner/FileScanner.java:174-176 | after a rebuild every owner in `filesByHash` is the path of some row |
| `ManifestIndex.RebuiltOwnsEveryRow` | src/main/java/com/sphereon/mst/filescanner/FileScanner.java:174-176 | after a rebuild the hash of every row has an owner |
| `ManifestIndex.RebuiltIndexesEveryPath` | src/main/java/com/sphereon/mst/filescanner/FileScanner.java:178-180 | after a rebuild the path of every row is indexed with that row's hash |
| `Ingestion.IsTifNameIff` | src/main/java/com/sphereon/mst/filescanner/FileScanner.java:101 | the name passes exactly when its last three characters, lower-cased, are `t`, `i`, `f` |
| `Ingestion.TifSuffixExamples` | src/main/java/com/sphereon/mst/filescanner/FileScanner.java:101 | `a.tif`, `SCAN.TIF` and `motif` pass; `x.tiff`, `x.png` and `if` do not |
| `Ingestion.StepUnchangedIff` | src/main/java/com/sphereon/mst/filescanner/FileScanner.java:93-112 | a candidate leaves both maps and the rows unchanged exactly when it is not an existing regular file, has length 0, has an already indexed path, has a name not ending in `tif`, or cannot be read |
| `Ingestion.StepFirstWins` | src/main/java/com/sphereon/mst/filescanner/FileScanner.java:122-125 | `filesByHash` is never overwritten; the only key a step can add is this file's hash, owned by this file's path; a readable, unfiltered file whose hash is new always adds that hash mapped to its path, whatever the copy and the barcode reader then do |
| `Ingestion.StepAppendsAtMostOne` | src/main/java/com/sphereon/mst/filescanner/FileScanner.java:152-159 | the old rows are a prefix of the new ones, and exactly one row is added when the file completes processing, none otherwise |
| `Ingestion.CompletedRow` | src/main/java/com/sphereon/mst/filescanner/FileScanner.java:113-159 | the added row holds path, name, length, mtime, the 64-character hash, the space-joined barcodes and the destination (also for duplicates); its duplicate-of is empty exactly when the hash was new, else the earlier owner; afterwards `hashesByPath[path] == hash` |
| `Ingestion.CopyFailureKeepsClaim` | src/main/java/com/sphereon/mst/filescanner/FileScanner.java:122-139 | when the copy of new content fails and no non-empty target exists, the new `filesByHash` entry stays, `hashesByPath` and the rows are unchanged |
| `Ingestion.BarcodeFailureHalfRecords` | src/main/java/com/sphereon/mst/filescanner/FileScanner.java:152-155 | when the barcode reader throws, the path is indexed but no row is written, and a retry of the same path in the run changes nothing |
| `Ingestion.StepPreservesInv` | src/main/java/com/sphereon/mst/filescanner/FileScanner.java:122-159 | every step keeps the invariant: rows' paths distinct and indexed with their hashes, rows' hashes owned by non-empty paths, and no hash with a second canonical row |
| `Ingestion.RunPreservesInv` | src/main/java/com/sphereon/mst/filescanner/FileScanner.java:87-166 | a whole walk keeps the invariant |
| `Ingestion.StartInv` | src/main/java/com/sphereon/mst/filescanner/FileScanner.java:173-181 | a manifest the scanner wrote always rebuilds, and the rebuilt maps satisfy the invariant |
| `Ingestion.NextRunRebuilds` | src/main/java/com/sphereon/mst/filescanner/FileScanner.java:173-181 | the manifest left by any run from a consistent state rebuilds without error at the next start |
| `Ingestion.RunAppends` | src/main/java/com/sphereon/mst/filescanner/FileScanner.java:157-159 | a run only appends rows to the manifest |
| `Ingestion.RunOfSkippedIsIdentity` | src/main/java/com/sphereon/mst/filescanner/FileScanner.java:93-104 | a walk whose candidates are all filtered out changes nothing |
| `Ingestion.ResumeSkipsRecorded` | src/main/java/com/sphereon/mst/filescanner/FileScanner.java:98-100 | after a rebuild, a walk over files that are ineligible or already recorded in the manifest changes nothing |
| `Ingestion.CleanStepRecords` | src/main/java/com/sphereon/mst/filescanner/FileScanner.java:91-164 | when all I/O succeeds, the indexed paths stay exactly the recorded ones, and an eligible file ends up recorded |
| `Ingestion.CleanRunRecords` | src/main/java/com/sphereon/mst/filescanner/FileScanner.java:87-166 | when all I/O of a walk succeeds, every eligible file of the walk ends up with a row |
| `Ingestion.IdempotentResume` | src/main/java/com/sphereon/mst/filescanner/FileScanner.java:81-166 | after a run with no I/O failure, a second run over the same files, whatever their I/O does, rebuilds cleanly and then writes no row and changes nothing |
| `Ingestion.SameBytesMakeDuplicate` | src/main/java/com/sphereon/mst/filescanner/FileScanner.java:113-157 | two eligible files with equal bytes and new content give two rows with the same hash: the first canonical, the second a duplicate of the first's path |
| `Ingestion.CopyFailureOrphansDuplicate` | src/main/java/com/sphereon/mst/filescanner/FileScanner.java:122-157 | if the first copy fails, a later file with the same bytes is recorded as a duplicate of a path with no row |
| `Collect.ToMap` | src/main/java/com/sphereon/mst/filescanner/FileScanner.java:174-180 | definition of `Collectors.toMap`, `None` standing for the exception on a repeated key; its properties are in `Collect.ToMapSpec` |
| `Collect.DistinctByKey` | src/main/java/com/sphereon/mst/filescanner/FileScanner.java:76-79 | definition of the `distinctByKey` filter applied in stream order; its properties are in `Collect.DistinctByKeySpec` |
| `ManifestIndex.FilesByHashOf` | src/main/java/com/sphereon/mst/filescanner/FileScanner.java:174-176 | definition of the first-wins map; its properties are in `ManifestIndex.FilesByHashOfSpec` |
| `ManifestIndex.HashesByPathOf` | src/main/java/com/sphereon/mst/filescanner/FileScanner.java:178-180 | definition of the path index; its properties are in `ManifestIndex.HashesByPathOfSpec` |
| `ManifestIndex.Rebuild` | src/main/java/com/sphereon/mst/filescanner/FileScanner.java:173-181 | definition of `initProcessedFilesFromCsv`, `None` when a collector throws; its properties are in `ManifestIndex.RebuildSucceeds` and `Ingestion.StartInv` |
| `Ingestion.IsTifName` | src/main/java/com/sphereon/mst/filescanner/FileScanner.java:101 | definition of the name test; its properties are in `Ingestion.IsTifNameIff` and `Ingestion.TifSuffixExamples` |
| `Ingestion.Skips` | src/main/java/com/sphereon/mst/filescanner/FileScanner.java:93-104 | definition of the four early returns; its properties are in `Ingestion.StepUnchangedIff` and `Ingestion.RunOfSkippedIsIdentity` |
| `Ingestion.HexHash` | src/main/java/com/sphereon/mst/filescanner/FileScanner.java:107-117 | definition of the hex digest of a file's bytes; its length and charset follow from `HexEncoding.HexOf` and `HexEncoding.DigestHexLength` |
| `Ingestion.DestinationPath` | src/main/java/com/sphereon/mst/filescanner/FileScanner.java:119-120 | definition of the destination string; the rows that carry it are described by `Ingestion.CompletedRow` |
| `Ingestion.CopyTakesEffect` | src/main/java/com/sphereon/mst/filescanner/FileScanner.java:131-139 | definition of when a copy counts as done; its effect is in `Ingestion.CopyFailureKeepsClaim` and `Ingestion.CompletedRow` |
| `Ingestion.SameFile` | src/main/java/com/sphereon/mst/filescanner/FileScanner.java:142 | definition of the always-false `File`-versus-`String` test; its effect is in `Ingestion.SameBytesMakeDuplicate` |
| `Ingestion.Record` | src/main/java/com/sphereon/mst/filescanner/FileScanner.java:152-159 | definition of indexing the path and printing the row; its properties are in `Ingestion.CompletedRow` and `Ingestion.BarcodeFailureHalfRecords` |
| `Ingestion.Join` | src/main/java/com/sphereon/mst/filescanner/FileScanner.java:155 | definition of `String.join`; it gives the barcode field in `Ingestion.CompletedRow` |
| `Ingestion.Step` | src/main/java/com/sphereon/mst/filescanner/FileScanner.java:91-164 | definition of the loop body on values; its properties are in `Ingestion.StepUnchangedIff`, `Ingestion.StepFirstWins`, `Ingestion.StepAppendsAtMostOne`, `Ingestion.CompletedRow` and `Ingestion.StepPreservesInv` |
| `Ingestion.Run` | src/main/java/com/sphereon/mst/filescanner/FileScanner.java:87-166 | definition of the walk as a left fold of `Step`; its properties are in `Ingestion.RunPreservesInv`, `Ingestion.RunAppends` and `Ingestion.IdempotentResume` |
| `Scanner.FileScanner.constructor` | src/main/java/com/sphereon/mst/filescanner/FileScanner.java:64-73 | both maps start empty; the manifest is the one on disk |
| `Scanner.FileScanner.CreateCsvFileWithHeaderWhenNeeded` | src/main/java/com/sphereon/mst/filescanner/FileScanner.java:183-189 | the manifest becomes `WithHeader` of what it was, and ends with a header |
| `Scanner.FileScanner.InitProcessedFilesFromCsv` | src/main/java/com/sphereon/mst/filescanner/FileScanner.java:173-181 | `filesByHash` is always replaced by the first-wins map; `ok` is false exactly when the path collector throws, and then `hashesByPath` is unchanged; otherwise the state is the rebuilt index |
| `Scanner.FileScanner.ProcessFile` | src/main/java/com/sphereon/mst/filescanner/FileScanner.java:91-164 | the statement-by-statement loop body leaves the maps and rows exactly as `Step` says, and keeps the manifest well-shaped once it has a header |
| `Scanner.FileScanner.Execute` | src/main/java/com/sphereon/mst/filescanner/FileScanner.java:81-167 | header rule, then rebuild (`ok` false when it throws), then the state is `Run` over the walk; from a manifest the scanner wrote, the rebuild succeeds and the invariant holds at the end; when the rebuild throws, the walk does not happen: the rows and `hashesByPath` are unchanged and `filesByHash` is the first-wins map already assigned |

## Left out

- SHA-256 and the `DigestInputStream` read loop (lines 107-112): the digest is an arbitrary function of the whole byte content, and a read failure is the `readOk` flag.
- `Files.walk` (line 87): the walk is the input sequence of candidates. An exception thrown by the walk itself, which would end `execute`, is not modelled.
- `mkdirs` (lines 127-129) only logs, so it is left out. `Files.copy` with `COPY_ATTRIBUTES` (line 132) is replaced by its outcome. The content store on disk is not modelled.
- Path normalisation by `new File(...)` and `toPath()` (lines 119-120): the destination is the plain concatenation.
- The model's `ToLower`, standing for `toLowerCase` (line 101), maps ASCII letters only. Locale-dependent and non-ASCII case mappings are not modelled, for example the Turkish dotless `ı` for `I`.
- A failure of `printer.printRecord` or `flush` (lines 157-159) is not modelled. It would leave the same half-recorded state as a barcode failure.
- CSV parsing and printing: the manifest is already-parsed rows. The header is a separate record. Also not modelled: a manifest with rows but no header (whose first row commons-csv would take as the header), malformed CSV, and missing columns. `DatasetReader.java` and the `DatasetWriter` are not part of this model; the printer is taken to append to the existing file.
- `Barcodes.java`: its result is an input of each candidate.
- `ConfigProperties.java` and `FileScannerApplication.java`: configuration and start-up plumbing. The target directory is a field of `Config`.
- Logging, the shared static `MessageDigest`, and the `ConcurrentHashMap` inside `distinctByKey`: the stream is sequential and there is one thread.
