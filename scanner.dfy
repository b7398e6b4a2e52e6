/**
 * The `FileScanner` object: its two maps and the manifest it prints to, and
 * the methods of `execute` that change them, each proved against the
 * functions of `Ingestion` and `ManifestIndex`.
 */
module Scanner {
  import opened Wrappers
  import opened HexEncoding
  import opened ManifestIndex
  import opened Ingestion

  /** A manifest on disk as the scanner leaves it: absent means empty, and rows follow a header. */
  predicate WellShaped(csv: CsvFile) {
    (!csv.present ==> csv.header == [] && csv.rows == []) && (csv.rows != [] ==> csv.header != [])
  }

  class FileScanner {
    /** `configProperties.getOutput().getTargetDirectory()` and the digest. */
    const config: Config
    var filesByHash: map<string, string>
    var hashesByPath: map<string, string>
    /** The manifest file the printer appends to. */
    var csvPresent: bool
    var header: seq<string>
    var rows: seq<Row>

    function Model(): State
      reads this
    {
      State(filesByHash, hashesByPath, rows)
    }

    function Csv(): CsvFile
      reads this
    {
      CsvFile(csvPresent, header, rows)
    }

    ghost predicate Valid()
      reads this
    {
      WellShaped(Csv())
    }

    /** The maps start empty; the manifest is whatever is on disk. */
    constructor (config: Config, csv: CsvFile)
      requires WellShaped(csv)
      ensures Valid()
      ensures this.config == config && Csv() == csv
      ensures filesByHash == map[] && hashesByPath == map[]
    {
      this.config := config;
      filesByHash, hashesByPath := map[], map[];
      csvPresent, header, rows := csv.present, csv.header, csv.rows;
    }

    /** Lines 183-189. */
    method CreateCsvFileWithHeaderWhenNeeded()
      requires Valid()
      modifies this`csvPresent, this`header
      ensures Valid()
      ensures Csv() == WithHeader(old(Csv()))
      ensures header != []
    {
      if !csvPresent || (header == [] && rows == []) {
        header := Header;
        csvPresent := true;
      }
    }

    /**
     * Lines 173-181: `filesByHash` is replaced first; when two rows share a
     * path the second collector throws and `hashesByPath` keeps its value.
     */
    method InitProcessedFilesFromCsv() returns (ok: bool)
      modifies this`filesByHash, this`hashesByPath
      ensures FilesByHashOf(rows).Some? && filesByHash == FilesByHashOf(rows).value
      ensures ok <==> Rebuild(rows).Some?
      ensures ok ==> Model() == StartOf(Rebuild(rows).value, rows)
      ensures !ok ==> hashesByPath == old(hashesByPath)
    {
      FilesByHashOfSpec(rows);
      filesByHash := FilesByHashOf(rows).value;
      var byPath := HashesByPathOf(rows);
      if byPath.None? {
        ok := false;
        return;
      }
      hashesByPath := byPath.value;
      ok := true;
    }

    /** The body of the `forEach` in `execute` (lines 91-164) for one walked path. */
    method ProcessFile(f: FileRec, io: Io)
      requires Valid() && header != []
      modifies this`filesByHash, this`hashesByPath, this`rows
      ensures Valid()
      ensures Model() == Step(config, old(Model()), f, io)
    {
      if !f.fileExists || !f.isFile {
        return;
      } else if f.length == 0 {
        return;
      } else if f.absolutePath in hashesByPath {
        return;
      } else if !IsTifName(f.name) {
        return;
      }
      if !io.readOk {
        return;
      }
      var hexHash := EncodeHex(config.sha256(f.bytes));
      var targetDir := config.targetDirectory + "/" + hexHash;
      var destinationPath := targetDir + "\\" + f.name;
      var existingPath: Option<string> := if hexHash in filesByHash then Some(filesByHash[hexHash]) else None;
      if existingPath.None? {
        filesByHash := filesByHash[hexHash := f.absolutePath];
        if !CopyTakesEffect(io.copy) {
          return;
        }
      } else {
        // Line 142 compares a File with a String, line 145 repeats line 98.
        assert !SameFile(f, existingPath.value);
        assert f.absolutePath !in hashesByPath;
      }
      hashesByPath := hashesByPath[f.absolutePath := hexHash];
      if io.barcodes.None? {
        return;
      }
      var barcodesString := Join(io.barcodes.value, " ");
      var duplicateOf := if existingPath.None? then "" else filesByHash[hexHash];
      rows := rows + [Row(f.absolutePath, f.name, f.length, f.lastModified, hexHash, barcodesString, destinationPath, duplicateOf)];
    }

    /**
     * `execute`: the header rule, the rebuild (`ok` is false when it throws),
     * then every walked path in order. A manifest the scanner wrote always
     * rebuilds and stays one the scanner wrote.
     */
    method Execute(candidates: seq<Candidate>) returns (ok: bool)
      requires Valid()
      modifies this
      ensures Valid()
      ensures csvPresent && header == WithHeader(old(Csv())).header
      ensures ok <==> Rebuild(old(rows)).Some?
      ensures ok ==> Model() == Run(config, StartOf(Rebuild(old(rows)).value, old(rows)), candidates)
      ensures !ok ==> rows == old(rows) && hashesByPath == old(hashesByPath)
      ensures !ok ==> FilesByHashOf(old(rows)).Some? && filesByHash == FilesByHashOf(old(rows)).value
      ensures WrittenByScanner(old(rows)) ==> ok && Inv(Model())
    {
      CreateCsvFileWithHeaderWhenNeeded();
      ok := InitProcessedFilesFromCsv();
      if !ok {
        RebuildSucceeds(rows);
        return;
      }
      ghost var start := Model();
      for i := 0 to |candidates|
        invariant Valid() && csvPresent && header == WithHeader(old(Csv())).header && header != []
        invariant Model() == Run(config, start, candidates[..i])
      {
        assert candidates[..i + 1][..i] == candidates[..i];
        ProcessFile(candidates[i].file, candidates[i].io);
      }
      assert candidates[..|candidates|] == candidates;
      if WrittenByScanner(start.rows) {
        StartInv(start.rows);
        RunPreservesInv(config, start, candidates);
      }
    }
  }
}
