/**
 * The manifest CSV as the scanner sees it: an optional header line followed by
 * data rows, the header rule of `createCsvFileWithHeaderWhenNeeded`, and the
 * two indexes `initProcessedFilesFromCsv` rebuilds from the rows.
 */
module ManifestIndex {
  import opened Wrappers
  import opened Collect

  /** One data row, fields in the order of the header columns. */
  datatype Row = Row(
    originalPath: string,
    fileName: string,
    size: int,
    modified: int,
    hash: string,
    barcode: string,
    destinationPath: string,
    duplicateOf: string)

  const HashColumn := "hash"
  const OriginalPathColumn := "original-path"

  /** The header record printed for a fresh manifest. */
  const Header: seq<string> := [OriginalPathColumn, "filename", "size", "modified", HashColumn, "barcode", "destination-path", "duplicate-of"]

  /** `record.get(HASH)` */
  function HashOf(r: Row): string { r.hash }

  /** `record.get(ORIGINAL_PATH)` */
  function PathOf(r: Row): string { r.originalPath }

  /** The manifest file: whether it is present, its header record (`[]` for none) and its data rows. */
  datatype CsvFile = CsvFile(present: bool, header: seq<string>, rows: seq<Row>)

  /** `!csvFile.exists() || csvFile.length() == 0` */
  predicate AbsentOrEmpty(m: CsvFile) {
    !m.present || (m.header == [] && m.rows == [])
  }

  /**
   * `createCsvFileWithHeaderWhenNeeded`: the header is printed exactly when the
   * file is absent or empty; afterwards the file exists and is not empty, and
   * its data rows are untouched.
   */
  function WithHeader(m: CsvFile): (r: CsvFile)
    ensures r.present && !AbsentOrEmpty(r)
    ensures r.rows == m.rows
    ensures r != m <==> AbsentOrEmpty(m)
    ensures AbsentOrEmpty(m) ==> r.header == Header
  {
    if AbsentOrEmpty(m) then CsvFile(true, Header, m.rows) else m
  }

  /** Applying the header rule a second time writes nothing. */
  lemma WithHeaderIdempotent(m: CsvFile)
    ensures WithHeader(WithHeader(m)) == WithHeader(m)
  {
  }

  /** The two maps the scanner keeps. */
  datatype Index = Index(filesByHash: map<string, string>, hashesByPath: map<string, string>)

  /** Lines 174-176: keep the first row per hash, then `toMap(hash, original-path)`. */
  function FilesByHashOf(rows: seq<Row>): Option<map<string, string>> {
    ToMap(DistinctByKey(rows, HashOf), HashOf, PathOf)
  }

  /** Lines 178-180: `toMap(original-path, hash)` over every row. */
  function HashesByPathOf(rows: seq<Row>): Option<map<string, string>> {
    ToMap(rows, PathOf, HashOf)
  }

  /** `initProcessedFilesFromCsv`; `None` when one of the collectors throws. */
  function Rebuild(rows: seq<Row>): Option<Index> {
    match FilesByHashOf(rows)
    case None => None
    case Some(byHash) =>
      match HashesByPathOf(rows)
      case None => None
      case Some(byPath) => Some(Index(byHash, byPath))
  }

  /**
   * The rebuilt `filesByHash` never fails, holds exactly the hashes of the
   * rows, maps each hash to the original path of the first row carrying it
   * (later rows with that hash are ignored), and only to paths of rows.
   */
  lemma FilesByHashOfSpec(rows: seq<Row>)
    ensures FilesByHashOf(rows).Some?
    ensures FilesByHashOf(rows).value.Keys == KeySet(rows, HashOf)
    ensures forall i :: 0 <= i < |rows| && FirstWithKey(rows, HashOf, i) ==>
      FilesByHashOf(rows).value[rows[i].hash] == rows[i].originalPath
    ensures forall h :: h in FilesByHashOf(rows).value ==> FilesByHashOf(rows).value[h] in KeySet(rows, PathOf)
  {
    var d := DistinctByKey(rows, HashOf);
    DistinctByKeySpec(rows, HashOf);
    ToMapSpec(d, HashOf, PathOf);
    var m := FilesByHashOf(rows).value;
    forall i | 0 <= i < |rows| && FirstWithKey(rows, HashOf, i)
      ensures m[rows[i].hash] == rows[i].originalPath
    {
      var j :| 0 <= j < |d| && d[j] == rows[i];
      assert m[HashOf(d[j])] == PathOf(d[j]);
    }
    forall h | h in m ensures m[h] in KeySet(rows, PathOf) {
      var j :| 0 <= j < |d| && HashOf(d[j]) == h;
      var i :| 0 <= i < |rows| && rows[i] == d[j];
      assert PathOf(rows[i]) in KeySet(rows, PathOf);
    }
  }

  /**
   * The rebuilt `hashesByPath` exists exactly when no two rows share an
   * original path, and then maps every row's path to its hash, and nothing else.
   */
  lemma HashesByPathOfSpec(rows: seq<Row>)
    ensures HashesByPathOf(rows).Some? <==> UniqueKeys(rows, PathOf)
    ensures HashesByPathOf(rows).Some? ==>
      && HashesByPathOf(rows).value.Keys == KeySet(rows, PathOf)
      && forall i :: 0 <= i < |rows| ==> HashesByPathOf(rows).value[rows[i].originalPath] == rows[i].hash
  {
    ToMapSpec(rows, PathOf, HashOf);
  }

  /** The rebuild succeeds exactly when the rows' original paths are distinct. */
  lemma RebuildSucceeds(rows: seq<Row>)
    ensures Rebuild(rows).Some? <==> UniqueKeys(rows, PathOf)
  {
    FilesByHashOfSpec(rows);
    HashesByPathOfSpec(rows);
  }

  /** A rebuild with distinct paths yields exactly the two collected maps. */
  lemma RebuildOfDistinctPaths(rows: seq<Row>)
    requires UniqueKeys(rows, PathOf)
    ensures FilesByHashOf(rows).Some? && HashesByPathOf(rows).Some?
    ensures Rebuild(rows) == Some(Index(FilesByHashOf(rows).value, HashesByPathOf(rows).value))
  {
    FilesByHashOfSpec(rows);
    HashesByPathOfSpec(rows);
  }

  /** After a rebuild every owner is the path of some row. */
  lemma RebuiltOwnersAreRows(rows: seq<Row>)
    requires UniqueKeys(rows, PathOf)
    ensures Rebuild(rows).Some?
    ensures forall h :: h in Rebuild(rows).value.filesByHash ==>
      Rebuild(rows).value.filesByHash[h] in KeySet(rows, PathOf)
  {
    RebuildOfDistinctPaths(rows);
    FilesByHashOfSpec(rows);
  }

  /** After a rebuild the hash of every row has an owner. */
  lemma RebuiltOwnsEveryRow(rows: seq<Row>)
    requires UniqueKeys(rows, PathOf)
    ensures Rebuild(rows).Some?
    ensures forall i :: 0 <= i < |rows| ==> rows[i].hash in Rebuild(rows).value.filesByHash
  {
    RebuildOfDistinctPaths(rows);
    FilesByHashOfSpec(rows);
    forall i | 0 <= i < |rows| ensures rows[i].hash in FilesByHashOf(rows).value {
      assert HashOf(rows[i]) in KeySet(rows, HashOf);
    }
  }

  /** After a rebuild the path of every row is indexed with that row's hash. */
  lemma RebuiltIndexesEveryPath(rows: seq<Row>)
    requires UniqueKeys(rows, PathOf)
    ensures Rebuild(rows).Some?
    ensures forall i :: 0 <= i < |rows| ==>
      && rows[i].originalPath in Rebuild(rows).value.hashesByPath
      && Rebuild(rows).value.hashesByPath[rows[i].originalPath] == rows[i].hash
  {
    RebuildOfDistinctPaths(rows);
    HashesByPathOfSpec(rows);
  }
}
