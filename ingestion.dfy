/**
 * The body of the `forEach` in `FileScanner.execute` as a function from the
 * scanner's state (its two maps and the manifest rows) to the next state, the
 * run over a whole walk, and what they promise.
 */
module Ingestion {
  import opened Wrappers
  import opened HexEncoding
  import opened Collect
  import opened ManifestIndex

  /** `File.getAbsolutePath()` is never empty. */
  type AbsPath = p: string | p != "" witness "/"

  /** What the loop body reads of one walked path. */
  datatype FileRec = FileRec(
    absolutePath: AbsPath,
    name: string,
    fileExists: bool,
    isFile: bool,
    length: nat,
    lastModified: int,
    bytes: seq<JByte>)

  /** How `Files.copy` ended, and the target file's state when it threw. */
  datatype CopyOutcome = Copied | CopyFailed(targetExists: bool, targetLength: nat)

  /**
   * How the I/O of one file turns out: whether the bytes could be read to the
   * end, how the copy went, and what `Barcodes.readFirstPage` returned
   * (`None` when it threw).
   */
  datatype Io = Io(readOk: bool, copy: CopyOutcome, barcodes: Option<seq<string>>)

  /** One path of the walk together with how its I/O turns out. */
  datatype Candidate = Candidate(file: FileRec, io: Io)

  /** The configured output root and the SHA-256 function (any function of the bytes). */
  datatype Config = Config(targetDirectory: string, sha256: seq<JByte> -> Digest)

  /** The fields `filesByHash` and `hashesByPath`, and the rows printed so far. */
  datatype State = State(filesByHash: map<string, string>, hashesByPath: map<string, string>, rows: seq<Row>)

  /** The state after `initProcessedFilesFromCsv` rebuilt `idx` from `rows`. */
  function StartOf(idx: Index, rows: seq<Row>): State {
    State(idx.filesByHash, idx.hashesByPath, rows)
  }

  /** `toLowerCase` on the ASCII letters. */
  function LowerChar(c: char): char {
    if 'A' <= c <= 'Z' then (c as int + 32) as char else c
  }

  function ToLower(s: string): string {
    seq(|s|, i requires 0 <= i < |s| => LowerChar(s[i]))
  }

  predicate EndsWith(s: string, suffix: string) {
    |suffix| <= |s| && s[|s| - |suffix|..] == suffix
  }

  /** Line 101: `getName().toLowerCase().endsWith("tif")`, with no dot. */
  predicate IsTifName(name: string) {
    EndsWith(ToLower(name), "tif")
  }

  /** The name test looks at the last three characters only, ignoring case. */
  lemma IsTifNameIff(name: string)
    ensures IsTifName(name) <==>
      |name| >= 3 && LowerChar(name[|name| - 3]) == 't' && LowerChar(name[|name| - 2]) == 'i'
      && LowerChar(name[|name| - 1]) == 'f'
  {
    var low := ToLower(name);
    if |name| >= 3 {
      assert low[|low| - 3..] == [low[|low| - 3], low[|low| - 2], low[|low| - 1]];
    }
  }

  /** The suffix test accepts `motif` and `SCAN.TIF` and rejects `x.tiff`. */
  lemma TifSuffixExamples()
    ensures IsTifName("a.tif") && IsTifName("SCAN.TIF") && IsTifName("motif")
    ensures !IsTifName("x.tiff") && !IsTifName("x.png") && !IsTifName("if")
  {
    IsTifNameIff("a.tif");
    IsTifNameIff("SCAN.TIF");
    IsTifNameIff("motif");
    IsTifNameIff("x.tiff");
    IsTifNameIff("x.png");
  }

  /** The file passes the existence, length and name filters. */
  predicate Eligible(f: FileRec) {
    f.fileExists && f.isFile && f.length != 0 && IsTifName(f.name)
  }

  /** The four early returns of lines 93-104, in the order the source tests them. */
  predicate Skips(f: FileRec, hashesByPath: map<string, string>) {
    || !f.fileExists || !f.isFile
    || f.length == 0
    || f.absolutePath in hashesByPath
    || !IsTifName(f.name)
  }

  /** Lines 107-117: the hex digest of the file's bytes. */
  function HexHash(c: Config, f: FileRec): string {
    HexOf(c.sha256(f.bytes))
  }

  /** Lines 119-120: `targetDirectory + "/" + hash`, then a backslash and the name. */
  function DestinationPath(targetDirectory: string, hexHash: string, name: string): string {
    targetDirectory + "/" + hexHash + "\\" + name
  }

  /** Lines 131-139: a failed copy counts as done when a non-empty target exists. */
  predicate CopyTakesEffect(o: CopyOutcome) {
    o.Copied? || (o.targetExists && o.targetLength > 0)
  }

  /** `String.join(sep, parts)`. */
  function Join(parts: seq<string>, sep: string): string {
    if |parts| == 0 then ""
    else if |parts| == 1 then parts[0]
    else parts[0] + sep + Join(parts[1..], sep)
  }

  /**
   * Line 142: `imageFile.getAbsoluteFile().equals(existingPath)` compares a
   * `File` with a `String`, and `File.equals` is false for anything but a `File`.
   */
  predicate SameFile(f: FileRec, existingPath: string) {
    false
  }

  /** Lines 152-159: record the path, then read the barcodes, then print the row. */
  function Record(s: State, f: FileRec, hexHash: string, destinationPath: string, duplicateOf: string, barcodes: Option<seq<string>>): State {
    var indexed := s.(hashesByPath := s.hashesByPath[f.absolutePath := hexHash]);
    match barcodes
    case None => indexed
    case Some(codes) =>
      var row := Row(f.absolutePath, f.name, f.length, f.lastModified, hexHash, Join(codes, " "), destinationPath, duplicateOf);
      indexed.(rows := s.rows + [row])
  }

  /** The loop body of `execute` (lines 91-164); a caught exception keeps what was already changed. */
  function Step(c: Config, s: State, f: FileRec, io: Io): State {
    if Skips(f, s.hashesByPath) then s
    else if !io.readOk then s
    else
      var hexHash := HexHash(c, f);
      var destinationPath := DestinationPath(c.targetDirectory, hexHash, f.name);
      if hexHash !in s.filesByHash then
        var claimed := s.(filesByHash := s.filesByHash[hexHash := f.absolutePath]);
        if !CopyTakesEffect(io.copy) then claimed
        else Record(claimed, f, hexHash, destinationPath, "", io.barcodes)
      else if SameFile(f, s.filesByHash[hexHash]) then s
      else if f.absolutePath in s.hashesByPath then s
      else Record(s, f, hexHash, destinationPath, s.filesByHash[hexHash], io.barcodes)
  }

  /** The `forEach` over the walk. */
  function Run(c: Config, s: State, cs: seq<Candidate>): State
    decreases |cs|
  {
    if cs == [] then s
    else Step(c, Run(c, s, cs[..|cs| - 1]), cs[|cs| - 1].file, cs[|cs| - 1].io)
  }

  /** The step prints a row: it passes every filter and nothing on the way throws. */
  predicate Completes(c: Config, s: State, f: FileRec, io: Io) {
    && !Skips(f, s.hashesByPath)
    && io.readOk
    && (HexHash(c, f) in s.filesByHash || CopyTakesEffect(io.copy))
    && io.barcodes.Some?
  }

  /** All I/O of a file succeeds. */
  predicate Succeeds(io: Io) {
    io.readOk && CopyTakesEffect(io.copy) && io.barcodes.Some?
  }

  /** Every hash in `filesByHash` names a non-empty owner path. */
  ghost predicate OwnersNamed(s: State) {
    forall h :: h in s.filesByHash ==> s.filesByHash[h] != ""
  }

  /** After the first row of a hash, every row with that hash is a duplicate. */
  ghost predicate CanonicalUnique(rows: seq<Row>) {
    forall i, j :: 0 <= i < j < |rows| && rows[i].hash == rows[j].hash ==> rows[j].duplicateOf != ""
  }

  /** What every manifest this scanner writes satisfies. */
  ghost predicate WrittenByScanner(rows: seq<Row>) {
    && (forall i :: 0 <= i < |rows| ==> rows[i].originalPath != "")
    && UniqueKeys(rows, PathOf)
    && CanonicalUnique(rows)
  }

  /** The maps agree with the rows: every printed hash is owned and every printed path indexed. */
  ghost predicate Inv(s: State) {
    && WrittenByScanner(s.rows)
    && OwnersNamed(s)
    && (forall i :: 0 <= i < |s.rows| ==> s.rows[i].hash in s.filesByHash)
    && (forall i :: 0 <= i < |s.rows| ==>
          s.rows[i].originalPath in s.hashesByPath && s.hashesByPath[s.rows[i].originalPath] == s.rows[i].hash)
  }

  /**
   * A candidate changes nothing exactly when one of the filters of lines
   * 93-104 sends it back or its bytes cannot be read.
   */
  lemma StepUnchangedIff(c: Config, s: State, f: FileRec, io: Io)
    ensures Step(c, s, f, io) == s <==> Skips(f, s.hashesByPath) || !io.readOk
  {
    if !Skips(f, s.hashesByPath) && io.readOk {
      var hexHash := HexHash(c, f);
      var s' := Step(c, s, f, io);
      if hexHash !in s.filesByHash {
        assert hexHash in s'.filesByHash;
      } else {
        assert f.absolutePath in s'.hashesByPath;
      }
    }
  }

  /**
   * `filesByHash` is never overwritten: existing owners stay, and the only key
   * a step may add is this file's hash, owned by this file's path.
   */
  lemma StepFirstWins(c: Config, s: State, f: FileRec, io: Io)
    ensures forall h :: h in s.filesByHash ==>
      h in Step(c, s, f, io).filesByHash && Step(c, s, f, io).filesByHash[h] == s.filesByHash[h]
    ensures forall h :: h in Step(c, s, f, io).filesByHash && h !in s.filesByHash ==>
      h == HexHash(c, f) && Step(c, s, f, io).filesByHash[h] == f.absolutePath
    ensures !Skips(f, s.hashesByPath) && io.readOk && HexHash(c, f) !in s.filesByHash ==>
      Step(c, s, f, io).filesByHash == s.filesByHash[HexHash(c, f) := f.absolutePath]
  {
  }

  /**
   * The manifest is append-only and a step prints at most one row: exactly one
   * when it completes, none otherwise.
   */
  lemma StepAppendsAtMostOne(c: Config, s: State, f: FileRec, io: Io)
    ensures s.rows <= Step(c, s, f, io).rows
    ensures |Step(c, s, f, io).rows| == if Completes(c, s, f, io) then |s.rows| + 1 else |s.rows|
  {
  }

  /**
   * The row a completed step prints: the file's path, name, length, time and
   * hash, the barcodes joined by spaces, the destination (set for duplicates
   * too), and as duplicate-of either nothing, when the hash was new, or the
   * path already owning the hash. The path is then indexed with its hash.
   */
  lemma CompletedRow(c: Config, s: State, f: FileRec, io: Io)
    requires OwnersNamed(s)
    requires Completes(c, s, f, io)
    ensures var s' := Step(c, s, f, io); var r := s'.rows[|s.rows|]; var h := HexHash(c, f);
      && |s'.rows| == |s.rows| + 1
      && r.originalPath == f.absolutePath && r.fileName == f.name
      && r.size == f.length && r.modified == f.lastModified
      && r.hash == h && |r.hash| == 64
      && r.barcode == Join(io.barcodes.value, " ")
      && r.destinationPath == DestinationPath(c.targetDirectory, h, f.name)
      && (r.duplicateOf == "" <==> h !in s.filesByHash)
      && (r.duplicateOf != "" ==> r.duplicateOf == s.filesByHash[h])
      && s'.filesByHash[h] == (if h in s.filesByHash then s.filesByHash[h] else f.absolutePath)
      && s'.hashesByPath == s.hashesByPath[f.absolutePath := h]
  {
    DigestHexLength(c.sha256(f.bytes));
  }

  /**
   * A first copy of new content whose placement fails for good keeps its claim
   * on the hash but is neither indexed by path nor printed.
   */
  lemma CopyFailureKeepsClaim(c: Config, s: State, f: FileRec, io: Io)
    requires !Skips(f, s.hashesByPath) && io.readOk
    requires HexHash(c, f) !in s.filesByHash && !CopyTakesEffect(io.copy)
    ensures var s' := Step(c, s, f, io);
      && s'.filesByHash == s.filesByHash[HexHash(c, f) := f.absolutePath]
      && s'.hashesByPath == s.hashesByPath
      && s'.rows == s.rows
  {
  }

  /**
   * When the barcode reader throws, the path is already indexed but no row is
   * printed, so any later candidate with that path in the same run is skipped.
   */
  lemma BarcodeFailureHalfRecords(c: Config, s: State, f: FileRec, io: Io, retry: Io)
    requires !Skips(f, s.hashesByPath) && io.readOk
    requires HexHash(c, f) in s.filesByHash || CopyTakesEffect(io.copy)
    requires io.barcodes.None?
    ensures Step(c, s, f, io).rows == s.rows
    ensures Step(c, s, f, io).hashesByPath == s.hashesByPath[f.absolutePath := HexHash(c, f)]
    ensures Step(c, Step(c, s, f, io), f, retry) == Step(c, s, f, io)
  {
  }

  /** A step keeps the invariant; in particular no hash gets a second canonical row. */
  lemma StepPreservesInv(c: Config, s: State, f: FileRec, io: Io)
    requires Inv(s)
    ensures Inv(Step(c, s, f, io))
  {
    var s' := Step(c, s, f, io);
    StepAppendsAtMostOne(c, s, f, io);
    if Completes(c, s, f, io) {
      var n := |s.rows|;
      var r := s'.rows[n];
      assert s'.rows == s.rows + [r];
      CompletedRow(c, s, f, io);
      forall i, j | 0 <= i < j < |s'.rows| ensures PathOf(s'.rows[i]) != PathOf(s'.rows[j]) {
        assert s'.rows[i] == s.rows[i];
        if j < n {
          assert s'.rows[j] == s.rows[j];
          assert PathOf(s.rows[i]) != PathOf(s.rows[j]);
        } else {
          assert s.rows[i].originalPath in s.hashesByPath;
        }
      }
      forall i, j | 0 <= i < j < |s'.rows| && s'.rows[i].hash == s'.rows[j].hash
        ensures s'.rows[j].duplicateOf != ""
      {
        assert s'.rows[i] == s.rows[i];
        if j < n {
          assert s'.rows[j] == s.rows[j];
        } else {
          assert s.rows[i].hash in s.filesByHash;
        }
      }
      forall i | 0 <= i < |s'.rows|
        ensures s'.rows[i].originalPath in s'.hashesByPath
        ensures s'.hashesByPath[s'.rows[i].originalPath] == s'.rows[i].hash
      {
        if i < n {
          assert s'.rows[i] == s.rows[i];
          assert s.rows[i].originalPath in s.hashesByPath;
        }
      }
    }
  }

  /** A whole run keeps the invariant. */
  lemma {:induction false} RunPreservesInv(c: Config, s: State, cs: seq<Candidate>)
    requires Inv(s)
    ensures Inv(Run(c, s, cs))
    decreases |cs|
  {
    if cs != [] {
      RunPreservesInv(c, s, cs[..|cs| - 1]);
      StepPreservesInv(c, Run(c, s, cs[..|cs| - 1]), cs[|cs| - 1].file, cs[|cs| - 1].io);
    }
  }

  /**
   * A manifest this scanner wrote always rebuilds, and the rebuilt maps agree
   * with it: the start of every run satisfies the invariant.
   */
  lemma StartInv(rows: seq<Row>)
    requires WrittenByScanner(rows)
    ensures Rebuild(rows).Some?
    ensures Inv(StartOf(Rebuild(rows).value, rows))
  {
    RebuiltOwnersAreRows(rows);
    RebuiltOwnsEveryRow(rows);
    RebuiltIndexesEveryPath(rows);
    var idx := Rebuild(rows).value;
    forall h | h in idx.filesByHash ensures idx.filesByHash[h] != "" {
      var i :| 0 <= i < |rows| && PathOf(rows[i]) == idx.filesByHash[h];
    }
  }

  /** The manifest at the end of a run is again one the next run can rebuild. */
  lemma NextRunRebuilds(c: Config, s: State, cs: seq<Candidate>)
    requires Inv(s)
    ensures var s' := Run(c, s, cs);
      Rebuild(s'.rows).Some? && Inv(StartOf(Rebuild(s'.rows).value, s'.rows))
  {
    RunPreservesInv(c, s, cs);
    StartInv(Run(c, s, cs).rows);
  }

  /** A run only appends to the manifest. */
  lemma {:induction false} RunAppends(c: Config, s: State, cs: seq<Candidate>)
    ensures s.rows <= Run(c, s, cs).rows
    decreases |cs|
  {
    if cs != [] {
      var prev := Run(c, s, cs[..|cs| - 1]);
      RunAppends(c, s, cs[..|cs| - 1]);
      StepAppendsAtMostOne(c, prev, cs[|cs| - 1].file, cs[|cs| - 1].io);
    }
  }

  /** A run in which every candidate is filtered out changes nothing. */
  lemma {:induction false} RunOfSkippedIsIdentity(c: Config, s: State, cs: seq<Candidate>)
    requires forall i :: 0 <= i < |cs| ==> Skips(cs[i].file, s.hashesByPath)
    ensures Run(c, s, cs) == s
    decreases |cs|
  {
    if cs != [] {
      RunOfSkippedIsIdentity(c, s, cs[..|cs| - 1]);
      assert Skips(cs[|cs| - 1].file, s.hashesByPath);
    }
  }

  /**
   * Idempotent resume: after rebuilding from a manifest, every candidate that
   * is ineligible or whose path the manifest records is skipped, so the run
   * changes nothing.
   */
  lemma ResumeSkipsRecorded(c: Config, rows: seq<Row>, cs: seq<Candidate>)
    requires Rebuild(rows).Some?
    requires forall i :: 0 <= i < |cs| ==>
      !Eligible(cs[i].file) || cs[i].file.absolutePath in KeySet(rows, PathOf)
    ensures Run(c, StartOf(Rebuild(rows).value, rows), cs) == StartOf(Rebuild(rows).value, rows)
  {
    HashesByPathOfSpec(rows);
    RunOfSkippedIsIdentity(c, StartOf(Rebuild(rows).value, rows), cs);
  }

  /** The indexed paths are exactly the printed ones. */
  ghost predicate Synced(s: State) {
    s.hashesByPath.Keys == KeySet(s.rows, PathOf)
  }

  /** With every I/O succeeding, a step prints the row of every eligible file. */
  lemma CleanStepRecords(c: Config, s: State, f: FileRec, io: Io)
    requires Synced(s) && Succeeds(io)
    ensures Synced(Step(c, s, f, io))
    ensures Eligible(f) ==> f.absolutePath in KeySet(Step(c, s, f, io).rows, PathOf)
  {
    var s' := Step(c, s, f, io);
    StepAppendsAtMostOne(c, s, f, io);
    if Completes(c, s, f, io) {
      var r := s'.rows[|s.rows|];
      assert s'.rows == s.rows + [r];
      KeySetSnoc(s'.rows, PathOf);
      assert s'.rows[..|s'.rows| - 1] == s.rows;
    }
  }

  lemma {:induction false} CleanRunRecords(c: Config, s: State, cs: seq<Candidate>)
    requires Synced(s)
    requires forall i :: 0 <= i < |cs| ==> Succeeds(cs[i].io)
    ensures Synced(Run(c, s, cs))
    ensures forall i :: 0 <= i < |cs| && Eligible(cs[i].file) ==>
      cs[i].file.absolutePath in KeySet(Run(c, s, cs).rows, PathOf)
    decreases |cs|
  {
    if cs != [] {
      var init := cs[..|cs| - 1];
      var prev := Run(c, s, init);
      var last := cs[|cs| - 1];
      CleanRunRecords(c, s, init);
      CleanStepRecords(c, prev, last.file, last.io);
      StepAppendsAtMostOne(c, prev, last.file, last.io);
      forall i | 0 <= i < |cs| && Eligible(cs[i].file)
        ensures cs[i].file.absolutePath in KeySet(Run(c, s, cs).rows, PathOf)
      {
        if i < |cs| - 1 {
          assert init[i] == cs[i];
          var k :| 0 <= k < |prev.rows| && PathOf(prev.rows[k]) == cs[i].file.absolutePath;
          assert Run(c, s, cs).rows[k] == prev.rows[k];
        }
      }
    }
  }

  /**
   * Running twice over an unchanged tree: when the first run's I/O all
   * succeeds, the manifest it leaves rebuilds, and a second run over the same
   * files, whatever their I/O now does, changes nothing and prints no row.
   */
  lemma IdempotentResume(c: Config, rows: seq<Row>, cs: seq<Candidate>, again: seq<Candidate>)
    requires WrittenByScanner(rows)
    requires forall i :: 0 <= i < |cs| ==> Succeeds(cs[i].io)
    requires |again| == |cs| && forall i :: 0 <= i < |cs| ==> again[i].file == cs[i].file
    ensures Rebuild(rows).Some?
    ensures var s1 := Run(c, StartOf(Rebuild(rows).value, rows), cs);
      && Rebuild(s1.rows).Some?
      && Run(c, StartOf(Rebuild(s1.rows).value, s1.rows), again) == StartOf(Rebuild(s1.rows).value, s1.rows)
  {
    StartInv(rows);
    HashesByPathOfSpec(rows);
    var s0 := StartOf(Rebuild(rows).value, rows);
    CleanRunRecords(c, s0, cs);
    var s1 := Run(c, s0, cs);
    NextRunRebuilds(c, s0, cs);
    forall i | 0 <= i < |again|
      ensures !Eligible(again[i].file) || again[i].file.absolutePath in KeySet(s1.rows, PathOf)
    {
      assert again[i].file == cs[i].file;
    }
    ResumeSkipsRecorded(c, s1.rows, again);
  }

  /**
   * Two files with the same bytes: the first becomes the canonical row of the
   * new hash, the second is printed as its duplicate.
   */
  lemma SameBytesMakeDuplicate(c: Config, s: State, a: Candidate, b: Candidate)
    requires Inv(s)
    requires Eligible(a.file) && Eligible(b.file) && a.file.bytes == b.file.bytes
    requires a.file.absolutePath != b.file.absolutePath
    requires a.file.absolutePath !in s.hashesByPath && b.file.absolutePath !in s.hashesByPath
    requires HexHash(c, a.file) !in s.filesByHash
    requires Succeeds(a.io) && Succeeds(b.io)
    ensures var rows := Run(c, s, [a, b]).rows; var n := |s.rows|;
      && |rows| == n + 2 && rows[..n] == s.rows
      && rows[n].originalPath == a.file.absolutePath && rows[n].duplicateOf == ""
      && rows[n + 1].originalPath == b.file.absolutePath && rows[n + 1].hash == rows[n].hash
      && rows[n + 1].duplicateOf == a.file.absolutePath
  {
    var s1 := Step(c, s, a.file, a.io);
    assert [a, b][..1] == [a];
    assert Run(c, s, [a]) == s1;
    CompletedRow(c, s, a.file, a.io);
    StepPreservesInv(c, s, a.file, a.io);
    CompletedRow(c, s1, b.file, b.io);
    StepAppendsAtMostOne(c, s1, b.file, b.io);
  }

  /**
   * When the first copy of new content cannot be placed, a later duplicate is
   * printed as a duplicate of a path that has no row in the manifest, and the
   * content has no copy.
   */
  lemma CopyFailureOrphansDuplicate(c: Config, s: State, a: Candidate, b: Candidate)
    requires Inv(s)
    requires Eligible(a.file) && Eligible(b.file) && a.file.bytes == b.file.bytes
    requires a.file.absolutePath != b.file.absolutePath
    requires a.file.absolutePath !in s.hashesByPath && b.file.absolutePath !in s.hashesByPath
    requires HexHash(c, a.file) !in s.filesByHash
    requires a.io.readOk && !CopyTakesEffect(a.io.copy) && Succeeds(b.io)
    ensures var rows := Run(c, s, [a, b]).rows; var n := |s.rows|;
      && |rows| == n + 1
      && rows[n].originalPath == b.file.absolutePath && rows[n].duplicateOf == a.file.absolutePath
      && forall i :: 0 <= i < |rows| ==> rows[i].originalPath != a.file.absolutePath
  {
    var s1 := Step(c, s, a.file, a.io);
    assert [a, b][..1] == [a];
    assert Run(c, s, [a]) == s1;
    CopyFailureKeepsClaim(c, s, a.file, a.io);
    StepPreservesInv(c, s, a.file, a.io);
    CompletedRow(c, s1, b.file, b.io);
    var rows := Run(c, s, [a, b]).rows;
    forall i | 0 <= i < |rows| ensures rows[i].originalPath != a.file.absolutePath {
      if i < |s.rows| {
        assert rows[i] == s.rows[i];
        assert s.rows[i].originalPath in s.hashesByPath;
      }
    }
  }
}
