/**
 * `push`: the included files become one gist update, a README entry stamped
 * with the time followed by one entry per included file, named by the file's
 * base name and holding a "// <relative path>" line in front of its contents.
 */
module Push {
  import opened Wrappers
  import opened Errors
  import opened Paths
  import opened FileSystem
  import opened Walker
  import opened Gist

  /** The README entry; `timestamp` stands for the formatted local time. */
  function ReadmeContent(timestamp: string): string
  {
    "# Compiled on " + timestamp + "\n\n"
  }

  /** The gist content for one included file: its path as a comment line, then its contents. */
  function DocumentContent(f: IncludedFile): string
  {
    "// " + f.relativePath + "\n" + f.contents
  }

  /**
   * The fold over the included files: each one appends an entry named by
   * the base name of its relative path; a path without one is an error.
   */
  function AddFiles(batch: seq<GistFile>, ws: seq<IncludedFile>): (r: Result<seq<GistFile>, Error>)
    ensures r.Ok? ==> |r.value| == |batch| + |ws| && r.value[..|batch|] == batch
    ensures r.Err? ==> r.error.NoFileName?
    decreases |ws|
  {
    if ws == [] then Ok(batch)
    else
      match FileName(ws[0].relativePath)
      case None => Err(NoFileName(ws[0].relativePath))
      case Some(name) => AddFiles(batch + [GistFile(name, DocumentContent(ws[0]))], ws[1..])
  }

  /** Every included file's relative path has a base name. */
  ghost predicate AllNamed(ws: seq<IncludedFile>)
  {
    forall k :: 0 <= k < |ws| ==> FileName(ws[k].relativePath).Some?
  }

  /** One step of the fold: a named file appends its entry and the fold goes on. */
  lemma AddFilesStep(batch: seq<GistFile>, ws: seq<IncludedFile>)
    requires ws != [] && FileName(ws[0].relativePath).Some?
    ensures AddFiles(batch, ws)
            == AddFiles(batch + [GistFile(FileName(ws[0].relativePath).value, DocumentContent(ws[0]))], ws[1..])
  {
  }

  /** The fold succeeds exactly when every file has a base name. */
  lemma {:induction false} AddFilesOk(batch: seq<GistFile>, ws: seq<IncludedFile>)
    ensures AddFiles(batch, ws).Ok? <==> AllNamed(ws)
    decreases |ws|
  {
    if ws != [] {
      assert forall k :: 1 <= k < |ws| ==> ws[1..][k - 1] == ws[k];
      if FileName(ws[0].relativePath).Some? {
        AddFilesStep(batch, ws);
        AddFilesOk(batch + [GistFile(FileName(ws[0].relativePath).value, DocumentContent(ws[0]))], ws[1..]);
      }
    }
  }

  /**
   * A successful fold keeps the entries already there and appends, in
   * order, one entry per file.
   */
  lemma {:induction false} AddFilesLayout(batch: seq<GistFile>, ws: seq<IncludedFile>)
    requires AddFiles(batch, ws).Ok?
    ensures AllNamed(ws)
    ensures var r := AddFiles(batch, ws).value;
            && |r| == |batch| + |ws|
            && r[..|batch|] == batch
            && forall k :: 0 <= k < |ws| ==>
                 r[|batch| + k] == GistFile(FileName(ws[k].relativePath).value, DocumentContent(ws[k]))
    decreases |ws|
  {
    if ws != [] {
      var b' := batch + [GistFile(FileName(ws[0].relativePath).value, DocumentContent(ws[0]))];
      AddFilesStep(batch, ws);
      AddFilesLayout(b', ws[1..]);
      var r := AddFiles(batch, ws).value;
      forall k | 0 <= k < |ws|
        ensures FileName(ws[k].relativePath).Some?
        ensures r[|batch| + k] == GistFile(FileName(ws[k].relativePath).value, DocumentContent(ws[k]))
      {
        if k == 0 {
          assert r[|batch|] == r[..|b'|][|batch|] == b'[|batch|];
        } else {
          assert ws[1..][k - 1] == ws[k];
          assert r[|batch| + k] == r[|b'| + (k - 1)];
        }
      }
    }
  }

  /** A failed fold names the first file without a base name. */
  lemma {:induction false} AddFilesError(batch: seq<GistFile>, ws: seq<IncludedFile>)
    requires AddFiles(batch, ws).Err?
    ensures exists j :: 0 <= j < |ws| && FileName(ws[j].relativePath).None?
                        && AddFiles(batch, ws).error == NoFileName(ws[j].relativePath)
                        && forall k :: 0 <= k < j ==> FileName(ws[k].relativePath).Some?
    decreases |ws|
  {
    if FileName(ws[0].relativePath).None? {
      assert 0 <= 0 < |ws| && FileName(ws[0].relativePath).None?;
    } else {
      var b' := batch + [GistFile(FileName(ws[0].relativePath).value, DocumentContent(ws[0]))];
      AddFilesStep(batch, ws);
      AddFilesError(b', ws[1..]);
      var j :| 0 <= j < |ws[1..]| && FileName(ws[1..][j].relativePath).None?
               && AddFiles(b', ws[1..]).error == NoFileName(ws[1..][j].relativePath)
               && forall k :: 0 <= k < j ==> FileName(ws[1..][k].relativePath).Some?;
      assert ws[1..][j] == ws[j + 1];
      assert forall k :: 1 <= k < j + 1 ==> ws[1..][k - 1] == ws[k];
    }
  }

  /** The update for a list of included files: the README entry first, then the fold. */
  function Batch(ws: seq<IncludedFile>, timestamp: string): (r: Result<seq<GistFile>, Error>)
    ensures r.Ok? ==> |r.value| == 1 + |ws| && r.value[0] == GistFile(ReadmeFile, ReadmeContent(timestamp))
    ensures r.Err? ==> r.error.NoFileName?
  {
    var r := AddFiles([GistFile(ReadmeFile, ReadmeContent(timestamp))], ws);
    assert r.Ok? ==> r.value[0] == r.value[..1][0];
    r
  }

  /**
   * The gist update built from the included files of `root_file`: the
   * README entry first, then the fold over the walk.
   */
  function GistBatch(fs: Files, cfgDir: string, rootFile: string, timestamp: string): (r: Result<seq<GistFile>, Error>)
    ensures PathJoin(cfgDir, rootFile) !in fs ==> r == Err(FileNotFound(PathJoin(cfgDir, rootFile)))
    ensures r.Ok? ==> IncludedFiles(fs, cfgDir, rootFile).Ok?
                      && |r.value| == 1 + |IncludedFiles(fs, cfgDir, rootFile).value|
                      && r.value[0] == GistFile(ReadmeFile, ReadmeContent(timestamp))
  {
    match IncludedFiles(fs, cfgDir, rootFile)
    case Err(e) => Err(e)
    case Ok(ws) => Batch(ws, timestamp)
  }

  /** What `push_config` does: nothing on a dry run, otherwise it sends one update. */
  datatype PushPlan = SkippedDryRun | Send(files: seq<GistFile>)

  /** `push_config`: a dry run reads no file and sends nothing. */
  function PushConfig(fs: Files, cfgDir: string, rootFile: string, timestamp: string, dryRun: bool): (r: Result<PushPlan, Error>)
    ensures dryRun ==> r == Ok(SkippedDryRun)
    ensures !dryRun ==> (r.Ok? <==> GistBatch(fs, cfgDir, rootFile, timestamp).Ok?) && r != Ok(SkippedDryRun)
  {
    if dryRun then Ok(SkippedDryRun)
    else
      match GistBatch(fs, cfgDir, rootFile, timestamp)
      case Err(e) => Err(e)
      case Ok(files) => Ok(Send(files))
  }

  /**
   * The expected shape of an update: the README entry first, then entry
   * k + 1 for the k-th file, named by its base name and holding its path line
   * followed by its contents on disk.
   */
  ghost predicate LaidOut(fs: Files, cfgDir: string, ws: seq<IncludedFile>, timestamp: string, ops: seq<GistFile>)
  {
    && |ops| == 1 + |ws|
    && ops[0] == GistFile("README.md", "# Compiled on " + timestamp + "\n\n")
    && forall k :: 0 <= k < |ws| ==> EntryFor(fs, cfgDir, ws[k], ops[k + 1])
  }

  /**
   * The entry for one included file: named by its base name, holding its
   * path line followed by the file's contents on disk.
   */
  ghost predicate EntryFor(fs: Files, cfgDir: string, f: IncludedFile, op: GistFile)
  {
    && IsPlainName(op.name)
    && FileName(f.relativePath) == Some(op.name)
    && PathJoin(cfgDir, f.relativePath) in fs
    && op.content == "// " + f.relativePath + "\n" + fs[PathJoin(cfgDir, f.relativePath)]
  }

  /**
   * The layout of the update for files read from `fs`: it exists exactly when
   * every file has a base name; the README entry comes first, then entry
   * k + 1 is the k-th file, named by its base name and holding its path line
   * followed by its contents on disk.
   */
  lemma BatchLayout(fs: Files, cfgDir: string, ws: seq<IncludedFile>, timestamp: string)
    requires Faithful(fs, cfgDir, ws)
    ensures Batch(ws, timestamp).Ok? <==> AllNamed(ws)
    ensures Batch(ws, timestamp).Ok? ==> LaidOut(fs, cfgDir, ws, timestamp, Batch(ws, timestamp).value)
  {
    var readme := [GistFile(ReadmeFile, ReadmeContent(timestamp))];
    AddFilesOk(readme, ws);
    if Batch(ws, timestamp).Ok? {
      AddFilesLayout(readme, ws);
      var ops := Batch(ws, timestamp).value;
      assert ops[..1] == readme;
      assert ops[0] == ops[..1][0];
      forall k | 0 <= k < |ws|
        ensures EntryFor(fs, cfgDir, ws[k], ops[k + 1])
      {
        assert ops[1 + k] == GistFile(FileName(ws[k].relativePath).value, DocumentContent(ws[k]));
        assert FileName(ws[k].relativePath).Some?;
        assert PathJoin(cfgDir, ws[k].relativePath) in fs && fs[PathJoin(cfgDir, ws[k].relativePath)] == ws[k].contents;
      }
      assert |ops| == 1 + |ws|;
      assert ops[0] == GistFile("README.md", "# Compiled on " + timestamp + "\n\n");
    }
  }

  /** The names in an update. */
  function Names(ops: seq<GistFile>): (r: set<string>)
    ensures forall k :: 0 <= k < |ops| ==> ops[k].name in r
    ensures forall n :: n in r ==> exists k :: 0 <= k < |ops| && ops[k].name == n
  {
    set k | 0 <= k < |ops| :: ops[k].name
  }

  /** The base names of the included files. */
  function BaseNames(ws: seq<IncludedFile>): set<string>
    requires AllNamed(ws)
  {
    set k | 0 <= k < |ws| :: FileName(ws[k].relativePath).value
  }

  /** The update names exactly the README and the base names of the included files. */
  lemma BatchNames(fs: Files, cfgDir: string, ws: seq<IncludedFile>, timestamp: string)
    requires Faithful(fs, cfgDir, ws) && Batch(ws, timestamp).Ok?
    ensures AllNamed(ws)
    ensures Names(Batch(ws, timestamp).value) == {ReadmeFile} + BaseNames(ws)
  {
    BatchLayout(fs, cfgDir, ws, timestamp);
    var ops := Batch(ws, timestamp).value;
    forall n | n in Names(ops)
      ensures n in {ReadmeFile} + BaseNames(ws)
    {
      var k :| 0 <= k < |ops| && ops[k].name == n;
      if k > 0 {
        assert EntryFor(fs, cfgDir, ws[k - 1], ops[k]);
      }
    }
    forall n | n in BaseNames(ws)
      ensures n in Names(ops)
    {
      var k :| 0 <= k < |ws| && FileName(ws[k].relativePath).value == n;
      assert EntryFor(fs, cfgDir, ws[k], ops[k + 1]);
    }
  }

  /**
   * The update for `root_file` exists exactly when the walk succeeds and
   * every included file has a base name, and is then laid out as in
   * BatchLayout over the walk; a failed walk fails with the same error.
   */
  lemma GistBatchLayout(fs: Files, cfgDir: string, rootFile: string, timestamp: string)
    ensures GistBatch(fs, cfgDir, rootFile, timestamp).Ok?
            <==> IncludedFiles(fs, cfgDir, rootFile).Ok? && AllNamed(IncludedFiles(fs, cfgDir, rootFile).value)
    ensures IncludedFiles(fs, cfgDir, rootFile).Err? ==>
              GistBatch(fs, cfgDir, rootFile, timestamp) == Err(IncludedFiles(fs, cfgDir, rootFile).error)
    ensures IncludedFiles(fs, cfgDir, rootFile).Ok? ==>
              && Faithful(fs, cfgDir, IncludedFiles(fs, cfgDir, rootFile).value)
              && GistBatch(fs, cfgDir, rootFile, timestamp) == Batch(IncludedFiles(fs, cfgDir, rootFile).value, timestamp)
  {
    if IncludedFiles(fs, cfgDir, rootFile).Ok? {
      var ws := IncludedFiles(fs, cfgDir, rootFile).value;
      WalkFaithful(fs, cfgDir, rootFile, {});
      BatchLayout(fs, cfgDir, ws, timestamp);
    }
  }

  /** A dry run succeeds whatever the files hold, even when the root file is missing. */
  lemma PushDryRunSkips(fs: Files, other: Files, cfgDir: string, rootFile: string, timestamp: string)
    ensures PushConfig(fs, cfgDir, rootFile, timestamp, true) == PushConfig(other, cfgDir, rootFile, timestamp, true)
    ensures PushConfig(fs, cfgDir, rootFile, timestamp, true).Ok?
  {
  }

  /** Otherwise the push sends exactly the update built from the walk, or fails as building it does. */
  lemma PushSendsBatch(fs: Files, cfgDir: string, rootFile: string, timestamp: string)
    ensures PushConfig(fs, cfgDir, rootFile, timestamp, false).Ok? <==> GistBatch(fs, cfgDir, rootFile, timestamp).Ok?
    ensures GistBatch(fs, cfgDir, rootFile, timestamp).Ok? ==>
              PushConfig(fs, cfgDir, rootFile, timestamp, false) == Ok(Send(GistBatch(fs, cfgDir, rootFile, timestamp).value))
  {
  }
}
