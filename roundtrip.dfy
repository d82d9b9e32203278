/** `push` followed by `pull`: what a pulled directory holds after a push. */
module RoundTrip {
  import opened Wrappers
  import opened Paths
  import opened FileSystem
  import opened Gist
  import opened Walker
  import opened Push
  import opened Pull

  /** The relative paths of the included files. */
  function PathsOf(ws: seq<IncludedFile>): (r: seq<string>)
    ensures |r| == |ws| && forall k :: 0 <= k < |ws| ==> r[k] == ws[k].relativePath
  {
    seq(|ws|, k requires 0 <= k < |ws| => ws[k].relativePath)
  }

  /** The contents of the included files. */
  function ContentsOf(ws: seq<IncludedFile>): (r: seq<string>)
    ensures |r| == |ws| && forall k :: 0 <= k < |ws| ==> r[k] == ws[k].contents
  {
    seq(|ws|, k requires 0 <= k < |ws| => ws[k].contents)
  }

  /** Included files with the same base name have the same relative path. */
  ghost predicate DistinctBaseNames(ws: seq<IncludedFile>)
  {
    forall i, j :: 0 <= i < |ws| && 0 <= j < |ws| && FileName(ws[i].relativePath) == FileName(ws[j].relativePath) ==>
      ws[i].relativePath == ws[j].relativePath
  }

  /** Included files with the same relative path have the same contents. */
  ghost predicate SameContents(ws: seq<IncludedFile>)
  {
    forall i, j :: 0 <= i < |ws| && 0 <= j < |ws| && ws[i].relativePath == ws[j].relativePath ==>
      ws[i].contents == ws[j].contents
  }

  /**
   * Each included file can make the trip into `local` under `pullDir`: a
   * relative one-line path, contents without '\r' and without a final '\n',
   * a base name other than the README, and no target already longer than
   * its contents.
   */
  ghost predicate Returnable(ws: seq<IncludedFile>, local: Files, pullDir: string)
  {
    forall k :: 0 <= k < |ws| ==>
      && Portable(ws[k].relativePath, ws[k].contents)
      && FileName(ws[k].relativePath) != Some(ReadmeFile)
      && (PathJoin(pullDir, ws[k].relativePath) in local ==>
            |local[PathJoin(pullDir, ws[k].relativePath)]| <= |ws[k].contents|)
  }

  /** A gist file pushed for one of the included files. */
  ghost predicate FromWalk(ws: seq<IncludedFile>, doc: GistFile)
  {
    exists k :: 0 <= k < |ws| && doc.content == DocumentContent(ws[k])
  }

  /** The path a gist file parses to, or the empty path when it does not parse. */
  function ParsedPath(doc: GistFile): string
  {
    match ParseDocument(doc)
    case Ok(p) => p.relativePath
    case Err(_) => []
  }

  /** The body a gist file parses to, or the empty body when it does not parse. */
  function ParsedBody(doc: GistFile): string
  {
    match ParseDocument(doc)
    case Ok(p) => p.body
    case Err(_) => []
  }

  /**
   * The update for files read from `fs`, entry by entry: the README first,
   * then for the k-th file the entry named by its base name holding
   * DocumentContent of the file.
   */
  lemma UpdateEntries(fs: Files, cfgDir: string, ws: seq<IncludedFile>, timestamp: string)
    requires Faithful(fs, cfgDir, ws) && Batch(ws, timestamp).Ok?
    ensures var ops := Batch(ws, timestamp).value;
            && |ops| == 1 + |ws| && ops[0].name == ReadmeFile
            && forall k :: 0 <= k < |ws| ==>
                 FileName(ws[k].relativePath) == Some(ops[k + 1].name) && ops[k + 1].content == DocumentContent(ws[k])
  {
    BatchLayout(fs, cfgDir, ws, timestamp);
    var ops := Batch(ws, timestamp).value;
    forall k | 0 <= k < |ws|
      ensures FileName(ws[k].relativePath) == Some(ops[k + 1].name) && ops[k + 1].content == DocumentContent(ws[k])
    {
      assert EntryFor(fs, cfgDir, ws[k], ops[k + 1]);
    }
  }

  /**
   * Files read from one directory agree on equal paths, and with distinct
   * base names other than the README the update's entries agree, so the
   * update leaves a gist (GistAfter).
   */
  lemma BatchNamesAgree(fs: Files, cfgDir: string, ws: seq<IncludedFile>, timestamp: string)
    requires Faithful(fs, cfgDir, ws) && Batch(ws, timestamp).Ok? && DistinctBaseNames(ws)
    requires forall k :: 0 <= k < |ws| ==> FileName(ws[k].relativePath) != Some(ReadmeFile)
    ensures SameContents(ws)
    ensures NamesAgree(Batch(ws, timestamp).value)
  {
    UpdateEntries(fs, cfgDir, ws, timestamp);
    var ops := Batch(ws, timestamp).value;
    forall i, j | 0 <= i < |ops| && 0 <= j < |ops| && ops[i].name == ops[j].name
      ensures ops[i].content == ops[j].content
    {
      if i > 0 && j > 0 {
        assert FileName(ws[i - 1].relativePath) == Some(ops[i].name);
        assert FileName(ws[j - 1].relativePath) == Some(ops[j].name);
        assert ws[i - 1].relativePath == ws[j - 1].relativePath;
      }
    }
  }

  /** The paths the gist files parse to. */
  function ParsedPaths(docs: seq<GistFile>): (r: seq<string>)
    ensures |r| == |docs| && forall m :: 0 <= m < |docs| ==> r[m] == ParsedPath(docs[m])
  {
    seq(|docs|, m requires 0 <= m < |docs| => ParsedPath(docs[m]))
  }

  /** The bodies the gist files parse to. */
  function ParsedBodies(docs: seq<GistFile>): (r: seq<string>)
    ensures |r| == |docs| && forall m :: 0 <= m < |docs| ==> r[m] == ParsedBody(docs[m])
  {
    seq(|docs|, m requires 0 <= m < |docs| => ParsedBody(docs[m]))
  }

  /** The path and contents of an included file. */
  ghost predicate IsIncluded(ws: seq<IncludedFile>, path: string, contents: string)
  {
    exists k :: 0 <= k < |ws| && path == ws[k].relativePath && contents == ws[k].contents
  }

  /** Every path, with its contents, is the path and contents of an included file. */
  ghost predicate Covered(ws: seq<IncludedFile>, paths: seq<string>, contents: seq<string>)
    requires |paths| == |contents|
  {
    forall m :: 0 <= m < |paths| ==> IsIncluded(ws, paths[m], contents[m])
  }

  /** A gist file pushed for an included file parses back to that file's path and contents. */
  lemma ParsedFromWalk(ws: seq<IncludedFile>, docs: seq<GistFile>, local: Files, pullDir: string)
    requires Returnable(ws, local, pullDir)
    requires forall m :: 0 <= m < |docs| ==> docs[m].name != ReadmeFile && FromWalk(ws, docs[m])
    ensures forall m, k :: 0 <= m < |docs| && 0 <= k < |ws| && docs[m].content == DocumentContent(ws[k]) ==>
              ParsedPath(docs[m]) == ws[k].relativePath && ParsedBody(docs[m]) == ws[k].contents
    ensures Pushed(docs, ParsedPaths(docs), ParsedBodies(docs))
    ensures Covered(ws, ParsedPaths(docs), ParsedBodies(docs))
  {
    forall m, k | 0 <= m < |docs| && 0 <= k < |ws| && docs[m].content == DocumentContent(ws[k])
      ensures ParsedPath(docs[m]) == ws[k].relativePath && ParsedBody(docs[m]) == ws[k].contents
    {
      ParseRoundTrip(docs[m].name, ws[k].relativePath, ws[k].contents);
      assert docs[m] == GistFile(docs[m].name, DocumentContent(ws[k]));
    }
    var paths, contents := ParsedPaths(docs), ParsedBodies(docs);
    forall m | 0 <= m < |paths|
      ensures IsIncluded(ws, paths[m], contents[m])
    {
      assert FromWalk(ws, docs[m]);
      var k :| 0 <= k < |ws| && docs[m].content == DocumentContent(ws[k]);
      assert paths[m] == ws[k].relativePath && contents[m] == ws[k].contents;
    }
    assert Covered(ws, paths, contents);
  }

  /** Paths and contents taken from the included files agree and fit as the files do. */
  lemma CoveredAgrees(ws: seq<IncludedFile>, paths: seq<string>, contents: seq<string>, local: Files, pullDir: string)
    requires |paths| == |contents| && Covered(ws, paths, contents)
    requires Returnable(ws, local, pullDir) && SameContents(ws)
    ensures Consistent(paths, contents) && Fits(local, pullDir, paths, contents)
  {
    forall i, j | 0 <= i < |paths| && 0 <= j < |paths| && paths[i] == paths[j]
      ensures contents[i] == contents[j]
    {
      var ki :| 0 <= ki < |ws| && paths[i] == ws[ki].relativePath && contents[i] == ws[ki].contents;
      var kj :| 0 <= kj < |ws| && paths[j] == ws[kj].relativePath && contents[j] == ws[kj].contents;
    }
    forall m | 0 <= m < |paths| && PathJoin(pullDir, paths[m]) in local
      ensures |local[PathJoin(pullDir, paths[m])]| <= |contents[m]|
    {
      var k :| 0 <= k < |ws| && paths[m] == ws[k].relativePath && contents[m] == ws[k].contents;
    }
  }

  /**
   * Pulling gist files pushed for included files that can make the trip
   * fails nowhere, leaves each such file's path holding its contents and
   * changes no other file.
   */
  lemma RestoreListed(ws: seq<IncludedFile>, docs: seq<GistFile>, local: Files, pullDir: string)
    requires Returnable(ws, local, pullDir) && SameContents(ws)
    requires forall m :: 0 <= m < |docs| ==> docs[m].name != ReadmeFile && FromWalk(ws, docs[m])
    ensures var out := PullAll(local, docs, pullDir, false, false);
            && out.error == None
            && (forall m, k :: 0 <= m < |docs| && 0 <= k < |ws| && docs[m].content == DocumentContent(ws[k]) ==>
                  PathJoin(pullDir, ws[k].relativePath) in out.files
                  && out.files[PathJoin(pullDir, ws[k].relativePath)] == ws[k].contents)
            && OthersKept(local, out.files, pullDir, PathsOf(ws))
  {
    var paths, contents := ParsedPaths(docs), ParsedBodies(docs);
    ParsedFromWalk(ws, docs, local, pullDir);
    CoveredAgrees(ws, paths, contents, local, pullDir);
    PullEntries(local, docs, paths, contents, pullDir);
    var out := PullAll(local, docs, pullDir, false, false);
    forall m, k | 0 <= m < |docs| && 0 <= k < |ws| && docs[m].content == DocumentContent(ws[k])
      ensures PathJoin(pullDir, ws[k].relativePath) in out.files
              && out.files[PathJoin(pullDir, ws[k].relativePath)] == ws[k].contents
    {
      assert paths[m] == ws[k].relativePath && contents[m] == ws[k].contents;
    }
    forall q | q in local && NotTarget(pullDir, PathsOf(ws), q)
      ensures q in out.files && out.files[q] == local[q]
    {
      forall m | 0 <= m < |paths|
        ensures q != PathJoin(pullDir, paths[m])
      {
        var k :| 0 <= k < |ws| && paths[m] == ws[k].relativePath && contents[m] == ws[k].contents;
        assert PathsOf(ws)[k] == paths[m];
      }
    }
  }

  /** An update laid out as push lays it out: the README first, then one entry per included file. */
  ghost predicate Entries(ws: seq<IncludedFile>, ops: seq<GistFile>)
  {
    && |ops| == 1 + |ws| && ops[0].name == ReadmeFile
    && forall j :: 1 <= j < |ops| ==> ops[j].name != ReadmeFile && ops[j].content == DocumentContent(ws[j - 1])
  }

  /**
   * Gist files taken from such an update: the ones other than the README
   * were pushed for included files, and every header parses.
   */
  lemma ListedDocs(ws: seq<IncludedFile>, ops: seq<GistFile>, docs: seq<GistFile>)
    requires Entries(ws, ops)
    requires forall k :: 0 <= k < |ws| ==> Portable(ws[k].relativePath, ws[k].contents)
    requires forall i :: 0 <= i < |docs| ==> docs[i] in ops
    ensures forall m :: 0 <= m < |WithoutReadme(docs)| ==>
              WithoutReadme(docs)[m].name != ReadmeFile && FromWalk(ws, WithoutReadme(docs)[m])
    ensures FirstMalformed(docs).None?
  {
    var rest := WithoutReadme(docs);
    forall m | 0 <= m < |rest|
      ensures rest[m].name != ReadmeFile && FromWalk(ws, rest[m])
    {
      var j :| 0 <= j < |ops| && ops[j] == rest[m];
      assert 0 <= j - 1 < |ws| && rest[m].content == DocumentContent(ws[j - 1]);
    }
    forall i | 0 <= i < |docs| && docs[i].name != ReadmeFile
      ensures ParseDocument(docs[i]).Ok?
    {
      var j :| 0 <= j < |ops| && ops[j] == docs[i];
      assert 0 <= j - 1 < |ws| && docs[i].content == DocumentContent(ws[j - 1]);
      ParseRoundTrip(docs[i].name, ws[j - 1].relativePath, ws[j - 1].contents);
      assert docs[i] == GistFile(docs[i].name, "// " + ws[j - 1].relativePath + "\n" + ws[j - 1].contents);
    }
  }

  /**
   * Pulling gist files that are exactly the entries of such an update, each
   * listed at least once and in any order, restores every included file and
   * changes no other file.
   */
  lemma PullFromEntries(ws: seq<IncludedFile>, ops: seq<GistFile>, docs: seq<GistFile>, local: Files, pullDir: string)
    requires Entries(ws, ops) && Returnable(ws, local, pullDir) && SameContents(ws)
    requires forall i :: 0 <= i < |docs| ==> docs[i] in ops
    requires forall j :: 0 <= j < |ops| ==> ops[j] in docs
    ensures var out := PullGist(local, docs, pullDir, false, false);
            && out.error == None
            && Restored(out.files, pullDir, PathsOf(ws), ContentsOf(ws))
            && OthersKept(local, out.files, pullDir, PathsOf(ws))
  {
    ListedDocs(ws, ops, docs);
    var rest := WithoutReadme(docs);
    PullGistWellFormed(local, docs, pullDir, false, false);
    RestoreListed(ws, rest, local, pullDir);
    EntriesListed(ws, ops, docs);
    KeptRestored(ws, rest, PullAll(local, rest, pullDir, false, false).files, pullDir);
  }

  /** A pull that restores every file whose entry it was given, given every entry, restores every file. */
  lemma KeptRestored(ws: seq<IncludedFile>, docs: seq<GistFile>, files: Files, pullDir: string)
    requires forall m, k :: 0 <= m < |docs| && 0 <= k < |ws| && docs[m].content == DocumentContent(ws[k]) ==>
               PathJoin(pullDir, ws[k].relativePath) in files && files[PathJoin(pullDir, ws[k].relativePath)] == ws[k].contents
    requires forall k :: 0 <= k < |ws| ==> Kept(docs, ws[k])
    ensures Restored(files, pullDir, PathsOf(ws), ContentsOf(ws))
  {
    forall k | 0 <= k < |ws|
      ensures PathJoin(pullDir, ws[k].relativePath) in files && files[PathJoin(pullDir, ws[k].relativePath)] == ws[k].contents
    {
      assert Kept(docs, ws[k]);
      var m :| 0 <= m < |docs| && docs[m].content == DocumentContent(ws[k]);
    }
  }

  /** Some gist file holds the content pushed for `f`. */
  ghost predicate Kept(docs: seq<GistFile>, f: IncludedFile)
  {
    exists m :: 0 <= m < |docs| && docs[m].content == DocumentContent(f)
  }

  /** Every included file's entry survives the README filter of a listing that holds every entry. */
  lemma EntriesListed(ws: seq<IncludedFile>, ops: seq<GistFile>, docs: seq<GistFile>)
    requires Entries(ws, ops)
    requires forall j :: 0 <= j < |ops| ==> ops[j] in docs
    ensures forall k :: 0 <= k < |ws| ==> Kept(WithoutReadme(docs), ws[k])
  {
    var rest := WithoutReadme(docs);
    forall k | 0 <= k < |ws|
      ensures Kept(rest, ws[k])
    {
      assert ops[k + 1].content == DocumentContent(ws[k]) && ops[k + 1].name != ReadmeFile;
      assert ops[k + 1] in docs;
      var m :| 0 <= m < |rest| && rest[m] == ops[k + 1];
      assert rest[m].content == DocumentContent(ws[k]);
    }
  }

  /** The update for files that can be pulled back lists them after a README entry, none of them named README. */
  lemma BatchEntries(fs: Files, cfgDir: string, ws: seq<IncludedFile>, timestamp: string, local: Files, pullDir: string)
    requires Faithful(fs, cfgDir, ws) && Batch(ws, timestamp).Ok?
    requires Returnable(ws, local, pullDir)
    ensures Entries(ws, Batch(ws, timestamp).value)
  {
    var ops := Batch(ws, timestamp).value;
    UpdateEntries(fs, cfgDir, ws, timestamp);
    forall j | 1 <= j < |ops|
      ensures ops[j].name != ReadmeFile && ops[j].content == DocumentContent(ws[j - 1])
    {
      assert FileName(ws[j - 1].relativePath) == Some(ops[j].name);
      assert FileName(ws[j - 1].relativePath) != Some(ReadmeFile);
    }
  }

  /**
   * Pulling the gist that the update built from files read from `fs` leaves
   * behind, when that update replaced every file the gist held, restores
   * each file at its relative path under `pullDir`.
   */
  lemma BatchThenPull(fs: Files, cfgDir: string, ws: seq<IncludedFile>, timestamp: string,
                      prior: map<string, string>, gist: map<string, string>, docs: seq<GistFile>,
                      local: Files, pullDir: string)
    requires Faithful(fs, cfgDir, ws) && Batch(ws, timestamp).Ok?
    requires Returnable(ws, local, pullDir) && DistinctBaseNames(ws)
    requires forall n :: n in prior ==> Named(Batch(ws, timestamp).value, n)
    requires Updated(prior, Batch(ws, timestamp).value, gist) && Lists(docs, gist)
    ensures var out := PullGist(local, docs, pullDir, false, false);
            && out.error == None
            && Restored(out.files, pullDir, PathsOf(ws), ContentsOf(ws))
            && OthersKept(local, out.files, pullDir, PathsOf(ws))
  {
    var ops := Batch(ws, timestamp).value;
    BatchNamesAgree(fs, cfgDir, ws, timestamp);
    BatchEntries(fs, cfgDir, ws, timestamp, local, pullDir);
    ListedFromUpdate(prior, ops, gist, docs);
    PullFromEntries(ws, ops, docs, local, pullDir);
  }

  /**
   * `push` followed by `pull`: the update sent for `root_file` turns the
   * gist into `gist`, and when it replaced every file the gist held before,
   * pulling that gist into `pullDir` puts every included file back at the
   * same relative path with the contents it has under `cfgDir`, fails
   * nowhere and changes no other file. It needs included files with distinct
   * base names other than the README, relative one-line paths, contents
   * without '\r' and without a final '\n', and no target already longer than
   * its new contents.
   */
  lemma PushThenPull(fs: Files, cfgDir: string, rootFile: string, timestamp: string,
                     prior: map<string, string>, gist: map<string, string>, docs: seq<GistFile>,
                     local: Files, pullDir: string)
    requires GistBatch(fs, cfgDir, rootFile, timestamp).Ok?
    requires var ws := IncludedFiles(fs, cfgDir, rootFile).value;
             && DistinctBaseNames(ws)
             && forall k :: 0 <= k < |ws| ==>
                  && Portable(ws[k].relativePath, ws[k].contents)
                  && FileName(ws[k].relativePath) != Some(ReadmeFile)
                  && (PathJoin(pullDir, ws[k].relativePath) in local ==>
                        |local[PathJoin(pullDir, ws[k].relativePath)]| <= |ws[k].contents|)
    requires forall n :: n in prior ==> Named(GistBatch(fs, cfgDir, rootFile, timestamp).value, n)
    requires Updated(prior, GistBatch(fs, cfgDir, rootFile, timestamp).value, gist) && Lists(docs, gist)
    ensures var ws := IncludedFiles(fs, cfgDir, rootFile).value;
            var out := PullGist(local, docs, pullDir, false, false);
            && out.error == None
            && Faithful(fs, cfgDir, ws)
            && Restored(out.files, pullDir, PathsOf(ws), ContentsOf(ws))
            && OthersKept(local, out.files, pullDir, PathsOf(ws))
  {
    GistBatchLayout(fs, cfgDir, rootFile, timestamp);
    var ws := IncludedFiles(fs, cfgDir, rootFile).value;
    assert Returnable(ws, local, pullDir);
    BatchThenPull(fs, cfgDir, ws, timestamp, prior, gist, docs, local, pullDir);
  }
}
