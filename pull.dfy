/**
 * `pull`: every gist file except the README names a config file in its first
 * line; the rest of its lines are written over the start of that file.
 */
module Pull {
  import opened Wrappers
  import opened Errors
  import opened Text
  import opened Paths
  import opened FileSystem
  import opened Gist

  /** A gist file taken apart: the relative path from its header and the body to write. */
  datatype Parsed = Parsed(relativePath: string, body: string)

  /** The header line of a gist file: its first line, or its name when it has no lines. */
  function Header(doc: GistFile): (r: string)
    ensures doc.content == [] ==> r == doc.name
    ensures doc.content != [] ==> Lines(doc.content) != [] && r == Lines(doc.content)[0]
    ensures doc.content != [] ==> '\n' !in r
  {
    var lines := Lines(doc.content);
    if lines == [] then doc.name else lines[0]
  }

  /**
   * The header without its first three bytes (whatever they are) is the
   * relative path; the other lines, joined by "\n", are the body. A header
   * shorter than three bytes, or cut inside a character, is where the slice
   * panics.
   */
  function ParseDocument(doc: GistFile): (r: Result<Parsed, Error>)
    ensures r.Err? ==> r.error == MalformedHeader(Header(doc))
  {
    var lines := Lines(doc.content);
    match DropPrefixBytes(Header(doc), 3)
    case None => Err(MalformedHeader(Header(doc)))
    case Some(path) => Ok(Parsed(path, JoinWith(if lines == [] then [] else lines[1..], "\n")))
  }

  /**
   * Parsing succeeds exactly when the header starts with a three-byte
   * prefix; the path is the header after it, and the body the lines after
   * the first.
   */
  lemma ParseDocumentSpec(doc: GistFile)
    ensures ParseDocument(doc).Ok? <==> exists k :: 0 <= k <= |Header(doc)| && Utf8Length(Header(doc)[..k]) == 3
    ensures ParseDocument(doc).Ok? ==>
              && (exists k :: 0 <= k <= |Header(doc)| && Utf8Length(Header(doc)[..k]) == 3
                              && ParseDocument(doc).value.relativePath == Header(doc)[k..])
              && (Lines(doc.content) != [] ==> ParseDocument(doc).value.body == JoinWith(Lines(doc.content)[1..], "\n"))
              && (Lines(doc.content) == [] ==> ParseDocument(doc).value.body == [])
  {
    DropPrefixBytesSpec(Header(doc), 3);
  }

  /** A header line shorter than three bytes fails the document. */
  lemma ParseShortHeader(doc: GistFile)
    requires Utf8Length(Header(doc)) < 3
    ensures ParseDocument(doc) == Err(MalformedHeader(Header(doc)))
  {
    DropPrefixBytesShort(Header(doc), 3);
  }

  /**
   * The content `push` uploads, "// " + path + "\n" + contents, parses back
   * to that path and those contents, whatever the gist file is called, for a
   * one-line path and contents without '\r' and without a final '\n'.
   */
  lemma ParseRoundTrip(name: string, path: string, contents: string)
    requires '\n' !in path && '\r' !in path
    requires '\r' !in contents && (contents == [] || contents[|contents| - 1] != '\n')
    ensures ParseDocument(GistFile(name, "// " + path + "\n" + contents)) == Ok(Parsed(path, contents))
  {
    var h := "// " + path;
    var doc := GistFile(name, "// " + path + "\n" + contents);
    assert doc.content == h + "\n" + contents;
    LinesCons(h, contents);
    assert '\r' !in h && StripCr(h) == h;
    assert Lines(doc.content) == [h] + Lines(contents);
    assert Header(doc) == h;
    LinesJoin(contents);
    assert (if Lines(doc.content) == [] then [] else Lines(doc.content)[1..]) == Lines(contents);
    DropAsciiMarker("// ", path);
  }

  /**
   * A file that ends with '\n' comes back without it: the body is the
   * lines joined by "\n", and the final line break is not a line.
   */
  lemma ParseDropsFinalNewline(name: string, path: string, contents: string)
    requires '\n' !in path && '\r' !in path
    requires '\r' !in contents && (contents == [] || contents[|contents| - 1] != '\n')
    ensures ParseDocument(GistFile(name, "// " + path + "\n" + contents + "\n")) == Ok(Parsed(path, contents))
  {
    var h := "// " + path;
    assert "// " + path + "\n" + contents + "\n" == h + "\n" + (contents + "\n");
    LinesCons(h, contents + "\n");
    assert '\r' !in h;
    if contents == [] {
      assert contents + "\n" == [] + "\n" + [];
      LinesCons([], []);
      assert Lines(contents + "\n") == [[]];
    } else {
      LinesFinalNewline(contents);
      LinesJoin(contents);
    }
    DropAsciiMarker("// ", path);
  }

  /** The marker is never checked: any three single-byte characters are dropped alike. */
  lemma ParseIgnoresMarker(name: string, marker: string, path: string, rest: string)
    requires |marker| == 3 && forall i :: 0 <= i < 3 ==> marker[i] as int < 0x80
    requires '\n' !in marker + path && '\r' !in marker + path
    ensures ParseDocument(GistFile(name, marker + path + "\n" + rest)).Ok?
    ensures ParseDocument(GistFile(name, marker + path + "\n" + rest)).value.relativePath == path
  {
    var h := marker + path;
    LinesCons(h, rest);
    DropAsciiMarker(marker, path);
  }

  /** An empty gist file takes its path from its own name and has an empty body. */
  lemma ParseEmptyUsesName(name: string)
    ensures ParseDocument(GistFile(name, [])) ==
            match DropPrefixBytes(name, 3)
            case None => Err(MalformedHeader(name))
            case Some(path) => Ok(Parsed(path, []))
  {
    assert Lines([]) == [];
  }

  /** The file a gist file is pulled into, when its header parses. */
  function Target(doc: GistFile, cfgDir: string): Option<string>
  {
    match ParseDocument(doc)
    case Err(_) => None
    case Ok(parsed) => Some(PathJoin(cfgDir, parsed.relativePath))
  }

  /**
   * One gist file: the README is skipped; otherwise the target is opened,
   * created empty when missing unless `update_only`, and, unless a dry run,
   * the body is written over its start. The error is where the source panics.
   */
  function PullStep(files: Files, doc: GistFile, cfgDir: string, updateOnly: bool, dryRun: bool): (r: Result<Files, Error>)
    ensures doc.name == ReadmeFile ==> r == Ok(files)
    ensures r.Ok? ==> files.Keys <= r.value.Keys
    ensures r.Ok? ==> forall q :: q in files && Some(q) != Target(doc, cfgDir) ==> r.value[q] == files[q]
    ensures r.Err? ==> r.error.MalformedHeader? || (updateOnly && r.error.FileNotFound?)
  {
    if doc.name == ReadmeFile then Ok(files)
    else
      match ParseDocument(doc)
      case Err(e) => Err(e)
      case Ok(parsed) =>
        var target := PathJoin(cfgDir, parsed.relativePath);
        if target !in files && updateOnly then Err(FileNotFound(target))
        else
          var afterOpen := if target in files then files else files[target := []];
          if dryRun then Ok(afterOpen)
          else Ok(afterOpen[target := Overwrite(afterOpen[target], parsed.body)])
  }

  /** The files after a pull, and the error that stopped it, if any. */
  datatype PullOutcome = PullOutcome(files: Files, error: Option<Error>)

  /** The gist files handled in order; the first failure stops the pull, earlier writes stay. */
  function PullAll(files: Files, docs: seq<GistFile>, cfgDir: string, updateOnly: bool, dryRun: bool): (r: PullOutcome)
    ensures files.Keys <= r.files.Keys
    ensures r.error.None? || r.error.value.MalformedHeader? || (updateOnly && r.error.value.FileNotFound?)
    decreases |docs|
  {
    if docs == [] then PullOutcome(files, None)
    else
      match PullStep(files, docs[0], cfgDir, updateOnly, dryRun)
      case Err(e) => PullOutcome(files, Some(e))
      case Ok(next) => PullAll(next, docs[1..], cfgDir, updateOnly, dryRun)
  }

  /**
   * The gist files handled one after another in the order given: the disk
   * ends as PullAll says and the error returned is the one that stopped it.
   */
  method PullInOrder(disk: Disk, docs: seq<GistFile>, cfgDir: string, updateOnly: bool, dryRun: bool)
    returns (err: Option<Error>)
    modifies disk
    ensures PullOutcome(disk.files, err) == PullAll(old(disk.files), docs, cfgDir, updateOnly, dryRun)
  {
    var i := 0;
    while i < |docs|
      invariant 0 <= i <= |docs|
      invariant PullAll(disk.files, docs[i..], cfgDir, updateOnly, dryRun)
                == PullAll(old(disk.files), docs, cfgDir, updateOnly, dryRun)
      decreases |docs| - i
    {
      var doc := docs[i];
      assert docs[i..][0] == doc && docs[i..][1..] == docs[i + 1..];
      if doc.name != ReadmeFile {
        var parsed := ParseDocument(doc);
        if parsed.Err? {
          return Some(parsed.error);
        }
        var target := PathJoin(cfgDir, parsed.value.relativePath);
        var ok := disk.Open(target, !updateOnly);
        if !ok {
          return Some(FileNotFound(target));
        }
        if !dryRun {
          disk.WriteAtStart(target, parsed.value.body);
        }
      }
      i := i + 1;
    }
    return None;
  }

  /** The error of the first gist file other than the README whose header does not parse. */
  function FirstMalformed(docs: seq<GistFile>): (r: Option<Error>)
    ensures r.None? <==> forall k :: 0 <= k < |docs| && docs[k].name != ReadmeFile ==> ParseDocument(docs[k]).Ok?
    ensures r.Some? ==> r.value.MalformedHeader?
    decreases |docs|
  {
    if docs == [] then None
    else
      var first := ParseDocument(docs[0]);
      if docs[0].name != ReadmeFile && first.Err? then Some(first.error)
      else
        assert forall k :: 1 <= k < |docs| ==> docs[1..][k - 1] == docs[k];
        FirstMalformed(docs[1..])
  }

  /** When every header parses, a pull can only stop at a missing `update_only` target. */
  lemma {:induction false} PullAllWellFormed(files: Files, docs: seq<GistFile>, cfgDir: string, updateOnly: bool, dryRun: bool)
    requires FirstMalformed(docs).None?
    ensures PullAll(files, docs, cfgDir, updateOnly, dryRun).error.None?
            || PullAll(files, docs, cfgDir, updateOnly, dryRun).error.value.FileNotFound?
    decreases |docs|
  {
    if docs != [] {
      assert forall k :: 1 <= k < |docs| ==> docs[1..][k - 1] == docs[k];
      var step := PullStep(files, docs[0], cfgDir, updateOnly, dryRun);
      if step.Ok? {
        PullAllWellFormed(step.value, docs[1..], cfgDir, updateOnly, dryRun);
      }
    }
  }

  /**
   * `pull_config`: `join_all` first runs every gist file up to its first
   * await, so every header is parsed before any open completes. A malformed
   * header anywhere stops the pull before any file is written; otherwise the
   * gist files are opened and written as PullAll says.
   */
  function PullGist(files: Files, docs: seq<GistFile>, cfgDir: string, updateOnly: bool, dryRun: bool): (r: PullOutcome)
    ensures (exists k :: 0 <= k < |docs| && docs[k].name != ReadmeFile && ParseDocument(docs[k]).Err?) ==>
              r.files == files && r.error.Some? && r.error.value.MalformedHeader?
    ensures r.error.Some? && r.error.value.MalformedHeader? ==> r.files == files
    ensures FirstMalformed(docs).None? ==> r == PullAll(files, docs, cfgDir, updateOnly, dryRun)
  {
    match FirstMalformed(docs)
    case Some(e) => PullOutcome(files, Some(e))
    case None =>
      PullAllWellFormed(files, docs, cfgDir, updateOnly, dryRun);
      PullAll(files, docs, cfgDir, updateOnly, dryRun)
  }

  /** The first malformed header from position `i` on: at `i`, or further on. */
  lemma FirstMalformedAt(docs: seq<GistFile>, i: nat)
    requires i < |docs|
    ensures FirstMalformed(docs[i..])
            == if docs[i].name != ReadmeFile && ParseDocument(docs[i]).Err? then Some(ParseDocument(docs[i]).error)
               else FirstMalformed(docs[i + 1..])
  {
    assert docs[i..][0] == docs[i] && docs[i..][1..] == docs[i + 1..];
  }

  /** A malformed header stops `pull_config` before any file is touched, with that header's error. */
  lemma PullGistMalformed(files: Files, docs: seq<GistFile>, cfgDir: string, updateOnly: bool, dryRun: bool)
    requires FirstMalformed(docs).Some?
    ensures PullGist(files, docs, cfgDir, updateOnly, dryRun) == PullOutcome(files, FirstMalformed(docs))
  {
  }

  /** When every header parses, `pull_config` pulls the gist files other than the README in order. */
  lemma PullGistWellFormed(files: Files, docs: seq<GistFile>, cfgDir: string, updateOnly: bool, dryRun: bool)
    requires FirstMalformed(docs).None?
    ensures PullGist(files, docs, cfgDir, updateOnly, dryRun) == PullAll(files, WithoutReadme(docs), cfgDir, updateOnly, dryRun)
  {
    PullSkipsReadme(files, docs, cfgDir, updateOnly, dryRun);
  }

  /**
   * `pull_config` over the gist's files in the order given: a first pass
   * parses every header, then the files are opened and written in order.
   */
  method PullConfig(disk: Disk, docs: seq<GistFile>, cfgDir: string, updateOnly: bool, dryRun: bool)
    returns (err: Option<Error>)
    modifies disk
    ensures PullOutcome(disk.files, err) == PullGist(old(disk.files), docs, cfgDir, updateOnly, dryRun)
  {
    var i := 0;
    while i < |docs|
      invariant 0 <= i <= |docs|
      invariant FirstMalformed(docs[i..]) == FirstMalformed(docs)
      invariant disk.files == old(disk.files)
      decreases |docs| - i
    {
      FirstMalformedAt(docs, i);
      if docs[i].name != ReadmeFile && ParseDocument(docs[i]).Err? {
        err := Some(ParseDocument(docs[i]).error);
        assert FirstMalformed(docs) == err;
        PullGistMalformed(disk.files, docs, cfgDir, updateOnly, dryRun);
        return;
      }
      i := i + 1;
    }
    assert docs[|docs|..] == [];
    assert FirstMalformed(docs).None?;
    err := PullInOrder(disk, docs, cfgDir, updateOnly, dryRun);
  }

  /**
   * The older pull in `main`: a plain loop that creates every missing file,
   * never dry-runs, and stops only at a malformed header, keeping the files
   * written before it.
   */
  method PullAlwaysCreate(disk: Disk, docs: seq<GistFile>, cfgDir: string) returns (err: Option<Error>)
    modifies disk
    ensures PullOutcome(disk.files, err) == PullAll(old(disk.files), docs, cfgDir, false, false)
    ensures err.None? || err.value.MalformedHeader?
  {
    PullOnlyMalformedStops(disk.files, docs, cfgDir, false);
    err := PullInOrder(disk, docs, cfgDir, false, false);
  }

  /** Without `update_only`, only a malformed header stops a pull. */
  lemma {:induction false} PullOnlyMalformedStops(files: Files, docs: seq<GistFile>, cfgDir: string, dryRun: bool)
    ensures var e := PullAll(files, docs, cfgDir, false, dryRun).error;
            e.None? || e.value.MalformedHeader?
    decreases |docs|
  {
    if docs != [] {
      var step := PullStep(files, docs[0], cfgDir, false, dryRun);
      if step.Ok? {
        PullOnlyMalformedStops(step.value, docs[1..], cfgDir, dryRun);
      }
    }
  }

  /** The gist files other than the README, in order. */
  function WithoutReadme(docs: seq<GistFile>): (r: seq<GistFile>)
    ensures |r| <= |docs|
    ensures forall k :: 0 <= k < |r| ==> r[k].name != ReadmeFile && r[k] in docs
    ensures forall k :: 0 <= k < |docs| && docs[k].name != ReadmeFile ==> docs[k] in r
  {
    if docs == [] then []
    else if docs[0].name == ReadmeFile then WithoutReadme(docs[1..])
    else [docs[0]] + WithoutReadme(docs[1..])
  }

  /**
   * The filter keeps order: filtering two lists one after the other is
   * filtering each. With WithoutReadmeSingle this fixes the result as the
   * subsequence of the gist files not named as the README.
   */
  lemma {:induction false} WithoutReadmeAppend(a: seq<GistFile>, b: seq<GistFile>)
    ensures WithoutReadme(a + b) == WithoutReadme(a) + WithoutReadme(b)
    decreases |a|
  {
    if a == [] {
      assert a + b == b;
    } else {
      assert (a + b)[0] == a[0] && (a + b)[1..] == a[1..] + b;
      WithoutReadmeAppend(a[1..], b);
    }
  }

  /** One gist file is kept exactly when it is not the README. */
  lemma WithoutReadmeSingle(doc: GistFile)
    ensures WithoutReadme([doc]) == if doc.name == ReadmeFile then [] else [doc]
  {
    assert [doc][1..] == [];
  }

  /** Skipping the README inside the loop is the same as filtering it out first. */
  lemma {:induction false} PullSkipsReadme(files: Files, docs: seq<GistFile>, cfgDir: string, updateOnly: bool, dryRun: bool)
    ensures PullAll(files, docs, cfgDir, updateOnly, dryRun) == PullAll(files, WithoutReadme(docs), cfgDir, updateOnly, dryRun)
    decreases |docs|
  {
    if docs != [] {
      var step := PullStep(files, docs[0], cfgDir, updateOnly, dryRun);
      if docs[0].name == ReadmeFile {
        PullSkipsReadme(files, docs[1..], cfgDir, updateOnly, dryRun);
      } else {
        var r := [docs[0]] + WithoutReadme(docs[1..]);
        assert r[0] == docs[0] && r[1..] == WithoutReadme(docs[1..]);
        if step.Ok? {
          PullSkipsReadme(step.value, docs[1..], cfgDir, updateOnly, dryRun);
        }
      }
    }
  }

  /**
   * The effect of one gist file that parses: with `update_only` a missing
   * target is an error and nothing is created; otherwise the target exists
   * afterwards, a dry run leaves it as it was (or empty, when new), a write
   * puts the body at its start and keeps any older bytes past the body; no
   * other file changes.
   */
  lemma PullStepEffect(files: Files, doc: GistFile, cfgDir: string, updateOnly: bool, dryRun: bool)
    requires doc.name != ReadmeFile && ParseDocument(doc).Ok?
    ensures var t := PathJoin(cfgDir, ParseDocument(doc).value.relativePath);
            var body := ParseDocument(doc).value.body;
            var before := if t in files then files[t] else [];
            var r := PullStep(files, doc, cfgDir, updateOnly, dryRun);
            && (r.Err? <==> updateOnly && t !in files)
            && (r.Err? ==> r.error == FileNotFound(t))
            && (r.Ok? ==>
                  && r.value.Keys == files.Keys + {t}
                  && (forall q :: q in files && q != t ==> r.value[q] == files[q])
                  && (dryRun ==> r.value[t] == before)
                  && (!dryRun ==> body <= r.value[t]
                                  && |r.value[t]| == (if |before| > |body| then |before| else |body|)
                                  && (|before| > |body| ==> r.value[t][|body|..] == before[|body|..])))
  {
  }

  /**
   * Pulling a shorter version of a file over a longer one leaves the old
   * file's trailing bytes after the new contents.
   */
  lemma PullKeepsStaleTail(files: Files, cfgDir: string, name: string, path: string, contents: string, updateOnly: bool)
    requires name != ReadmeFile
    requires '\n' !in path && '\r' !in path
    requires '\r' !in contents && (contents == [] || contents[|contents| - 1] != '\n')
    requires PathJoin(cfgDir, path) in files && |files[PathJoin(cfgDir, path)]| > |contents|
    ensures var t := PathJoin(cfgDir, path);
            PullStep(files, GistFile(name, "// " + path + "\n" + contents), cfgDir, updateOnly, false)
            == Ok(files[t := contents + files[t][|contents|..]])
  {
    ParseRoundTrip(name, path, contents);
  }

  /** No gist file other than the README is pulled into `q`. */
  ghost predicate Untouched(docs: seq<GistFile>, cfgDir: string, q: string)
  {
    forall k :: 0 <= k < |docs| && docs[k].name != ReadmeFile ==> Target(docs[k], cfgDir) != Some(q)
  }

  /** A path no gist file targets is not the first one's target, and no later one targets it either. */
  lemma UntouchedRest(docs: seq<GistFile>, cfgDir: string, q: string)
    requires docs != [] && Untouched(docs, cfgDir, q)
    ensures docs[0].name != ReadmeFile ==> Target(docs[0], cfgDir) != Some(q)
    ensures Untouched(docs[1..], cfgDir, q)
  {
    forall k | 0 <= k < |docs[1..]| && docs[1..][k].name != ReadmeFile
      ensures Target(docs[1..][k], cfgDir) != Some(q)
    {
      assert docs[1..][k] == docs[k + 1];
    }
  }

  /**
   * A pull never removes a file, and a file no gist file targets keeps its
   * contents; with `update_only` it creates no file either.
   */
  lemma PullAllFrame(files: Files, docs: seq<GistFile>, cfgDir: string, updateOnly: bool, dryRun: bool)
    ensures var after := PullAll(files, docs, cfgDir, updateOnly, dryRun).files;
            && files.Keys <= after.Keys
            && (updateOnly ==> after.Keys == files.Keys)
            && forall q :: Untouched(docs, cfgDir, q) ==> (q in after <==> q in files) && (q in files ==> after[q] == files[q])
  {
    if updateOnly {
      PullAllKeys(files, docs, cfgDir, updateOnly, dryRun);
    }
    PullAllUntouched(files, docs, cfgDir, updateOnly, dryRun);
  }

  /** With `update_only` a pull creates no file. */
  lemma {:induction false} PullAllKeys(files: Files, docs: seq<GistFile>, cfgDir: string, updateOnly: bool, dryRun: bool)
    requires updateOnly
    ensures PullAll(files, docs, cfgDir, updateOnly, dryRun).files.Keys == files.Keys
    decreases |docs|
  {
    if docs != [] {
      var step := PullStep(files, docs[0], cfgDir, updateOnly, dryRun);
      if step.Ok? {
        PullAllKeys(step.value, docs[1..], cfgDir, updateOnly, dryRun);
        if docs[0].name != ReadmeFile {
          PullStepEffect(files, docs[0], cfgDir, updateOnly, dryRun);
        }
      }
    }
  }

  /** A file no gist file targets is neither created nor changed. */
  lemma {:induction false} PullAllUntouched(files: Files, docs: seq<GistFile>, cfgDir: string, updateOnly: bool, dryRun: bool)
    ensures var after := PullAll(files, docs, cfgDir, updateOnly, dryRun).files;
            forall q :: Untouched(docs, cfgDir, q) ==> (q in after <==> q in files) && (q in files ==> after[q] == files[q])
    decreases |docs|
  {
    if docs != [] {
      var step := PullStep(files, docs[0], cfgDir, updateOnly, dryRun);
      if step.Ok? {
        PullAllUntouched(step.value, docs[1..], cfgDir, updateOnly, dryRun);
        if docs[0].name != ReadmeFile {
          PullStepEffect(files, docs[0], cfgDir, updateOnly, dryRun);
        }
        forall q | Untouched(docs, cfgDir, q)
          ensures Untouched(docs[1..], cfgDir, q)
          ensures (q in step.value <==> q in files) && (q in files ==> step.value[q] == files[q])
        {
          UntouchedRest(docs, cfgDir, q);
        }
      }
    }
  }

  /** A dry run changes no existing file, and every file it creates is empty. */
  lemma {:induction false} PullDryRunWritesNothing(files: Files, docs: seq<GistFile>, cfgDir: string, updateOnly: bool)
    ensures var after := PullAll(files, docs, cfgDir, updateOnly, true).files;
            && files.Keys <= after.Keys
            && (forall q :: q in files ==> after[q] == files[q])
            && (forall q :: q in after && q !in files ==> after[q] == [])
    decreases |docs|
  {
    if docs != [] {
      var step := PullStep(files, docs[0], cfgDir, updateOnly, true);
      if step.Ok? {
        if docs[0].name != ReadmeFile {
          PullStepEffect(files, docs[0], cfgDir, updateOnly, true);
        }
        PullDryRunWritesNothing(step.value, docs[1..], cfgDir, updateOnly);
      }
    }
  }

  /** A gist entry `push` makes from this path and contents survives the trip back unchanged. */
  ghost predicate Portable(path: string, contents: string)
  {
    && !IsAbsolute(path) && '\n' !in path && '\r' !in path
    && '\r' !in contents && (contents == [] || contents[|contents| - 1] != '\n')
  }

  /** A parsed gist file written over a target no longer than its body leaves exactly the body there. */
  lemma PullStepWritesBody(files: Files, doc: GistFile, parsed: Parsed, cfgDir: string)
    requires doc.name != ReadmeFile && ParseDocument(doc) == Ok(parsed)
    requires PathJoin(cfgDir, parsed.relativePath) in files ==> |files[PathJoin(cfgDir, parsed.relativePath)]| <= |parsed.body|
    ensures PullStep(files, doc, cfgDir, false, false) == Ok(files[PathJoin(cfgDir, parsed.relativePath) := parsed.body])
  {
    var t := PathJoin(cfgDir, parsed.relativePath);
    var afterOpen := if t in files then files else files[t := []];
    assert PullStep(files, doc, cfgDir, false, false) == Ok(afterOpen[t := Overwrite(afterOpen[t], parsed.body)]);
    OpenThenWrite(files, t, parsed.body);
  }

  /** Opening a target no longer than `body`, creating it if missing, then writing `body` over it, leaves exactly `body`. */
  lemma OpenThenWrite(files: Files, t: string, body: string)
    requires t in files ==> |files[t]| <= |body|
    ensures var afterOpen := if t in files then files else files[t := []];
            afterOpen[t := Overwrite(afterOpen[t], body)] == files[t := body]
  {
    var afterOpen := if t in files then files else files[t := []];
    assert Overwrite(afterOpen[t], body) == body;
  }

  /** One gist file made as `push` makes it: its target then holds exactly its contents. */
  lemma PullEntryStep(files: Files, doc: GistFile, path: string, contents: string, cfgDir: string)
    requires doc.name != ReadmeFile && doc.content == "// " + path + "\n" + contents
    requires Portable(path, contents)
    requires PathJoin(cfgDir, path) in files ==> |files[PathJoin(cfgDir, path)]| <= |contents|
    ensures PullStep(files, doc, cfgDir, false, false) == Ok(files[PathJoin(cfgDir, path) := contents])
  {
    ParseRoundTrip(doc.name, path, contents);
    assert doc == GistFile(doc.name, "// " + path + "\n" + contents);
    PullStepWritesBody(files, doc, Parsed(path, contents), cfgDir);
  }

  /** Gist files made as `push` makes them from these paths and contents, none named as the README. */
  ghost predicate Pushed(docs: seq<GistFile>, paths: seq<string>, contents: seq<string>)
  {
    && |docs| == |paths| == |contents|
    && forall k :: 0 <= k < |docs| ==>
         && docs[k].name != ReadmeFile
         && docs[k].content == "// " + paths[k] + "\n" + contents[k]
         && Portable(paths[k], contents[k])
  }

  /** Equal paths carry equal contents. */
  ghost predicate Consistent(paths: seq<string>, contents: seq<string>)
    requires |paths| == |contents|
  {
    forall i, j :: 0 <= i < |paths| && 0 <= j < |paths| && paths[i] == paths[j] ==> contents[i] == contents[j]
  }

  /** No target already holds more bytes than its new contents. */
  ghost predicate Fits(files: Files, cfgDir: string, paths: seq<string>, contents: seq<string>)
    requires |paths| == |contents|
  {
    forall k :: 0 <= k < |paths| && PathJoin(cfgDir, paths[k]) in files ==>
      |files[PathJoin(cfgDir, paths[k])]| <= |contents[k]|
  }

  /** Every path holds its contents. */
  ghost predicate Restored(files: Files, cfgDir: string, paths: seq<string>, contents: seq<string>)
    requires |paths| == |contents|
  {
    forall k :: 0 <= k < |paths| ==>
      PathJoin(cfgDir, paths[k]) in files && files[PathJoin(cfgDir, paths[k])] == contents[k]
  }

  /** `q` is none of the paths' targets. */
  ghost predicate NotTarget(cfgDir: string, paths: seq<string>, q: string)
  {
    forall k :: 0 <= k < |paths| ==> q != PathJoin(cfgDir, paths[k])
  }

  /** Every file that is not a target is as it was. */
  ghost predicate OthersKept(before: Files, after: Files, cfgDir: string, paths: seq<string>)
  {
    forall q :: q in before && NotTarget(cfgDir, paths, q) ==> q in after && after[q] == before[q]
  }

  /** After writing the first entry, the rest still fit and still agree. */
  lemma PushedRest(files: Files, docs: seq<GistFile>, paths: seq<string>, contents: seq<string>, cfgDir: string)
    requires docs != [] && Pushed(docs, paths, contents) && Consistent(paths, contents) && Fits(files, cfgDir, paths, contents)
    ensures Pushed(docs[1..], paths[1..], contents[1..]) && Consistent(paths[1..], contents[1..])
    ensures Fits(files[PathJoin(cfgDir, paths[0]) := contents[0]], cfgDir, paths[1..], contents[1..])
  {
    var t := PathJoin(cfgDir, paths[0]);
    var next := files[t := contents[0]];
    assert forall k :: 0 <= k < |paths[1..]| ==>
             paths[1..][k] == paths[k + 1] && contents[1..][k] == contents[k + 1] && docs[1..][k] == docs[k + 1];
    forall k | 0 <= k < |paths[1..]| && PathJoin(cfgDir, paths[1..][k]) in next
      ensures |next[PathJoin(cfgDir, paths[1..][k])]| <= |contents[1..][k]|
    {
      if PathJoin(cfgDir, paths[k + 1]) == t {
        assert Portable(paths[k + 1], contents[k + 1]) && Portable(paths[0], contents[0]);
        PathJoinInjective(cfgDir, paths[k + 1], paths[0]);
      }
    }
  }

  /**
   * Pulling gist files made as `push` makes them, with names other than the
   * README, writes each file's contents to its path under `cfgDir`, provided
   * no target already holds more bytes than its new contents and equal paths
   * carry equal contents. Nothing fails, and no other file changes.
   */
  lemma {:induction false} PullEntries(files: Files, docs: seq<GistFile>, paths: seq<string>, contents: seq<string>, cfgDir: string)
    requires Pushed(docs, paths, contents) && Consistent(paths, contents) && Fits(files, cfgDir, paths, contents)
    ensures PullAll(files, docs, cfgDir, false, false).error == None
    ensures Restored(PullAll(files, docs, cfgDir, false, false).files, cfgDir, paths, contents)
    ensures OthersKept(files, PullAll(files, docs, cfgDir, false, false).files, cfgDir, paths)
    decreases |docs|
  {
    if docs != [] {
      var t := PathJoin(cfgDir, paths[0]);
      var next := files[t := contents[0]];
      PullEntryStep(files, docs[0], paths[0], contents[0], cfgDir);
      PushedRest(files, docs, paths, contents, cfgDir);
      PullEntries(next, docs[1..], paths[1..], contents[1..], cfgDir);
      var out := PullAll(files, docs, cfgDir, false, false);
      assert out == PullAll(next, docs[1..], cfgDir, false, false);
      RestoredCons(files, out.files, cfgDir, paths, contents);
    }
  }

  /** The first target is restored too: either a later entry rewrote it with the same contents, or none touched it. */
  lemma RestoredCons(files: Files, after: Files, cfgDir: string, paths: seq<string>, contents: seq<string>)
    requires |paths| == |contents| && paths != [] && Consistent(paths, contents)
    requires forall k :: 0 <= k < |paths| ==> !IsAbsolute(paths[k])
    requires Restored(after, cfgDir, paths[1..], contents[1..])
    requires OthersKept(files[PathJoin(cfgDir, paths[0]) := contents[0]], after, cfgDir, paths[1..])
    ensures Restored(after, cfgDir, paths, contents)
    ensures OthersKept(files, after, cfgDir, paths)
  {
    var t := PathJoin(cfgDir, paths[0]);
    var next := files[t := contents[0]];
    assert forall k :: 0 <= k < |paths[1..]| ==> paths[1..][k] == paths[k + 1] && contents[1..][k] == contents[k + 1];
    if NotTarget(cfgDir, paths[1..], t) {
      assert t in next;
    } else {
      var j :| 0 <= j < |paths[1..]| && t == PathJoin(cfgDir, paths[1..][j]);
      PathJoinInjective(cfgDir, paths[j + 1], paths[0]);
    }
    forall q | q in files && NotTarget(cfgDir, paths, q)
      ensures q in after && after[q] == files[q]
    {
      assert q != PathJoin(cfgDir, paths[0]);
      assert q in next && NotTarget(cfgDir, paths[1..], q);
    }
  }
}
