/**
 * The compiler: the configuration tree flattened into one text by replacing
 * every include line with the compiled text of the file it names, and
 * `compile_and_write`, which frames that text and writes `compiled.cfg`.
 */
module Compiler {
  import opened Wrappers
  import opened Errors
  import opened Text
  import opened Paths
  import opened Include
  import opened FileSystem
  import opened Walker

  /** `get_exec_file_path(cfg_dir, name)`: the file `name + ".cfg"` in the configuration directory. */
  function ExecFilePath(cfgDir: string, name: string): (path: string)
    ensures !IsAbsolute(name) ==> DirPrefix(cfgDir) <= path && path[|DirPrefix(cfgDir)|..] == name + ".cfg"
  {
    PathJoin(cfgDir, name + ".cfg")
  }

  /**
   * `compile(cfg_dir, path)`: the lines of the file, each include line
   * replaced by the compiled text of its target, joined by "\n". As in
   * Walk, `ancestors` detects a cycle the source would recurse on forever.
   */
  function Compile(fs: Files, cfgDir: string, path: string, ancestors: set<string>): (r: Result<string, Error>)
    ensures path !in fs ==> r == Err(FileNotFound(path))
    ensures r.Ok? ==> path in fs && path !in ancestors
    decreases |fs.Keys - ancestors|, 0
  {
    match ReadToString(fs, path)
    case Err(e) => Err(e)
    case Ok(contents) =>
      if path in ancestors then Err(CyclicInclude(path))
      else
        VisitShrinks(fs.Keys, ancestors, path);
        match CompileLines(fs, cfgDir, Lines(contents), ancestors + {path})
        case Err(e) => Err(e)
        case Ok(out) => Ok(JoinWith(out, "\n"))
  }

  /** One line of the output: the line itself, or the compiled file it includes. */
  function CompileLine(fs: Files, cfgDir: string, line: string, ancestors: set<string>): (r: Result<string, Error>)
    ensures (forall name :: !IsIncludeOf(line, name)) ==> r == Ok(line)
    ensures forall name :: IsIncludeOf(line, name) ==> r == Compile(fs, cfgDir, ExecFilePath(cfgDir, name), ancestors)
    decreases |fs.Keys - ancestors|, 1
  {
    assert forall name :: IncludeName(line) == Some(name) <==> IsIncludeOf(line, name) by {
      forall name {
        IncludeNameExact(line, name);
      }
    }
    match IncludeName(line)
    case None => Ok(line)
    case Some(name) => Compile(fs, cfgDir, ExecFilePath(cfgDir, name), ancestors)
  }

  /** The lines in order, as `lines().map(...).collect()`; the first failure aborts. */
  function CompileLines(fs: Files, cfgDir: string, lines: seq<string>, ancestors: set<string>): (r: Result<seq<string>, Error>)
    ensures r.Ok? ==> |r.value| == |lines|
    decreases |fs.Keys - ancestors|, 2, |lines|
  {
    if lines == [] then Ok([])
    else
      match CompileLine(fs, cfgDir, lines[0], ancestors)
      case Err(e) => Err(e)
      case Ok(first) =>
        match CompileLines(fs, cfgDir, lines[1..], ancestors)
        case Err(e) => Err(e)
        case Ok(rest) => Ok([first] + rest)
  }

  /** The error of a result, if it failed. */
  function ErrorOf<T>(r: Result<T, Error>): Option<Error>
  {
    if r.Err? then Some(r.error) else None
  }

  /**
   * Line by line: the output has one entry per input line; a line that is not
   * an include is kept verbatim, an include line's entry is the compiled text
   * of its target. The lines compile exactly when each of them does.
   */
  lemma {:induction false} CompileLinesPointwise(fs: Files, cfgDir: string, lines: seq<string>, ancestors: set<string>)
    ensures CompileLines(fs, cfgDir, lines, ancestors).Ok?
            <==> forall k :: 0 <= k < |lines| ==> CompileLine(fs, cfgDir, lines[k], ancestors).Ok?
    ensures CompileLines(fs, cfgDir, lines, ancestors).Ok? ==>
              var out := CompileLines(fs, cfgDir, lines, ancestors).value;
              && |out| == |lines|
              && forall k :: 0 <= k < |lines| ==>
                   (IncludeName(lines[k]).None? ==> out[k] == lines[k])
                   && (IncludeName(lines[k]).Some? ==>
                         Compile(fs, cfgDir, ExecFilePath(cfgDir, IncludeName(lines[k]).value), ancestors) == Ok(out[k]))
    decreases |lines|
  {
    if lines != [] {
      CompileLinesPointwise(fs, cfgDir, lines[1..], ancestors);
      assert forall k :: 1 <= k < |lines| ==> lines[1..][k - 1] == lines[k];
      if CompileLines(fs, cfgDir, lines, ancestors).Ok? {
        CompileLinesCons(fs, cfgDir, lines, ancestors);
      }
    }
  }

  /** A successful compile of several lines is the first line's output followed by the rest's. */
  lemma CompileLinesCons(fs: Files, cfgDir: string, lines: seq<string>, ancestors: set<string>)
    requires lines != [] && CompileLines(fs, cfgDir, lines, ancestors).Ok?
    ensures CompileLine(fs, cfgDir, lines[0], ancestors).Ok? && CompileLines(fs, cfgDir, lines[1..], ancestors).Ok?
    ensures var out := CompileLines(fs, cfgDir, lines, ancestors).value;
            && out[0] == CompileLine(fs, cfgDir, lines[0], ancestors).value
            && forall k :: 1 <= k < |out| ==> out[k] == CompileLines(fs, cfgDir, lines[1..], ancestors).value[k - 1]
  {
  }

  /** Lines without include lines compile to themselves. */
  lemma {:induction false} CompileLinesNoIncludes(fs: Files, cfgDir: string, lines: seq<string>, ancestors: set<string>)
    requires TargetsOf(lines) == []
    ensures CompileLines(fs, cfgDir, lines, ancestors) == Ok(lines)
    decreases |lines|
  {
    if lines != [] {
      assert IncludeName(lines[0]).None?;
      CompileLinesNoIncludes(fs, cfgDir, lines[1..], ancestors);
      assert [lines[0]] + lines[1..] == lines;
    }
  }

  /**
   * A file with no include lines compiles to its lines joined by "\n"; that
   * is its contents exactly when they hold no '\r' and do not end with '\n'.
   */
  lemma CompileNoIncludes(fs: Files, cfgDir: string, path: string, ancestors: set<string>)
    requires path in fs && path !in ancestors
    requires IncludeTargets(fs[path]) == []
    ensures Compile(fs, cfgDir, path, ancestors) == Ok(JoinWith(Lines(fs[path]), "\n"))
    ensures '\r' !in fs[path] && (fs[path] == [] || fs[path][|fs[path]| - 1] != '\n') ==>
              Compile(fs, cfgDir, path, ancestors) == Ok(fs[path])
  {
    CompileLinesNoIncludes(fs, cfgDir, Lines(fs[path]), ancestors + {path});
    if '\r' !in fs[path] && (fs[path] == [] || fs[path][|fs[path]| - 1] != '\n') {
      LinesJoin(fs[path]);
    }
  }

  /** A trailing newline is dropped: one include-free line and its '\n' compile to the line. */
  lemma CompileDropsTrailingNewline(fs: Files, cfgDir: string, path: string, ancestors: set<string>, line: string)
    requires path in fs && path !in ancestors
    requires line != [] && '\n' !in line && '\r' !in line && IncludeName(line).None?
    requires fs[path] == line + "\n"
    ensures Compile(fs, cfgDir, path, ancestors) == Ok(line)
  {
    LinesCons(line, "");
    assert line + "\n" + "" == fs[path];
    assert Lines(fs[path]) == [line];
    assert TargetsOf([line]) == TargetsOf([]);
    CompileNoIncludes(fs, cfgDir, path, ancestors);
  }

  /** An empty file compiles to the empty text, so including it leaves an empty line. */
  lemma CompileEmptyFile(fs: Files, cfgDir: string, path: string, ancestors: set<string>)
    requires path in fs && path !in ancestors && fs[path] == []
    ensures Compile(fs, cfgDir, path, ancestors) == Ok([])
  {
  }

  /**
   * Compiling fails exactly when walking fails, with the same error: both
   * visit the same files in the same order.
   */
  lemma {:induction false} CompileAgreesWithWalk(fs: Files, cfgDir: string, rel: string, ancestors: set<string>)
    ensures ErrorOf(Compile(fs, cfgDir, PathJoin(cfgDir, rel), ancestors)) == ErrorOf(Walk(fs, cfgDir, rel, ancestors))
    decreases |fs.Keys - ancestors|, 0
  {
    var full := PathJoin(cfgDir, rel);
    if full in fs && full !in ancestors {
      VisitShrinks(fs.Keys, ancestors, full);
      CompileLinesAgreeWithWalkAll(fs, cfgDir, Lines(fs[full]), ancestors + {full});
    }
  }

  lemma {:induction false} CompileLinesAgreeWithWalkAll(fs: Files, cfgDir: string, lines: seq<string>, ancestors: set<string>)
    ensures ErrorOf(CompileLines(fs, cfgDir, lines, ancestors)) == ErrorOf(WalkAll(fs, cfgDir, TargetsOf(lines), ancestors))
    decreases |fs.Keys - ancestors|, 2, |lines|
  {
    if lines != [] {
      CompileLinesAgreeWithWalkAll(fs, cfgDir, lines[1..], ancestors);
      match IncludeName(lines[0])
      case None =>
        assert TargetsOf(lines) == TargetsOf(lines[1..]);
      case Some(name) =>
        var targets := TargetsOf(lines);
        assert targets == [name + ".cfg"] + TargetsOf(lines[1..]);
        assert targets[1..] == TargetsOf(lines[1..]);
        CompileAgreesWithWalk(fs, cfgDir, name + ".cfg", ancestors);
    }
  }

  /**
   * The same soundness for `compile`: CyclicInclude(p) from the root file
   * means a chain of include lines from the root reaches `p` twice.
   */
  lemma CompileCycleIsReal(fs: Files, cfgDir: string, rootFile: string, p: string)
    requires Compile(fs, cfgDir, PathJoin(cfgDir, rootFile), {}) == Err(CyclicInclude(p))
    ensures exists chain :: chain != [] && chain[0] == rootFile && Revisits(fs, cfgDir, chain, p)
  {
    CompileAgreesWithWalk(fs, cfgDir, rootFile, {});
    WalkCycleIsReal(fs, cfgDir, rootFile, p);
  }

  /** The first line and blank line put in front of the compiled text. */
  function CompiledHeader(date: string): string
  {
    "// Compiled on " + date + "\n\n"
  }

  /** The file `compile_and_write` produces: where it goes and what it holds. */
  datatype Compiled = Compiled(outputPath: string, text: string)

  /**
   * The pure part of `compile_and_write`: compile `cfg_dir.join(root_file)`,
   * frame it with the header, and place it in `compiled.cfg` beside the
   * root file. `date` stands for the formatted local time.
   */
  function CompileOutput(fs: Files, cfgDir: string, rootFile: string, date: string): (r: Result<Compiled, Error>)
    ensures r.Ok? ==> Compile(fs, cfgDir, PathJoin(cfgDir, rootFile), {}).Ok?
    ensures r.Ok? ==> CompiledHeader(date) <= r.value.text
  {
    var rootCfg := PathJoin(cfgDir, rootFile);
    match Compile(fs, cfgDir, rootCfg, {})
    case Err(e) => Err(e)
    case Ok(body) =>
      match Parent(rootCfg)
      case None => Err(NoParent(rootCfg))
      case Some(dir) => Ok(Compiled(PathJoin(dir, "compiled.cfg"), CompiledHeader(date) + body))
  }

  /**
   * The output is the header followed by the compiled root file, and
   * exists exactly when the root compiles and has a parent directory;
   * a root file given by its plain name puts `compiled.cfg` in the
   * configuration directory itself.
   */
  lemma CompileOutputFraming(fs: Files, cfgDir: string, rootFile: string, date: string)
    ensures var rootCfg := PathJoin(cfgDir, rootFile);
            var out := CompileOutput(fs, cfgDir, rootFile, date);
            && (out.Ok? <==> Compile(fs, cfgDir, rootCfg, {}).Ok? && Parent(rootCfg).Some?)
            && (out.Ok? ==> out.value.text == "// Compiled on " + date + "\n\n" + Compile(fs, cfgDir, rootCfg, {}).value)
            && (Compile(fs, cfgDir, rootCfg, {}).Err? ==> out == Err(Compile(fs, cfgDir, rootCfg, {}).error))
            && (out.Ok? && IsPlainName(rootFile) ==> out.value.outputPath == PathJoin(TrimSeps(cfgDir), "compiled.cfg"))
  {
    if IsPlainName(rootFile) {
      ParentOfJoin(cfgDir, rootFile);
    }
  }

  /**
   * A root file made of one line `exec "name"`, where `name.cfg` has no
   * include lines, compiles to the header followed by exactly that file's
   * contents (for contents without '\r' and without a final '\n').
   */
  lemma CompileSingleInclude(fs: Files, cfgDir: string, rootFile: string, name: string, date: string)
    requires name != [] && '"' !in name && '\n' !in name
    requires PathJoin(cfgDir, rootFile) in fs && fs[PathJoin(cfgDir, rootFile)] == IncludeLine(name)
    requires ExecFilePath(cfgDir, name) in fs && ExecFilePath(cfgDir, name) != PathJoin(cfgDir, rootFile)
    requires var c := fs[ExecFilePath(cfgDir, name)];
             IncludeTargets(c) == [] && '\r' !in c && (c == [] || c[|c| - 1] != '\n')
    requires Parent(PathJoin(cfgDir, rootFile)).Some?
    ensures CompileOutput(fs, cfgDir, rootFile, date).Ok?
    ensures CompileOutput(fs, cfgDir, rootFile, date).value.text
            == CompiledHeader(date) + fs[ExecFilePath(cfgDir, name)]
  {
    CompileRootSingleInclude(fs, cfgDir, rootFile, name);
  }

  /** The root file of CompileSingleInclude compiles to exactly the included file's contents. */
  lemma CompileRootSingleInclude(fs: Files, cfgDir: string, rootFile: string, name: string)
    requires name != [] && '"' !in name && '\n' !in name
    requires PathJoin(cfgDir, rootFile) in fs && fs[PathJoin(cfgDir, rootFile)] == IncludeLine(name)
    requires ExecFilePath(cfgDir, name) in fs && ExecFilePath(cfgDir, name) != PathJoin(cfgDir, rootFile)
    requires var c := fs[ExecFilePath(cfgDir, name)];
             IncludeTargets(c) == [] && '\r' !in c && (c == [] || c[|c| - 1] != '\n')
    ensures Compile(fs, cfgDir, PathJoin(cfgDir, rootFile), {}) == Ok(fs[ExecFilePath(cfgDir, name)])
  {
    var root := PathJoin(cfgDir, rootFile);
    var line := IncludeLine(name);
    var child := ExecFilePath(cfgDir, name);
    var anc := {} + {root};
    LinesSingle(line);
    CompileIncludeLine(fs, cfgDir, name, anc);
    CompileOneLine(fs, cfgDir, line, anc);
    assert JoinWith([fs[child]], "\n") == fs[child];
  }

  /** A single line compiles as that line does. */
  lemma CompileOneLine(fs: Files, cfgDir: string, line: string, ancestors: set<string>)
    requires CompileLine(fs, cfgDir, line, ancestors).Ok?
    ensures CompileLines(fs, cfgDir, [line], ancestors) == Ok([CompileLine(fs, cfgDir, line, ancestors).value])
  {
    assert [line][0] == line && [line][1..] == [];
    assert CompileLines(fs, cfgDir, [], ancestors) == Ok([]);
    assert [CompileLine(fs, cfgDir, line, ancestors).value] + [] == [CompileLine(fs, cfgDir, line, ancestors).value];
  }

  /** An include line of a file without include lines compiles to that file's contents. */
  lemma CompileIncludeLine(fs: Files, cfgDir: string, name: string, ancestors: set<string>)
    requires name != [] && '"' !in name && '\n' !in name
    requires ExecFilePath(cfgDir, name) in fs && ExecFilePath(cfgDir, name) !in ancestors
    requires var c := fs[ExecFilePath(cfgDir, name)];
             IncludeTargets(c) == [] && '\r' !in c && (c == [] || c[|c| - 1] != '\n')
    ensures CompileLine(fs, cfgDir, IncludeLine(name), ancestors) == Ok(fs[ExecFilePath(cfgDir, name)])
  {
    IncludeLineRecognised(name, "");
    assert IncludeLine(name) + "" == IncludeLine(name);
    CompileNoIncludes(fs, cfgDir, ExecFilePath(cfgDir, name), ancestors);
  }

  /**
   * `compile_and_write`: a failed compile changes nothing; a dry run
   * changes nothing and reports the byte length of the framed output;
   * otherwise `compiled.cfg` is created or truncated and then holds exactly
   * the framed output, and no other file changes.
   */
  method CompileAndWrite(disk: Disk, cfgDir: string, rootFile: string, date: string, dryRun: bool)
    returns (r: Result<nat, Error>)
    modifies disk
    ensures match CompileOutput(old(disk.files), cfgDir, rootFile, date)
            case Err(e) => r == Err(e) && disk.files == old(disk.files)
            case Ok(out) =>
              && r == Ok(Utf8Length(out.text))
              && disk.files == if dryRun then old(disk.files) else old(disk.files)[out.outputPath := out.text]
  {
    var compiled := CompileOutput(disk.files, cfgDir, rootFile, date);
    match compiled
    case Err(e) =>
      r := Err(e);
    case Ok(out) =>
      if !dryRun {
        disk.CreateAndWrite(out.outputPath, out.text);
      }
      r := Ok(Utf8Length(out.text));
  }

  /** The older `compile_and_write`: always writes, and returns the output path. */
  method CompileAndWriteAlways(disk: Disk, cfgDir: string, rootFile: string, date: string)
    returns (r: Result<string, Error>)
    modifies disk
    ensures match CompileOutput(old(disk.files), cfgDir, rootFile, date)
            case Err(e) => r == Err(e) && disk.files == old(disk.files)
            case Ok(out) => r == Ok(out.outputPath) && disk.files == old(disk.files)[out.outputPath := out.text]
  {
    var compiled := CompileOutput(disk.files, cfgDir, rootFile, date);
    match compiled
    case Err(e) =>
      r := Err(e);
    case Ok(out) =>
      disk.CreateAndWrite(out.outputPath, out.text);
      r := Ok(out.outputPath);
  }
}
