/**
 * The inclusion walker, `get_included_files`: the configuration tree as a
 * flat list of files in depth-first preorder.
 */
module Walker {
  import opened Wrappers
  import opened Errors
  import opened Paths
  import opened Include
  import opened FileSystem
  import opened Text

  /** One physical file of the tree: its path relative to the configuration directory and its contents. */
  datatype IncludedFile = IncludedFile(relativePath: string, contents: string)

  /** Entering a file that is not yet an ancestor leaves fewer files to enter. */
  lemma VisitShrinks(keys: set<string>, ancestors: set<string>, full: string)
    requires full in keys && full !in ancestors
    ensures |keys - (ancestors + {full})| < |keys - ancestors|
  {
    assert keys - (ancestors + {full}) == (keys - ancestors) - {full};
  }

  /**
   * The walk of `rel`: the file itself, then the walks of its include
   * targets in line order. `ancestors` holds the full paths of the files
   * being walked; re-entering one is reported as CyclicInclude.
   */
  function Walk(fs: Files, cfgDir: string, rel: string, ancestors: set<string>): (r: Result<seq<IncludedFile>, Error>)
    ensures r.Ok? ==> PathJoin(cfgDir, rel) in fs && PathJoin(cfgDir, rel) !in ancestors
    ensures r.Ok? ==> |r.value| >= 1 + |IncludeTargets(fs[PathJoin(cfgDir, rel)])|
    decreases |fs.Keys - ancestors|, 0
  {
    var full := PathJoin(cfgDir, rel);
    match ReadToString(fs, full)
    case Err(e) => Err(e)
    case Ok(contents) =>
      if full in ancestors then Err(CyclicInclude(full))
      else
        VisitShrinks(fs.Keys, ancestors, full);
        match WalkAll(fs, cfgDir, IncludeTargets(contents), ancestors + {full})
        case Err(e) => Err(e)
        case Ok(rest) => Ok([IncludedFile(rel, contents)] + rest)
  }

  /** The walks of `targets`, one after the other; the first failure aborts. */
  function WalkAll(fs: Files, cfgDir: string, targets: seq<string>, ancestors: set<string>): (r: Result<seq<IncludedFile>, Error>)
    ensures r.Ok? ==> |r.value| >= |targets|
    decreases |fs.Keys - ancestors|, 1, |targets|
  {
    if targets == [] then Ok([])
    else
      match Walk(fs, cfgDir, targets[0], ancestors)
      case Err(e) => Err(e)
      case Ok(first) =>
        match WalkAll(fs, cfgDir, targets[1..], ancestors)
        case Err(e) => Err(e)
        case Ok(rest) => Ok(first + rest)
  }

  /** `get_included_files(cfg_dir, root_file)`. */
  function IncludedFiles(fs: Files, cfgDir: string, rootFile: string): (r: Result<seq<IncludedFile>, Error>)
    ensures PathJoin(cfgDir, rootFile) !in fs ==> r == Err(FileNotFound(PathJoin(cfgDir, rootFile)))
    ensures r.Ok? ==> PathJoin(cfgDir, rootFile) in fs && r.value != []
                      && r.value[0] == IncludedFile(rootFile, fs[PathJoin(cfgDir, rootFile)])
  {
    WalkHead(fs, cfgDir, rootFile, {});
    Walk(fs, cfgDir, rootFile, {})
  }

  /** Every entry holds the contents of the file at its path. */
  ghost predicate Faithful(fs: Files, cfgDir: string, w: seq<IncludedFile>)
  {
    forall i :: 0 <= i < |w| ==> PathJoin(cfgDir, w[i].relativePath) in fs
                                 && fs[PathJoin(cfgDir, w[i].relativePath)] == w[i].contents
  }

  /*
   * The ordering predicates below take the include-target function `tg` as a
   * parameter (it is always IncludeTargets), which keeps their proofs about
   * sequence positions apart from the text processing behind the targets.
   */

  /** Every include target of an entry appears as a later entry. */
  ghost predicate TargetsFollow(w: seq<IncludedFile>, tg: string -> seq<string>)
  {
    forall i, k :: 0 <= i < |w| && 0 <= k < |tg(w[i].contents)| ==>
      exists j :: i < j < |w| && w[j].relativePath == tg(w[i].contents)[k]
  }

  /** Entry `i` is an include target of an entry before it. */
  ghost predicate IncludedBefore(w: seq<IncludedFile>, i: int, tg: string -> seq<string>)
    requires 0 <= i < |w|
  {
    exists j :: 0 <= j < i && w[i].relativePath in tg(w[j].contents)
  }

  /** Every entry after the first is an include target of an earlier entry. */
  ghost predicate FromEarlier(w: seq<IncludedFile>, tg: string -> seq<string>)
  {
    forall i :: 0 < i < |w| ==> IncludedBefore(w, i, tg)
  }

  /**
   * The walk starts with the file itself (its relative path as given and
   * its whole contents); a missing file aborts with no partial result.
   */
  lemma WalkHead(fs: Files, cfgDir: string, rel: string, ancestors: set<string>)
    ensures PathJoin(cfgDir, rel) !in fs ==> Walk(fs, cfgDir, rel, ancestors) == Err(FileNotFound(PathJoin(cfgDir, rel)))
    ensures Walk(fs, cfgDir, rel, ancestors).Ok? ==>
              var w := Walk(fs, cfgDir, rel, ancestors).value;
              |w| >= 1 && w[0] == IncludedFile(rel, fs[PathJoin(cfgDir, rel)])
  {
  }

  /** Each entry of a walk is the file found at its path (joined to the configuration directory). */
  lemma {:induction false} WalkFaithful(fs: Files, cfgDir: string, rel: string, ancestors: set<string>)
    requires Walk(fs, cfgDir, rel, ancestors).Ok?
    ensures Faithful(fs, cfgDir, Walk(fs, cfgDir, rel, ancestors).value)
    decreases |fs.Keys - ancestors|, 0
  {
    var full := PathJoin(cfgDir, rel);
    VisitShrinks(fs.Keys, ancestors, full);
    WalkAllFaithful(fs, cfgDir, IncludeTargets(fs[full]), ancestors + {full});
  }

  lemma {:induction false} WalkAllFaithful(fs: Files, cfgDir: string, targets: seq<string>, ancestors: set<string>)
    requires WalkAll(fs, cfgDir, targets, ancestors).Ok?
    ensures Faithful(fs, cfgDir, WalkAll(fs, cfgDir, targets, ancestors).value)
    decreases |fs.Keys - ancestors|, 1, |targets|
  {
    if targets != [] {
      WalkFaithful(fs, cfgDir, targets[0], ancestors);
      WalkAllFaithful(fs, cfgDir, targets[1..], ancestors);
      var first := Walk(fs, cfgDir, targets[0], ancestors).value;
      var rest := WalkAll(fs, cfgDir, targets[1..], ancestors).value;
      assert WalkAll(fs, cfgDir, targets, ancestors).value == first + rest;
    }
  }

  /** A successful walk is its head followed by the walk of the head's targets. */
  lemma WalkUnfold(fs: Files, cfgDir: string, rel: string, ancestors: set<string>)
    requires Walk(fs, cfgDir, rel, ancestors).Ok?
    ensures var full := PathJoin(cfgDir, rel);
            && full in fs && full !in ancestors
            && |fs.Keys - (ancestors + {full})| < |fs.Keys - ancestors|
            && WalkAll(fs, cfgDir, IncludeTargets(fs[full]), ancestors + {full}).Ok?
            && Walk(fs, cfgDir, rel, ancestors).value
               == [IncludedFile(rel, fs[full])] + WalkAll(fs, cfgDir, IncludeTargets(fs[full]), ancestors + {full}).value
  {
    VisitShrinks(fs.Keys, ancestors, PathJoin(cfgDir, rel));
  }

  /** A successful walk of several targets is the walk of the first followed by the walk of the others. */
  lemma WalkAllUnfold(fs: Files, cfgDir: string, targets: seq<string>, ancestors: set<string>)
    requires targets != [] && WalkAll(fs, cfgDir, targets, ancestors).Ok?
    ensures Walk(fs, cfgDir, targets[0], ancestors).Ok? && WalkAll(fs, cfgDir, targets[1..], ancestors).Ok?
    ensures WalkAll(fs, cfgDir, targets, ancestors).value
            == Walk(fs, cfgDir, targets[0], ancestors).value + WalkAll(fs, cfgDir, targets[1..], ancestors).value
  {
  }

  /** Each of `targets` is the path of some entry of `ws`. */
  ghost predicate Covers(targets: seq<string>, ws: seq<IncludedFile>)
  {
    forall k :: 0 <= k < |targets| ==> exists j :: 0 <= j < |ws| && ws[j].relativePath == targets[k]
  }

  lemma TargetsFollowCons(h: IncludedFile, ws: seq<IncludedFile>, tg: string -> seq<string>)
    requires TargetsFollow(ws, tg) && Covers(tg(h.contents), ws)
    ensures TargetsFollow([h] + ws, tg)
  {
    var w := [h] + ws;
    forall i, k | 0 <= i < |w| && 0 <= k < |tg(w[i].contents)|
      ensures exists j :: i < j < |w| && w[j].relativePath == tg(w[i].contents)[k]
    {
      if i == 0 {
        var j' :| 0 <= j' < |ws| && ws[j'].relativePath == tg(h.contents)[k];
        assert w[j' + 1] == ws[j'];
      } else {
        assert w[i] == ws[i - 1];
        var j' :| i - 1 < j' < |ws| && ws[j'].relativePath == tg(ws[i - 1].contents)[k];
        assert w[j' + 1] == ws[j'];
      }
    }
  }

  lemma TargetsFollowConcat(first: seq<IncludedFile>, rest: seq<IncludedFile>, tg: string -> seq<string>)
    requires TargetsFollow(first, tg) && TargetsFollow(rest, tg)
    ensures TargetsFollow(first + rest, tg)
  {
    var ws := first + rest;
    forall i, k | 0 <= i < |ws| && 0 <= k < |tg(ws[i].contents)|
      ensures exists j :: i < j < |ws| && ws[j].relativePath == tg(ws[i].contents)[k]
    {
      if i < |first| {
        var e := first[i];
        assert ws[i] == e;
        var j' :| i < j' < |first| && first[j'].relativePath == tg(e.contents)[k];
        assert ws[j'] == first[j'];
      } else {
        var e := rest[i - |first|];
        assert ws[i] == e;
        var j' :| i - |first| < j' < |rest| && rest[j'].relativePath == tg(e.contents)[k];
        assert ws[j' + |first|] == rest[j'];
      }
    }
  }

  lemma CoversConcat(targets: seq<string>, first: seq<IncludedFile>, rest: seq<IncludedFile>)
    requires targets != [] && first != [] && first[0].relativePath == targets[0]
    requires Covers(targets[1..], rest)
    ensures Covers(targets, first + rest)
  {
    var ws := first + rest;
    forall k | 0 <= k < |targets|
      ensures exists j :: 0 <= j < |ws| && ws[j].relativePath == targets[k]
    {
      if k == 0 {
        assert ws[0] == first[0];
      } else {
        assert targets[1..][k - 1] == targets[k];
        var j' :| 0 <= j' < |rest| && rest[j'].relativePath == targets[1..][k - 1];
        assert ws[j' + |first|] == rest[j'];
      }
    }
  }

  /**
   * Preorder: every include target of an entry occurs after that entry.
   * Paths are `name + ".cfg"` relative to the configuration directory,
   * whatever the directory of the including file.
   */
  lemma {:induction false} WalkTargetsFollow(fs: Files, cfgDir: string, rel: string, ancestors: set<string>)
    requires Walk(fs, cfgDir, rel, ancestors).Ok?
    ensures TargetsFollow(Walk(fs, cfgDir, rel, ancestors).value, IncludeTargets)
    decreases |fs.Keys - ancestors|, 0
  {
    var full := PathJoin(cfgDir, rel);
    WalkUnfold(fs, cfgDir, rel, ancestors);
    WalkAllTargetsFollow(fs, cfgDir, IncludeTargets(fs[full]), ancestors + {full});
    TargetsFollowCons(IncludedFile(rel, fs[full]), WalkAll(fs, cfgDir, IncludeTargets(fs[full]), ancestors + {full}).value, IncludeTargets);
  }

  lemma {:induction false} WalkAllTargetsFollow(fs: Files, cfgDir: string, targets: seq<string>, ancestors: set<string>)
    requires WalkAll(fs, cfgDir, targets, ancestors).Ok?
    ensures TargetsFollow(WalkAll(fs, cfgDir, targets, ancestors).value, IncludeTargets)
    ensures Covers(targets, WalkAll(fs, cfgDir, targets, ancestors).value)
    decreases |fs.Keys - ancestors|, 1, |targets|
  {
    if targets != [] {
      WalkAllUnfold(fs, cfgDir, targets, ancestors);
      WalkHead(fs, cfgDir, targets[0], ancestors);
      WalkTargetsFollow(fs, cfgDir, targets[0], ancestors);
      WalkAllTargetsFollow(fs, cfgDir, targets[1..], ancestors);
      var first := Walk(fs, cfgDir, targets[0], ancestors).value;
      var rest := WalkAll(fs, cfgDir, targets[1..], ancestors).value;
      TargetsFollowConcat(first, rest, IncludeTargets);
      CoversConcat(targets, first, rest);
    }
  }

  /** Each entry of `ws` is one of `targets` or a target of an earlier entry. */
  ghost predicate ReachedFrom(targets: seq<string>, ws: seq<IncludedFile>, tg: string -> seq<string>)
  {
    forall i {:trigger IncludedBefore(ws, i, tg)} :: 0 <= i < |ws| ==> ws[i].relativePath in targets || IncludedBefore(ws, i, tg)
  }

  lemma FromEarlierCons(h: IncludedFile, ws: seq<IncludedFile>, tg: string -> seq<string>)
    requires ReachedFrom(tg(h.contents), ws, tg)
    ensures FromEarlier([h] + ws, tg)
  {
    var w := [h] + ws;
    forall i | 0 < i < |w|
      ensures IncludedBefore(w, i, tg)
    {
      var e := ws[i - 1];
      assert w[i] == e;
      assert e.relativePath in tg(h.contents) || IncludedBefore(ws, i - 1, tg);
      if e.relativePath in tg(h.contents) {
        assert w[0] == h;
      } else {
        var j' :| 0 <= j' < i - 1 && e.relativePath in tg(ws[j'].contents);
        assert w[j' + 1] == ws[j'];
      }
    }
  }

  lemma ReachedFromConcat(targets: seq<string>, first: seq<IncludedFile>, rest: seq<IncludedFile>, tg: string -> seq<string>)
    requires targets != [] && first != [] && first[0].relativePath == targets[0]
    requires FromEarlier(first, tg) && ReachedFrom(targets[1..], rest, tg)
    ensures ReachedFrom(targets, first + rest, tg)
  {
    var ws := first + rest;
    forall i | 0 <= i < |ws|
      ensures ws[i].relativePath in targets || IncludedBefore(ws, i, tg)
    {
      if i == 0 {
        assert ws[0] == first[0];
      } else if i < |first| {
        assert ws[i] == first[i];
        assert IncludedBefore(first, i, tg);
        var j :| 0 <= j < i && first[i].relativePath in tg(first[j].contents);
        assert ws[j] == first[j];
      } else {
        var e := rest[i - |first|];
        assert ws[i] == e;
        assert e.relativePath in targets[1..] || IncludedBefore(rest, i - |first|, tg);
        if e.relativePath !in targets[1..] {
          var j' :| 0 <= j' < i - |first| && e.relativePath in tg(rest[j'].contents);
          assert ws[j' + |first|] == rest[j'];
        }
      }
    }
  }

  /** Every entry after the first was reached through an include line of an earlier entry. */
  lemma {:induction false} WalkFromEarlier(fs: Files, cfgDir: string, rel: string, ancestors: set<string>)
    requires Walk(fs, cfgDir, rel, ancestors).Ok?
    ensures FromEarlier(Walk(fs, cfgDir, rel, ancestors).value, IncludeTargets)
    decreases |fs.Keys - ancestors|, 0
  {
    var full := PathJoin(cfgDir, rel);
    WalkUnfold(fs, cfgDir, rel, ancestors);
    WalkAllFromEarlier(fs, cfgDir, IncludeTargets(fs[full]), ancestors + {full});
    FromEarlierCons(IncludedFile(rel, fs[full]), WalkAll(fs, cfgDir, IncludeTargets(fs[full]), ancestors + {full}).value, IncludeTargets);
  }

  lemma {:induction false} WalkAllFromEarlier(fs: Files, cfgDir: string, targets: seq<string>, ancestors: set<string>)
    requires WalkAll(fs, cfgDir, targets, ancestors).Ok?
    ensures ReachedFrom(targets, WalkAll(fs, cfgDir, targets, ancestors).value, IncludeTargets)
    decreases |fs.Keys - ancestors|, 1, |targets|
  {
    if targets != [] {
      WalkAllUnfold(fs, cfgDir, targets, ancestors);
      WalkHead(fs, cfgDir, targets[0], ancestors);
      WalkFromEarlier(fs, cfgDir, targets[0], ancestors);
      WalkAllFromEarlier(fs, cfgDir, targets[1..], ancestors);
      ReachedFromConcat(targets, Walk(fs, cfgDir, targets[0], ancestors).value, WalkAll(fs, cfgDir, targets[1..], ancestors).value, IncludeTargets);
    }
  }

  /** The file at `from` exists and has an include line whose target is `to`. */
  ghost predicate Includes(fs: Files, cfgDir: string, from: string, to: string)
  {
    PathJoin(cfgDir, from) in fs && to in IncludeTargets(fs[PathJoin(cfgDir, from)])
  }

  /** `chain` is a path of includes: each file exists and includes the next one. */
  ghost predicate IncludeChain(fs: Files, cfgDir: string, chain: seq<string>)
  {
    forall k :: 0 <= k < |chain| - 1 ==> Includes(fs, cfgDir, chain[k], chain[k + 1])
  }

  /** Along `chain`, every entry of `w` at one link has the next link among its targets. */
  ghost predicate ChainIn(w: seq<IncludedFile>, tg: string -> seq<string>, chain: seq<string>)
  {
    forall k, m :: 0 <= k < |chain| - 1 && 0 <= m < |w| && w[m].relativePath == chain[k] ==>
      chain[k + 1] in tg(w[m].contents)
  }

  /** When every target follows its entry, the end of a chain starting at entry `i` appears at or after `i`. */
  lemma {:induction false} ChainPrecedes(w: seq<IncludedFile>, tg: string -> seq<string>, chain: seq<string>, i: nat)
    requires TargetsFollow(w, tg) && ChainIn(w, tg, chain)
    requires |chain| >= 1 && i < |w| && w[i].relativePath == chain[0]
    ensures exists j :: i <= j < |w| && w[j].relativePath == chain[|chain| - 1] && (|chain| > 1 ==> i < j)
    decreases |chain|
  {
    if |chain| > 1 {
      var targets := tg(w[i].contents);
      assert chain[1] in targets;
      var k :| 0 <= k < |targets| && targets[k] == chain[1];
      var j1 :| i < j1 < |w| && w[j1].relativePath == targets[k];
      var tail := chain[1..];
      assert ChainIn(w, tg, tail) by {
        forall k', m | 0 <= k' < |tail| - 1 && 0 <= m < |w| && w[m].relativePath == tail[k']
          ensures tail[k' + 1] in tg(w[m].contents)
        {
          assert tail[k'] == chain[k' + 1] && tail[k' + 1] == chain[k' + 2];
        }
      }
      ChainPrecedes(w, tg, tail, j1);
      var j :| j1 <= j < |w| && w[j].relativePath == tail[|tail| - 1];
      assert i < j && w[j].relativePath == chain[|chain| - 1];
    }
  }

  /**
   * Every file precedes all files reachable from it: an entry followed by a
   * chain of includes is followed, later in the walk, by the chain's end.
   */
  lemma WalkPrecedesReachable(fs: Files, cfgDir: string, rel: string, ancestors: set<string>,
                              chain: seq<string>, i: nat)
    requires Walk(fs, cfgDir, rel, ancestors).Ok?
    requires |chain| >= 1 && IncludeChain(fs, cfgDir, chain)
    requires i < |Walk(fs, cfgDir, rel, ancestors).value|
    requires Walk(fs, cfgDir, rel, ancestors).value[i].relativePath == chain[0]
    ensures var w := Walk(fs, cfgDir, rel, ancestors).value;
            exists j :: i <= j < |w| && w[j].relativePath == chain[|chain| - 1] && (|chain| > 1 ==> i < j)
  {
    var w := Walk(fs, cfgDir, rel, ancestors).value;
    WalkFaithful(fs, cfgDir, rel, ancestors);
    WalkTargetsFollow(fs, cfgDir, rel, ancestors);
    forall k, m | 0 <= k < |chain| - 1 && 0 <= m < |w| && w[m].relativePath == chain[k]
      ensures chain[k + 1] in IncludeTargets(w[m].contents)
    {
      assert w[m].contents == fs[PathJoin(cfgDir, chain[k])];
    }
    ChainPrecedes(w, IncludeTargets, chain, i);
  }

  /** The full paths of the files on `stack`: the ancestors of a walk entered along it. */
  ghost function FullPaths(cfgDir: string, stack: seq<string>): set<string>
  {
    set i | 0 <= i < |stack| :: PathJoin(cfgDir, stack[i])
  }

  /**
   * `chain` follows include lines from file to file and ends at a file whose
   * full path `p` already occurs earlier on it.
   */
  ghost predicate Revisits(fs: Files, cfgDir: string, chain: seq<string>, p: string)
  {
    && |chain| >= 2 && IncludeChain(fs, cfgDir, chain)
    && PathJoin(cfgDir, chain[|chain| - 1]) == p
    && exists i :: 0 <= i < |chain| - 1 && PathJoin(cfgDir, chain[i]) == p
  }

  lemma FullPathsPush(cfgDir: string, stack: seq<string>, rel: string)
    ensures FullPaths(cfgDir, stack + [rel]) == FullPaths(cfgDir, stack) + {PathJoin(cfgDir, rel)}
  {
    var s := stack + [rel];
    assert s[|stack|] == rel;
    assert forall i :: 0 <= i < |stack| ==> s[i] == stack[i];
  }

  lemma ChainPush(fs: Files, cfgDir: string, chain: seq<string>, next: string)
    requires chain != [] && IncludeChain(fs, cfgDir, chain)
    requires Includes(fs, cfgDir, chain[|chain| - 1], next)
    ensures IncludeChain(fs, cfgDir, chain + [next])
  {
    var c := chain + [next];
    forall k | 0 <= k < |c| - 1
      ensures Includes(fs, cfgDir, c[k], c[k + 1])
    {
      if k + 1 < |chain| {
        assert c[k] == chain[k] && c[k + 1] == chain[k + 1];
      } else {
        assert c[k] == chain[|chain| - 1] && c[k + 1] == next;
      }
    }
  }

  lemma RevisitsRegroup(fs: Files, cfgDir: string, stack: seq<string>, next: string, ext: seq<string>, p: string)
    requires Revisits(fs, cfgDir, stack + [next] + ext, p)
    ensures Revisits(fs, cfgDir, stack + ([next] + ext), p)
  {
    assert stack + [next] + ext == stack + ([next] + ext);
  }

  /** A chain whose last file has the full path of an earlier one revisits that path. */
  lemma RevisitsAtTop(fs: Files, cfgDir: string, stack: seq<string>, rel: string, i: int)
    requires IncludeChain(fs, cfgDir, stack + [rel])
    requires 0 <= i < |stack| && PathJoin(cfgDir, stack[i]) == PathJoin(cfgDir, rel)
    ensures Revisits(fs, cfgDir, stack + [rel] + [], PathJoin(cfgDir, rel))
  {
    var c := stack + [rel];
    assert c + [] == c;
    assert c[i] == stack[i] && c[|c| - 1] == rel;
  }

  /**
   * A walk entered along the include chain `stack + [rel]`, with the files
   * of `stack` as its ancestors, reports CyclicInclude(p) only when that
   * chain extends to one that comes back to `p`.
   */
  lemma {:induction false} WalkCycleWitness(fs: Files, cfgDir: string, rel: string, stack: seq<string>, p: string)
    returns (ext: seq<string>)
    requires IncludeChain(fs, cfgDir, stack + [rel])
    requires Walk(fs, cfgDir, rel, FullPaths(cfgDir, stack)) == Err(CyclicInclude(p))
    ensures Revisits(fs, cfgDir, stack + [rel] + ext, p)
    decreases |fs.Keys - FullPaths(cfgDir, stack)|, 0
  {
    var full := PathJoin(cfgDir, rel);
    var anc := FullPaths(cfgDir, stack);
    if full in anc {
      var i :| 0 <= i < |stack| && PathJoin(cfgDir, stack[i]) == full;
      RevisitsAtTop(fs, cfgDir, stack, rel, i);
      ext := [];
    } else {
      var c := stack + [rel];
      var targets := IncludeTargets(fs[full]);
      VisitShrinks(fs.Keys, anc, full);
      FullPathsPush(cfgDir, stack, rel);
      assert c[|c| - 1] == rel;
      assert forall k :: 0 <= k < |targets| ==> Includes(fs, cfgDir, c[|c| - 1], targets[k]);
      ext := WalkAllCycleWitness(fs, cfgDir, targets, c, p);
    }
  }


  lemma {:induction false} WalkAllCycleWitness(fs: Files, cfgDir: string, targets: seq<string>, stack: seq<string>, p: string)
    returns (ext: seq<string>)
    requires stack != [] && IncludeChain(fs, cfgDir, stack)
    requires forall k :: 0 <= k < |targets| ==> Includes(fs, cfgDir, stack[|stack| - 1], targets[k])
    requires WalkAll(fs, cfgDir, targets, FullPaths(cfgDir, stack)) == Err(CyclicInclude(p))
    ensures Revisits(fs, cfgDir, stack + ext, p)
    decreases |fs.Keys - FullPaths(cfgDir, stack)|, 1, |targets|
  {
    var anc := FullPaths(cfgDir, stack);
    if Walk(fs, cfgDir, targets[0], anc).Err? {
      ChainPush(fs, cfgDir, stack, targets[0]);
      var more := WalkCycleWitness(fs, cfgDir, targets[0], stack, p);
      RevisitsRegroup(fs, cfgDir, stack, targets[0], more, p);
      ext := [targets[0]] + more;
    } else {
      assert forall k :: 0 <= k < |targets| - 1 ==> targets[1..][k] == targets[k + 1];
      ext := WalkAllCycleWitness(fs, cfgDir, targets[1..], stack, p);
    }
  }

  /**
   * Soundness of the cycle check: a walk from the root reports
   * CyclicInclude(p) only when some chain of include lines from the root
   * reaches the file `p` twice.
   */
  lemma WalkCycleIsReal(fs: Files, cfgDir: string, rootFile: string, p: string)
    requires Walk(fs, cfgDir, rootFile, {}) == Err(CyclicInclude(p))
    ensures exists chain :: chain != [] && chain[0] == rootFile && Revisits(fs, cfgDir, chain, p)
  {
    assert FullPaths(cfgDir, []) == {};
    assert [] + [rootFile] == [rootFile];
    var ext := WalkCycleWitness(fs, cfgDir, rootFile, [], p);
    var chain := [] + [rootFile] + ext;
    assert chain != [] && chain[0] == rootFile && Revisits(fs, cfgDir, chain, p);
  }

  /** A file with no include lines walks to itself alone. */
  lemma WalkLeaf(fs: Files, cfgDir: string, rel: string, ancestors: set<string>)
    requires PathJoin(cfgDir, rel) in fs && PathJoin(cfgDir, rel) !in ancestors
    requires IncludeTargets(fs[PathJoin(cfgDir, rel)]) == []
    ensures Walk(fs, cfgDir, rel, ancestors) == Ok([IncludedFile(rel, fs[PathJoin(cfgDir, rel)])])
  {
    var full := PathJoin(cfgDir, rel);
    assert WalkAll(fs, cfgDir, IncludeTargets(fs[full]), ancestors + {full}) == Ok([]);
    assert [IncludedFile(rel, fs[full])] + [] == [IncludedFile(rel, fs[full])];
  }

  /** Two lines including `name` name its file twice. */
  lemma DoubleIncludeTargets(name: string)
    requires name != [] && '"' !in name && '\n' !in name
    ensures IncludeTargets(IncludeLine(name) + "\n" + IncludeLine(name)) == [name + ".cfg", name + ".cfg"]
  {
    var line := IncludeLine(name);
    assert '\n' !in line;
    LinesCons(line, line);
    LinesSingle(line);
    assert StripCr(line) == line;
    IncludeLineRecognised(name, "");
    assert line + "" == line;
    assert TargetsOf([line]) == [name + ".cfg"] + TargetsOf([]);
    assert TargetsOf([line, line]) == [name + ".cfg"] + TargetsOf([line]);
  }

  /**
   * No deduplication: a file whose two lines both include `name` walks the
   * included file twice.
   */
  lemma WalkKeepsDuplicates(fs: Files, cfgDir: string, rootFile: string, name: string)
    requires name != [] && '"' !in name && '\n' !in name
    requires PathJoin(cfgDir, rootFile) in fs
    requires fs[PathJoin(cfgDir, rootFile)] == IncludeLine(name) + "\n" + IncludeLine(name)
    requires PathJoin(cfgDir, name + ".cfg") in fs && PathJoin(cfgDir, name + ".cfg") != PathJoin(cfgDir, rootFile)
    requires IncludeTargets(fs[PathJoin(cfgDir, name + ".cfg")]) == []
    ensures var child := IncludedFile(name + ".cfg", fs[PathJoin(cfgDir, name + ".cfg")]);
            Walk(fs, cfgDir, rootFile, {})
            == Ok([IncludedFile(rootFile, fs[PathJoin(cfgDir, rootFile)]), child, child])
  {
    var root := PathJoin(cfgDir, rootFile);
    var target := name + ".cfg";
    var anc := {} + {root};
    var child := IncludedFile(target, fs[PathJoin(cfgDir, target)]);
    DoubleIncludeTargets(name);
    WalkLeaf(fs, cfgDir, target, anc);
    var targets := [target, target];
    assert targets[1..] == [target];
    assert WalkAll(fs, cfgDir, [], anc) == Ok([]);
    assert WalkAll(fs, cfgDir, [target], anc) == Ok([child]) by {
      assert [target][1..] == [];
      assert [child] + [] == [child];
    }
    assert WalkAll(fs, cfgDir, targets, anc) == Ok([child, child]) by {
      assert [child] + [child] == [child, child];
    }
    assert IncludeTargets(fs[root]) == targets;
    var head := IncludedFile(rootFile, fs[root]);
    assert [head] + [child, child] == [head, child, child];
  }
}
