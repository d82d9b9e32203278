/**
 * Unix paths as '/'-separated strings: the parts of `std::path::Path` the
 * tool uses (`join`, `parent`, `file_name`).
 */
module Paths {
  import opened Wrappers
  import opened Text

  predicate IsAbsolute(p: string)
  {
    |p| > 0 && p[0] == '/'
  }

  /** A single normal path component: what `file_name` can return. */
  predicate IsPlainName(b: string)
  {
    b != [] && '/' !in b && b != "." && b != ".."
  }

  /** What `Path::join` puts in front of a relative path: `base`, plus a '/' unless it already ends in one. */
  function DirPrefix(base: string): (r: string)
    ensures base <= r && |r| <= |base| + 1
    ensures r == [] || r[|r| - 1] == '/'
    ensures r == [] <==> base == []
  {
    if base == [] || base[|base| - 1] == '/' then base else base + "/"
  }

  /** `base.join(p)`: an absolute `p` replaces `base`. */
  function PathJoin(base: string, p: string): (r: string)
    ensures |p| <= |r| <= |base| + 1 + |p|
  {
    if IsAbsolute(p) then p else DirPrefix(base) + p
  }

  /** A relative path joined to a directory starts with the directory and ends with the path. */
  lemma PathJoinShape(base: string, p: string)
    ensures IsAbsolute(p) ==> PathJoin(base, p) == p
    ensures !IsAbsolute(p) ==>
              var r := PathJoin(base, p);
              base <= r && |p| <= |r| <= |base| + 1 + |p| && r[|r| - |p|..] == p
  {
  }

  /** Different relative paths under one directory are different paths. */
  lemma PathJoinInjective(base: string, p: string, q: string)
    requires !IsAbsolute(p) && !IsAbsolute(q)
    requires PathJoin(base, p) == PathJoin(base, q)
    ensures p == q
  {
    var d := DirPrefix(base);
    assert (d + p)[|d|..] == p && (d + q)[|d|..] == q;
  }

  /** Index of the last `c` in `s`, or -1. */
  function LastIndex(s: string, c: char): (i: int)
    ensures -1 <= i < |s|
    ensures i >= 0 ==> s[i] == c
    ensures forall j :: i < j < |s| ==> s[j] != c
  {
    if s == [] then -1
    else if s[|s| - 1] == c then |s| - 1
    else LastIndex(s[..|s| - 1], c)
  }

  /** Removes trailing separators, keeping a lone "/". */
  function TrimSeps(s: string): (r: string)
    ensures r <= s
    ensures |r| > 1 ==> r[|r| - 1] != '/'
    ensures r == [] <==> s == []
  {
    if |s| > 1 && s[|s| - 1] == '/' then TrimSeps(s[..|s| - 1]) else s
  }

  /** `p.parent()`: None for the empty path and for the root. */
  function Parent(p: string): (r: Option<string>)
    ensures r.Some? ==> |r.value| < |p|
  {
    var q := TrimSeps(p);
    if q == [] || q == "/" then None
    else
      var i := LastIndex(q, '/');
      if i < 0 then Some([])
      else if i == 0 then Some("/")
      else Some(TrimSeps(q[..i]))
  }

  /** The last separator of a directory prefix followed by a separator-free name is the prefix's final one. */
  lemma LastIndexAfterPrefix(d: string, f: string)
    requires '/' !in f
    ensures d == [] ==> LastIndex(d + f, '/') == -1
    ensures d != [] && d[|d| - 1] == '/' ==> LastIndex(d + f, '/') == |d| - 1
  {
    var p := d + f;
    var i := LastIndex(p, '/');
    assert forall j :: |d| <= j < |p| ==> p[j] == f[j - |d|];
    if d != [] && d[|d| - 1] == '/' {
      assert p[|d| - 1] == '/';
    }
  }

  /** The parent of a plain file name joined to a directory is that directory (without trailing separators). */
  lemma ParentOfJoin(dir: string, f: string)
    requires IsPlainName(f)
    ensures Parent(PathJoin(dir, f)) == Some(TrimSeps(dir))
  {
    assert PathJoin(dir, f) == DirPrefix(dir) + f;
    if |DirPrefix(dir)| > 1 {
      ParentOfNestedJoin(dir, f);
    } else {
      ParentOfTopJoin(dir, f);
    }
  }

  /** ParentOfJoin for the empty directory and for "/". */
  lemma ParentOfTopJoin(dir: string, f: string)
    requires IsPlainName(f) && |DirPrefix(dir)| <= 1
    ensures Parent(DirPrefix(dir) + f) == Some(TrimSeps(dir))
  {
    var d := DirPrefix(dir);
    var p := d + f;
    assert p[|p| - 1] == f[|f| - 1] != '/';
    assert TrimSeps(p) == p;
    LastIndexAfterPrefix(d, f);
    if d == [] {
      assert dir == [];
    } else {
      assert dir == "/" && d == "/";
      assert |p| > 1 && TrimSeps(dir) == "/";
    }
  }

  /** ParentOfJoin for a directory longer than "/". */
  lemma ParentOfNestedJoin(dir: string, f: string)
    requires IsPlainName(f) && |DirPrefix(dir)| > 1
    ensures Parent(DirPrefix(dir) + f) == Some(TrimSeps(dir))
  {
    var d := DirPrefix(dir);
    var p := d + f;
    assert p[|p| - 1] == f[|f| - 1] != '/';
    assert TrimSeps(p) == p;
    LastIndexAfterPrefix(d, f);
    assert p[..|d| - 1] == d[..|d| - 1];
    assert Parent(p) == Some(TrimSeps(p[..|d| - 1]));
    if dir[|dir| - 1] == '/' {
      assert d == dir;
    } else {
      assert d == dir + "/" && d[..|d| - 1] == dir;
    }
  }

  /** The normal components of a split path: empty and "." parts are not components. */
  function NormalParts(parts: seq<string>): (r: seq<string>)
    ensures forall k :: 0 <= k < |r| ==> r[k] != [] && r[k] != "."
  {
    if parts == [] then []
    else if parts[0] == [] || parts[0] == "." then NormalParts(parts[1..])
    else [parts[0]] + NormalParts(parts[1..])
  }

  /** `p.file_name()`: the last component when it is a normal one. */
  function FileName(p: string): (r: Option<string>)
    ensures r.Some? ==> IsPlainName(r.value)
  {
    var parts := Split(p, '/');
    var comps := NormalParts(parts);
    if comps == [] then None
    else
      var last := comps[|comps| - 1];
      assert last in parts by {
        NormalPartsFrom(parts);
      }
      if last == ".." then None else Some(last)
  }

  lemma {:induction false} NormalPartsFrom(parts: seq<string>)
    ensures forall k :: 0 <= k < |NormalParts(parts)| ==> NormalParts(parts)[k] in parts
  {
    if parts != [] {
      NormalPartsFrom(parts[1..]);
    }
  }

  lemma {:induction false} NormalPartsSnoc(parts: seq<string>, b: string)
    requires IsPlainName(b)
    ensures NormalParts(parts + [b]) == NormalParts(parts) + [b]
  {
    if parts == [] {
      assert NormalParts([b]) == [b] + NormalParts([]);
    } else {
      assert (parts + [b])[1..] == parts[1..] + [b];
      NormalPartsSnoc(parts[1..], b);
    }
  }

  /**
   * The file name of a relative path whose last component is a plain name
   * is that name, whatever directories precede it.
   */
  lemma FileNameOfLast(dirs: string, b: string)
    requires IsPlainName(b)
    ensures FileName(b) == Some(b)
    ensures FileName(dirs + "/" + b) == Some(b)
  {
    SplitWithout(b, '/');
    assert NormalParts([b]) == [b] + NormalParts([]);
    SplitSnoc(dirs, '/', b);
    NormalPartsSnoc(Split(dirs, '/'), b);
  }
}
