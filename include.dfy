/**
 * The include-line recogniser: the pattern `^exec "([^"]+)"|(.+)`, of which
 * only the first group makes a line an include.
 */
module Include {
  import opened Wrappers
  import opened Text

  const ExecPrefix: string := "exec \""

  /** `line` includes `name`: it starts with `exec "`, then `name` (non-empty, no '"'), then '"'. */
  predicate IsIncludeOf(line: string, name: string)
  {
    name != [] && '"' !in name && ExecPrefix + name + "\"" <= line
  }

  /** Index of the first `c` in `s`, or |s|. */
  function IndexOf(s: string, c: char): (i: nat)
    ensures i <= |s|
    ensures i < |s| ==> s[i] == c
    ensures forall j :: 0 <= j < i ==> s[j] != c
  {
    if s == [] || s[0] == c then 0 else 1 + IndexOf(s[1..], c)
  }

  /** Capture group 1 of the pattern on `line`, if any. */
  function IncludeName(line: string): (r: Option<string>)
    ensures r.Some? ==> IsIncludeOf(line, r.value)
  {
    if ExecPrefix <= line then
      var rest := line[|ExecPrefix|..];
      var q := IndexOf(rest, '"');
      if 0 < q < |rest| then
        assert ExecPrefix + rest[..q] + "\"" == line[..|ExecPrefix| + q + 1];
        Some(rest[..q])
      else None
    else None
  }

  /** The recogniser captures `name` exactly when the line includes `name`. */
  lemma IncludeNameExact(line: string, name: string)
    ensures IncludeName(line) == Some(name) <==> IsIncludeOf(line, name)
  {
    if IsIncludeOf(line, name) {
      var n := |ExecPrefix|;
      assert ExecPrefix <= line by {
        assert line[..n] == (ExecPrefix + name + "\"")[..n];
      }
      var rest := line[n..];
      assert forall j :: 0 <= j < |name| ==> rest[j] == name[j];
      assert rest[|name|] == '"';
      assert IndexOf(rest, '"') == |name|;
      assert rest[..|name|] == name;
    }
  }

  /** Empty lines, lines not starting with `exec "` (leading whitespace included) and `exec ""` are not includes. */
  lemma NotIncludes(line: string)
    requires line == [] || line[0] != 'e' || !(ExecPrefix <= line) || (|line| > 6 && line[..7] == "exec \"\"")
    ensures IncludeName(line) == None
  {
  }

  /** The line `exec "name"`. */
  function IncludeLine(name: string): (line: string)
    ensures |line| == |name| + 7 && line[|line| - 1] == '"'
  {
    ExecPrefix + name + "\""
  }

  /** `exec "name"` includes `name`, and text after the closing quote is ignored. */
  lemma IncludeLineRecognised(name: string, tail: string)
    requires name != [] && '"' !in name
    ensures IncludeName(IncludeLine(name) + tail) == Some(name)
  {
    var line := IncludeLine(name) + tail;
    assert (ExecPrefix + name + "\"") <= line;
    IncludeNameExact(line, name);
  }

  /** The relative paths `name + ".cfg"` named by the include lines, top to bottom. */
  function TargetsOf(lines: seq<string>): (r: seq<string>)
    ensures |r| <= |lines|
    ensures forall k :: 0 <= k < |lines| && IncludeName(lines[k]).Some? ==> IncludeName(lines[k]).value + ".cfg" in r
  {
    if lines == [] then []
    else
      assert forall k :: 1 <= k < |lines| ==> lines[1..][k - 1] == lines[k];
      match IncludeName(lines[0])
      case Some(name) => [name + ".cfg"] + TargetsOf(lines[1..])
      case None => TargetsOf(lines[1..])
  }

  /** The targets of one line: its include target when it is an include line, nothing otherwise. */
  lemma TargetsOfSingle(line: string)
    ensures TargetsOf([line]) == if IncludeName(line).Some? then [IncludeName(line).value + ".cfg"] else []
  {
    assert [line][1..] == [];
  }

  /** The targets of consecutive blocks of lines are the blocks' targets in the same order, duplicates kept. */
  lemma {:induction false} TargetsOfAppend(a: seq<string>, b: seq<string>)
    ensures TargetsOf(a + b) == TargetsOf(a) + TargetsOf(b)
  {
    if a == [] {
      assert a + b == b;
    } else {
      assert (a + b)[0] == a[0];
      assert (a + b)[1..] == a[1..] + b;
      TargetsOfAppend(a[1..], b);
    }
  }

  /** The include targets of a file's contents. */
  function IncludeTargets(contents: string): (r: seq<string>)
    ensures |r| <= |Lines(contents)|
    ensures contents == [] ==> r == []
  {
    TargetsOf(Lines(contents))
  }
}
