/** The configuration directory as a map from path to contents, and the file operations the tool performs on it. */
module FileSystem {
  import opened Wrappers
  import opened Errors

  type Files = map<string, string>

  /** `read_to_string(path)`: the contents, or the panic of a missing file. */
  function ReadToString(fs: Files, path: string): (r: Result<string, Error>)
    ensures r.Ok? <==> path in fs
    ensures r.Ok? ==> r.value == fs[path]
    ensures r.Err? ==> r.error == FileNotFound(path)
  {
    if path in fs then Ok(fs[path]) else Err(FileNotFound(path))
  }

  /** A file holding `prev` after `data` is written at offset 0 without truncation. */
  function Overwrite(prev: string, data: string): (r: string)
    ensures |r| == if |prev| > |data| then |prev| else |data|
    ensures data <= r
    ensures |prev| > |data| ==> r[|data|..] == prev[|data|..]
  {
    if |prev| > |data| then data + prev[|data|..] else data
  }

  /** Rewriting a file with the contents it already has leaves it unchanged. */
  lemma OverwriteSame(s: string)
    ensures Overwrite(s, s) == s
  {
  }

  class Disk {
    var files: Files

    constructor (files: Files)
      ensures this.files == files
    {
      this.files := files;
    }

    /** `File::create(path)` and a full write: the file is created or truncated and then holds `data`. */
    method CreateAndWrite(path: string, data: string)
      modifies this
      ensures files == old(files)[path := data]
    {
      files := files[path := data];
    }

    /** `OpenOptions::new().write(true).create(create).open(path)`: a missing file is created empty only with `create`. */
    method Open(path: string, create: bool) returns (ok: bool)
      modifies this
      ensures ok <==> path in old(files) || create
      ensures files == if path !in old(files) && create then old(files)[path := []] else old(files)
    {
      ok := path in files || create;
      if path !in files && create {
        files := files[path := []];
      }
    }

    /** `write(data)` on a freshly opened file: `data` replaces the first bytes, later bytes stay. */
    method WriteAtStart(path: string, data: string)
      requires path in files
      modifies this
      ensures files == old(files)[path := Overwrite(old(files)[path], data)]
    {
      files := files[path := Overwrite(files[path], data)];
    }
  }
}
