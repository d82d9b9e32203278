/**
 * Text primitives of the Rust standard library that the configuration tool
 * relies on: `str::lines`, `[String]::join` and the byte-indexed slice `&s[n..]`.
 */
module Text {
  import opened Wrappers

  /** `s.split(sep)`: always at least one segment, none of them containing `sep`. */
  function Split(s: string, sep: char): (r: seq<string>)
    ensures |r| >= 1
    ensures forall k :: 0 <= k < |r| ==> sep !in r[k]
    ensures r == [[]] <==> s == []
  {
    if s == [] then [[]]
    else
      var rest := Split(s[1..], sep);
      if s[0] == sep then [[]] + rest
      else [[s[0]] + rest[0]] + rest[1..]
  }

  /** `parts.join(sep)` on a vector of strings. */
  function JoinWith(parts: seq<string>, sep: string): (r: string)
    ensures parts == [] ==> r == []
    ensures parts != [] ==> parts[0] <= r
  {
    if |parts| == 0 then []
    else if |parts| == 1 then parts[0]
    else parts[0] + sep + JoinWith(parts[1..], sep)
  }

  /** Drops the '\r' of a "\r\n" line ending. */
  function StripCr(line: string): (r: string)
    ensures r == line || line == r + ['\r']
    ensures |line| > 0 && line[|line| - 1] == '\r' ==> line == r + ['\r']
    ensures '\r' !in line ==> r == line
  {
    if |line| > 0 && line[|line| - 1] == '\r' then line[..|line| - 1] else line
  }

  function StripEach(lines: seq<string>): (r: seq<string>)
    ensures |r| == |lines|
    ensures forall k :: 0 <= k < |r| ==> r[k] == StripCr(lines[k])
  {
    seq(|lines|, k requires 0 <= k < |lines| => StripCr(lines[k]))
  }

  /**
   * `s.lines()`: the segments between '\n' characters; a segment ended by
   * '\n' loses a final '\r', and an empty final segment is not a line.
   */
  function Lines(s: string): (r: seq<string>)
    ensures forall k :: 0 <= k < |r| ==> '\n' !in r[k]
    ensures r == [] <==> s == []
  {
    var segs := Split(s, '\n');
    var last := segs[|segs| - 1];
    var init := StripEach(segs[..|segs| - 1]);
    assert forall k :: 0 <= k < |init| ==> init[k] == StripCr(segs[k]);
    if last == [] then init else init + [last]
  }

  /** Joining the segments of a split with its separator gives back the text. */
  lemma {:induction false} JoinSplit(s: string, sep: char)
    ensures JoinWith(Split(s, sep), [sep]) == s
  {
    if s != [] {
      var rest := Split(s[1..], sep);
      JoinSplit(s[1..], sep);
      if s[0] == sep {
        assert Split(s, sep) == [[]] + rest;
        assert ([[]] + rest)[1..] == rest;
        assert JoinWith([[]] + rest, [sep]) == [] + [sep] + JoinWith(rest, [sep]);
        assert s == [sep] + s[1..];
      } else {
        var first := [s[0]] + rest[0];
        assert Split(s, sep) == [first] + rest[1..];
        assert ([first] + rest[1..])[1..] == rest[1..];
        if |rest| == 1 {
          assert JoinWith(rest, [sep]) == rest[0];
          assert s == [s[0]] + s[1..];
        } else {
          assert JoinWith(rest, [sep]) == rest[0] + [sep] + JoinWith(rest[1..], [sep]);
          assert s == [s[0]] + s[1..];
        }
      }
    }
  }

  /** A character absent from the text is absent from every segment. */
  lemma {:induction false} SplitKeepsAbsent(s: string, sep: char, x: char)
    requires x !in s
    ensures forall k :: 0 <= k < |Split(s, sep)| ==> x !in Split(s, sep)[k]
  {
    if s != [] {
      SplitKeepsAbsent(s[1..], sep, x);
    }
  }

  /** The final segment is empty exactly when the text is empty or ends with the separator. */
  lemma {:induction false} SplitLastEmpty(s: string, sep: char)
    ensures var r := Split(s, sep); (r[|r| - 1] == []) <==> (s == [] || s[|s| - 1] == sep)
  {
    if s != [] {
      SplitLastEmpty(s[1..], sep);
      var rest := Split(s[1..], sep);
      if s[0] != sep && |rest| == 1 {
        assert Split(s, sep) == [[s[0]] + rest[0]];
        assert s[1..] != [] ==> s[|s| - 1] == s[1..][|s[1..]| - 1];
      } else {
        assert Split(s, sep)[|Split(s, sep)| - 1] == rest[|rest| - 1];
        assert s[1..] == [] ==> s == [s[0]];
        assert s[1..] != [] ==> s[|s| - 1] == s[1..][|s[1..]| - 1];
      }
    }
  }

  /** Text without the separator is one segment. */
  lemma {:induction false} SplitWithout(s: string, sep: char)
    requires sep !in s
    ensures Split(s, sep) == [s]
  {
    if s != [] {
      SplitWithout(s[1..], sep);
      assert s == [s[0]] + s[1..];
    }
  }

  /** A separator-free head followed by the separator is split off as the first segment. */
  lemma {:induction false} SplitCons(h: string, sep: char, t: string)
    requires sep !in h
    ensures Split(h + [sep] + t, sep) == [h] + Split(t, sep)
  {
    var s := h + [sep] + t;
    if h == [] {
      assert s == [sep] + t && s[1..] == t;
    } else {
      SplitCons(h[1..], sep, t);
      assert s[0] == h[0] && s[1..] == h[1..] + [sep] + t;
      var rest := Split(s[1..], sep);
      assert rest == [h[1..]] + Split(t, sep);
      assert [h[0]] + rest[0] == h;
      assert rest[1..] == Split(t, sep);
    }
  }

  /** A separator-free tail is split off as the last segment. */
  lemma {:induction false} SplitSnoc(a: string, sep: char, b: string)
    requires sep !in b
    ensures Split(a + [sep] + b, sep) == Split(a, sep) + [b]
  {
    var s := a + [sep] + b;
    if a == [] {
      assert s == [sep] + b && s[1..] == b;
      SplitWithout(b, sep);
    } else {
      assert s[0] == a[0] && s[1..] == a[1..] + [sep] + b;
      SplitSnoc(a[1..], sep, b);
    }
  }

  /**
   * `lines()` does not see a final '\n' after text that has none already
   * and holds no '\r'.
   */
  lemma LinesFinalNewline(s: string)
    requires s != [] && '\r' !in s && s[|s| - 1] != '\n'
    ensures Lines(s + "\n") == Lines(s)
  {
    var segs := Split(s, '\n');
    SplitSnoc(s, '\n', []);
    assert s + "\n" == s + ['\n'] + [];
    SplitLastEmpty(s, '\n');
    SplitKeepsAbsent(s, '\n', '\r');
    var all := segs + [[]];
    assert all[..|all| - 1] == segs;
    assert StripEach(segs) == segs;
    assert StripEach(segs[..|segs| - 1]) == segs[..|segs| - 1];
    assert segs[..|segs| - 1] + [segs[|segs| - 1]] == segs;
  }

  /**
   * Round trip of `lines()` and `join("\n")`: text with no '\r' and no final
   * '\n' is recovered exactly.
   */
  lemma LinesJoin(s: string)
    requires '\r' !in s
    requires s == [] || s[|s| - 1] != '\n'
    ensures JoinWith(Lines(s), "\n") == s
  {
    var segs := Split(s, '\n');
    if s != [] {
      SplitLastEmpty(s, '\n');
      SplitKeepsAbsent(s, '\n', '\r');
      var init := StripEach(segs[..|segs| - 1]);
      assert init == segs[..|segs| - 1];
      assert Lines(s) == segs[..|segs| - 1] + [segs[|segs| - 1]] == segs;
      JoinSplit(s, '\n');
    }
  }

  /** A line with no '\n' followed by '\n' is the first line, minus a final '\r'. */
  lemma LinesCons(h: string, t: string)
    requires '\n' !in h
    ensures Lines(h + "\n" + t) == [StripCr(h)] + Lines(t)
  {
    var segs := Split(h + "\n" + t, '\n');
    var tail := Split(t, '\n');
    SplitCons(h, '\n', t);
    assert segs == [h] + tail;
    assert segs[..|segs| - 1] == [h] + tail[..|tail| - 1];
    assert StripEach(segs[..|segs| - 1]) == [StripCr(h)] + StripEach(tail[..|tail| - 1]);
    assert segs[|segs| - 1] == tail[|tail| - 1];
  }

  /** A non-empty line without '\n' is a single line, kept exactly (a bare final '\r' stays). */
  lemma LinesSingle(s: string)
    requires s != [] && '\n' !in s
    ensures Lines(s) == [s]
  {
    SplitWithout(s, '\n');
  }

  /** Number of bytes of one character in UTF-8. */
  function Utf8Width(c: char): (w: nat)
    ensures 1 <= w <= 4
  {
    if c as int < 0x80 then 1
    else if c as int < 0x800 then 2
    else if c as int < 0x1_0000 then 3
    else 4
  }

  /** `s.len()`: the UTF-8 byte length. */
  function Utf8Length(s: string): (n: nat)
    ensures n >= |s|
  {
    if s == [] then 0 else Utf8Width(s[0]) + Utf8Length(s[1..])
  }

  /**
   * `&s[n..]`: the text after its first `n` bytes, or None where Rust panics
   * (fewer than `n` bytes, or byte `n` inside a multi-byte character).
   */
  function DropPrefixBytes(s: string, n: nat): (r: Option<string>)
    ensures r.Some? ==> Utf8Length(r.value) + n == Utf8Length(s)
  {
    if n == 0 then Some(s)
    else if s == [] then None
    else if Utf8Width(s[0]) > n then None
    else
      DropPrefixBytes(s[1..], n - Utf8Width(s[0]))
  }

  /** Byte length of the first `k + 1` characters: that of the first `k` plus character `k`. */
  lemma {:induction false} Utf8LengthPrefix(s: string, k: nat)
    requires 0 < k <= |s|
    ensures Utf8Length(s[..k]) == Utf8Width(s[0]) + Utf8Length(s[1..][..k - 1])
  {
    assert s[..k][0] == s[0];
    assert s[..k][1..] == s[1..][..k - 1];
  }

  /**
   * `DropPrefixBytes` succeeds exactly when some prefix of `s` is `n` bytes long;
   * the result is the text after that prefix.
   */
  lemma {:induction false} DropPrefixBytesSpec(s: string, n: nat)
    ensures DropPrefixBytes(s, n).Some? <==> exists k :: 0 <= k <= |s| && Utf8Length(s[..k]) == n
    ensures DropPrefixBytes(s, n).Some? ==>
              exists k :: 0 <= k <= |s| && Utf8Length(s[..k]) == n && DropPrefixBytes(s, n).value == s[k..]
  {
    if n == 0 {
      assert Utf8Length(s[..0]) == 0 && s[0..] == s;
    } else if s == [] {
      assert forall k :: 0 <= k <= |s| ==> s[..k] == [];
    } else if Utf8Width(s[0]) > n {
      forall k | 0 <= k <= |s|
        ensures Utf8Length(s[..k]) != n
      {
        if k > 0 {
          Utf8LengthPrefix(s, k);
        }
      }
    } else {
      var w := Utf8Width(s[0]);
      DropPrefixBytesSpec(s[1..], n - w);
      if DropPrefixBytes(s[1..], n - w).Some? {
        var k :| 0 <= k <= |s[1..]| && Utf8Length(s[1..][..k]) == n - w
                  && DropPrefixBytes(s[1..], n - w).value == s[1..][k..];
        Utf8LengthPrefix(s, k + 1);
        assert s[1..][k..] == s[k + 1..];
        assert Utf8Length(s[..k + 1]) == n;
      } else {
        NoPrefixAfterFirst(s, n);
      }
    }
  }

  /** When no prefix of the tail is `n` bytes short of the first character, no prefix of `s` is `n` bytes long. */
  lemma NoPrefixAfterFirst(s: string, n: nat)
    requires s != [] && 0 < n && Utf8Width(s[0]) <= n
    requires forall k :: 0 <= k <= |s[1..]| ==> Utf8Length(s[1..][..k]) != n - Utf8Width(s[0])
    ensures forall k :: 0 <= k <= |s| ==> Utf8Length(s[..k]) != n
  {
    forall k | 0 <= k <= |s|
      ensures Utf8Length(s[..k]) != n
    {
      if k == 0 {
        assert s[..0] == [];
      } else {
        Utf8LengthPrefix(s, k);
        assert Utf8Length(s[1..][..k - 1]) != n - Utf8Width(s[0]);
      }
    }
  }

  /** Byte lengths add up over concatenation. */
  lemma {:induction false} Utf8LengthConcat(a: string, b: string)
    ensures Utf8Length(a + b) == Utf8Length(a) + Utf8Length(b)
    decreases |a|
  {
    if a == [] {
      assert a + b == b;
    } else {
      assert (a + b)[0] == a[0] && (a + b)[1..] == a[1..] + b;
      Utf8LengthConcat(a[1..], b);
    }
  }

  /** Text shorter than `n` bytes has no `n`-byte prefix, so `&s[n..]` panics on it. */
  lemma DropPrefixBytesShort(s: string, n: nat)
    requires Utf8Length(s) < n
    ensures DropPrefixBytes(s, n).None?
  {
    forall k | 0 <= k <= |s|
      ensures Utf8Length(s[..k]) != n
    {
      assert s == s[..k] + s[k..];
      Utf8LengthConcat(s[..k], s[k..]);
    }
    DropPrefixBytesSpec(s, n);
  }

  /** Dropping three single-byte characters in front of a text gives the text. */
  lemma DropAsciiMarker(m: string, p: string)
    requires |m| == 3 && forall i :: 0 <= i < 3 ==> m[i] as int < 0x80
    ensures DropPrefixBytes(m + p, 3) == Some(p)
  {
    var s := m + p;
    assert s[0] == m[0] && s[1..] == m[1..] + p;
    assert s[1..][0] == m[1] && s[1..][1..] == m[2..] + p;
    assert s[1..][1..][0] == m[2] && s[1..][1..][1..] == p;
    assert Utf8Width(m[0]) == 1 && Utf8Width(m[1]) == 1 && Utf8Width(m[2]) == 1;
    assert DropPrefixBytes(s, 3) == DropPrefixBytes(s[1..], 2);
    assert DropPrefixBytes(s[1..], 2) == DropPrefixBytes(s[1..][1..], 1);
    assert DropPrefixBytes(s[1..][1..], 1) == DropPrefixBytes(p, 0);
  }
}
