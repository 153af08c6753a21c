/** The `basename` utility of src/utils/basename.rs: the last component of a
    path, with an optional suffix removed. Rust's `Path::file_name`, which it
    relies on, is stated here over bytes. */
module Basename {
  import opened Bytes

  /** The pieces of `p` between slashes, empty pieces included, built from
      the right one byte at a time. */
  function Segments(p: seq<Byte>): (segs: seq<seq<Byte>>)
    ensures |segs| > 0
    ensures forall i :: 0 <= i < |segs| ==> Slash !in segs[i]
    decreases |p|
  {
    if p == [] then [[]]
    else
      var init := Segments(p[..|p| - 1]);
      var c := p[|p| - 1];
      if c == Slash then init + [[]]
      else init[..|init| - 1] + [init[|init| - 1] + [c]]
  }

  /** The last piece that `Path::components` keeps: empty pieces (repeated
      or trailing slashes) and `.` pieces are skipped. */
  function LastComponent(segs: seq<seq<Byte>>): (r: Option<seq<Byte>>)
    ensures r.Some? ==> r.value in segs && r.value != [] && r.value != [Dot]
    decreases |segs|
  {
    if segs == [] then None
    else
      var s := segs[|segs| - 1];
      if s == [] || s == [Dot] then LastComponent(segs[..|segs| - 1]) else Some(s)
  }

  /** `Path::file_name`: the last component, unless the path has none (it is
      empty, `/`, `.` or made of such pieces) or the last one is `..`. */
  function FileName(p: seq<Byte>): (r: Option<seq<Byte>>)
    ensures r.Some? ==> r.value != [] && Slash !in r.value && r.value != [Dot] && r.value != [Dot, Dot]
  {
    match LastComponent(Segments(p))
    case None => None
    case Some(c) => if c == [Dot, Dot] then None else Some(c)
  }

  /** `strip_suffix`: `suffix` is removed once from the end of `s`, unless it
      is all of `s` or not at its end. */
  function StripSuffix(s: seq<Byte>, suffix: seq<Byte>): (r: seq<Byte>)
    ensures s == suffix || !IsSuffix(suffix, s) ==> r == s
    ensures s != suffix && IsSuffix(suffix, s) ==> r + suffix == s && |r| > 0
    ensures s != [] ==> r != []
  {
    if s == suffix then s
    else if |suffix| <= |s| && s[|s| - |suffix|..] == suffix then s[..|s| - |suffix|]
    else s
  }

  /** `get_basename`: `.` for the empty path, as it is; otherwise the file
      name, or `/` for a path without one, with the suffix stripped. */
  function GetBasename(path: seq<Byte>, suffix: seq<Byte>): (r: seq<Byte>)
    ensures r != []
    ensures path == [] ==> r == [Dot]
  {
    if path == [] then [Dot]
    else
      match FileName(path)
      case Some(name) => StripSuffix(name, suffix)
      case None => StripSuffix([Slash], suffix)
  }

  /** What `basename_main` does: its exit code and the line it prints. */
  datatype Outcome = Outcome(code: ExitCode, output: seq<Byte>)

  const MissingOperand: seq<Byte> := Ascii("basename: missing operand\n")
  const TooManyOperands: seq<Byte> := Ascii("basename: too many operands\n")

  /** `basename_main`: one or two operands (the path, then the suffix, empty
      when absent); any other count is refused with a message. */
  function BasenameMain(args: seq<seq<Byte>>): (r: Outcome)
    ensures r.code == Success <==> 1 <= |args| <= 2
    ensures |args| == 0 ==> r.output == MissingOperand
    ensures |args| > 2 ==> r.output == TooManyOperands
    ensures 1 <= |args| <= 2 ==>
      r.output == GetBasename(args[0], if |args| == 2 then args[1] else []) + [Newline]
  {
    if |args| == 0 then Outcome(Failure, MissingOperand)
    else if |args| > 2 then Outcome(Failure, TooManyOperands)
    else
      var suffix := if |args| > 1 then args[1] else [];
      Outcome(Success, GetBasename(args[0], suffix) + [Newline])
  }
}

/** How `Path::file_name` and `basename` treat slashes, `.` and `..`, and
    the expectations of tests/test_basename.rs. */
module BasenameCases {
  import opened Bytes
  import opened Basename

  /** A slash closes the last piece and opens an empty one. */
  lemma {:induction false} SegmentsSlash(p: seq<Byte>)
    ensures Segments(p + [Slash]) == Segments(p) + [[]]
  {
    assert (p + [Slash])[..|p|] == p;
  }

  /** Bytes without a slash after the last slash form the last piece. */
  lemma {:induction false} SegmentsName(p: seq<Byte>, name: seq<Byte>)
    requires Slash !in name
    ensures Segments(p + [Slash] + name) == Segments(p) + [name]
    decreases |name|
  {
    if name == [] {
      SegmentsSlash(p);
      assert p + [Slash] + name == p + [Slash];
    } else {
      var init := name[..|name| - 1];
      var s := p + [Slash] + name;
      assert s[..|s| - 1] == p + [Slash] + init;
      SegmentsName(p, init);
      assert init + [name[|name| - 1]] == name;
    }
  }

  /** A path without a slash is a single piece. */
  lemma {:induction false} SegmentsWithoutSlash(name: seq<Byte>)
    requires Slash !in name
    ensures Segments(name) == [name]
    decreases |name|
  {
    if name != [] {
      SegmentsWithoutSlash(name[..|name| - 1]);
      assert name[..|name| - 1] + [name[|name| - 1]] == name;
    }
  }

  /** Trailing slashes do not change the file name. */
  lemma {:induction false} FileNameTrailingSlash(p: seq<Byte>)
    ensures FileName(p + [Slash]) == FileName(p)
  {
    SegmentsSlash(p);
    var segs := Segments(p);
    assert (segs + [[]])[..|segs|] == segs;
  }

  /** The file name is the piece after the last slash, when that piece is a
      proper name (not empty, `.` or `..`). */
  lemma {:induction false} FileNameLast(p: seq<Byte>, name: seq<Byte>)
    requires Slash !in name && name != [] && name != [Dot] && name != [Dot, Dot]
    ensures FileName(p + [Slash] + name) == Some(name)
    ensures FileName(name) == Some(name)
  {
    SegmentsName(p, name);
    SegmentsWithoutSlash(name);
  }

  /** A path made only of slashes has no file name. */
  lemma {:induction false} FileNameOfSlashes(p: seq<Byte>)
    requires forall i :: 0 <= i < |p| ==> p[i] == Slash
    ensures FileName(p) == None
    decreases |p|
  {
    if p != [] {
      var q := p[..|p| - 1];
      FileNameOfSlashes(q);
      FileNameTrailingSlash(q);
      assert q + [Slash] == p;
    }
  }

  /** `.` and `..` have no file name, so `basename` prints `/` for them. */
  lemma DotPathsGiveSlash(dot: seq<Byte>, dotdot: seq<Byte>)
    requires dot == Ascii(".") && dotdot == Ascii("..")
    ensures GetBasename(dot, []) == Ascii("/") && GetBasename(dotdot, []) == Ascii("/")
  {
    assert dot == [Dot] && dotdot == [Dot, Dot] && Ascii("/") == [Slash];
    SegmentsWithoutSlash(dot);
    SegmentsWithoutSlash(dotdot);
    assert [Dot][..0] == [];
  }

  /** A suffix after a non-empty name is removed exactly once. */
  lemma {:induction false} StripSuffixOnce(name: seq<Byte>, suffix: seq<Byte>)
    requires name != []
    ensures StripSuffix(name + suffix, suffix) == name
  {
    var s := name + suffix;
    assert s[|s| - |suffix|..] == suffix;
  }

  /** `basename` with one operand prints the file name after the last slash. */
  lemma {:induction false} BasenameOfName(p: seq<Byte>, name: seq<Byte>)
    requires Slash !in name && name != [] && name != [Dot] && name != [Dot, Dot]
    ensures BasenameMain([p + [Slash] + name]) == Outcome(Success, name + [Newline])
  {
    FileNameLast(p, name);
    assert StripSuffix(name, []) == name by {
      StripSuffixOnce(name, []);
      assert name + [] == name;
    }
  }

  /** Vector `basic_1`: `foo/bar` gives `bar`. */
  lemma VectorBasic(a: seq<Byte>)
    requires a == Ascii("foo/bar")
    ensures BasenameMain([a]) == Outcome(Success, Ascii("bar\n"))
  {
    var foo, bar := Ascii("foo"), Ascii("bar");
    assert a == foo + [Slash] + bar && Slash !in bar && Ascii("bar\n") == bar + [Newline];
    BasenameOfName(foo, bar);
  }

  /** Vector `null_str`: the empty path gives `.`. */
  lemma VectorNullString()
    ensures BasenameMain([[]]) == Outcome(Success, Ascii(".\n"))
  {
    assert Ascii(".\n") == [Dot, Newline];
  }

  /** Vector `slashes_only`: `///////` gives `/`. */
  lemma VectorSlashesOnly(a: seq<Byte>)
    requires a == Ascii("///////")
    ensures BasenameMain([a]) == Outcome(Success, Ascii("/\n"))
  {
    FileNameOfSlashes(a);
    assert Ascii("/\n") == [Slash, Newline];
  }

  /** Any number of trailing slashes leaves the file name as it was. */
  lemma {:induction false} FileNameTrailingSlashes(p: seq<Byte>, t: seq<Byte>)
    requires forall i :: 0 <= i < |t| ==> t[i] == Slash
    ensures FileName(p + t) == FileName(p)
    decreases |t|
  {
    if t == [] {
      assert p + t == p;
    } else {
      var u := t[..|t| - 1];
      assert t == u + [Slash];
      FileNameTrailingSlashes(p, u);
      FileNameTrailingSlash(p + u);
      assert (p + u) + [Slash] == p + t;
    }
  }

  /** A suffix that differs from the end of `s` at some position is not
      stripped. */
  lemma StripSuffixMismatch(s: seq<Byte>, suffix: seq<Byte>, i: nat)
    requires |suffix| <= |s| && i < |suffix| && s[|s| - |suffix| + i] != suffix[i]
    ensures StripSuffix(s, suffix) == s
  {
    assert s[|s| - |suffix|..][i] != suffix[i];
  }

  /** With a suffix operand, the file name after the last slash is printed
      with the suffix stripped. */
  lemma {:induction false} BasenameWithSuffix(p: seq<Byte>, name: seq<Byte>, t: seq<Byte>, suffix: seq<Byte>)
    requires Slash !in name && name != [] && name != [Dot] && name != [Dot, Dot]
    requires forall i :: 0 <= i < |t| ==> t[i] == Slash
    ensures BasenameMain([p + [Slash] + name + t, suffix]) == Outcome(Success, StripSuffix(name, suffix) + [Newline])
    ensures BasenameMain([p + [Slash] + name + t]) == Outcome(Success, name + [Newline])
    ensures BasenameMain([name, suffix]) == Outcome(Success, StripSuffix(name, suffix) + [Newline])
  {
    FileNameLast(p, name);
    FileNameTrailingSlashes(p + [Slash] + name, t);
    StripSuffixOnce(name, []);
    assert name + [] == name;
  }

  // Each vector first states the facts about its literals, and only then
  // calls the general lemma, so that no literal path is unfolded.

  /** Vector `trailing_slashes`: `a//////` gives `a`. */
  lemma VectorTrailingSlashes(a: seq<Byte>)
    requires a == Ascii("a//////")
    ensures BasenameMain([a]) == Outcome(Success, Ascii("a\n"))
  {
    var x, t := Ascii("a"), Ascii("//////");
    assert a == x + t && x[0] != Dot;
    assert Slash !in x && x != [Dot] && x != [Dot, Dot];
    assert Ascii("a\n") == x + [Newline];
    FileNameTrailingSlashes(x, t);
    BasenameWithSuffix([], x, [], []);
  }

  /** Vector `combined_slashes`: `/////a///b///c///d/////` gives `d`. */
  lemma VectorCombinedSlashes(a: seq<Byte>)
    requires a == Ascii("/////a///b///c///d/////")
    ensures BasenameMain([a]) == Outcome(Success, Ascii("d\n"))
  {
    var p, d, t := Ascii("/////a///b///c//"), Ascii("d"), Ascii("/////");
    assert a == p + [Slash] + d + t && d[0] != Dot;
    assert Slash !in d && d != [Dot] && d != [Dot, Dot];
    assert Ascii("d\n") == d + [Newline];
    BasenameWithSuffix(p, d, t, []);
  }

  /** Vector `standard_suffix`: `a/b/c/d.suffix .suffix` gives `d`. */
  lemma VectorStandardSuffix(a: seq<Byte>, suffix: seq<Byte>)
    requires a == Ascii("a/b/c/d.suffix") && suffix == Ascii(".suffix")
    ensures BasenameMain([a, suffix]) == Outcome(Success, Ascii("d\n"))
  {
    var p, d := Ascii("a/b/c"), Ascii("d");
    var name := d + suffix;
    assert a == p + [Slash] + name + [];
    assert Slash !in name && name != [Dot] && name != [Dot, Dot];
    assert Ascii("d\n") == d + [Newline];
    StripSuffixOnce(d, suffix);
    BasenameWithSuffix(p, name, [], suffix);
  }

  /** Vector `suffix_result`: `.txt .txt` gives `.txt`; a suffix is never the
      whole result. */
  lemma VectorSuffixResult(a: seq<Byte>)
    requires a == Ascii(".txt")
    ensures BasenameMain([a, a]) == Outcome(Success, Ascii(".txt\n"))
  {
    assert Slash !in a && a != [] && a != [Dot] && a != [Dot, Dot];
    assert Ascii(".txt\n") == a + [Newline];
    BasenameWithSuffix([], a, [], a);
  }

  /** Vector `reappearing_suffix_1`: `a.txt.txt .txt` gives `a.txt`. */
  lemma VectorReappearingSuffix(a: seq<Byte>, suffix: seq<Byte>)
    requires a == Ascii("a.txt.txt") && suffix == Ascii(".txt")
    ensures BasenameMain([a, suffix]) == Outcome(Success, Ascii("a.txt\n"))
  {
    var x := Ascii("a.txt");
    assert a == x + suffix;
    assert Slash !in a && a != [Dot] && a != [Dot, Dot];
    assert Ascii("a.txt\n") == x + [Newline];
    StripSuffixOnce(x, suffix);
    BasenameWithSuffix([], a, [], suffix);
  }

  /** Vector `reappearing_suffix_2`: `a.txt.old .txt` is unchanged, since
      `.txt` is not at its end. */
  lemma VectorSuffixInside(a: seq<Byte>, suffix: seq<Byte>)
    requires a == Ascii("a.txt.old") && suffix == Ascii(".txt")
    ensures BasenameMain([a, suffix]) == Outcome(Success, Ascii("a.txt.old\n"))
  {
    assert Slash !in a && a != [] && a != [Dot] && a != [Dot, Dot];
    assert Ascii("a.txt.old\n") == a + [Newline];
    StripSuffixMismatch(a, suffix, 1);
    BasenameWithSuffix([], a, [], suffix);
  }

  /** Vector `invalid_suffix`: `isthisasuffix? suffix` is unchanged. */
  lemma VectorInvalidSuffix(a: seq<Byte>, suffix: seq<Byte>)
    requires a == Ascii("isthisasuffix?") && suffix == Ascii("suffix")
    ensures BasenameMain([a, suffix]) == Outcome(Success, Ascii("isthisasuffix?\n"))
  {
    assert Slash !in a && a != [] && a != [Dot] && a != [Dot, Dot];
    assert Ascii("isthisasuffix?\n") == a + [Newline];
    StripSuffixMismatch(a, suffix, 0);
    BasenameWithSuffix([], a, [], suffix);
  }

  /** Vector `zero_length_suffix`: the test passes the two quote bytes `''`
      as the suffix, which `c` does not end with, so `a/b/c ''` gives `c`. */
  lemma VectorQuotedSuffix(a: seq<Byte>, suffix: seq<Byte>)
    requires a == Ascii("a/b/c") && suffix == Ascii("''")
    ensures BasenameMain([a, suffix]) == Outcome(Success, Ascii("c\n"))
  {
    var p, c := Ascii("a/b"), Ascii("c");
    assert a == p + [Slash] + c + [] && c[0] != Dot;
    assert Slash !in c && c != [Dot] && c != [Dot, Dot];
    assert Ascii("c\n") == c + [Newline];
    assert |suffix| > |c|;
    BasenameWithSuffix(p, c, [], suffix);
  }
}
