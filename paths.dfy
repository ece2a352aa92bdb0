/**
  The two queries the core makes of a path, `Path::file_name` and
  `Path::extension`, on '/'-separated paths as Rust's standard library
  answers them on Unix.

  A path is read as its components: the pieces between '/' characters,
  where empty pieces (a leading root, doubled or trailing slashes) and "."
  pieces are not normal components. The file name is the last component
  when it is a normal one (not ".."). The extension is the text after the
  last '.' of the file name, present only when that dot is not the file
  name's first character; it may be empty ("a." has the extension "").
 */
module Paths {
  import opened Wrappers

  /** The pieces of `s` between '/' characters, as `str::split('/')` yields them. */
  function Split(s: string): (parts: seq<string>)
    ensures |parts| >= 1
    ensures forall i :: 0 <= i < |parts| ==> '/' !in parts[i]
  {
    if |s| == 0 then [""]
    else
      var rest := Split(s[1..]);
      if s[0] == '/' then [""] + rest
      else [[s[0]] + rest[0]] + rest[1..]
  }

  /** A piece that std keeps as a component: not empty and not ".". */
  predicate Significant(piece: string) {
    piece != "" && piece != "."
  }

  /** A normal component: a file or directory name that is neither "." nor "..". */
  predicate IsNormal(name: string) {
    Significant(name) && name != ".." && '/' !in name
  }

  /** The significant pieces, in order. */
  function Keep(pieces: seq<string>): (kept: seq<string>)
    ensures forall i :: 0 <= i < |kept| ==> Significant(kept[i])
    ensures forall i :: 0 <= i < |kept| ==> kept[i] in pieces
  {
    if pieces == [] then []
    else (if Significant(pieces[0]) then [pieces[0]] else []) + Keep(pieces[1..])
  }

  /** The components of a path that can name a file: every piece except "" and ".". */
  function Components(path: string): (cs: seq<string>)
    ensures forall i :: 0 <= i < |cs| ==> Significant(cs[i]) && '/' !in cs[i]
  {
    Keep(Split(path))
  }

  /** `Path::file_name`: the last component, when it is a normal one. */
  function FileName(path: string): (name: Option<string>)
    ensures name.Some? ==> IsNormal(name.value)
  {
    var cs := Components(path);
    if |cs| == 0 || cs[|cs| - 1] == ".." then None else Some(cs[|cs| - 1])
  }

  /** The index of the last '.' in `s`. */
  function LastDot(s: string): (i: Option<nat>)
    ensures i.Some? ==> i.value < |s| && s[i.value] == '.' && '.' !in s[i.value + 1..]
    ensures i.None? ==> '.' !in s
  {
    if |s| == 0 then None
    else if s[|s| - 1] == '.' then Some(|s| - 1)
    else
      var i := LastDot(s[..|s| - 1]);
      assert s == s[..|s| - 1] + [s[|s| - 1]];
      i
  }

  /** The extension part of a file name (std's `rsplit_file_at_dot`). */
  function SplitExtension(name: string): (ext: Option<string>)
    ensures ext.Some? ==> '.' !in ext.value
  {
    match LastDot(name)
    case None => None
    case Some(i) => if i == 0 then None else Some(name[i + 1..])
  }

  /** `Path::extension`: the extension of the path's file name. */
  function Extension(path: string): (ext: Option<string>)
    ensures ext.Some? ==> FileName(path).Some? && '.' !in ext.value
  {
    match FileName(path)
    case None => None
    case Some(name) => SplitExtension(name)
  }

  // ---- properties ----

  lemma {:induction false} SplitNoSlash(s: string)
    requires '/' !in s
    ensures Split(s) == [s]
  {
    if |s| > 0 {
      SplitNoSlash(s[1..]);
      assert [s[0]] + s[1..] == s;
    }
  }

  lemma {:induction false} SplitAtSlash(a: string, b: string)
    ensures Split(a + "/" + b) == Split(a) + Split(b)
  {
    if |a| == 0 {
      assert a + "/" + b == "/" + b;
      assert ("/" + b)[1..] == b;
    } else {
      assert (a + "/" + b)[1..] == a[1..] + "/" + b;
      SplitAtSlash(a[1..], b);
    }
  }

  lemma {:induction false} KeepAppend(x: seq<string>, y: seq<string>)
    ensures Keep(x + y) == Keep(x) + Keep(y)
  {
    if x == [] {
      assert x + y == y;
    } else {
      assert (x + y)[1..] == x[1..] + y;
      KeepAppend(x[1..], y);
    }
  }

  /** A normal name on its own is its own file name. */
  lemma FileNameOfName(name: string)
    requires IsNormal(name)
    ensures FileName(name) == Some(name)
  {
    SplitNoSlash(name);
    assert Keep([name]) == [name] + Keep([]);
  }

  /** Joining a normal name onto any directory makes it the file name. */
  lemma FileNameOfJoin(dir: string, name: string)
    requires IsNormal(name)
    ensures FileName(dir + "/" + name) == Some(name)
  {
    SplitAtSlash(dir, name);
    SplitNoSlash(name);
    KeepAppend(Split(dir), [name]);
    assert Keep([name]) == [name] + Keep([]);
  }

  /** A path ending in ".." has no file name, whatever precedes it. */
  lemma FileNameOfParent(dir: string)
    ensures FileName(dir + "/..") == None
  {
    assert dir + "/.." == dir + "/" + "..";
    SplitAtSlash(dir, "..");
    SplitNoSlash("..");
    KeepAppend(Split(dir), [".."]);
    assert Keep([".."]) == [".."] + Keep([]);
  }

  /** A slash after the last component does not change the file name. */
  lemma FileNameTrailingSlash(path: string)
    ensures FileName(path + "/") == FileName(path)
  {
    assert path + "/" + "" == path + "/";
    SplitAtSlash(path, "");
    assert Split("") == [""];
    KeepAppend(Split(path), [""]);
    assert Keep([""]) == [];
    assert Components(path + "/") == Keep(Split(path)) + [];
    assert Components(path + "/") == Components(path);
  }

  /** The last dot is found wherever it is. */
  lemma {:induction false} LastDotAt(s: string, i: nat)
    requires i < |s| && s[i] == '.' && '.' !in s[i + 1..]
    ensures LastDot(s) == Some(i)
  {
    if i < |s| - 1 {
      assert s[|s| - 1] == s[i + 1..][|s| - 2 - i];
      var t := s[..|s| - 1];
      assert t[i + 1..] == s[i + 1..][..|s| - 2 - i];
      LastDotAt(t, i);
    }
  }

  /** The extension is exactly the text after the last dot, when that dot is not first. */
  lemma SplitExtensionOf(stem: string, ext: string)
    requires stem != "" && '.' !in ext
    ensures SplitExtension(stem + "." + ext) == Some(ext)
  {
    var name := stem + "." + ext;
    assert name[|stem|] == '.' && name[|stem| + 1..] == ext;
    LastDotAt(name, |stem|);
  }

  /** A name without a dot, or whose only dot is its first character, has no extension. */
  lemma NoExtension(name: string)
    requires '.' !in name || (|name| > 0 && name[0] == '.' && '.' !in name[1..])
    ensures SplitExtension(name) == None
  {
    if '.' in name {
      LastDotAt(name, 0);
    }
  }
}
