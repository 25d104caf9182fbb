/**
  The parts of Rust's `std::path::Path` that the server relies on, for
  Unix-style paths held as strings: `join`, `file_name` and `extension`.
 */
module Paths {
  import opened Wrappers
  import opened Text

  /** `Path::join`: an absolute `rel` replaces `base`; otherwise a `/` is inserted unless `base` is empty or already ends in one. */
  function Join(base: string, rel: string): (p: string)
    ensures |rel| > 0 && rel[0] == '/' ==> p == rel
    ensures (|rel| == 0 || rel[0] != '/') ==> base <= p && |rel| <= |p| && p[|p| - |rel|..] == rel
    ensures (|rel| == 0 || rel[0] != '/') ==> p == base + rel || p == base + "/" + rel
    ensures (|rel| == 0 || rel[0] != '/') ==> (p == base + rel <==> |base| == 0 || base[|base| - 1] == '/')
  {
    if |rel| > 0 && rel[0] == '/' then rel
    else if |base| > 0 && base[|base| - 1] != '/' then base + "/" + rel
    else base + rel
  }

  /** The normal and `..` components of a path: empty pieces (a leading, repeated or trailing `/`) and `.` pieces are dropped. */
  function NormalPieces(pieces: seq<string>): (r: seq<string>)
    ensures forall i :: 0 <= i < |r| ==> r[i] != "" && r[i] != "." && r[i] in pieces
  {
    if |pieces| == 0 then []
    else
      var rest := NormalPieces(pieces[1..]);
      if pieces[0] == "" || pieces[0] == "." then rest else [pieces[0]] + rest
  }

  lemma {:induction false} NormalPiecesAppend(xs: seq<string>, ys: seq<string>)
    ensures NormalPieces(xs + ys) == NormalPieces(xs) + NormalPieces(ys)
    decreases |xs|
  {
    if |xs| == 0 {
      assert xs + ys == ys;
    } else {
      assert (xs + ys)[1..] == xs[1..] + ys;
      NormalPiecesAppend(xs[1..], ys);
    }
  }

  /**
    The index of the last piece that is neither empty nor `.`, or -1 when
    there is none: every piece after it is one that `Path::components` skips.
   */
  function LastNormalIndex(pieces: seq<string>): (i: int)
    ensures -1 <= i < |pieces|
    ensures i >= 0 ==> pieces[i] != "" && pieces[i] != "."
    ensures forall j :: i < j < |pieces| ==> pieces[j] == "" || pieces[j] == "."
    decreases |pieces|
  {
    if |pieces| == 0 then -1
    else if pieces[|pieces| - 1] == "" || pieces[|pieces| - 1] == "." then LastNormalIndex(pieces[..|pieces| - 1])
    else |pieces| - 1
  }

  /** The last normal component is the piece at `LastNormalIndex`, and there is none exactly when that index is -1. */
  lemma {:induction false} NormalPiecesLast(pieces: seq<string>)
    ensures var i := LastNormalIndex(pieces);
            var r := NormalPieces(pieces);
            && (|r| == 0 <==> i < 0)
            && (i >= 0 ==> r[|r| - 1] == pieces[i])
    decreases |pieces|
  {
    if |pieces| > 0 {
      var n := |pieces|;
      var init := pieces[..n - 1];
      assert pieces == init + [pieces[n - 1]];
      NormalPiecesAppend(init, [pieces[n - 1]]);
      NormalPiecesLast(init);
    }
  }

  /** `Path::file_name`: the last normal component, none when the path ends in `..` or has no component. */
  function FileName(path: string): (r: Option<string>)
    ensures r.Some? ==> r.value != "" && r.value != "." && r.value != ".." && '/' !in r.value
  {
    var pieces := NormalPieces(Split(path, '/'));
    if |pieces| == 0 || pieces[|pieces| - 1] == ".." then None
    else Some(pieces[|pieces| - 1])
  }

  /**
    The file name is the last `/`-separated piece that is neither empty nor
    `.`, so trailing `/` and `.` components are skipped; there is none when
    no such piece exists (the empty path, the root) or when it is `..`.
   */
  lemma FileNameIsLastComponent(path: string)
    ensures var pieces := Split(path, '/');
            var i := LastNormalIndex(pieces);
            FileName(path) == if i < 0 || pieces[i] == ".." then None else Some(pieces[i])
  {
    NormalPiecesLast(Split(path, '/'));
  }

  /** Index of the last occurrence of `c` in `s`. */
  function LastIndexOf(s: string, c: char): (i: nat)
    requires c in s
    ensures i < |s| && s[i] == c
    ensures c !in s[i+1..]
  {
    if s[|s| - 1] == c then |s| - 1
    else
      assert s == s[..|s| - 1] + [s[|s| - 1]];
      LastIndexOf(s[..|s| - 1], c)
  }

  /**
    The extension of a file name as `Path::extension` computes it: the text
    after the last `.`, provided that dot is not the first character.
   */
  function NameExtension(name: string): (r: Option<string>)
    ensures r.Some? ==>
              && '.' !in r.value && |r.value| + 1 < |name|
              && name[|name| - |r.value| - 1] == '.' && name[|name| - |r.value|..] == r.value
    ensures r.None? <==> name == ".." || forall i :: 0 < i < |name| ==> name[i] != '.'
  {
    if name == ".." || '.' !in name then None
    else
      var i := LastIndexOf(name, '.');
      if i == 0 then None else Some(name[i+1..])
  }

  /** `Path::extension`: the extension of the file name, if there is one. */
  function Extension(path: string): Option<string>
  {
    match FileName(path)
    case None => None
    case Some(name) => NameExtension(name)
  }

  /** The final component of `dir/name` is `name`, whatever `dir` holds. */
  lemma FileNameOfChild(dir: string, name: string)
    requires '/' !in name && name != "" && name != "." && name != ".."
    ensures FileName(dir + "/" + name) == Some(name)
  {
    SplitAppend(dir, name, '/');
    assert dir + "/" + name == dir + ['/'] + name;
    NormalPiecesAppend(Split(dir, '/'), [name]);
    assert NormalPieces([name]) == [name];
  }

  /** The extension of `dir/name` depends on `name` alone. */
  lemma ExtensionOfChild(dir: string, name: string)
    requires '/' !in name && name != "" && name != "." && name != ".."
    ensures Extension(dir + "/" + name) == NameExtension(name)
  {
    FileNameOfChild(dir, name);
  }
}
