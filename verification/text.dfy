/**
  String helpers with the semantics of the Rust `str` methods the source uses:
  `split` with a single-character pattern and `trim_start_matches` with a
  single-character pattern. Prefix tests (`starts_with`, `strip_prefix`) are
  Dafny's sequence prefix operator `<=`.
 */
module Text {

  /** Index of the first occurrence of `c` in `s`. */
  function IndexOf(s: string, c: char): (i: nat)
    requires c in s
    ensures i < |s| && s[i] == c
    ensures c !in s[..i]
  {
    if s[0] == c then 0
    else
      assert s == [s[0]] + s[1..];
      1 + IndexOf(s[1..], c)
  }

  /** The inverse of `Split`: the pieces glued back together with `sep` between them. */
  function JoinPieces(pieces: seq<string>, sep: char): string
    requires |pieces| >= 1
  {
    if |pieces| == 1 then pieces[0]
    else pieces[0] + [sep] + JoinPieces(pieces[1..], sep)
  }

  /** True when no piece contains the separator. */
  predicate SeparatorFree(pieces: seq<string>, sep: char)
  {
    forall i :: 0 <= i < |pieces| ==> sep !in pieces[i]
  }

  /**
    The pieces of `s` between occurrences of `sep`, as Rust's `str::split` with a
    char pattern yields them: always one piece more than there are separators,
    empty pieces included.
   */
  function Split(s: string, sep: char): (pieces: seq<string>)
    ensures |pieces| >= 1
    ensures SeparatorFree(pieces, sep)
    ensures JoinPieces(pieces, sep) == s
    ensures sep !in s ==> pieces == [s]
    decreases |s|
  {
    if sep !in s then [s]
    else
      var i := IndexOf(s, sep);
      assert s == s[..i] + [sep] + s[i+1..];
      [s[..i]] + Split(s[i+1..], sep)
  }

  /** `Split` is the only separator-free decomposition of `s`: it inverts `JoinPieces`. */
  lemma {:induction false} SplitJoin(pieces: seq<string>, sep: char)
    requires |pieces| >= 1
    requires SeparatorFree(pieces, sep)
    ensures Split(JoinPieces(pieces, sep), sep) == pieces
    decreases |pieces|
  {
    var s := JoinPieces(pieces, sep);
    if |pieces| == 1 {
    } else {
      var rest := JoinPieces(pieces[1..], sep);
      assert s == pieces[0] + [sep] + rest;
      assert sep in s by { assert s[|pieces[0]|] == sep; }
      var i := IndexOf(s, sep);
      IndexOfAfterFree(pieces[0], rest, sep);
      assert i == |pieces[0]|;
      assert s[..i] == pieces[0];
      assert s[i+1..] == rest;
      SplitJoin(pieces[1..], sep);
    }
  }

  /** The first `sep` of `a + [sep] + b` sits right after `a` when `a` has none. */
  lemma IndexOfAfterFree(a: string, b: string, sep: char)
    requires sep !in a
    ensures sep in a + [sep] + b
    ensures IndexOf(a + [sep] + b, sep) == |a|
  {
    var s := a + [sep] + b;
    assert s[|a|] == sep;
    assert s[..|a|] == a;
  }

  lemma {:induction false} JoinAppend(xs: seq<string>, ys: seq<string>, sep: char)
    requires |xs| >= 1 && |ys| >= 1
    ensures JoinPieces(xs + ys, sep) == JoinPieces(xs, sep) + [sep] + JoinPieces(ys, sep)
    decreases |xs|
  {
    if |xs| == 1 {
      assert (xs + ys)[1..] == ys;
    } else {
      assert (xs + ys)[1..] == xs[1..] + ys;
      JoinAppend(xs[1..], ys, sep);
    }
  }

  lemma SeparatorFreeAppend(xs: seq<string>, ys: seq<string>, sep: char)
    requires SeparatorFree(xs, sep) && SeparatorFree(ys, sep)
    ensures SeparatorFree(xs + ys, sep)
  {
    forall i | 0 <= i < |xs + ys|
      ensures sep !in (xs + ys)[i]
    {
      if i < |xs| { assert (xs + ys)[i] == xs[i]; } else { assert (xs + ys)[i] == ys[i - |xs|]; }
    }
  }

  /** Splitting at a separator splits the pieces: `split` preserves order across `a` and `b`. */
  lemma SplitAppend(a: string, b: string, sep: char)
    ensures Split(a + [sep] + b, sep) == Split(a, sep) + Split(b, sep)
  {
    var xs, ys := Split(a, sep), Split(b, sep);
    JoinAppend(xs, ys, sep);
    SeparatorFreeAppend(xs, ys, sep);
    SplitJoin(xs + ys, sep);
  }

  /** The first piece of a split is the text before the first separator. */
  lemma SplitFirst(a: string, b: string, sep: char)
    requires sep !in a
    ensures Split(a + [sep] + b, sep)[0] == a
  {
    SplitAppend(a, b, sep);
  }

  /** `s` with every leading `c` removed, as Rust's `str::trim_start_matches(c)`. */
  function TrimStart(s: string, c: char): (r: string)
    ensures |r| <= |s| && r == s[|s| - |r|..]
    ensures forall i :: 0 <= i < |s| - |r| ==> s[i] == c
    ensures r == [] || r[0] != c
  {
    if |s| > 0 && s[0] == c then TrimStart(s[1..], c) else s
  }

  /** The trimmed text is determined by where the run of leading `c` ends. */
  lemma TrimStartAt(s: string, c: char, k: nat)
    requires k <= |s|
    requires forall i :: 0 <= i < k ==> s[i] == c
    requires k == |s| || s[k] != c
    ensures TrimStart(s, c) == s[k..]
  {
  }
}
