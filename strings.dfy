/**
 * The string operations main.js relies on: `String.prototype.split` with a
 * one-character separator, its inverse `Array.prototype.join`, and the
 * `split('/').pop()` idiom used to find the page name of a URL path.
 *
 * The split scans one fixed string from a position onwards, the way the
 * JavaScript engine does, so every piece is a slice `s[from..k]` of the
 * original string.
 */
module Strings {

  /** `w` holds no occurrence of `c`. */
  predicate Free(w: string, c: char) {
    forall i :: 0 <= i < |w| ==> w[i] != c
  }

  /** No character of `s` at a position in `[from, to)` is `c`. */
  predicate FreeBetween(s: string, c: char, from: nat, to: nat)
    requires from <= to <= |s|
  {
    forall i :: from <= i < to ==> s[i] != c
  }

  /** A slice is free of `c` exactly when those positions of the string are. */
  lemma FreeSlice(s: string, c: char, from: nat, to: nat)
    requires from <= to <= |s|
    ensures Free(s[from..to], c) <==> FreeBetween(s, c, from, to)
  {
    var w := s[from..to];
    if Free(w, c) {
      forall i | from <= i < to ensures s[i] != c {
        assert w[i - from] == s[i];
      }
    }
    if FreeBetween(s, c, from, to) {
      forall i | 0 <= i < |w| ensures w[i] != c {
        assert w[i] == s[from + i];
      }
    }
  }

  /** Index of the first occurrence of `c` in `s` at or after `from`, or `|s|` when there is none. */
  function IndexFrom(s: string, c: char, from: nat): (k: nat)
    requires from <= |s|
    ensures from <= k <= |s|
    ensures FreeBetween(s, c, from, k)
    ensures k < |s| ==> s[k] == c
    decreases |s| - from
  {
    if from == |s| || s[from] == c then from else IndexFrom(s, c, from + 1)
  }

  /** A run free of `c` from `from`, ended by `c` or the end of `s`, is what `IndexFrom` finds. */
  lemma IndexFromIs(s: string, c: char, from: nat, j: nat)
    requires from <= j <= |s| && FreeBetween(s, c, from, j) && (j == |s| || s[j] == c)
    ensures IndexFrom(s, c, from) == j
  {
  }

  /** The pieces of `s[from..]` between consecutive separators, left to right. */
  function SplitFrom(s: string, sep: char, from: nat): (pieces: seq<string>)
    requires from <= |s|
    ensures |pieces| >= 1
    decreases |s| - from
  {
    var k := IndexFrom(s, sep, from);
    if k == |s| then [s[from..]] else [s[from..k]] + SplitFrom(s, sep, k + 1)
  }

  /**
   * `s.split(sep)` for a one-character separator. As in JavaScript, the
   * empty string splits into one empty piece and a trailing separator
   * yields a trailing empty piece.
   */
  function Split(s: string, sep: char): (pieces: seq<string>)
    ensures |pieces| >= 1
  {
    SplitFrom(s, sep, 0)
  }

  /** One unfolding of `SplitFrom`: the piece up to the next separator, then the split after it. */
  lemma SplitFromStep(s: string, sep: char, from: nat)
    requires from <= |s|
    ensures IndexFrom(s, sep, from) == |s| ==> SplitFrom(s, sep, from) == [s[from..]]
    ensures IndexFrom(s, sep, from) < |s| ==>
      SplitFrom(s, sep, from) ==
        [s[from..IndexFrom(s, sep, from)]] + SplitFrom(s, sep, IndexFrom(s, sep, from) + 1)
  {
  }

  /** `xs.pop()` read as a value: the last element. */
  function Last<T>(xs: seq<T>): T
    requires |xs| >= 1
  {
    xs[|xs| - 1]
  }

  lemma LastOfCons<T>(x: T, rest: seq<T>)
    requires |rest| >= 1
    ensures Last([x] + rest) == Last(rest)
  {
  }

  /** Membership in the tail carries over to the whole sequence. */
  lemma InTail<T>(x: T, rest: seq<T>, w: T)
    requires w in rest
    ensures w in [x] + rest
  {
    var m :| 0 <= m < |rest| && rest[m] == w;
    assert ([x] + rest)[m + 1] == w;
  }

  /** Membership in `[x] + rest` is being `x` or being in `rest`. */
  lemma InTailOrHead<T>(x: T, rest: seq<T>, w: T)
    requires w in [x] + rest && w != x
    ensures w in rest
  {
    var m :| 0 <= m < |rest| + 1 && ([x] + rest)[m] == w;
    assert rest[m - 1] == w;
  }

  ghost predicate NoSeparator(pieces: seq<string>, sep: char) {
    forall i :: 0 <= i < |pieces| ==> Free(pieces[i], sep)
  }

  lemma {:induction false} SplitFromPiecesFree(s: string, sep: char, from: nat)
    requires from <= |s|
    ensures NoSeparator(SplitFrom(s, sep, from), sep)
    decreases |s| - from
  {
    var k := IndexFrom(s, sep, from);
    SplitFromStep(s, sep, from);
    FreeSlice(s, sep, from, k);
    if k < |s| {
      var rest := SplitFrom(s, sep, k + 1);
      SplitFromPiecesFree(s, sep, k + 1);
      forall i | 0 <= i < |rest| + 1 ensures Free(([s[from..k]] + rest)[i], sep) {
        if i > 0 { assert ([s[from..k]] + rest)[i] == rest[i - 1]; }
      }
    } else {
      assert s[from..] == s[from..k];
    }
  }

  /** No piece of a split contains the separator. */
  lemma SplitPiecesFree(s: string, sep: char)
    ensures NoSeparator(Split(s, sep), sep)
  {
    SplitFromPiecesFree(s, sep, 0);
  }

  /** `pieces.join(sep)`. */
  function Join(pieces: seq<string>, sep: char): string
    requires |pieces| >= 1
  {
    if |pieces| == 1 then pieces[0] else pieces[0] + [sep] + Join(pieces[1..], sep)
  }

  /** Joining a piece in front of at least one more piece puts a separator between them. */
  lemma JoinCons(p: string, rest: seq<string>, sep: char)
    requires |rest| >= 1
    ensures Join([p] + rest, sep) == p + [sep] + Join(rest, sep)
  {
    assert ([p] + rest)[1..] == rest;
  }

  /** A suffix is its part before index `k`, the character at `k`, and the part after. */
  lemma Reassemble(s: string, from: nat, k: nat)
    requires from <= k < |s|
    ensures s[from..k] + [s[k]] + s[k + 1..] == s[from..]
  {
  }

  /** The piece before a separator at `k`, joined to pieces that spell the rest, spells the suffix from `from`. */
  lemma JoinPieceThenRest(s: string, sep: char, from: nat, k: nat, rest: seq<string>)
    requires from <= k < |s| && s[k] == sep && |rest| >= 1 && Join(rest, sep) == s[k + 1..]
    ensures Join([s[from..k]] + rest, sep) == s[from..]
  {
    JoinCons(s[from..k], rest, sep);
    Reassemble(s, from, k);
  }

  lemma {:induction false} JoinSplitFrom(s: string, sep: char, from: nat)
    requires from <= |s|
    ensures Join(SplitFrom(s, sep, from), sep) == s[from..]
    decreases |s| - from
  {
    var k := IndexFrom(s, sep, from);
    SplitFromStep(s, sep, from);
    if k < |s| {
      JoinSplitFrom(s, sep, k + 1);
      JoinPieceThenRest(s, sep, from, k, SplitFrom(s, sep, k + 1));
    }
  }

  /** Joining the pieces of a split gives back the original string. */
  lemma JoinSplit(s: string, sep: char)
    ensures Join(Split(s, sep), sep) == s
  {
    JoinSplitFrom(s, sep, 0);
    assert s[0..] == s;
  }

  /** A suffix that reads `a`, then `c`, then `b` has those three parts at the matching positions. */
  lemma ConcatSlices(s: string, from: nat, a: string, c: char, b: string)
    requires from <= |s| && s[from..] == a + [c] + b
    ensures from + |a| < |s| && s[from + |a|] == c
    ensures s[from..from + |a|] == a && s[from + |a| + 1..] == b
  {
    var j := from + |a|;
    var t := s[from..];
    assert t[|a|] == c;
    forall i | 0 <= i < |a| ensures s[from..j][i] == a[i] {
      assert t[i] == a[i];
    }
    forall i | 0 <= i < |b| ensures s[j + 1..][i] == b[i] {
      assert t[|a| + 1 + i] == b[i];
    }
  }

  /** In a suffix reading `p`, a separator, then `b`, with `p` free of it, the next separator follows `p`. */
  lemma SeparatorAfter(s: string, sep: char, from: nat, p: string, b: string)
    requires from <= |s| && s[from..] == p + [sep] + b && Free(p, sep)
    ensures from + |p| < |s| && IndexFrom(s, sep, from) == from + |p|
    ensures s[from..from + |p|] == p && s[from + |p| + 1..] == b
  {
    ConcatSlices(s, from, p, sep, b);
    FreeSlice(s, sep, from, from + |p|);
    IndexFromIs(s, sep, from, from + |p|);
  }

  /** A suffix free of the separator is the whole of its split. */
  lemma SplitFromWhole(s: string, sep: char, from: nat)
    requires from <= |s| && Free(s[from..], sep)
    ensures SplitFrom(s, sep, from) == [s[from..]]
  {
    assert s[from..|s|] == s[from..];
    FreeSlice(s, sep, from, |s|);
    IndexFromIs(s, sep, from, |s|);
    SplitFromStep(s, sep, from);
  }

  /** The pieces after the first, all free of the separator. */
  lemma NoSeparatorTail(pieces: seq<string>, sep: char)
    requires |pieces| >= 1 && NoSeparator(pieces, sep)
    ensures NoSeparator(pieces[1..], sep)
  {
    forall i | 0 <= i < |pieces| - 1 ensures Free(pieces[1..][i], sep) {
      assert pieces[1..][i] == pieces[i + 1];
    }
  }

  /** A non-empty sequence is its head followed by its tail. */
  lemma HeadTail<T>(xs: seq<T>)
    requires |xs| >= 1
    ensures xs == [xs[0]] + xs[1..]
  {
  }

  /** A first piece `p` up to the next separator, followed by the split `rest` after it. */
  lemma SplitFromCons(s: string, sep: char, from: nat, p: string, rest: seq<string>)
    requires from + |p| < |s| && IndexFrom(s, sep, from) == from + |p| && s[from..from + |p|] == p
    requires SplitFrom(s, sep, from + |p| + 1) == rest
    ensures SplitFrom(s, sep, from) == [p] + rest
  {
    SplitFromStep(s, sep, from);
  }

  lemma {:induction false} SplitFromJoin(s: string, sep: char, from: nat, pieces: seq<string>)
    requires from <= |s| && |pieces| >= 1 && NoSeparator(pieces, sep)
    requires s[from..] == Join(pieces, sep)
    ensures SplitFrom(s, sep, from) == pieces
    decreases |pieces|
  {
    assert Free(pieces[0], sep);
    if |pieces| == 1 {
      SplitFromWhole(s, sep, from);
    } else {
      NoSeparatorTail(pieces, sep);
      SeparatorAfter(s, sep, from, pieces[0], Join(pieces[1..], sep));
      SplitFromJoin(s, sep, from + |pieces[0]| + 1, pieces[1..]);
      SplitFromCons(s, sep, from, pieces[0], pieces[1..]);
      HeadTail(pieces);
    }
  }

  /** Splitting a join of separator-free pieces gives back the pieces. */
  lemma SplitJoin(pieces: seq<string>, sep: char)
    requires |pieces| >= 1
    requires NoSeparator(pieces, sep)
    ensures Split(Join(pieces, sep), sep) == pieces
  {
    var s := Join(pieces, sep);
    assert s[0..] == s;
    SplitFromJoin(s, sep, 0, pieces);
  }

  /**
   * `last` is the final segment of `s`: a separator-free suffix that is
   * either all of `s` or preceded by a separator.
   */
  ghost predicate FinalSegment(last: string, s: string, sep: char) {
    |last| <= |s| && last == s[|s| - |last|..] && Free(last, sep) &&
    (|last| == |s| || s[|s| - |last| - 1] == sep)
  }

  lemma {:induction false} LastPieceFrom(s: string, sep: char, from: nat)
    requires from <= |s| && (from == 0 || s[from - 1] == sep)
    ensures FinalSegment(Last(SplitFrom(s, sep, from)), s, sep)
    decreases |s| - from
  {
    var k := IndexFrom(s, sep, from);
    SplitFromStep(s, sep, from);
    if k == |s| {
      assert s[from..|s|] == s[from..];
      FreeSlice(s, sep, from, |s|);
    } else {
      LastPieceFrom(s, sep, k + 1);
      LastOfCons(s[from..k], SplitFrom(s, sep, k + 1));
    }
  }

  /** The last piece of a split is the final segment of the string. */
  lemma LastPiece(s: string, sep: char)
    ensures FinalSegment(Last(Split(s, sep)), s, sep)
  {
    LastPieceFrom(s, sep, 0);
  }

  /** A piece is in the split exactly when it occurs in `s` delimited by separators or the ends. */
  ghost predicate Delimited(w: string, s: string, sep: char) {
    exists i, j :: DelimitedAt(w, s, sep, i, j)
  }

  /** `w` occurs in `s` as `s[i..j]`, free of separators, with a separator or an end on each side. */
  ghost predicate DelimitedAt(w: string, s: string, sep: char, i: int, j: int) {
    0 <= i <= j <= |s| && s[i..j] == w && Free(w, sep) &&
    (i == 0 || s[i - 1] == sep) && (j == |s| || s[j] == sep)
  }

  lemma {:induction false} SplitFromPieceIsDelimited(s: string, sep: char, from: nat, w: string)
    requires from <= |s| && (from == 0 || s[from - 1] == sep)
    requires w in SplitFrom(s, sep, from)
    ensures Delimited(w, s, sep)
    decreases |s| - from
  {
    var k := IndexFrom(s, sep, from);
    SplitFromStep(s, sep, from);
    if w == s[from..k] {
      FreeSlice(s, sep, from, k);
      assert DelimitedAt(w, s, sep, from, k);
    } else if k < |s| {
      InTailOrHead(s[from..k], SplitFrom(s, sep, k + 1), w);
      SplitFromPieceIsDelimited(s, sep, k + 1, w);
    }
  }

  /** Every piece of a split occurs in the string delimited by separators or the ends. */
  lemma SplitPieceIsDelimited(s: string, sep: char, w: string)
    requires w in Split(s, sep)
    ensures Delimited(w, s, sep)
  {
    SplitFromPieceIsDelimited(s, sep, 0, w);
  }

  /** An occurrence delimited from position `from` onwards is the first piece of the split from there. */
  lemma FirstPieceIs(s: string, sep: char, from: nat, w: string, j: nat)
    requires DelimitedAt(w, s, sep, from, j)
    ensures SplitFrom(s, sep, from)[0] == w
  {
    FreeSlice(s, sep, from, j);
    IndexFromIs(s, sep, from, j);
    SplitFromStep(s, sep, from);
    if j == |s| {
      assert s[from..] == s[from..j];
    }
  }

  lemma {:induction false} DelimitedIsSplitFromPiece(s: string, sep: char, from: nat, w: string, i: nat, j: nat)
    requires DelimitedAt(w, s, sep, i, j) && from <= i && (from == 0 || s[from - 1] == sep)
    ensures w in SplitFrom(s, sep, from)
    decreases |s| - from
  {
    if i == from {
      FirstPieceIs(s, sep, from, w, j);
    } else {
      var k := IndexFrom(s, sep, from);
      assert k < i;
      DelimitedIsSplitFromPiece(s, sep, k + 1, w, i, j);
      SplitFromStep(s, sep, from);
      InTail(s[from..k], SplitFrom(s, sep, k + 1), w);
    }
  }

  /** Every occurrence delimited by separators or the ends is a piece of the split. */
  lemma DelimitedIsSplitPiece(s: string, sep: char, w: string)
    requires Delimited(w, s, sep)
    ensures w in Split(s, sep)
  {
    var i, j :| DelimitedAt(w, s, sep, i, j);
    DelimitedIsSplitFromPiece(s, sep, 0, w, i, j);
  }

  /**
   * `path.split('/').pop()`: the final `/`-separated segment of a URL path,
   * the longest suffix free of `/`. It is empty exactly when the path is
   * empty or ends in `/`.
   */
  function LastSegment(path: string): (seg: string)
    ensures Free(seg, '/')
    ensures |seg| <= |path| && seg == path[|path| - |seg|..]
    ensures |seg| == |path| || path[|path| - |seg| - 1] == '/'
    ensures seg == "" <==> |path| == 0 || path[|path| - 1] == '/'
  {
    LastPiece(path, '/');
    var seg := Last(Split(path, '/'));
    assert FinalSegment(seg, path, '/');
    assert |seg| > 0 ==> path[|path| - 1] == seg[|seg| - 1];
    seg
  }

  /** `name` is the final `/`-separated segment of `path`: a suffix, whole or preceded by `/`. */
  ghost predicate EndsWithSegment(path: string, name: string) {
    |name| <= |path| && path[|path| - |name|..] == name &&
    (|name| == |path| || path[|path| - |name| - 1] == '/')
  }

  /** For a name without `/`, the last segment is that name exactly when the path ends with it as a segment. */
  lemma LastSegmentIs(path: string, name: string)
    requires Free(name, '/')
    ensures LastSegment(path) == name <==> EndsWithSegment(path, name)
  {
    var seg := LastSegment(path);
  }
}
