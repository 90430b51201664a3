/**
 * Replacement on sequences: the leftmost non-overlapping one that `String::replace` stands for, the
 * right-to-left one its growing branch computes, and exactly when the two agree.
 */
module Replacing {
  import opened Bytes
  import opened Sequences

  predicate OccursAt(s: seq<byte>, f: seq<byte>, i: int) {
    0 <= i <= |s| - |f| && s[i..i + |f|] == f
  }

  /** The first occurrence at or after `i`, or -1. */
  function FirstFrom(s: seq<byte>, f: seq<byte>, i: nat): (r: int)
    ensures r == -1 || (i <= r && OccursAt(s, f, r))
    ensures forall j | i <= j && (r < 0 || j < r) :: !OccursAt(s, f, j)
    decreases |s| - i
  {
    if i + |f| > |s| then -1 else if OccursAt(s, f, i) then i else FirstFrom(s, f, i + 1)
  }

  /** The last occurrence at or before `i`, or -1. */
  function LastUpTo(s: seq<byte>, f: seq<byte>, i: int): (r: int)
    ensures r == -1 || (r <= i && OccursAt(s, f, r))
    ensures forall j | r < j <= i :: !OccursAt(s, f, j)
    decreases i + 1
  {
    if i < 0 then -1 else if OccursAt(s, f, i) then i else LastUpTo(s, f, i - 1)
  }

  /** Leftmost non-overlapping replacement. */
  function ReplaceAll(s: seq<byte>, f: seq<byte>, r: seq<byte>): seq<byte>
    requires f != []
    decreases |s|
  {
    var i := FirstFrom(s, f, 0);
    if i < 0 then s else s[..i] + r + ReplaceAll(s[i + |f|..], f, r)
  }

  /** One replacement at a known occurrence. */
  function ReplaceAt(s: seq<byte>, f: seq<byte>, r: seq<byte>, i: int): seq<byte>
    requires 0 <= i <= |s| - |f|
  {
    s[..i] + r + s[i + |f|..]
  }

  /** Right-to-left replacement in place: the last occurrence that starts at or before `i`, then on from before it. */
  function ReplaceBack(s: seq<byte>, f: seq<byte>, r: seq<byte>, i: int): seq<byte>
    decreases i + 1
  {
    var p := LastUpTo(s, f, i);
    if p < 0 then s else ReplaceBack(ReplaceAt(s, f, r, p), f, r, p - 1)
  }

  /**
   * `f` has no border, and no proper suffix of `f` is a prefix of `r`: a caller can check both
   * without looking at the string that is searched.
   */
  predicate Separable(f: seq<byte>, r: seq<byte>) {
    Unbordered(f) && Detached(f, r)
  }

  /** No proper suffix of `f` but the empty one is a prefix of `r`. */
  predicate Detached(f: seq<byte>, r: seq<byte>) {
    forall k | 0 < k < |f| && k <= |r| :: f[|f| - k..] != r[..k]
  }

  predicate Unbordered(f: seq<byte>) {
    forall k | 0 < k < |f| :: !Border(f, k)
  }

  predicate Border(f: seq<byte>, k: int)
    requires 0 < k < |f|
  {
    f[|f| - k..] == f[..k]
  }

  // ----- what leftmost replacement is, in terms of the pieces it keeps -----

  function Join(pieces: seq<seq<byte>>, between: seq<byte>): seq<byte>
    requires pieces != []
    decreases |pieces|
  {
    if |pieces| == 1 then pieces[0] else pieces[0] + between + Join(pieces[1..], between)
  }

  /** With `f` behind it, no piece holds an occurrence that starts earlier; the last one holds none at all. */
  ghost predicate LeftmostPieces(pieces: seq<seq<byte>>, f: seq<byte>) {
    && pieces != []
    && (forall i, j | 0 <= i < |pieces| - 1 && 0 <= j < |pieces[i]| :: !OccursAt(pieces[i] + f, f, j))
    && Absent(pieces[|pieces| - 1], f)
  }

  ghost predicate Absent(s: seq<byte>, f: seq<byte>) {
    forall j | 0 <= j :: !OccursAt(s, f, j)
  }

  /** Every text has such pieces with `f` in between; replacement puts `r` in between. */
  lemma {:induction false} PiecesOf(s: seq<byte>, f: seq<byte>, r: seq<byte>) returns (pieces: seq<seq<byte>>)
    requires f != []
    ensures LeftmostPieces(pieces, f) && s == Join(pieces, f) && ReplaceAll(s, f, r) == Join(pieces, r)
    decreases |s|
  {
    var i := FirstFrom(s, f, 0);
    if i < 0 {
      pieces := [s];
    } else {
      FirstPiece(s, f, i);
      var more := PiecesOf(s[i + |f|..], f, r);
      pieces := [s[..i]] + more;
      assert pieces[1..] == more;
      OnePieceMore(s[..i], more, f);
    }
  }

  lemma OnePieceMore(head: seq<byte>, more: seq<seq<byte>>, f: seq<byte>)
    requires more != []
    ensures LeftmostPieces([head] + more, f)
       <==> LeftmostPieces(more, f) && forall j | 0 <= j < |head| :: !OccursAt(head + f, f, j)
  {
    var pieces := [head] + more;
    assert forall i | 0 <= i < |more| :: pieces[i + 1] == more[i];
    if LeftmostPieces(pieces, f) {
      forall i, j | 0 <= i < |more| - 1 && 0 <= j < |more[i]| ensures !OccursAt(more[i] + f, f, j) {
        assert !OccursAt(pieces[i + 1] + f, f, j);
      }
      forall j | 0 <= j < |head| ensures !OccursAt(head + f, f, j) {
        assert !OccursAt(pieces[0] + f, f, j);
      }
    }
  }

  lemma FirstPiece(s: seq<byte>, f: seq<byte>, i: nat)
    requires FirstFrom(s, f, 0) == i
    ensures i + |f| <= |s| && s == s[..i] + f + s[i + |f|..]
    ensures forall j | 0 <= j < i :: !OccursAt(s[..i] + f, f, j)
  {
    assert s[..i] + f == s[..i + |f|];
    forall j | 0 <= j < i ensures !OccursAt(s[..i] + f, f, j) { OccursInPrefix(s, f, i + |f|, j); }
  }

  /** And any such pieces of a text give its replacement. */
  lemma {:induction false} PiecesReplaced(pieces: seq<seq<byte>>, f: seq<byte>, r: seq<byte>)
    requires f != [] && LeftmostPieces(pieces, f)
    ensures ReplaceAll(Join(pieces, f), f, r) == Join(pieces, r)
    decreases |pieces|
  {
    var s := Join(pieces, f);
    if |pieces| == 1 {
      NoneToReplace(s, f, r);
    } else {
      var head, rest := pieces[0], Join(pieces[1..], f);
      assert s == head + f + rest;
      assert pieces == [head] + pieces[1..];
      OnePieceMore(head, pieces[1..], f);
      FirstAtPiece(head, f, rest);
      PiecesReplaced(pieces[1..], f, r);
      ReplaceUnfolds(s, f, r, |head|, head, rest);
    }
  }

  lemma FirstAtPiece(head: seq<byte>, f: seq<byte>, rest: seq<byte>)
    requires forall j | 0 <= j < |head| :: !OccursAt(head + f, f, j)
    ensures FirstFrom(head + f + rest, f, 0) == |head|
    ensures (head + f + rest)[..|head|] == head && (head + f + rest)[|head| + |f|..] == rest
  {
    var s := head + f + rest;
    assert s[|head|..|head| + |f|] == f;
    assert s[..|head| + |f|] == head + f;
    forall j | 0 <= j < |head| ensures !OccursAt(s, f, j) { OccursInPrefix(s, f, |head| + |f|, j); }
    FirstIs(s, f, |head|);
  }

  // ----- occurrences in parts of a text -----

  lemma OccursInPrefix(s: seq<byte>, f: seq<byte>, n: nat, i: int)
    requires n <= |s|
    ensures OccursAt(s[..n], f, i) <==> OccursAt(s, f, i) && i + |f| <= n
  {
    if 0 <= i && i + |f| <= n {
      assert s[..n][i..i + |f|] == s[i..i + |f|];
    }
  }

  lemma OccursInSuffix(s: seq<byte>, f: seq<byte>, n: nat, i: int)
    requires n <= |s| && i >= 0
    ensures OccursAt(s[n..], f, i) <==> OccursAt(s, f, n + i)
  {
    if n + i + |f| <= |s| {
      assert s[n..][i..i + |f|] == s[n + i..n + i + |f|];
    }
  }

  /** Two occurrences that overlap give a border. */
  lemma OverlapIsBorder(s: seq<byte>, f: seq<byte>, i: int, j: int)
    requires OccursAt(s, f, i) && OccursAt(s, f, j) && i < j < i + |f|
    ensures Border(f, i + |f| - j)
  {
    var k := i + |f| - j;
    assert f[|f| - k..] == s[i..i + |f|][|f| - k..] == s[j..i + |f|];
    assert f[..k] == s[j..j + |f|][..k] == s[j..i + |f|];
  }

  lemma NoOverlap(s: seq<byte>, f: seq<byte>, i: int, j: int)
    requires Unbordered(f) && OccursAt(s, f, i) && OccursAt(s, f, j) && i < j
    ensures i + |f| <= j
  {
    if j < i + |f| { OverlapIsBorder(s, f, i, j); }
  }

  ghost predicate LastOccurrence(s: seq<byte>, f: seq<byte>, p: int) {
    OccursAt(s, f, p) && forall j | p < j :: !OccursAt(s, f, j)
  }

  lemma FirstIs(s: seq<byte>, f: seq<byte>, i: int)
    requires OccursAt(s, f, i) && forall j | 0 <= j < i :: !OccursAt(s, f, j)
    ensures FirstFrom(s, f, 0) == i
  {
  }

  lemma NoneFrom(s: seq<byte>, f: seq<byte>)
    requires forall j | 0 <= j :: !OccursAt(s, f, j)
    ensures FirstFrom(s, f, 0) == -1
  {
  }

  lemma LastIs(s: seq<byte>, f: seq<byte>, i: int, bound: int)
    requires i <= bound && OccursAt(s, f, i) && forall j | i < j <= bound :: !OccursAt(s, f, j)
    ensures LastUpTo(s, f, bound) == i
  {
  }

  // ----- sufficiency: separable arguments -----

  lemma NoneToReplace(s: seq<byte>, f: seq<byte>, r: seq<byte>)
    requires f != [] && forall j | 0 <= j :: !OccursAt(s, f, j)
    ensures ReplaceAll(s, f, r) == s
  {
    NoneFrom(s, f);
  }

  lemma OnlyOneToReplace(s: seq<byte>, f: seq<byte>, r: seq<byte>, p: int)
    requires f != [] && FirstFrom(s, f, 0) == p && LastOccurrence(s, f, p)
    ensures ReplaceAll(s, f, r) == ReplaceAll(s[..p], f, r) + r + s[p + |f|..]
  {
    var tail := s[p + |f|..];
    forall j | 0 <= j ensures !OccursAt(tail, f, j) {
      OccursInSuffix(s, f, p + |f|, j);
      assert !OccursAt(s, f, p + |f| + j);
    }
    NoneToReplace(tail, f, r);
    forall j | 0 <= j ensures !OccursAt(s[..p], f, j) {
      OccursInPrefix(s, f, p, j);
    }
    NoneToReplace(s[..p], f, r);
  }

  lemma ReplaceUnfolds(s: seq<byte>, f: seq<byte>, r: seq<byte>, q: int, head: seq<byte>, rest: seq<byte>)
    requires f != [] && FirstFrom(s, f, 0) == q >= 0 && head == s[..q] && rest == s[q + |f|..]
    ensures ReplaceAll(s, f, r) == head + r + ReplaceAll(rest, f, r)
  {
  }

  lemma FirstOfPrefix(s: seq<byte>, f: seq<byte>, q: int, p: int)
    requires FirstFrom(s, f, 0) == q >= 0 && q + |f| <= p <= |s|
    ensures FirstFrom(s[..p], f, 0) == q
  {
    forall j | 0 <= j <= q ensures OccursAt(s[..p], f, j) <==> j == q { OccursInPrefix(s, f, p, j); }
    FirstIs(s[..p], f, q);
  }

  lemma LastOfSuffix(s: seq<byte>, f: seq<byte>, n: nat, p: int)
    requires n <= p && LastOccurrence(s, f, p)
    ensures LastOccurrence(s[n..], f, p - n)
  {
    OccursInSuffix(s, f, n, p - n);
    forall j | p - n < j ensures !OccursAt(s[n..], f, j) { OccursInSuffix(s, f, n, j); }
  }

  /** Splitting leftmost replacement at the last occurrence instead of the first. */
  lemma {:induction false} ReplaceAllFromTheRight(s: seq<byte>, f: seq<byte>, r: seq<byte>, p: int)
    requires f != [] && Unbordered(f) && LastOccurrence(s, f, p)
    ensures ReplaceAll(s, f, r) == ReplaceAll(s[..p], f, r) + r + s[p + |f|..]
    decreases |s|
  {
    hide Unbordered, ReplaceAll;
    var q := FirstFrom(s, f, 0);
    if q == p {
      OnlyOneToReplace(s, f, r, p);
    } else {
      assert 0 <= q < p;
      var rest, n := s[q + |f|..], p - q - |f|;
      NoOverlap(s, f, q, p);
      LastOfSuffix(s, f, q + |f|, p);
      FirstOfPrefix(s, f, q, p);
      ReplaceAllFromTheRight(rest, f, r, n);
      LaterReplacement(s, f, r, q, p, rest);
    }
  }

  lemma LaterReplacement(s: seq<byte>, f: seq<byte>, r: seq<byte>, q: int, p: int, rest: seq<byte>)
    requires f != [] && 0 <= q && q + |f| <= p <= |s| - |f| && rest == s[q + |f|..]
    requires FirstFrom(s, f, 0) == q == FirstFrom(s[..p], f, 0)
    requires var n := p - q - |f|; ReplaceAll(rest, f, r) == ReplaceAll(rest[..n], f, r) + r + rest[n + |f|..]
    ensures ReplaceAll(s, f, r) == ReplaceAll(s[..p], f, r) + r + s[p + |f|..]
  {
    var head, mid, tail := s[..q], s[q + |f|..p], s[p + |f|..];
    assert rest[..p - q - |f|] == mid && rest[p - q - |f| + |f|..] == tail;
    ReplaceUnfolds(s, f, r, q, head, rest);
    ReplaceUnfolds(s[..p], f, r, q, head, mid);
    Associate(head + r, ReplaceAll(mid, f, r) + r, tail);
    Associate(head + r, ReplaceAll(mid, f, r), r);
  }

  /** Behind the place where the last replacement was put, nothing that is left to do can reach. */
  lemma {:induction false} BackIgnoresRight(x: seq<byte>, t: seq<byte>, f: seq<byte>, r: seq<byte>, i: int)
    requires f != [] && |r| > |f| && Detached(f, r) && r <= t && i < |x|
    ensures ReplaceBack(x + t, f, r, i) == ReplaceBack(x, f, r, i) + t
    decreases i + 1
  {
    hide Detached, OccursAt;
    forall j | j <= i ensures OccursAt(x + t, f, j) <==> OccursAt(x, f, j) {
      NoStraddling(x, t, f, r, j);
    }
    SameLast(x + t, x, f, i);
    var p := LastUpTo(x, f, i);
    if p >= 0 {
      Inside(x, f, p);
      var y := ReplaceAt(x, f, r, p);
      ReplaceLeft(x, t, f, r, p);
      BackIgnoresRight(y, t, f, r, p - 1);
    }
  }

  lemma Inside(s: seq<byte>, f: seq<byte>, p: int)
    requires OccursAt(s, f, p)
    ensures 0 <= p <= |s| - |f|
  {
  }

  lemma ReplaceLeft(x: seq<byte>, t: seq<byte>, f: seq<byte>, r: seq<byte>, p: int)
    requires 0 <= p <= |x| - |f|
    ensures ReplaceAt(x + t, f, r, p) == ReplaceAt(x, f, r, p) + t
  {
  }

  lemma NoStraddling(x: seq<byte>, t: seq<byte>, f: seq<byte>, r: seq<byte>, j: int)
    requires f != [] && |r| > |f| && Detached(f, r) && r <= t && j < |x|
    ensures OccursAt(x + t, f, j) <==> OccursAt(x, f, j)
  {
    assert (x + t)[..|x|] == x;
    OccursInPrefix(x + t, f, |x|, j);
    if OccursAt(x + t, f, j) && j + |f| > |x| {
      StraddleIsPrefix(x, t, f, r, j);
    }
  }

  lemma StraddleIsPrefix(x: seq<byte>, t: seq<byte>, f: seq<byte>, r: seq<byte>, j: int)
    requires |r| > |f| && r <= t && OccursAt(x + t, f, j) && j < |x| < j + |f|
    ensures var k := j + |f| - |x|; 0 < k < |f| && f[|f| - k..] == r[..k]
  {
    var k := j + |f| - |x|;
    assert f[|f| - k..] == (x + t)[j..j + |f|][|f| - k..] == t[..k];
  }

  lemma {:induction false} SameLast(s: seq<byte>, u: seq<byte>, f: seq<byte>, i: int)
    requires forall j | j <= i :: OccursAt(s, f, j) <==> OccursAt(u, f, j)
    ensures LastUpTo(s, f, i) == LastUpTo(u, f, i)
    decreases i + 1
  {
    if i >= 0 { SameLast(s, u, f, i - 1); }
  }

  /** Starting from a later bound changes nothing when no occurrence starts in between. */
  lemma {:induction false} BackFrom(s: seq<byte>, f: seq<byte>, r: seq<byte>, i: int, bound: int)
    requires i <= bound && forall j | i < j <= bound :: !OccursAt(s, f, j)
    ensures ReplaceBack(s, f, r, bound) == ReplaceBack(s, f, r, i)
    decreases bound - i
  {
    if i < bound { BackFrom(s, f, r, i, bound - 1); }
  }

  /** The backward pass replaces the last occurrence, and goes on in what is before it. */
  lemma BackSplits(s: seq<byte>, f: seq<byte>, r: seq<byte>, p: int)
    requires f != [] && |r| > |f| && Detached(f, r) && LastUpTo(s, f, |s| - 1) == p >= 0
    ensures LastOccurrence(s, f, p) && 0 <= p <= |s| - |f|
    ensures ReplaceBack(s, f, r, |s| - 1) == ReplaceBack(s[..p], f, r, p - 1) + r + s[p + |f|..]
  {
    hide Detached;
    var x, tail := s[..p], s[p + |f|..];
    Associate(x, r, tail);
    BackIgnoresRight(x, r + tail, f, r, p - 1);
    Associate(ReplaceBack(x, f, r, p - 1), r, tail);
  }

  lemma {:induction false} SeparableSuffices(s: seq<byte>, f: seq<byte>, r: seq<byte>)
    requires f != [] && |r| > |f| && Separable(f, r)
    ensures ReplaceBack(s, f, r, |s| - 1) == ReplaceAll(s, f, r)
    decreases |s|
  {
    hide ReplaceAll, Detached, Unbordered;
    var p := LastUpTo(s, f, |s| - 1);
    if p < 0 {
      NoneToReplace(s, f, r);
    } else {
      BackSplits(s, f, r, p);
      ReplaceAllFromTheRight(s, f, r, p);
      SeparableSuffices(s[..p], f, r);
    }
  }

  // ----- the room the backward pass takes -----

  /** The backward pass keeps within the size of leftmost replacement, which the forward pass computes. */
  ghost predicate Fits(s: seq<byte>, f: seq<byte>, r: seq<byte>)
    requires f != []
  {
    |ReplaceBack(s, f, r, |s| - 1)| <= |ReplaceAll(s, f, r)|
  }

  lemma {:induction false} ReplaceAllGrows(s: seq<byte>, f: seq<byte>, r: seq<byte>)
    requires 0 < |f| < |r|
    ensures |ReplaceAll(s, f, r)| >= |s| + if FirstFrom(s, f, 0) < 0 then 0 else |r| - |f|
    decreases |s|
  {
    var i := FirstFrom(s, f, 0);
    if i >= 0 {
      var head, rest := s[..i], s[i + |f|..];
      ReplaceUnfolds(s, f, r, i, head, rest);
      ReplaceAllGrows(rest, f, r);
    }
  }

  /** Leftmost replacement of the whole text replaces one occurrence more than that of the part before the last one. */
  lemma {:induction false} LastAdds(s: seq<byte>, f: seq<byte>, r: seq<byte>, p: int)
    requires 0 < |f| < |r| && LastOccurrence(s, f, p)
    ensures 0 <= p <= |s| - |f|
    ensures |ReplaceAll(s, f, r)| >= |ReplaceAll(s[..p], f, r)| + |r| + |s| - p - |f|
    decreases |s|
  {
    hide ReplaceAll;
    var q := FirstFrom(s, f, 0);
    assert 0 <= q <= p <= |s| - |f|;
    if q + |f| <= p {
      var rest, n := s[q + |f|..], p - q - |f|;
      LastOfSuffix(s, f, q + |f|, p);
      FirstOfPrefix(s, f, q, p);
      LastAdds(rest, f, r, n);
      ReplaceUnfolds(s, f, r, q, s[..q], rest);
      assert s[..p][..q] == s[..q] && s[..p][q + |f|..] == rest[..n];
      ReplaceUnfolds(s[..p], f, r, q, s[..q], rest[..n]);
    } else {
      forall j | 0 <= j ensures !OccursAt(s[..p], f, j) { OccursInPrefix(s, f, p, j); }
      NoneToReplace(s[..p], f, r);
      ReplaceAllGrows(s, f, r);
    }
  }

  lemma {:induction false} DetachedFits(s: seq<byte>, f: seq<byte>, r: seq<byte>)
    requires 0 < |f| < |r| && Detached(f, r)
    ensures Fits(s, f, r)
    decreases |s|
  {
    hide ReplaceAll, Detached;
    var p := LastUpTo(s, f, |s| - 1);
    if p < 0 {
      NoneToReplace(s, f, r);
    } else {
      BackSplits(s, f, r, p);
      DetachedFits(s[..p], f, r);
      LastAdds(s, f, r, p);
    }
  }

  /** A text shorter than two copies of `f` has at most one replacement. */
  lemma ReplacesOnce(s: seq<byte>, f: seq<byte>, r: seq<byte>)
    requires 0 < |f| < |r| && |s| < 2 * |f|
    ensures |ReplaceAll(s, f, r)| <= |s| + |r| - |f|
  {
    var i := FirstFrom(s, f, 0);
    if i >= 0 {
      NoneToReplace(s[i + |f|..], f, r);
    }
  }

  /** The end of `f` starts the replacement: behind the rest of `f`, it completes an occurrence that was not there. */
  lemma Overgrows(u: seq<byte>, f: seq<byte>, r: seq<byte>)
    requires |r| > |f| > |u| > 0 && u == f[..|u|] && f[|u|..] == r[..|f| - |u|]
    ensures !Fits(u + f, f, r)
  {
    hide OccursAt, LastUpTo;
    AtTheEnd(u, f, r);
    CompletedAtTheStart(u, f, r);
    BackGrows(u + r, f, r, |u| - 1);
    ReplacesOnce(u + f, f, r);
  }

  lemma AtTheEnd(u: seq<byte>, f: seq<byte>, r: seq<byte>)
    requires f != []
    ensures LastUpTo(u + f, f, |u + f| - 1) == |u| && ReplaceAt(u + f, f, r, |u|) == u + r
  {
    var s := u + f;
    assert OccursAt(s, f, |u|);
    LastIs(s, f, |u|, |s| - 1);
    assert s[..|u|] == u && s[|u| + |f|..] == [];
  }

  lemma CompletedAtTheStart(u: seq<byte>, f: seq<byte>, r: seq<byte>)
    requires |r| > |f| > |u| > 0 && u == f[..|u|] && f[|u|..] == r[..|f| - |u|]
    ensures LastUpTo(u + r, f, |u| - 1) >= 0
  {
    assert (u + r)[0..|f|] == u + r[..|f| - |u|] == f;
    assert OccursAt(u + r, f, 0);
  }

  lemma DetachedNeeded(f: seq<byte>, r: seq<byte>) returns (s: seq<byte>)
    requires 0 < |f| < |r| && !Detached(f, r)
    ensures !Fits(s, f, r)
  {
    var k :| 0 < k < |f| && k <= |r| && f[|f| - k..] == r[..k];
    s := f[..|f| - k] + f;
    Overgrows(f[..|f| - k], f, r);
  }

  /** The backward pass fits the computed size on every text exactly when no proper suffix of `f` starts `r`. */
  lemma FitsExactly(f: seq<byte>, r: seq<byte>)
    requires 0 < |f| < |r|
    ensures Detached(f, r) <==> forall s: seq<byte> :: Fits(s, f, r)
  {
    if Detached(f, r) {
      forall s: seq<byte> ensures Fits(s, f, r) { DetachedFits(s, f, r); }
    } else {
      var s := DetachedNeeded(f, r);
    }
  }

  lemma {:induction false} BackGrows(s: seq<byte>, f: seq<byte>, r: seq<byte>, i: int)
    requires |r| > |f|
    ensures |ReplaceBack(s, f, r, i)| >= |s| + if LastUpTo(s, f, i) < 0 then 0 else |r| - |f|
    decreases i + 1
  {
    var p := LastUpTo(s, f, i);
    if p >= 0 { BackGrows(ReplaceAt(s, f, r, p), f, r, p - 1); }
  }

  // ----- necessity: any other arguments have a text that tells the two apart -----

  ghost predicate Agree(s: seq<byte>, f: seq<byte>, r: seq<byte>)
    requires f != []
  {
    ReplaceBack(s, f, r, |s| - 1) == ReplaceAll(s, f, r)
  }

  /** A text that is its own replacement shifted by a period of `f` starts with `f`. */
  lemma {:induction false} PeriodicPrefix(x: seq<byte>, r: seq<byte>, z: seq<byte>, f: seq<byte>, i: nat)
    requires 0 < |x| < |f| < |r| && x == f[..|x|] && x + r == r + z
    requires f[|x|..] == f[..|f| - |x|] && i < |f|
    ensures (x + r)[i] == r[i] == f[i]
  {
    assert (x + r)[i] == (r + z)[i];
    if i >= |x| {
      PeriodicPrefix(x, r, z, f, i - |x|);
      assert f[i] == f[|x|..][i - |x|];
    }
  }

  lemma BorderedOccurrences(f: seq<byte>, k: nat, s: seq<byte>)
    requires 0 < k < |f| && Border(f, k) && s == f + f[k..]
    ensures var p := |f| - k;
            |s| == p + |f| && FirstFrom(s, f, 0) == 0 && LastUpTo(s, f, |s| - 1) == p
  {
    var p := |f| - k;
    assert s[..|f|] == f;
    assert s[p..p + |f|] == f[p..] + f[k..] == f[..k] + f[k..];
    FirstIs(s, f, 0);
    LastIs(s, f, p, |s| - 1);
  }

  /** Two copies of `find` overlapping in a border: the first and the last one are not the same choice. */
  lemma BorderedFind(f: seq<byte>, r: seq<byte>, p: nat, s: seq<byte>)
    requires |r| > |f| > p > 0 && |s| == p + |f| && s[..p] == f[..p] && f[p..] == f[..|f| - p]
    requires FirstFrom(s, f, 0) == 0 && LastUpTo(s, f, |s| - 1) == p
    ensures !Agree(s, f, r)
  {
    var x, z, y := s[..p], s[|f|..], s[..p] + r;
    ReplacesFirst(s, f, r, z);
    assert ReplaceAt(s, f, r, p) == y by { assert s[p + |f|..] == []; }
    BackGrows(y, f, r, p - 1);
    if y == r + z { ShiftStartsWithFind(x, r, z, f); }
  }

  lemma ReplacesFirst(s: seq<byte>, f: seq<byte>, r: seq<byte>, z: seq<byte>)
    requires f != [] && FirstFrom(s, f, 0) == 0 && z == s[|f|..] && |z| < |f|
    ensures ReplaceAll(s, f, r) == r + z
  {
    NoneToReplace(z, f, r);
    ReplaceUnfolds(s, f, r, 0, [], z);
    assert [] + r + z == r + z;
  }

  lemma ShiftStartsWithFind(x: seq<byte>, r: seq<byte>, z: seq<byte>, f: seq<byte>)
    requires 0 < |x| < |f| < |r| && x == f[..|x|] && x + r == r + z
    requires f[|x|..] == f[..|f| - |x|]
    ensures LastUpTo(x + r, f, |x| - 1) >= 0
  {
    forall i | 0 <= i < |f| ensures (x + r)[i] == f[i] { PeriodicPrefix(x, r, z, f, i); }
    assert OccursAt(x + r, f, 0);
  }

  lemma SeparableNeeded(f: seq<byte>, r: seq<byte>) returns (s: seq<byte>)
    requires f != [] && |r| > |f| && !Separable(f, r)
    ensures !Agree(s, f, r)
  {
    if Unbordered(f) {
      s := DetachedNeeded(f, r);
    } else {
      var k :| 0 < k < |f| && Border(f, k);
      s := f + f[k..];
      BorderedOccurrences(f, k, s);
      assert s[..|f| - k] == f[..|f| - k];
      BorderedFind(f, r, |f| - k, s);
    }
  }

  /** The growing branch performs leftmost replacement on every text exactly when its arguments are separable. */
  lemma SeparableExactly(f: seq<byte>, r: seq<byte>)
    requires f != [] && |r| > |f|
    ensures Separable(f, r) <==> forall s: seq<byte> :: Agree(s, f, r)
  {
    if Separable(f, r) {
      forall s: seq<byte> ensures Agree(s, f, r) { SeparableSuffices(s, f, r); }
    } else {
      var s := SeparableNeeded(f, r);
    }
  }
}
