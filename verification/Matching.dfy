/**
 * The matcher behind `Stream::findMulti`: several targets at once, one byte at a time.
 *
 * The source keeps no failure table. On a mismatch it walks a target's `index` back and compares
 * the target with a shifted copy of itself. `Advance` and `WalkBack` keep that code; the
 * specification is the naive search that re-reads the whole text at every position.
 */
module Matching {
  import opened Bytes

  // ----- what it means for a target to end at, or to be under way at, the end of a text -----

  predicate EndsWith(text: seq<byte>, s: seq<byte>) {
    |s| <= |text| && text[|text| - |s|..] == s
  }

  /** The first `k` bytes of `str`, not all of it, are the last `k` bytes of `text`. */
  predicate UnderWay(str: seq<byte>, k: nat, text: seq<byte>) {
    k < |str| && EndsWith(text, str[..k])
  }

  /** `k` is the longest such partial match. */
  ghost predicate LongestUnderWay(str: seq<byte>, k: nat, text: seq<byte>) {
    UnderWay(str, k, text) && forall j: nat | UnderWay(str, j, text) :: j <= k
  }

  // ----- naive search -----

  datatype Outcome = Found(target: nat, consumed: nat) | Missing

  /** The lowest-numbered target, from `i` on, that ends at the end of `text`; `|targets|` if none does. */
  function FirstEnding(targets: seq<seq<byte>>, text: seq<byte>, i: nat): (r: nat)
    requires i <= |targets|
    ensures i <= r <= |targets|
    ensures r < |targets| ==> EndsWith(text, targets[r])
    ensures forall j | i <= j < r :: !EndsWith(text, targets[j])
    decreases |targets| - i
  {
    if i == |targets| || EndsWith(text, targets[i]) then i else FirstEnding(targets, text, i + 1)
  }

  function NaiveSearch(targets: seq<seq<byte>>, data: seq<byte>, pos: nat := 0): Outcome
    requires pos <= |data|
    decreases |data| - pos
  {
    var i := FirstEnding(targets, data[..pos], 0);
    if i < |targets| then Found(i, pos)
    else if pos == |data| then Missing
    else NaiveSearch(targets, data, pos + 1)
  }

  /** Target `i` is the lowest-numbered one to end at the earliest position, from `pos` on, where any target ends. */
  ghost predicate EarliestEnd(targets: seq<seq<byte>>, data: seq<byte>, pos: nat, i: nat, n: nat) {
    && i < |targets| && pos <= n <= |data|
    && EndsWith(data[..n], targets[i])
    && (forall j | 0 <= j < i :: !EndsWith(data[..n], targets[j]))
    && (forall m, j | pos <= m < n && 0 <= j < |targets| :: !EndsWith(data[..m], targets[j]))
  }

  lemma {:induction false} NaiveResult(targets: seq<seq<byte>>, data: seq<byte>, pos: nat)
    requires pos <= |data|
    ensures match NaiveSearch(targets, data, pos)
            case Found(i, n) => EarliestEnd(targets, data, pos, i, n)
            case Missing => forall n, j | pos <= n <= |data| && 0 <= j < |targets| :: !EndsWith(data[..n], targets[j])
    decreases |data| - pos
  {
    if FirstEnding(targets, data[..pos], 0) == |targets| && pos < |data| {
      NaiveResult(targets, data, pos + 1);
    }
  }

  /** The naive search result is the earliest end, and there is only one such result. */
  lemma NaiveSearchMeaning(targets: seq<seq<byte>>, data: seq<byte>, i: nat, n: nat)
    ensures NaiveSearch(targets, data) == Found(i, n) <==> EarliestEnd(targets, data, 0, i, n)
  {
    NaiveResult(targets, data, 0);
    if EarliestEnd(targets, data, 0, i, n) {
      var out := NaiveSearch(targets, data);
      assert EndsWith(data[..n], targets[i]) && EndsWith(data[..out.consumed], targets[out.target]);
    }
  }

  /** `n` is the first position at which `s` ends. */
  ghost predicate FirstEnd(data: seq<byte>, s: seq<byte>, n: nat) {
    n <= |data| && EndsWith(data[..n], s) && forall m | 0 <= m < n :: !EndsWith(data[..m], s)
  }

  /** The terminator ends first after `n` bytes. */
  ghost predicate Stops(data: seq<byte>, terminator: Option<seq<byte>>, n: nat) {
    terminator.Some? && FirstEnd(data, terminator.value, n)
  }

  ghost predicate NotStopped(data: seq<byte>, terminator: Option<seq<byte>>, n: nat)
    requires n <= |data|
  {
    terminator.Some? ==> forall m | 0 <= m < n :: !EndsWith(data[..m], terminator.value)
  }

  /** What naive search finds for a target and an optional terminator. */
  lemma TwoTargets(strs: seq<seq<byte>>, data: seq<byte>, target: seq<byte>, terminator: Option<seq<byte>>)
    requires strs == if terminator.None? then [target] else [target, terminator.value]
    ensures match NaiveSearch(strs, data)
            case Found(0, n) => FirstEnd(data, target, n) && NotStopped(data, terminator, n)
            case Found(i, n) => Stops(data, terminator, n) && forall m: nat | m <= n :: !FirstEnd(data, target, m)
            case Missing => forall n: nat :: !FirstEnd(data, target, n) && !Stops(data, terminator, n)
  {
    NaiveResult(strs, data, 0);
    assert strs[0] == target && (terminator.Some? ==> strs[1] == terminator.value);
    match NaiveSearch(strs, data)
    case Found(i, n) =>
      forall m | 0 <= m < n ensures !EndsWith(data[..m], target) {
        assert !EndsWith(data[..m], strs[0]);
      }
      if terminator.Some? {
        forall m | 0 <= m < n ensures !EndsWith(data[..m], terminator.value) {
          assert !EndsWith(data[..m], strs[1]);
        }
      }
    case Missing =>
      forall n: nat | n <= |data| ensures !EndsWith(data[..n], target) {
        assert !EndsWith(data[..n], strs[0]);
      }
      if terminator.Some? {
        forall n: nat | n <= |data| ensures !EndsWith(data[..n], terminator.value) {
          assert !EndsWith(data[..n], strs[1]);
        }
      }
  }

  // ----- partial matches as the text grows by one byte -----

  lemma SuffixGrows(text: seq<byte>, s: seq<byte>, c: byte)
    requires |s| > 0
    ensures EndsWith(text + [c], s) <==> s[|s| - 1] == c && EndsWith(text, s[..|s| - 1])
  {
    var n := |text| + 1 - |s|;
    if n >= 0 {
      assert (text + [c])[n..] == text[n..] + [c];
      assert s == s[..|s| - 1] + [s[|s| - 1]];
      if EndsWith(text + [c], s) {
        assert text[n..] == (text[n..] + [c])[..|s| - 1];
      }
    }
  }

  /** A partial match of `k + 1` bytes after `c` is one of `k` bytes before, continued by `c`. */
  lemma UnderWayGrows(str: seq<byte>, k: nat, text: seq<byte>, c: byte)
    ensures UnderWay(str, k + 1, text + [c]) <==> k + 1 < |str| && str[k] == c && UnderWay(str, k, text)
  {
    if k + 1 < |str| {
      SuffixGrows(text, str[..k + 1], c);
      assert str[..k + 1][..k] == str[..k];
    }
  }

  /** While `idx` bytes are under way, a shorter partial match is a border of those `idx` bytes. */
  lemma ShorterIsBorder(str: seq<byte>, k: nat, idx: nat, text: seq<byte>)
    requires UnderWay(str, idx, text) && k <= idx
    ensures UnderWay(str, k, text) <==> str[..k] == str[idx - k..idx]
  {
    assert text[|text| - k..] == text[|text| - idx..][idx - k..];
    assert str[..idx][idx - k..] == str[idx - k..idx];
  }

  /** A target ends at the new byte exactly when all but its last byte was under way and the byte is that last one. */
  lemma EndsAtNewByte(str: seq<byte>, idx: nat, text: seq<byte>, c: byte)
    requires LongestUnderWay(str, idx, text)
    ensures EndsWith(text + [c], str) <==> idx == |str| - 1 && str[idx] == c
  {
    SuffixGrows(text, str, c);
    if EndsWith(text + [c], str) {
      assert UnderWay(str, |str| - 1, text);
    }
  }

  lemma MatchExtends(str: seq<byte>, idx: nat, text: seq<byte>, c: byte)
    requires LongestUnderWay(str, idx, text) && str[idx] == c && idx + 1 < |str|
    ensures LongestUnderWay(str, idx + 1, text + [c])
  {
    UnderWayGrows(str, idx, text, c);
    forall j: nat | UnderWay(str, j, text + [c]) ensures j <= idx + 1 {
      if j > 0 { UnderWayGrows(str, j - 1, text, c); }
    }
  }

  lemma NothingUnderWay(str: seq<byte>, text: seq<byte>, c: byte)
    requires LongestUnderWay(str, 0, text) && str[0] != c
    ensures LongestUnderWay(str, 0, text + [c])
  {
    forall j: nat | UnderWay(str, j, text + [c]) ensures j == 0 {
      if j > 0 { UnderWayGrows(str, j - 1, text, c); }
    }
  }

  /** `k` bytes of border can be continued by `c`: the test the walk-back makes at each step. */
  ghost predicate Continues(str: seq<byte>, k: nat, idx: nat, c: byte)
    requires k < idx < |str|
  {
    str[k] == c && str[..k] == str[idx - k..idx]
  }

  lemma WalkBackEnds(str: seq<byte>, k: nat, idx: nat, text: seq<byte>, c: byte, found: bool)
    requires LongestUnderWay(str, idx, text) && str[idx] != c && k < idx
    requires forall j | k < j < idx :: !Continues(str, j, idx, c)
    requires found <==> Continues(str, k, idx, c)
    requires found || k == 0
    ensures LongestUnderWay(str, if found then k + 1 else 0, text + [c])
  {
    if found {
      ShorterIsBorder(str, k, idx, text);
      UnderWayGrows(str, k, text, c);
    }
    forall j: nat | UnderWay(str, j, text + [c]) ensures j <= if found then k + 1 else 0 {
      if j > 0 {
        UnderWayGrows(str, j - 1, text, c);
        ShorterIsBorder(str, j - 1, idx, text);
        assert j - 1 < idx && Continues(str, j - 1, idx, c);
      }
    }
  }

  // ----- the code -----

  /** `struct MultiTarget`; `len` is `|str|`. */
  datatype MultiTarget = MultiTarget(str: seq<byte>, index: nat)

  function Strings(targets: seq<MultiTarget>): (r: seq<seq<byte>>)
    ensures |r| == |targets| && forall i | 0 <= i < |r| :: r[i] == targets[i].str
  {
    seq(|targets|, i requires 0 <= i < |targets| => targets[i].str)
  }

  /** Every target's `index` is its longest partial match after `text`. */
  ghost predicate Tracks(targets: seq<MultiTarget>, text: seq<byte>) {
    forall t | 0 <= t < |targets| :: LongestUnderWay(targets[t].str, targets[t].index, text)
  }

  /** The walk-back of one target after byte `c` failed to match at `index`. */
  method WalkBack(t: MultiTarget, c: byte, ghost text: seq<byte>) returns (index: nat)
    requires LongestUnderWay(t.str, t.index, text) && t.str[t.index] != c && t.index > 0
    ensures LongestUnderWay(t.str, index, text + [c])
  {
    var origIndex := t.index;
    index := t.index;
    while true
      invariant 0 < index <= origIndex
      invariant forall j | index <= j < origIndex :: !Continues(t.str, j, origIndex, c)
      decreases index
    {
      index := index - 1;
      if c == t.str[index] {
        if index == 0 {
          WalkBackEnds(t.str, 0, origIndex, text, c, true);
          index := index + 1;
          break;
        }
        var diff := origIndex - index;
        var i := 0;
        while i < index && t.str[i] == t.str[i + diff]
          invariant 0 <= i <= index
          invariant forall j | 0 <= j < i :: t.str[j] == t.str[j + diff]
        {
          i := i + 1;
        }
        if i == index {
          assert Continues(t.str, index, origIndex, c);
          WalkBackEnds(t.str, index, origIndex, text, c, true);
          index := index + 1;
          break;
        }
        assert t.str[..index][i] != t.str[diff..origIndex][i];
      }
      if index == 0 {
        WalkBackEnds(t.str, 0, origIndex, text, c, false);
        break;
      }
    }
  }

  /**
   * One pass of the `for` loop over the targets, for byte `c` read after `text`. The result is the
   * first target that now ends, the targets after it left as they were; -1 if none does.
   */
  method Advance(targets: array<MultiTarget>, c: byte, ghost text: seq<byte>) returns (r: int)
    requires Tracks(targets[..], text)
    modifies targets
    ensures Strings(targets[..]) == old(Strings(targets[..]))
    ensures -1 <= r < targets.Length
    ensures r == -1 ==> Tracks(targets[..], text + [c])
    ensures r >= 0 ==> targets[r].index == |targets[r].str|
    ensures FirstEnding(old(Strings(targets[..])), text + [c], 0) == if r < 0 then targets.Length else r
  {
    ghost var strs := Strings(targets[..]);
    for t := 0 to targets.Length
      invariant Strings(targets[..]) == strs
      invariant forall j | 0 <= j < t :: LongestUnderWay(targets[j].str, targets[j].index, text + [c])
      invariant forall j | t <= j < targets.Length :: targets[j] == old(targets[j])
      invariant forall j | 0 <= j < t :: !EndsWith(text + [c], targets[j].str)
    {
      var target := targets[t];
      assert LongestUnderWay(target.str, target.index, text);
      EndsAtNewByte(target.str, target.index, text, c);
      if c == target.str[target.index] {
        if target.index + 1 == |target.str| {
          targets[t] := target.(index := target.index + 1);
          return t;
        }
        MatchExtends(target.str, target.index, text, c);
        targets[t] := target.(index := target.index + 1);
      } else if target.index == 0 {
        NothingUnderWay(target.str, text, c);
      } else {
        var index := WalkBack(target, c, text);
        targets[t] := target.(index := index);
      }
    }
    return -1;
  }
}
