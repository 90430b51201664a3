/** `String::replace(const String &, const String &)` and what it stands on, in place on the character buffer. */
module WString {
  import opened Bytes
  import opened Replacing
  import opened Sequences

  // ----- the C library, on one array -----

  /** `a[from..]` holds a zero-terminated string that ends at `end`. */
  ghost predicate CString(a: array<byte>, from: nat, end: nat)
    reads a
  {
    from <= end < a.Length && a[end] == 0 && forall k | from <= k < end :: a[k] != 0
  }

  /** `strstr(a + from, f)`: the index of the first occurrence, or -1. */
  method StrStr(a: array<byte>, from: nat, f: seq<byte>, ghost end: nat) returns (r: int)
    requires CString(a, from, end)
    ensures var i := FirstFrom(a[from..end], f, 0); r == if i < 0 then -1 else from + i
  {
    var n := from;
    while a[n] != 0
      invariant from <= n <= end
      decreases end - n
    {
      n := n + 1;
    }
    r := FirstFrom(a[from..n], f, 0);
    if r >= 0 { r := from + r; }
  }

  /** What a block copy within one array leaves at `k`. */
  ghost function Moved(was: seq<byte>, dst: nat, src: nat, n: nat, k: nat): byte
    requires k < |was| && src + n <= |was|
  {
    if dst <= k < dst + n then was[src + k - dst] else was[k]
  }

  method MemMove(a: array<byte>, dst: nat, src: nat, n: nat)
    requires dst + n <= a.Length && src + n <= a.Length
    modifies a
    ensures forall k | 0 <= k < a.Length :: a[k] == Moved(old(a[..]), dst, src, n, k)
  {
    forall k | 0 <= k < n { a[dst + k] := a[src + k]; }
  }

  /** `memcpy` within one array, ascending, as `replace` uses it: towards the front. */
  method MemCpy(a: array<byte>, dst: nat, src: nat, n: nat)
    requires dst <= src && src + n <= a.Length
    modifies a
    ensures forall k | 0 <= k < a.Length :: a[k] == Moved(old(a[..]), dst, src, n, k)
  {
    ghost var was := a[..];
    for i := 0 to n
      invariant forall k | 0 <= k < a.Length :: a[k] == Moved(was, dst, src, i, k)
    {
      a[dst + i] := a[src + i];
    }
  }

  /** `memcpy` from another string's buffer. */
  method MemCpyFrom(a: array<byte>, dst: nat, r: seq<byte>)
    requires dst + |r| <= a.Length
    modifies a
    ensures forall k | 0 <= k < a.Length :: a[k] == if dst <= k < dst + |r| then r[k - dst] else old(a[k])
  {
    forall k | 0 <= k < |r| { a[dst + k] := r[k]; }
  }

  /** `strcpy(a + dst, a + src)` towards the front, terminator included. */
  method StrCpy(a: array<byte>, dst: nat, src: nat, ghost end: nat)
    requires dst <= src && CString(a, src, end)
    modifies a
    ensures forall k | 0 <= k < a.Length :: a[k] == Moved(old(a[..]), dst, src, end + 1 - src, k)
  {
    ghost var was := a[..];
    var i := 0;
    while a[src + i] != 0
      invariant src + i <= end
      invariant forall k | 0 <= k < a.Length :: a[k] == Moved(was, dst, src, i, k)
      decreases end - i
    {
      a[dst + i] := a[src + i];
      i := i + 1;
    }
    a[dst + i] := 0;
  }

  // ----- the class -----

  class String {
    var buffer: array?<byte>
    var capacity: nat
    var len: nat

    ghost predicate Valid()
      reads this, buffer
    {
      if buffer == null then capacity == len == 0
      else buffer.Length == capacity + 1 && len <= capacity && CString(buffer, 0, len)
    }

    function Content(): seq<byte>
      requires Valid()
      reads this, buffer
    {
      if buffer == null then [] else buffer[..len]
    }

    /** An invalid string, as `init` leaves it. */
    constructor ()
      ensures Valid() && buffer == null
    {
      buffer, capacity, len := null, 0, 0;
    }

    /** `realloc`; `granted` says whether there was memory. */
    method ChangeBuffer(maxStrLen: nat, granted: bool) returns (ok: bool)
      requires Valid() && capacity <= maxStrLen
      modifies this
      ensures ok == granted
      ensures !ok ==> buffer == old(buffer) && capacity == old(capacity) && len == old(len)
      ensures ok ==> fresh(buffer) && buffer.Length == maxStrLen + 1 && capacity == maxStrLen && len == old(len)
      ensures ok && old(buffer) != null ==> Valid() && Content() == old(Content())
    {
      if !granted { return false; }
      var newBuffer := new byte[maxStrLen + 1];
      if buffer != null {
        forall k | 0 <= k <= capacity { newBuffer[k] := buffer[k]; }
      }
      buffer := newBuffer;
      capacity := maxStrLen;
      return true;
    }

    method Reserve(size: nat, granted: bool) returns (ok: bool)
      requires Valid()
      modifies this
      ensures Valid() && Content() == old(Content())
      ensures ok ==> buffer != null && capacity >= size
      ensures ok <==> granted || (old(buffer) != null && old(capacity) >= size)
    {
      if buffer != null && capacity >= size { return true; }
      ok := ChangeBuffer(size, granted);
      if ok {
        if len == 0 { buffer[0] := 0; }
      }
    }

    /** `lastIndexOf(s2, fromIndex)`. */
    method LastIndexOf(f: seq<byte>, fromIndex: nat) returns (found: int)
      requires Valid()
      ensures found == if f == [] then -1 else LastUpTo(Content(), f, if fromIndex < len then fromIndex else len - 1)
    {
      if |f| == 0 || len == 0 || |f| > len {
        return -1;
      }
      var from := if fromIndex >= len then len - 1 else fromIndex;
      found := -1;
      var p := 0;
      while p <= from
        invariant 0 <= p <= len
        invariant found == LastUpTo(Content(), f, if p - 1 < from then p - 1 else from)
        decreases len - p
      {
        var at := StrStr(buffer, p, f, len);
        NextOccurrence(Content(), f, p);
        if at < 0 {
          NoneBetween(Content(), f, p, from);
          break;
        }
        NoneBetween(Content(), f, p, if at - 1 < from then at - 1 else from);
        if at <= from {
          found := at;
        }
        p := at + 1;
      }
    }

    /** `diff == 0`: every occurrence is overwritten where it stands. */
    method Overwrite(f: seq<byte>, r: seq<byte>)
      requires Valid() && buffer != null && f != [] && |r| == |f| && 0 !in r
      modifies buffer
      ensures Valid() && Content() == ReplaceAll(old(Content()), f, r)
    {
      ghost var s, done, goal := Content(), [], ReplaceAll(Content(), f, r);
      var readFrom := 0;
      FirstTurn(s, f, r);
      while true
        invariant Written(buffer, done) && |done| == readFrom
        invariant Unread(buffer, readFrom, len, s) && CString(buffer, 0, len)
        invariant Pending(done, s, readFrom, f, r, goal)
        decreases len - readFrom
      {
        var foundAt := FindUnread(buffer, readFrom, f, len, s);
        if foundAt < 0 { break; }
        FoundFits(s, readFrom, foundAt, f);
        ghost var done' := OverwriteOne(buffer, readFrom, foundAt, r, len, s, done);
        var next := foundAt + |r|;
        Turn(s, readFrom, foundAt, next, f, r, done, done', goal);
        readFrom, done := next, done';
      }
      LastTurn(done, s, readFrom, f, r, goal);
      assert Content() == done + s[readFrom..];
    }

    /** `diff < 0`: the kept parts move towards the front; the write cursor never passes the read cursor. */
    method Compact(f: seq<byte>, r: seq<byte>)
      requires Valid() && buffer != null && |r| < |f| && 0 !in r
      modifies this`len, buffer
      ensures Valid() && Content() == ReplaceAll(old(Content()), f, r)
    {
      ghost var s, done, end, goal := Content(), [], len, ReplaceAll(Content(), f, r);
      var diff := |r| - |f|;
      var readFrom, writeTo := 0, 0;
      FirstTurn(s, f, r);
      while true
        invariant writeTo <= readFrom && len == writeTo + (end - readFrom)
        invariant Written(buffer, done) && |done| == writeTo && 0 !in done
        invariant Unread(buffer, readFrom, end, s)
        invariant Pending(done, s, readFrom, f, r, goal)
        decreases end - readFrom
      {
        var foundAt := FindUnread(buffer, readFrom, f, end, s);
        if foundAt < 0 { break; }
        FoundFits(s, readFrom, foundAt, f);
        ghost var done';
        writeTo, done' := CompactOne(buffer, writeTo, readFrom, foundAt, f, r, end, s, done);
        var next := foundAt + |f|;
        Turn(s, readFrom, foundAt, next, f, r, done, done', goal);
        readFrom, done := next, done';
        len := len + diff;
      }
      LastTurn(done, s, readFrom, f, r, goal);
      ghost var all := CopyRest(buffer, writeTo, readFrom, end, s, done);
      assert buffer[..len] == all;
    }

    /** The forward pass of the growing branch: the size that leftmost replacement would need. */
    method SizeNeeded(f: seq<byte>, r: seq<byte>) returns (size: nat)
      requires Valid() && buffer != null && 0 < |f| < |r|
      ensures size == |ReplaceAll(Content(), f, r)|
    {
      ghost var s, done, goal := Content(), [], ReplaceAll(Content(), f, r);
      var diff := |r| - |f|;
      var readFrom := 0;
      size := len;
      FirstTurn(s, f, r);
      while true
        invariant readFrom <= len && |done| + len == readFrom + size
        invariant Pending(done, s, readFrom, f, r, goal)
        decreases len - readFrom
      {
        var foundAt := FindUnread(buffer, readFrom, f, len, s);
        if foundAt < 0 { break; }
        FoundFits(s, readFrom, foundAt, f);
        var next := foundAt + |f|;
        ghost var done' := done + s[readFrom..foundAt] + r;
        Turn(s, readFrom, foundAt, next, f, r, done, done', goal);
        readFrom, done := next, done';
        size := size + diff;
      }
      LastTurn(done, s, readFrom, f, r, goal);
    }

    /**
     * The backward pass. `inside` is false where the original goes on to write past its buffer; what happens
     * from there on has no meaning, and the pass is followed no further.
     */
    method Expand(f: seq<byte>, r: seq<byte>) returns (inside: bool)
      requires Valid() && buffer != null && 0 < |f| < |r| && 0 !in r
      modifies this`len, buffer
      ensures inside <==> |ReplaceBack(old(Content()), f, r, old(len) - 1)| <= capacity
      ensures Valid() && (inside ==> Content() == ReplaceBack(old(Content()), f, r, old(len) - 1))
    {
      hide ReplaceBack, BackPending;
      ghost var s, goal := Content(), ReplaceBack(Content(), f, r, len - 1);
      PendingFirst(s, f, r, goal);
      var index := len - 1;
      while index >= 0
        invariant -1 <= index < len && Valid() && Content() == s
        invariant BackPending(s, f, r, index, goal)
        decreases index
      {
        var found := LastIndexOf(f, index);
        if found < 0 {
          PendingLast(s, f, r, index, goal);
          index := found;
          break;
        }
        ghost var s' := ReplaceAt(s, f, r, found);
        var next := found - 1;
        BackTurn(s, f, r, index, found, next, s', goal);
        if len + |r| - |f| > capacity {
          return false;
        }
        ExpandOne(buffer, found, f, r, len);
        len := len + (|r| - |f|);
        index, s := next, s';
      }
      PendingLast(s, f, r, index, goal);
      inside := true;
    }

    /** `diff > 0`; `inside` as above. */
    method Grow(f: seq<byte>, r: seq<byte>, granted: bool) returns (inside: bool)
      requires Valid() && buffer != null && len > 0 && 0 < |f| < |r| && 0 !in r
      modifies this, buffer
      ensures inside <==> StaysInside(old(Content()), f, r, old(capacity), granted)
      ensures Valid() && (inside ==> Content() == Grown(old(Content()), f, r, old(capacity), granted))
    {
      hide ReplaceBack, ReplaceAll;
      ghost var s := Content();
      var size := SizeNeeded(f, r);
      NothingFound(s, f, r);
      if size == len { return true; }
      if size > capacity {
        var ok := ChangeBuffer(size, granted);
        if !ok { return true; }
      }
      inside := Expand(f, r);
    }

    /** `replace(find, replace)`; `inside` is false exactly where the original writes past its buffer. */
    method Replace(find: String, replace: String, granted: bool) returns (inside: bool)
      requires Valid() && find.Valid() && replace.Valid() && find != this && replace != this
      requires buffer == null || (find.buffer != buffer && replace.buffer != buffer)
      modifies this, buffer
      ensures inside <==> StaysInside(old(Content()), old(find.Content()), old(replace.Content()), old(capacity), granted)
      ensures Valid()
      ensures inside ==>
                Content() == Replaced(old(Content()), old(find.Content()), old(replace.Content()), old(capacity), granted)
    {
      var f, r := find.Content(), replace.Content();
      if len == 0 || |f| == 0 {
        EmptyInside(Content(), f, r, capacity, granted);
        return true;
      }
      var diff := |r| - |f|;
      if diff == 0 {
        Overwrite(f, r);
      } else if diff < 0 {
        Compact(f, r);
      } else {
        inside := Grow(f, r, granted);
        return;
      }
      inside := true;
    }
  }

  /** The memory the backward pass works in: the old capacity, or the size the forward pass has computed. */
  function Room(size: nat, capacity: nat): nat {
    if size > capacity then size else capacity
  }

  /** `replace` does not write past its buffer. */
  ghost predicate StaysInside(s: seq<byte>, f: seq<byte>, r: seq<byte>, capacity: nat, granted: bool) {
    0 < |f| < |r| ==>
      var size := |ReplaceAll(s, f, r)|;
      (size > capacity && !granted) || |ReplaceBack(s, f, r, |s| - 1)| <= Room(size, capacity)
  }

  lemma EmptyInside(s: seq<byte>, f: seq<byte>, r: seq<byte>, capacity: nat, granted: bool)
    requires s == [] || f == []
    ensures StaysInside(s, f, r, capacity, granted)
  {
  }

  /**
   * A growing `replace` stays inside its buffer, whatever the text and its capacity, exactly when no proper
   * suffix of the search string is a prefix of the replacement; borders do not matter.
   */
  lemma StaysInsideExactly(f: seq<byte>, r: seq<byte>)
    requires 0 < |f| < |r|
    ensures Detached(f, r)
       <==> forall s: seq<byte>, capacity: nat, granted: bool | |s| <= capacity :: StaysInside(s, f, r, capacity, granted)
  {
    if Detached(f, r) {
      forall s: seq<byte>, capacity: nat, granted: bool ensures StaysInside(s, f, r, capacity, granted) {
        DetachedFits(s, f, r);
      }
    } else {
      var s := DetachedNeeded(f, r);
      ReplaceAllGrows(s, f, r);
      assert !StaysInside(s, f, r, |s|, true);
    }
  }

  ghost function Grown(s: seq<byte>, f: seq<byte>, r: seq<byte>, capacity: nat, granted: bool): seq<byte>
    requires 0 < |f| < |r|
  {
    if |ReplaceAll(s, f, r)| > capacity && !granted then s else ReplaceBack(s, f, r, |s| - 1)
  }

  /** What `replace` leaves. */
  ghost function Replaced(s: seq<byte>, f: seq<byte>, r: seq<byte>, capacity: nat, granted: bool): seq<byte> {
    if s == [] || f == [] then s
    else if |r| <= |f| then ReplaceAll(s, f, r)
    else Grown(s, f, r, capacity, granted)
  }

  /**
   * `replace` is leftmost replacement for every text when it does not grow, and when it grows for
   * separable arguments, unless memory was needed and refused; then the text is unchanged, as it is for an empty
   * search string.
   */
  lemma ReplacedIsLeftmost(s: seq<byte>, f: seq<byte>, r: seq<byte>, capacity: nat, granted: bool)
    requires f != [] && |r| > |f| ==> Separable(f, r)
    ensures StaysInside(s, f, r, capacity, granted)
    ensures Replaced(s, f, r, capacity, granted)
         == if f == [] || (|r| > |f| && s != [] && |ReplaceAll(s, f, r)| > capacity && !granted) then s else ReplaceAll(s, f, r)
  {
    if f == [] { return; }
    if s == [] { NoneToReplace(s, f, r); }
    if |r| > |f| { SeparableSuffices(s, f, r); }
  }

  /** The forward pass finds nothing exactly when it computes the old size; then there is nothing to do. */
  lemma NothingFound(s: seq<byte>, f: seq<byte>, r: seq<byte>)
    requires 0 < |f| < |r|
    ensures |ReplaceAll(s, f, r)| == |s| ==> ReplaceBack(s, f, r, |s| - 1) == s
  {
    if FirstFrom(s, f, 0) < 0 {
      NoneAtAll(s, f, |s| - 1);
    } else {
      ReplaceAllGrows(s, f, r);
    }
  }

  lemma {:induction false} NoneAtAll(s: seq<byte>, f: seq<byte>, i: int)
    requires FirstFrom(s, f, 0) < 0
    ensures LastUpTo(s, f, i) == -1
    decreases i
  {
    if i >= 0 { NoneAtAll(s, f, i - 1); }
  }

  /** One replacement of the backward pass: shift the rest up, terminate, copy the replacement in. */
  method ExpandOne(a: array<byte>, at: nat, f: seq<byte>, r: seq<byte>, len: nat)
    requires CString(a, 0, len) && at + |f| <= len && |f| < |r| && 0 !in r
    requires len + |r| - |f| < a.Length
    modifies a
    ensures CString(a, 0, len + |r| - |f|)
    ensures a[..len + |r| - |f|] == ReplaceAt(old(a[..len]), f, r, at)
  {
    var diff, readFrom := |r| - |f|, at + |f|;
    MemMove(a, readFrom + diff, readFrom, len - readFrom);
    a[len + diff] := 0;
    MemCpyFrom(a, at, r);
  }

  /** What the backward pass still makes of the text is the whole result. */
  ghost predicate BackPending(s: seq<byte>, f: seq<byte>, r: seq<byte>, i: int, goal: seq<byte>) {
    ReplaceBack(s, f, r, i) == goal
  }

  lemma PendingFirst(s: seq<byte>, f: seq<byte>, r: seq<byte>, goal: seq<byte>)
    requires goal == ReplaceBack(s, f, r, |s| - 1)
    ensures BackPending(s, f, r, |s| - 1, goal)
  {
  }

  lemma PendingLast(s: seq<byte>, f: seq<byte>, r: seq<byte>, i: int, goal: seq<byte>)
    requires BackPending(s, f, r, i, goal) && LastUpTo(s, f, i) < 0
    ensures s == goal && BackPending(s, f, r, -1, goal)
  {
  }

  lemma BackTurn(s: seq<byte>, f: seq<byte>, r: seq<byte>, i: int, p: nat, next: int, s': seq<byte>, goal: seq<byte>)
    requires |r| > |f| > 0 && LastUpTo(s, f, i) == p && next == p - 1 && s' == ReplaceAt(s, f, r, p)
    requires BackPending(s, f, r, i, goal)
    ensures BackPending(s', f, r, next, goal) && |s| + |r| - |f| == |s'| <= |goal|
  {
    BackGrows(s', f, r, next);
  }

  /** The text `s` is still in place from `p` on. */
  ghost predicate Unread(a: array<byte>, p: nat, end: nat, s: seq<byte>)
    reads a
  {
    CString(a, p, end) && |s| == end && forall k | p <= k < end :: a[k] == s[k]
  }

  ghost predicate Written(a: array<byte>, done: seq<byte>)
    reads a
  {
    |done| <= a.Length && forall k | 0 <= k < |done| :: a[k] == done[k]
  }

  method FindUnread(a: array<byte>, p: nat, f: seq<byte>, ghost end: nat, ghost s: seq<byte>) returns (at: int)
    requires Unread(a, p, end, s)
    ensures var i := FirstFrom(s[p..], f, 0); at == if i < 0 then -1 else p + i
  {
    assert a[p..end] == s[p..];
    at := StrStr(a, p, f, end);
  }

  method OverwriteOne(a: array<byte>, ghost p: nat, at: nat, r: seq<byte>, ghost end: nat, ghost s: seq<byte>, ghost done: seq<byte>)
    returns (ghost done': seq<byte>)
    requires Unread(a, p, end, s) && CString(a, 0, end) && p <= at && at + |r| <= end && 0 !in r
    requires Written(a, done) && |done| == p
    modifies a
    ensures Unread(a, at + |r|, end, s) && CString(a, 0, end)
    ensures done' == done + s[p..at] + r && Written(a, done')
  {
    MemCpyFrom(a, at, r);
    done' := done + s[p..at] + r;
  }

  method CompactOne(a: array<byte>, w: nat, p: nat, at: nat, f: seq<byte>, r: seq<byte>, ghost end: nat, ghost s: seq<byte>, ghost done: seq<byte>)
    returns (writeTo: nat, ghost done': seq<byte>)
    requires Unread(a, p, end, s) && w <= p <= at && at + |f| <= end && |r| < |f| && 0 !in r
    requires Written(a, done) && |done| == w && 0 !in done
    modifies a
    ensures writeTo == w + (at - p) + |r|
    ensures Unread(a, at + |f|, end, s)
    ensures done' == done + s[p..at] + r && Written(a, done') && 0 !in done'
  {
    var n := at - p;
    MemCpy(a, w, p, n);
    ghost var kept := done + s[p..at];
    assert Written(a, kept) && 0 !in s[p..at];
    MemCpyFrom(a, w + n, r);
    writeTo := w + n + |r|;
    done' := kept + r;
  }

  /** The final `strcpy`, with its terminator. */
  method CopyRest(a: array<byte>, w: nat, p: nat, ghost end: nat, ghost s: seq<byte>, ghost done: seq<byte>)
    returns (ghost all: seq<byte>)
    requires Unread(a, p, end, s) && w <= p
    requires Written(a, done) && |done| == w && 0 !in done
    modifies a
    ensures all == done + s[p..] && |all| == w + (end - p)
    ensures Written(a, all) && CString(a, 0, |all|)
  {
    StrCpy(a, w, p, end);
    all := done + s[p..];
  }

  /** What is written and what leftmost replacement still makes of the rest come to the whole result. */
  ghost predicate Pending(done: seq<byte>, s: seq<byte>, p: nat, f: seq<byte>, r: seq<byte>, goal: seq<byte>)
    requires f != []
  {
    p <= |s| && done + ReplaceAll(s[p..], f, r) == goal
  }

  lemma FirstTurn(s: seq<byte>, f: seq<byte>, r: seq<byte>)
    requires f != []
    ensures Pending([], s, 0, f, r, ReplaceAll(s, f, r))
  {
    assert s[0..] == s;
  }

  lemma FoundFits(s: seq<byte>, p: nat, at: int, f: seq<byte>)
    requires f != [] && p <= |s| && FirstFrom(s[p..], f, 0) == at - p >= 0
    ensures p <= at && at + |f| <= |s|
  {
  }

  /** One turn of the forward loops. */
  lemma Turn(s: seq<byte>, p: nat, at: int, next: nat, f: seq<byte>, r: seq<byte>, done: seq<byte>, done': seq<byte>, goal: seq<byte>)
    requires f != [] && p <= |s| && FirstFrom(s[p..], f, 0) == at - p >= 0
    requires p <= at && at + |f| == next <= |s|
    requires Pending(done, s, p, f, r, goal) && done' == done + s[p..at] + r
    ensures Pending(done', s, next, f, r, goal)
  {
    ReplaceUnfolds(s[p..], f, r, at - p, s[p..at], s[next..]);
    Associate(done, s[p..at] + r, ReplaceAll(s[next..], f, r));
    Associate(done, s[p..at], r);
  }

  lemma LastTurn(done: seq<byte>, s: seq<byte>, p: nat, f: seq<byte>, r: seq<byte>, goal: seq<byte>)
    requires f != [] && Pending(done, s, p, f, r, goal) && FirstFrom(s[p..], f, 0) < 0
    ensures goal == done + s[p..]
  {
  }

  /** An occurrence in the rest of the text, seen from the whole text. */
  lemma NextOccurrence(s: seq<byte>, f: seq<byte>, p: nat)
    requires p <= |s|
    ensures var i := FirstFrom(s[p..], f, 0);
            (i >= 0 ==> OccursAt(s, f, p + i)) && forall j | p <= j && (i < 0 || j < p + i) :: !OccursAt(s, f, j)
  {
    var i := FirstFrom(s[p..], f, 0);
    if i >= 0 { OccursInSuffix(s, f, p, i); }
    forall j | p <= j && (i < 0 || j < p + i) ensures !OccursAt(s, f, j) { OccursInSuffix(s, f, p, j - p); }
  }

  lemma {:induction false} NoneBetween(s: seq<byte>, f: seq<byte>, p: nat, n: int)
    requires forall j | p <= j <= n :: !OccursAt(s, f, j)
    ensures p - 1 <= n ==> LastUpTo(s, f, n) == LastUpTo(s, f, p - 1)
    decreases n
  {
    if p <= n { NoneBetween(s, f, p, n - 1); }
  }
}
