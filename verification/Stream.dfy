/** `Stream`: the timed readers, `findMulti` and its callers, and `parseInt`. */
module Streams {
  import opened Bytes
  import opened Matching
  import opened Parsing

  class Stream {
    /** The bytes that reach the stream before a read times out. */
    var incoming: seq<byte>

    constructor (data: seq<byte>)
      ensures incoming == data
    {
      incoming := data;
    }

    /** The next byte, or -1 on a timeout. */
    method TimedRead() returns (c: int)
      modifies this
      ensures old(incoming) == [] ==> c == -1 && incoming == []
      ensures old(incoming) != [] ==> c == old(incoming)[0] && incoming == old(incoming)[1..]
    {
      if incoming == [] {
        c := -1;
      } else {
        c, incoming := incoming[0], incoming[1..];
      }
    }

    /** The next byte without consuming it, or -1 on a timeout. */
    method TimedPeek() returns (c: int)
      ensures c == -1 <==> incoming == []
      ensures c != -1 ==> incoming == [c] + incoming[1..]
    {
      c := if incoming == [] then -1 else incoming[0];
    }

    /** `read()`: consumes the byte a peek has seen. */
    method Read() returns (c: int)
      modifies this
      ensures old(incoming) == [] ==> c == -1 && incoming == []
      ensures old(incoming) != [] ==> c == old(incoming)[0] && incoming == old(incoming)[1..]
    {
      c := TimedRead();
    }

    method PeekNextDigit(lookahead: LookaheadMode, detectDecimal: bool) returns (c: int)
      modifies this
      ensures incoming == AfterJunk(old(incoming), lookahead, detectDecimal)
      ensures c == if incoming != [] && Starts(incoming[0], detectDecimal) then incoming[0] else -1
    {
      while true
        invariant AfterJunk(incoming, lookahead, detectDecimal) == AfterJunk(old(incoming), lookahead, detectDecimal)
        decreases |incoming|
      {
        c := TimedPeek();
        if c < 0 || Starts(c, detectDecimal) {
          return c;
        }
        match lookahead {
          case SkipNone => return -1;
          case SkipWhitespace =>
            if c != ' ' as int && c != '\t' as int && c != '\r' as int && c != '\n' as int {
              return -1;
            }
          case SkipAll =>
        }
        var _ := Read();
      }
    }

    method ParseInt(lookahead: LookaheadMode, ignore: byte) returns (value: int32)
      modifies this
      ensures (value, incoming) == ParsedInt(old(incoming), lookahead, ignore)
    {
      var isNegative := false;
      value := 0;
      var c := PeekNextDigit(lookahead, false);
      if c < 0 {
        return 0;
      }
      ghost var start := incoming;
      while true
        invariant c >= 0 && incoming != [] && c == incoming[0]
        invariant Starts(c, false) || c == ignore
        invariant |incoming| <= |start| != 0
        invariant |incoming| == |start| ==> incoming == start && value == 0 && !isNegative
        invariant |incoming| < |start| ==> (IsDigit(c) || c == ignore) && isNegative == (start[0] == '-' as int && start[0] != ignore)
        invariant |incoming| < |start| ==> ParseTail(incoming, ignore, value) == ParseTail(start[1..], ignore, Accumulate(0, start[0], ignore))
        decreases |incoming|
      {
        if c == ignore {
        } else if c == '-' as int {
          isNegative := true;
        } else if IsDigit(c) {
          value := Wrap32(Wrap32(Wrap32(value * 10) + c) - '0' as int);
        }
        var _ := Read();
        c := TimedPeek();
        if !(c >= 0 && (IsDigit(c) || c == ignore)) { break; }
      }
      if isNegative {
        value := Wrap32(-(value as int));
      }
    }

    method FindMulti(targets: array<MultiTarget>) returns (r: int)
      requires forall t | 0 <= t < targets.Length :: targets[t].index == 0
      modifies this, targets
      ensures Strings(targets[..]) == old(Strings(targets[..]))
      ensures match NaiveSearch(old(Strings(targets[..])), old(incoming))
              case Found(t, consumed) =>
                r == t < targets.Length && targets[t].index == |targets[t].str|
                && consumed <= |old(incoming)| && incoming == old(incoming)[consumed..]
              case Missing => r == -1 && incoming == [] && Tracks(targets[..], old(incoming))
    {
      ghost var data := incoming;
      ghost var strs := Strings(targets[..]);
      for t := 0 to targets.Length
        invariant forall j | 0 <= j < t :: |strs[j]| > 0
      {
        if |targets[t].str| <= 0 {
          assert EndsWith(data[..0], strs[t]);
          return t;
        }
      }
      ghost var n := 0;
      while true
        invariant n <= |data| && incoming == data[n..]
        invariant Strings(targets[..]) == strs
        invariant Tracks(targets[..], data[..n])
        invariant FirstEnding(strs, data[..n], 0) == |strs|
        invariant NaiveSearch(strs, data) == NaiveSearch(strs, data, n)
        decreases |incoming|
      {
        var c := TimedRead();
        if c < 0 {
          assert data[..n] == data;
          return -1;
        }
        assert data[..n + 1] == data[..n] + [c];
        r := Advance(targets, c, data[..n]);
        n := n + 1;
        if r >= 0 {
          return r;
        }
      }
    }

    /** `find(target, length)`: true exactly when the target occurs, read up to the end of its first occurrence. */
    method Find(target: seq<byte>) returns (b: bool)
      modifies this
      ensures b <==> exists n: nat :: FirstEnd(old(incoming), target, n)
      ensures b ==> exists n: nat :: FirstEnd(old(incoming), target, n) && incoming == old(incoming)[n..]
      ensures !b ==> incoming == []
    {
      b := FindUntil(target, None);
    }

    /**
     * `findUntil(target, targetLen, terminator, termLen)`; a null `terminator` is `None`. True exactly when
     * the target ends somewhere with no end of the terminator before; a tie goes to the target.
     */
    method FindUntil(target: seq<byte>, terminator: Option<seq<byte>>) returns (b: bool)
      modifies this
      ensures b <==> exists n: nat :: FirstEnd(old(incoming), target, n) && NotStopped(old(incoming), terminator, n)
      ensures b ==> exists n: nat :: FirstEnd(old(incoming), target, n) && incoming == old(incoming)[n..]
      ensures !b ==> if exists n: nat :: Stops(old(incoming), terminator, n)
                     then exists n: nat :: Stops(old(incoming), terminator, n) && incoming == old(incoming)[n..]
                     else incoming == []
    {
      var t: array<MultiTarget>;
      if terminator.None? {
        t := new MultiTarget[1] [MultiTarget(target, 0)];
      } else {
        t := new MultiTarget[2] [MultiTarget(target, 0), MultiTarget(terminator.value, 0)];
      }
      ghost var strs := Strings(t[..]);
      ghost var data := incoming;
      var r := FindMulti(t);
      b := r == 0;
      TwoTargets(strs, data, target, terminator);
    }
  }
}
