/** `HAL_ETH_RxLinkCallback`: the fragments of a frame, chained in the heap with suffix-sum lengths. */
module EthernetChain {
  import opened Bytes

  class Pbuf {
    var next: Pbuf?
    var len: uint16
    var totLen: uint16
  }

  function Sum(lens: seq<uint16>): nat {
    if lens == [] then 0 else lens[0] + Sum(lens[1..])
  }

  lemma {:induction false} SumAppend(lens: seq<uint16>, n: uint16)
    ensures Sum(lens + [n]) == Sum(lens) + n
  {
    if lens != [] {
      assert (lens + [n])[1..] == lens[1..] + [n];
      SumAppend(lens[1..], n);
    }
  }

  /** What a `u16_t` holds after the sum of `lens` has been added up in it. */
  function Total(lens: seq<uint16>): uint16 {
    Sum(lens) % 0x1_0000
  }

  ghost predicate Distinct(nodes: seq<Pbuf>) {
    forall i, j | 0 <= i < j < |nodes| :: nodes[i] != nodes[j]
  }

  /** `next` runs through the nodes and ends after the last one. */
  ghost predicate Linked(nodes: seq<Pbuf>)
    reads nodes
  {
    forall i | 0 <= i < |nodes| :: nodes[i].next == if i + 1 < |nodes| then nodes[i + 1] else null
  }

  ghost predicate Lengths(nodes: seq<Pbuf>, lens: seq<uint16>)
    reads nodes`len
  {
    |lens| == |nodes| && forall i | 0 <= i < |nodes| :: nodes[i].len == lens[i]
  }

  /**
   * From the first node on, `next` runs through `nodes` and ends; node `i` holds fragment `i`, and its
   * `tot_len` covers itself and all later fragments.
   */
  ghost predicate Chain(nodes: seq<Pbuf>, lens: seq<uint16>)
    reads nodes
  {
    && |lens| == |nodes|
    && Distinct(nodes)
    && Linked(nodes)
    && Lengths(nodes, lens)
    && (forall i | 0 <= i < |nodes| :: nodes[i].totLen == Total(lens[i..]))
  }

  /** `*ppStart` and `*ppEnd` for a chain; the end pointer means nothing while there is no start. */
  ghost predicate Ends(start: Pbuf?, end: Pbuf?, nodes: seq<Pbuf>) {
    if nodes == [] then start == null else start == nodes[0] && end == nodes[|nodes| - 1]
  }

  /** Every total is the true sum of its own and all later lengths. */
  ghost predicate Exact(nodes: seq<Pbuf>, lens: seq<uint16>)
    reads nodes
  {
    |lens| == |nodes| && forall i | 0 <= i < |nodes| :: nodes[i].totLen == Sum(lens[i..])
  }

  lemma {:induction false} SuffixSum(lens: seq<uint16>, i: nat)
    requires i <= |lens|
    ensures Sum(lens[i..]) <= Sum(lens)
  {
    if i > 0 {
      assert lens[1..][i - 1..] == lens[i..];
      SuffixSum(lens[1..], i - 1);
    }
  }

  /** The 16-bit totals of a chain are all exact if and only if the whole frame's length fits 16 bits. */
  lemma TotalsExact(nodes: seq<Pbuf>, lens: seq<uint16>)
    requires Chain(nodes, lens)
    ensures Exact(nodes, lens) <==> Sum(lens) < 0x1_0000
  {
    if Sum(lens) < 0x1_0000 {
      forall i | 0 <= i < |nodes| ensures nodes[i].totLen == Sum(lens[i..]) { SuffixSum(lens, i); }
    } else {
      assert lens[0..] == lens;
      assert nodes[0].totLen == Total(lens[0..]) != Sum(lens[0..]);
    }
  }

  /** `p->tot_len += Length` in 16 bits. */
  function Plus(total: uint16, length: uint16): uint16 {
    (total + length) % 0x1_0000
  }

  lemma TotalGrows(lens: seq<uint16>, i: nat, n: uint16)
    requires i <= |lens|
    ensures Total((lens + [n])[i..]) == Plus(if i < |lens| then Total(lens[i..]) else 0, n)
  {
    assert (lens + [n])[i..] == lens[i..] + [n];
    SumAppend(lens[i..], n);
  }

  /** The totals when the new buffer has been chained, with nothing in it yet. */
  ghost function TotalsBefore(lens: seq<uint16>): (ts: seq<uint16>)
    ensures |ts| == |lens| + 1 && forall i | 0 <= i < |ts| :: ts[i] == if i < |lens| then Total(lens[i..]) else 0
  {
    seq(|lens| + 1, i requires 0 <= i <= |lens| => if i < |lens| then Total(lens[i..]) else 0)
  }

  lemma NewTotals(lens: seq<uint16>, n: uint16)
    ensures forall i | 0 <= i <= |lens| :: Plus(TotalsBefore(lens)[i], n) == Total((lens + [n])[i..])
  {
    forall i | 0 <= i <= |lens| ensures Plus(TotalsBefore(lens)[i], n) == Total((lens + [n])[i..]) {
      TotalGrows(lens, i, n);
    }
  }

  /** The `for` loop: adds `length` to every `tot_len` from `start` to the end of the list. */
  method AddToAll(start: Pbuf?, length: uint16, ghost nodes: seq<Pbuf>, ghost before: seq<uint16>)
    requires Distinct(nodes) && (nodes == [] ==> start == null) && (nodes != [] ==> start == nodes[0])
    requires Linked(nodes)
    requires |before| == |nodes| && forall i | 0 <= i < |nodes| :: nodes[i].totLen == before[i]
    modifies nodes`totLen
    ensures Linked(nodes)
    ensures forall i | 0 <= i < |nodes| :: nodes[i].totLen == Plus(before[i], length)
  {
    hide Plus;
    var p := start;
    ghost var k := 0;
    while p != null
      invariant k <= |nodes| && p == if k < |nodes| then nodes[k] else null
      invariant forall i | 0 <= i < k :: nodes[i].totLen == Plus(before[i], length)
      invariant forall i | k <= i < |nodes| :: nodes[i].totLen == before[i]
      decreases |nodes| - k
    {
      var t := p.totLen;
      p.totLen := Plus(t, length);
      p := p.next;
      k := k + 1;
    }
  }

  /** The pointers: `p` becomes the last node of the list, with an empty total. */
  method Append(start: Pbuf?, end: Pbuf?, p: Pbuf, length: uint16, ghost nodes: seq<Pbuf>, ghost lens: seq<uint16>)
    returns (start': Pbuf?, end': Pbuf?)
    requires Chain(nodes, lens) && Ends(start, end, nodes) && p !in nodes
    modifies nodes, p
    ensures Ends(start', end', nodes + [p]) && Distinct(nodes + [p])
    ensures Linked(nodes + [p]) && Lengths(nodes + [p], lens + [length])
    ensures forall i | 0 <= i < |nodes + [p]| :: (nodes + [p])[i].totLen == TotalsBefore(lens)[i]
  {
    hide Total;
    start', end' := start, end;
    p.next := null;
    p.totLen := 0;
    p.len := length;
    if start' == null {
      start' := p;
    } else {
      end'.next := p;
    }
    end' := p;
  }

  method RxLink(start: Pbuf?, end: Pbuf?, p: Pbuf, length: uint16, ghost nodes: seq<Pbuf>, ghost lens: seq<uint16>)
    returns (start': Pbuf?, end': Pbuf?)
    requires Chain(nodes, lens) && Ends(start, end, nodes) && p !in nodes
    modifies nodes, p
    ensures Chain(nodes + [p], lens + [length]) && Ends(start', end', nodes + [p])
  {
    hide Total, Plus, Sum, Lengths, Distinct, Linked, TotalsBefore;
    start', end' := Append(start, end, p, length, nodes, lens);
    AddToAll(start', length, nodes + [p], TotalsBefore(lens));
    NewTotals(lens, length);
  }

  /** A whole frame, fragment by fragment, as the HAL feeds it: any number of distinct buffers. */
  method LinkFrame(buffers: seq<Pbuf>, lens: seq<uint16>) returns (start: Pbuf?, end: Pbuf?)
    requires Distinct(buffers) && |lens| == |buffers|
    modifies buffers
    ensures Chain(buffers, lens) && Ends(start, end, buffers)
    ensures Exact(buffers, lens) <==> Sum(lens) < 0x1_0000
  {
    start, end := null, null;
    hide Chain, Ends, Sum, Exact;
    EmptyChain();
    for k := 0 to |buffers|
      invariant Chain(buffers[..k], lens[..k]) && Ends(start, end, buffers[..k])
    {
      start, end := RxLink(start, end, buffers[k], lens[k], buffers[..k], lens[..k]);
      assert buffers[..k] + [buffers[k]] == buffers[..k + 1] && lens[..k] + [lens[k]] == lens[..k + 1];
    }
    assert buffers[..|buffers|] == buffers && lens[..|lens|] == lens;
    TotalsExact(buffers, lens);
  }

  lemma EmptyChain()
    ensures Chain([], []) && Ends(null, null, [])
  {
  }
}
