/**
 * Stream nodes with a memoised tail (streams.js:31-61, 82-90). A node holds
 * its head and the elements its delayed tail will deliver; forcing the tail
 * builds the next node once and caches it, as streamCdr does with `cdr` and
 * `isCdrComputed`. forEach and reduce walk the nodes.
 *
 * The nodes forced from one constructed stream form a chain. A ghost record
 * shared by the whole chain lists its nodes in order, so forcing the last node
 * keeps every earlier node valid and a stream can be walked again and again.
 */
module LazyStreams {
  import opened Streams

  /** The nodes built from one stream so far, head first; only the last has no cached tail. */
  class Chain<T(0)> {
    ghost var nodes: seq<Stream<T>>

    constructor ()
      ensures nodes == []
    {
      nodes := [];
    }

    /** Node `j` of a linked chain caches node `j + 1` as its tail. */
    lemma Link(j: nat)
      requires Linked() && j + 1 < |nodes|
      ensures nodes[j].isCdrComputed && !nodes[j].isEmptyStream
      ensures nodes[j].cdr == nodes[j + 1] && nodes[j + 1].Elements() == nodes[j].delayed
    {
      var next := nodes[j + 1];
    }

    /** Every node but the last has its tail cached. */
    lemma ForcedBeforeLast()
      requires Linked()
      ensures forall j :: 0 <= j < |nodes| - 1 ==> nodes[j].isCdrComputed
    {
      forall j | 0 <= j < |nodes| - 1 {
        Link(j);
      }
    }

    ghost predicate Linked()
      reads this, nodes
    {
      |nodes| > 0 &&
      (forall k :: 0 <= k < |nodes| ==> nodes[k].chain == this) &&
      (forall j, k {:trigger nodes[j], nodes[k]} :: 0 <= j && k == j + 1 && k < |nodes| ==>
        nodes[j].isCdrComputed && !nodes[j].isEmptyStream &&
        nodes[j].cdr == nodes[k] && nodes[k].Elements() == nodes[j].delayed) &&
      !nodes[|nodes| - 1].isCdrComputed
    }
  }

  class Stream<T(0)> {
    /** True for EMPTY_STREAM, whose head and tail are both the empty-stream marker. */
    const isEmptyStream: bool
    const car: T
    /** The elements the delayed tail delivers when it is forced. */
    const delayed: seq<T>
    var isCdrComputed: bool
    var cdr: Stream?<T>
    /** The record of the chain this node belongs to. */
    const chain: Chain<T>

    /** The elements this stream delivers, head first. */
    ghost function Elements(): seq<T> {
      if isEmptyStream then [] else [car] + delayed
    }

    ghost predicate Valid()
      reads chain, chain.nodes
    {
      this in chain.nodes && chain.Linked()
    }

    /** A node for the given elements: EMPTY_STREAM for none, otherwise a head and a delayed tail. */
    constructor (s: seq<T>)
      ensures Valid() && fresh(chain) && chain.nodes == [this]
      ensures Elements() == s && !isCdrComputed
    {
      isEmptyStream := s == [];
      if s != [] {
        car := s[0];
        delayed := s[1..];
      } else {
        delayed := [];
      }
      isCdrComputed := false;
      cdr := null;
      chain := new Chain();
      new;
      chain.nodes := [this];
    }

    /** The node a forced tail builds: it joins the chain of the node forced. */
    constructor Tail(s: seq<T>, c: Chain<T>)
      ensures chain == c && Elements() == s && !isCdrComputed && cdr == null
    {
      isEmptyStream := s == [];
      if s != [] {
        car := s[0];
        delayed := s[1..];
      } else {
        delayed := [];
      }
      isCdrComputed := false;
      cdr := null;
      chain := c;
    }

    predicate IsEmpty()
      ensures IsEmpty() <==> Elements() == []
    {
      isEmptyStream
    }

    function StreamCar(): (x: T)
      requires !isEmptyStream
      ensures x == Elements()[0]
    {
      car
    }

    /** streamCdr: force the tail the first time, return the cached node afterwards. */
    method StreamCdr() returns (r: Stream<T>)
      requires Valid() && !isEmptyStream
      modifies this, chain
      ensures Valid() && r.Valid() && r.chain == chain && isCdrComputed && cdr == r
      ensures r.Elements() == Elements()[1..]
      ensures old(isCdrComputed) ==> r == old(cdr) && chain.nodes == old(chain.nodes)
      ensures !old(isCdrComputed) ==> fresh(r) && chain.nodes == old(chain.nodes) + [r]
    {
      if isCdrComputed {
        CachedTail();
        return cdr;
      }
      r := new Stream.Tail(delayed, chain);
      Force(r);
    }

    /** A node whose tail is cached is followed in the chain by that tail. */
    lemma CachedTail()
      requires Valid() && isCdrComputed
      ensures cdr != null && cdr.Valid() && cdr.chain == chain && cdr.Elements() == delayed
    {
      var k :| 0 <= k < |chain.nodes| && chain.nodes[k] == this;
      assert k < |chain.nodes| - 1;
      chain.Link(k);
    }

    /** Caching the fresh tail `r` on the last node of the chain appends `r` to the chain. */
    method Force(r: Stream<T>)
      requires Valid() && !isEmptyStream && !isCdrComputed
      requires r != this && r.chain == chain && r.Elements() == delayed && !r.isCdrComputed
      modifies this, chain
      ensures isCdrComputed && cdr == r && chain.nodes == old(chain.nodes) + [r]
      ensures Valid() && r.Valid()
    {
      ghost var nodes := chain.nodes;
      chain.ForcedBeforeLast();
      ghost var last :| 0 <= last < |nodes| && nodes[last] == this;
      assert last == |nodes| - 1;
      cdr := r;
      isCdrComputed := true;
      chain.nodes := nodes + [r];
      forall j, k | 0 <= j && k == j + 1 && k < |chain.nodes|
        ensures chain.nodes[j].isCdrComputed && !chain.nodes[j].isEmptyStream
        ensures chain.nodes[j].cdr == chain.nodes[k] && chain.nodes[k].Elements() == chain.nodes[j].delayed
      {
        if k < |nodes| {
          assert old(nodes[j].isCdrComputed) && old(nodes[j].cdr) == nodes[k];
        }
      }
      assert chain.nodes[last] == this;
    }

    /** forEach, with the callback's effect recorded as the sequence of elements it is given. */
    method ForEach() returns (visited: seq<T>)
      requires Valid()
      modifies chain, chain.nodes
      ensures visited == Elements()
      ensures Valid() && old(chain.nodes) <= chain.nodes
      ensures forall m :: m in chain.nodes ==> m in old(chain.nodes) || fresh(m)
    {
      var current := this;
      visited := [];
      while !current.IsEmpty()
        invariant current.Valid() && current.chain == chain
        invariant old(chain.nodes) <= chain.nodes
        invariant forall m :: m in chain.nodes ==> m in old(chain.nodes) || fresh(m)
        invariant visited + current.Elements() == Elements()
        decreases |current.Elements()|
      {
        var x := current.StreamCar();
        ghost var rest := current.Elements();
        VisitHead(visited, rest, Elements());
        current := current.StreamCdr();
        visited := visited + [x];
      }
      assert visited + [] == visited;
      assert this in old(chain.nodes);
    }

    /** Moving the head of the rest to the end of the part already visited. */
    static lemma VisitHead(visited: seq<T>, rest: seq<T>, all: seq<T>)
      requires visited + rest == all && rest != []
      ensures (visited + [rest[0]]) + rest[1..] == all
    {
      assert rest == [rest[0]] + rest[1..];
    }

    /** reduce: fold the elements from the left. */
    method Reduce<U>(func: (U, T) -> U, init: U) returns (result: U)
      requires Valid()
      modifies chain, chain.nodes
      ensures result == FoldLeft(func, init, Elements())
      ensures Valid() && old(chain.nodes) <= chain.nodes
      ensures forall m :: m in chain.nodes ==> m in old(chain.nodes) || fresh(m)
    {
      var current := this;
      result := init;
      while !current.IsEmpty()
        invariant current.Valid() && current.chain == chain
        invariant old(chain.nodes) <= chain.nodes
        invariant forall m :: m in chain.nodes ==> m in old(chain.nodes) || fresh(m)
        invariant FoldLeft(func, result, current.Elements()) == FoldLeft(func, init, Elements())
        decreases |current.Elements()|
      {
        result := func(result, current.StreamCar());
        current := current.StreamCdr();
      }
      assert this in old(chain.nodes);
    }
  }

  /** A stream can be walked twice: both walks see the same elements, and it stays valid. */
  method ForEachTwice<T(0)>(s: Stream<T>) returns (first: seq<T>, second: seq<T>)
    requires s.Valid()
    modifies s.chain, set m | m in s.chain.nodes
    ensures first == second == s.Elements() && s.Valid()
  {
    first := s.ForEach();
    second := s.ForEach();
  }
}
