/** The nodes of the doubly linked list and the facts about chains of
    nodes that the list's operations rely on when they relink nodes. */
module ListNodes {
  import opened ListSpec

  /** A list node: its element and the links to its neighbours. */
  class Node {
    var data: int
    var prev: Node?
    var next: Node?

    /** A node holding `x`, linked to nothing. */
    constructor (x: int)
      ensures data == x && prev == null && next == null
    {
      data := x;
      prev := null;
      next := null;
    }
  }

  /** The links of `ns` chain its nodes in order, with null at both ends. */
  ghost predicate Linked(ns: seq<Node>)
    reads ns
  {
    (|ns| > 0 ==> ns[0].prev == null && ns[|ns| - 1].next == null) &&
    NextLinked(ns) && PrevLinked(ns)
  }

  /** Each node but the last points forward to the one after it. */
  ghost predicate NextLinked(ns: seq<Node>)
    reads ns
  {
    forall i :: 0 <= i < |ns| - 1 ==> ns[i].next == ns[i + 1]
  }

  /** Each node but the first points back to the one before it. */
  ghost predicate PrevLinked(ns: seq<Node>)
    reads ns
  {
    forall i :: 0 < i < |ns| ==> ns[i].prev == ns[i - 1]
  }

  /** The nodes `ns` hold the elements `es`, position by position. */
  ghost predicate Holds(ns: seq<Node>, es: seq<int>)
    reads ns
  {
    |ns| == |es| && forall i :: 0 <= i < |ns| ==> ns[i].data == es[i]
  }

  /** The node's own recursion: a node is sorted when it has no successor,
      or its successor is not smaller than it and is sorted itself.  The
      ghost `ns` and `es` name the chain the node `n` sits in at position `i`. */
  function IsSortedFrom(ghost ns: seq<Node>, ghost es: seq<int>, n: Node, ghost i: nat): (r: bool)
    requires Linked(ns) && Holds(ns, es) && i < |ns| && ns[i] == n
    reads ns
    ensures r == ChainSorted(es[i..])
    decreases |ns| - i
  {
    if n.next == null then
      LastOfChain(ns, i);
      true
    else
      assert i + 1 < |ns| && n.next == ns[i + 1];
      var m := n.next;
      assert es[i..][0] == n.data && es[i..][1] == m.data && es[i..][1..] == es[i + 1..];
      if m.data < n.data then false
      else IsSortedFrom(ns, es, m, i + 1)
  }

  /** Only the last node of a chain has no successor. */
  lemma LastOfChain(ns: seq<Node>, i: nat)
    requires NextLinked(ns) && i < |ns| && ns[i].next == null
    ensures i == |ns| - 1
  {
    forall k | 0 <= k < |ns| - 1 ensures ns[k].next != null {
      assert ns[k].next == ns[k + 1];
    }
  }

  lemma HoldsDrop(ns: seq<Node>, es: seq<int>, j: nat)
    requires Holds(ns, es) && j < |ns|
    ensures Holds(ns[..j] + ns[j + 1..], es[..j] + es[j + 1..])
  {
    var ms, fs := ns[..j] + ns[j + 1..], es[..j] + es[j + 1..];
    forall i | 0 <= i < |ms| ensures ms[i].data == fs[i] {
      if i < j { assert ms[i] == ns[i] && fs[i] == es[i]; }
      else { assert ms[i] == ns[i + 1] && fs[i] == es[i + 1]; }
    }
  }

  lemma HoldsInsert(ns: seq<Node>, es: seq<int>, ms: seq<Node>, fs: seq<int>, p: nat)
    requires Holds(ns, es) && Holds(ms, fs) && p <= |ns|
    ensures Holds(ns[..p] + ms + ns[p..], es[..p] + fs + es[p..])
  {
    var ts, gs := ns[..p] + ms + ns[p..], es[..p] + fs + es[p..];
    forall i | 0 <= i < |ts| ensures ts[i].data == gs[i] {
      if i < p { assert ts[i] == ns[i] && gs[i] == es[i]; }
      else if i < p + |ms| { assert ts[i] == ms[i - p] && gs[i] == fs[i - p]; }
      else { assert ts[i] == ns[i - |ms|] && gs[i] == es[i - |ms|]; }
    }
  }

  /** Merging chains by the keys they hold gives a chain that holds the
      merge of the keys: the nodes move, their data does not. */
  lemma {:induction false} HoldsMerge(xn: seq<Node>, xs: seq<int>, yn: seq<Node>, ys: seq<int>)
    requires Holds(xn, xs) && Holds(yn, ys)
    ensures Holds(MergeBy(xn, xs, yn, ys), MergeBy(xs, xs, ys, ys))
    decreases |xn| + |yn|
  {
    if xn != [] && yn != [] {
      if xs[0] > ys[0] {
        HoldsDrop(yn, ys, 0);
        assert yn[..0] + yn[1..] == yn[1..] && ys[..0] + ys[1..] == ys[1..];
        HoldsMerge(xn, xs, yn[1..], ys[1..]);
      } else {
        HoldsDrop(xn, xs, 0);
        assert xn[..0] + xn[1..] == xn[1..] && xs[..0] + xs[1..] == xs[1..];
        HoldsMerge(xn[1..], xs[1..], yn, ys);
      }
    }
  }

  lemma HoldsSwapped(ns: seq<Node>, es: seq<int>, i: nat, j: nat)
    requires Holds(ns, es) && i < |ns| && j < |ns|
    ensures Holds(Swapped(ns, i, j), Swapped(es, i, j))
  {
  }

  /** Two chains with no node in common. */
  ghost predicate Apart(ns: seq<Node>, ms: seq<Node>)
  {
    Distinct(ns) && Distinct(ms) && forall x :: x in ms ==> x !in ns
  }

  lemma DistinctSplice(ns: seq<Node>, ms: seq<Node>, p: nat)
    requires Apart(ns, ms) && p <= |ns|
    ensures Distinct(ns[..p] + ms + ns[p..])
    ensures forall x :: x in ns[..p] + ms + ns[p..] ==> x in ns || x in ms
  {
    var ts := ns[..p] + ms + ns[p..];
    forall i | 0 <= i < |ts| ensures ts[i] == if i < p then ns[i] else if i < p + |ms| then ms[i - p] else ns[i - |ms|] { }
    forall i, k | 0 <= i < k < |ts| ensures ts[i] != ts[k] {
      if (i < p && k < p) || (i >= p + |ms| && k >= p + |ms|) || (i < p && k >= p + |ms|) {
      } else if p <= i < p + |ms| && p <= k < p + |ms| {
      } else if p <= i < p + |ms| {
        assert ts[i] in ms;
      } else {
        assert ts[k] in ms;
      }
    }
  }

  /** Removing the node at position `j` of the chain `ns`. */
  datatype Cut = Cut(ns: seq<Node>, j: nat)
  {
    ghost predicate Ok()
    {
      j < |ns|
    }

    /** The chain without the removed node. */
    function Rest(): seq<Node>
      requires Ok()
    {
      ns[..j] + ns[j + 1..]
    }

    /** The nodes whose links the removal rewrites: the neighbours of the
        removed node (the removed node itself leaves the chain). */
    predicate Touches(x: Node)
      requires Ok()
    {
      x == ns[j] || (j > 0 && x == ns[j - 1]) || (j + 1 < |ns| && x == ns[j + 1])
    }
  }

  /** Unlinking the node at position `j`: its neighbours now point at each
      other and no other node of the chain changed its links. */
  twostate lemma DropLinks(c: Cut)
    requires c.Ok() && Distinct(c.ns) && old(Linked(c.ns))
    requires forall x :: x in c.ns && !c.Touches(x) ==> x.prev == old(x.prev) && x.next == old(x.next)
    requires c.j > 0 ==> (c.ns[c.j - 1].next == (if c.j + 1 < |c.ns| then c.ns[c.j + 1] else null) &&
      c.ns[c.j - 1].prev == old(c.ns[c.j - 1].prev))
    requires c.j + 1 < |c.ns| ==> (c.ns[c.j + 1].prev == (if c.j > 0 then c.ns[c.j - 1] else null) &&
      c.ns[c.j + 1].next == old(c.ns[c.j + 1].next))
    ensures Linked(c.Rest())
  {
    var ns, j := c.ns, c.j;
    DropNextLinks(c);
    DropPrevLinks(c);
    if j > 0 && j + 1 < |ns| { assert ns[0] != ns[j + 1]; assert ns[|ns| - 1] != ns[j - 1]; }
    else if j > 0 { assert ns[0] != ns[j]; }
    else if j + 1 < |ns| { assert ns[|ns| - 1] != ns[j]; }
  }

  twostate lemma DropNextLinks(c: Cut)
    requires c.Ok() && Distinct(c.ns) && old(Linked(c.ns))
    requires forall x :: x in c.ns && !c.Touches(x) ==> x.prev == old(x.prev) && x.next == old(x.next)
    requires c.j > 0 ==> (c.ns[c.j - 1].next == (if c.j + 1 < |c.ns| then c.ns[c.j + 1] else null) &&
      c.ns[c.j - 1].prev == old(c.ns[c.j - 1].prev))
    requires c.j + 1 < |c.ns| ==> (c.ns[c.j + 1].prev == (if c.j > 0 then c.ns[c.j - 1] else null) &&
      c.ns[c.j + 1].next == old(c.ns[c.j + 1].next))
    ensures NextLinked(c.Rest())
  {
    var ns, j := c.ns, c.j;
    var ms := c.Rest();
    forall i | 0 <= i < |ms| - 1 ensures ms[i].next == ms[i + 1] {
      if i < j - 1 {
        assert ms[i] == ns[i] && ms[i + 1] == ns[i + 1];
        assert ns[i] != ns[j] && ns[i] != ns[j - 1];
        assert j + 1 < |ns| ==> ns[i] != ns[j + 1];
      } else if i > j {
        assert ms[i] == ns[i + 1] && ms[i + 1] == ns[i + 2];
        assert ns[i + 1] != ns[j] && ns[i + 1] != ns[j + 1];
        assert j > 0 ==> ns[i + 1] != ns[j - 1];
      } else if i == j {
        assert ms[i] == ns[j + 1] && ms[i + 1] == ns[j + 2];
      } else {
        assert ms[i] == ns[j - 1] && ms[i + 1] == ns[j + 1];
      }
    }
  }

  twostate lemma DropPrevLinks(c: Cut)
    requires c.Ok() && Distinct(c.ns) && old(Linked(c.ns))
    requires forall x :: x in c.ns && !c.Touches(x) ==> x.prev == old(x.prev) && x.next == old(x.next)
    requires c.j > 0 ==> (c.ns[c.j - 1].next == (if c.j + 1 < |c.ns| then c.ns[c.j + 1] else null) &&
      c.ns[c.j - 1].prev == old(c.ns[c.j - 1].prev))
    requires c.j + 1 < |c.ns| ==> (c.ns[c.j + 1].prev == (if c.j > 0 then c.ns[c.j - 1] else null) &&
      c.ns[c.j + 1].next == old(c.ns[c.j + 1].next))
    ensures PrevLinked(c.Rest())
  {
    var ns, j := c.ns, c.j;
    var ms := c.Rest();
    forall i | 0 < i < |ms| ensures ms[i].prev == ms[i - 1] {
      if i < j - 1 {
        assert ms[i] == ns[i] && ms[i - 1] == ns[i - 1];
        assert ns[i] != ns[j] && ns[i] != ns[j - 1];
        assert j + 1 < |ns| ==> ns[i] != ns[j + 1];
      } else if i > j {
        assert ms[i] == ns[i + 1] && ms[i - 1] == ns[i];
        assert ns[i + 1] != ns[j] && ns[i + 1] != ns[j + 1];
        assert j > 0 ==> ns[i + 1] != ns[j - 1];
      } else if i == j {
        assert ms[i] == ns[j + 1] && ms[i - 1] == ns[j - 1];
      } else {
        assert ms[i] == ns[j - 1] && ms[i - 1] == ns[j - 2];
      }
    }
  }

  /** Putting the chain `ms` into the chain `ns` before position `p`. */
  datatype Insertion = Insertion(ns: seq<Node>, ms: seq<Node>, p: nat)
  {
    ghost predicate Ok()
    {
      p <= |ns| && |ms| > 0 && Apart(ns, ms)
    }

    /** The chain after the insertion. */
    function Joined(): seq<Node>
      requires p <= |ns|
    {
      ns[..p] + ms + ns[p..]
    }

    /** The nodes whose links the insertion rewrites: the two ends of `ms`
        and the nodes of `ns` on either side of position `p`. */
    predicate Touches(x: Node)
      requires p <= |ns| && |ms| > 0
    {
      x == ms[0] || x == ms[|ms| - 1] || (p > 0 && x == ns[p - 1]) || (p < |ns| && x == ns[p])
    }
  }

  /** The link writes of an insertion: the nodes at the seams point at each
      other and every other node of both chains kept its links. */
  twostate predicate Seamed(s: Insertion)
    requires s.Ok()
    reads s.ns, s.ms
  {
    (forall i :: 0 <= i < |s.ns| && !s.Touches(s.ns[i]) ==>
      s.ns[i].prev == old(s.ns[i].prev) && s.ns[i].next == old(s.ns[i].next)) &&
    (forall i :: 0 <= i < |s.ms| && !s.Touches(s.ms[i]) ==>
      s.ms[i].prev == old(s.ms[i].prev) && s.ms[i].next == old(s.ms[i].next)) &&
    (s.p > 0 ==> s.ns[s.p - 1].next == s.ms[0] && s.ns[s.p - 1].prev == old(s.ns[s.p - 1].prev)) &&
    (s.p < |s.ns| ==> s.ns[s.p].prev == s.ms[|s.ms| - 1] && s.ns[s.p].next == old(s.ns[s.p].next)) &&
    s.ms[0].prev == (if s.p > 0 then s.ns[s.p - 1] else null) &&
    s.ms[|s.ms| - 1].next == (if s.p < |s.ns| then s.ns[s.p] else null) &&
    (|s.ms| > 1 ==> s.ms[0].next == old(s.ms[0].next) && s.ms[|s.ms| - 1].prev == old(s.ms[|s.ms| - 1].prev))
  }

  /** Splicing one chain into another gives one chain. */
  twostate lemma InsertLinks(s: Insertion)
    requires s.Ok() && old(Linked(s.ns)) && old(NextLinked(s.ms)) && old(PrevLinked(s.ms)) && Seamed(s)
    ensures Linked(s.Joined())
  {
    InsertNextLinks(s);
    InsertPrevLinks(s);
    InsertEnds(s);
  }

  twostate lemma InsertNextLinks(s: Insertion)
    requires s.Ok() && old(Linked(s.ns)) && old(NextLinked(s.ms)) && old(PrevLinked(s.ms)) && Seamed(s)
    ensures NextLinked(s.Joined())
  {
    var ns, ms, p := s.ns, s.ms, s.p;
    var ts := s.Joined();
    var m := |ms|;
    forall i | 0 <= i < |ts| - 1 ensures ts[i].next == ts[i + 1] {
      if i < p - 1 {
        assert ts[i] == ns[i] && ts[i + 1] == ns[i + 1];
        assert ns[i] != ns[p - 1] && ns[i] !in ms;
        assert p < |ns| ==> ns[i] != ns[p];
      } else if p <= i < p + m - 1 {
        assert ts[i] == ms[i - p] && ts[i + 1] == ms[i - p + 1];
        assert ms[i - p] !in ns;
        assert i - p > 0 ==> ms[i - p] != ms[0];
        assert ms[i - p] != ms[m - 1];
      } else if i >= p + m {
        assert ts[i] == ns[i - m] && ts[i + 1] == ns[i + 1 - m];
        assert ns[i - m] !in ms;
        assert i - m > p ==> ns[i - m] != ns[p];
        assert p > 0 ==> ns[i - m] != ns[p - 1];
      } else if i == p - 1 {
        assert ts[i] == ns[p - 1] && ts[i + 1] == ms[0];
      } else {
        assert ts[i] == ms[m - 1];
      }
    }
  }

  twostate lemma InsertPrevLinks(s: Insertion)
    requires s.Ok() && old(Linked(s.ns)) && old(NextLinked(s.ms)) && old(PrevLinked(s.ms)) && Seamed(s)
    ensures PrevLinked(s.Joined())
  {
    var ns, ms, p := s.ns, s.ms, s.p;
    var ts := s.Joined();
    var m := |ms|;
    forall i | 0 < i < |ts| ensures ts[i].prev == ts[i - 1] {
      if i < p {
        assert ts[i] == ns[i] && ts[i - 1] == ns[i - 1];
        assert ns[i] !in ms;
        assert i < p - 1 ==> ns[i] != ns[p - 1];
        assert p < |ns| ==> ns[i] != ns[p];
      } else if p < i < p + m {
        assert ts[i] == ms[i - p] && ts[i - 1] == ms[i - p - 1];
        assert ms[i - p] !in ns;
        assert ms[i - p] != ms[0];
        assert i - p < m - 1 ==> ms[i - p] != ms[m - 1];
      } else if i > p + m {
        assert ts[i] == ns[i - m] && ts[i - 1] == ns[i - 1 - m];
        assert ns[i - m] !in ms;
        assert ns[i - m] != ns[p];
        assert p > 0 ==> ns[i - m] != ns[p - 1];
      } else if i == p {
        assert ts[i] == ms[0];
      } else {
        assert ts[i] == ns[p] && ts[i - 1] == ms[m - 1];
      }
    }
  }

  twostate lemma InsertEnds(s: Insertion)
    requires s.Ok() && old(Linked(s.ns)) && old(NextLinked(s.ms)) && old(PrevLinked(s.ms)) && Seamed(s)
    ensures s.Joined()[0].prev == null
    ensures s.Joined()[|s.ns| + |s.ms| - 1].next == null
  {
    var ns, ms, p := s.ns, s.ms, s.p;
    var ts := s.Joined();
    if p > 0 {
      assert ts[0] == ns[0];
      assert ns[0] !in ms;
      assert p < |ns| ==> ns[0] != ns[p];
    } else {
      assert ts[0] == ms[0];
    }
    if p < |ns| {
      assert ts[|ts| - 1] == ns[|ns| - 1];
      assert ns[|ns| - 1] !in ms;
      assert p > 0 ==> ns[|ns| - 1] != ns[p - 1];
    } else {
      assert ts[|ts| - 1] == ms[|ms| - 1];
    }
  }

  /** Exchanging the nodes at positions `i < j` of the chain `ns`. */
  datatype Transposition = Transposition(ns: seq<Node>, i: nat, j: nat)
  {
    predicate Ok()
    {
      i < j < |ns|
    }

    /** The chain after the exchange. */
    function Result(): seq<Node>
      requires Ok()
    {
      Swapped(ns, i, j)
    }

    /** The node before position `k`, or null at the front. */
    function Before(k: nat): Node?
      requires k < |ns|
    {
      if k > 0 then ns[k - 1] else null
    }

    /** The node after position `k`, or null at the back. */
    function After(k: nat): Node?
      requires k < |ns|
    {
      if k + 1 < |ns| then ns[k + 1] else null
    }

    /** The nodes whose links the exchange rewrites: the two exchanged
        nodes and their neighbours. */
    predicate Touches(x: Node)
      requires Ok()
    {
      x == ns[i] || x == ns[j] || x == ns[i + 1] || x == ns[j - 1] ||
      (i > 0 && x == ns[i - 1]) || (j + 1 < |ns| && x == ns[j + 1])
    }
  }

  /** The link writes of an exchange: the node from position `j` takes the
      links the node at `i` had and vice versa, their neighbours point at
      them, and every other link is as it was. */
  twostate predicate Rewired(e: Transposition)
    requires e.Ok()
    reads e.ns
  {
    var ns, i, j := e.ns, e.i, e.j;
    var a, b := ns[i], ns[j];
    b.prev == e.Before(i) && a.next == e.After(j) &&
    (j == i + 1 ==> b.next == a && a.prev == b) &&
    (j > i + 1 ==> b.next == ns[i + 1] && a.prev == ns[j - 1] && ns[i + 1].prev == b && ns[j - 1].next == a) &&
    (j > i + 2 ==> ns[i + 1].next == old(ns[i + 1].next) && ns[j - 1].prev == old(ns[j - 1].prev)) &&
    (i > 0 ==> ns[i - 1].next == b && ns[i - 1].prev == old(ns[i - 1].prev)) &&
    (j + 1 < |ns| ==> ns[j + 1].prev == a && ns[j + 1].next == old(ns[j + 1].next)) &&
    forall x :: x in ns && !e.Touches(x) ==> x.prev == old(x.prev) && x.next == old(x.next)
  }

  /** The writes of exchanging two neighbours: they point at each other the
      other way round, at the nodes around them, and those point back. */
  twostate lemma RewiredNeighbours(e: Transposition)
    requires e.Ok() && e.j == e.i + 1 && Distinct(e.ns)
    requires var a, b, p, n := e.ns[e.i], e.ns[e.j], e.Before(e.i), e.After(e.j);
      b.prev == p && a.next == n && b.next == a && a.prev == b &&
      (p != null ==> p.next == b && p.prev == old(p.prev)) &&
      (n != null ==> n.prev == a && n.next == old(n.next)) &&
      forall x :: x in e.ns && x != a && x != b && x != p && x != n ==> x.prev == old(x.prev) && x.next == old(x.next)
    ensures Rewired(e)
  {
  }

  /** The writes of exchanging two nodes with at least one node between
      them: each takes the other's neighbours, and those point back. */
  twostate lemma RewiredApart(e: Transposition)
    requires e.Ok() && e.j > e.i + 1 && Distinct(e.ns)
    requires var a, b, p, n := e.ns[e.i], e.ns[e.j], e.Before(e.i), e.After(e.j);
      var r, q := e.ns[e.i + 1], e.ns[e.j - 1];
      b.prev == p && b.next == r && a.prev == q && a.next == n && r.prev == b && q.next == a &&
      (e.j > e.i + 2 ==> r.next == old(r.next) && q.prev == old(q.prev)) &&
      (p != null ==> p.next == b && p.prev == old(p.prev)) &&
      (n != null ==> n.prev == a && n.next == old(n.next)) &&
      forall x :: x in e.ns && x != a && x != b && x != p && x != n && x != r && x != q ==>
        x.prev == old(x.prev) && x.next == old(x.next)
    ensures Rewired(e)
  {
  }

  /** Rewiring a chain of distinct nodes as `Rewired` says gives the chain
      with the two nodes exchanged. */
  twostate lemma RewiredLinked(e: Transposition)
    requires e.Ok() && Distinct(e.ns) && old(Linked(e.ns)) && Rewired(e)
    ensures Linked(e.Result())
  {
    RewiredNext(e);
    RewiredPrev(e);
    var ns, i, j, n := e.ns, e.i, e.j, |e.ns|;
    var ts := e.Result();
    RewiredRest(e);
    if i > 0 {
      assert ts[0] == ns[0];
    }
    if j < n - 1 {
      assert ts[n - 1] == ns[n - 1];
    }
  }

  /** The nodes away from both exchanged positions keep their links. */
  twostate lemma RewiredRest(e: Transposition)
    requires e.Ok() && Distinct(e.ns) && Rewired(e)
    ensures forall k :: 0 <= k < |e.ns| && k != e.i - 1 && k != e.i && k != e.i + 1 && k != e.j - 1 && k != e.j && k != e.j + 1 ==>
      e.ns[k].prev == old(e.ns[k].prev) && e.ns[k].next == old(e.ns[k].next)
  {
    forall k | 0 <= k < |e.ns| && k != e.i - 1 && k != e.i && k != e.i + 1 && k != e.j - 1 && k != e.j && k != e.j + 1
      ensures e.ns[k].prev == old(e.ns[k].prev) && e.ns[k].next == old(e.ns[k].next)
    {
      assert e.ns[k] in e.ns && !e.Touches(e.ns[k]);
    }
  }

  twostate lemma RewiredNext(e: Transposition)
    requires e.Ok() && Distinct(e.ns) && old(Linked(e.ns)) && Rewired(e)
    ensures NextLinked(e.Result())
  {
    var ns, i, j := e.ns, e.i, e.j;
    var ts := e.Result();
    RewiredRest(e);
    forall k | 0 <= k < |ns| - 1 ensures ts[k].next == ts[k + 1] {
      if k == j - 1 && k > i + 1 {
        assert ts[k] == ns[j - 1];
      } else if k == i + 1 && k < j {
        assert ts[k] == ns[i + 1];
        if j > i + 2 { assert ts[k + 1] == ns[i + 2]; }
      } else if k + 1 != i && k != i && k != j {
        assert ts[k] == ns[k] && ts[k + 1] == ns[k + 1];
      }
    }
  }

  twostate lemma RewiredPrev(e: Transposition)
    requires e.Ok() && Distinct(e.ns) && old(Linked(e.ns)) && Rewired(e)
    ensures PrevLinked(e.Result())
  {
    var ns, i, j := e.ns, e.i, e.j;
    var ts := e.Result();
    RewiredRest(e);
    forall k | 0 < k < |ns| ensures ts[k].prev == ts[k - 1] {
      if k == j - 1 && k > i + 1 {
        assert ts[k] == ns[j - 1];
        if j > i + 2 { assert ts[k - 1] == ns[j - 2]; }
      } else if k == i + 1 && k < j {
        assert ts[k] == ns[i + 1];
      } else if k != i && k != j && k != j + 1 {
        assert ts[k] == ns[k] && ts[k - 1] == ns[k - 1];
      }
    }
  }
}
