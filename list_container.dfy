/** The doubly linked list container: a heap of nodes reached from the
    list's first and last pointers, with a node count. */
module LinkedList {
  import opened Errors
  import opened ListSpec
  import opened ListNodes

  /** Nodes spliced into a list before position `p`: the chain `ms`
      holding the elements `fs`. */
  datatype Graft = Graft(ms: seq<Node>, fs: seq<int>, p: nat)

  /** A chain of nodes together with the keys they are meant to hold. */
  datatype Keyed = Keyed(ns: seq<Node>, es: seq<int>)

  class List {
    var first: Node?
    var last: Node?
    var count: nat
    /** The nodes from first to last, and the elements they hold. */
    ghost var nodes: seq<Node>
    ghost var elems: seq<int>
    ghost var Repr: set<object>

    /** The list is a null-terminated doubly linked chain of distinct nodes
        from `first` to `last`, and `count` is its length. */
    ghost predicate Valid()
      reads this, Repr
      ensures Valid() ==> this in Repr
    {
      this in Repr &&
      count == |nodes| &&
      (forall x :: x in nodes ==> x in Repr) &&
      Distinct(nodes) && Linked(nodes) && Holds(nodes, elems) &&
      first == (if |nodes| == 0 then null else nodes[0]) &&
      last == (if |nodes| == 0 then null else nodes[|nodes| - 1])
    }

    /** An empty list. */
    constructor ()
      ensures Valid() && fresh(Repr)
      ensures elems == []
    {
      first, last, count := null, null, 0;
      nodes, elems := [], [];
      Repr := {this};
    }

    /** `n` default elements, appended one at a time. */
    constructor Sized(n: nat)
      ensures Valid() && fresh(Repr)
      ensures elems == seq(n, _ => 0)
    {
      first, last, count := null, null, 0;
      nodes, elems := [], [];
      Repr := {this};
      new;
      while count < n
        invariant Valid() && fresh(Repr) && count <= n
        invariant elems == seq(count, _ => 0)
        decreases n - count
      {
        Append(0);
      }
    }

    /** `n` copies of `x`, appended one at a time. */
    constructor Fill(n: nat, x: int)
      ensures Valid() && fresh(Repr)
      ensures elems == seq(n, _ => x)
    {
      first, last, count := null, null, 0;
      nodes, elems := [], [];
      Repr := {this};
      new;
      while count < n
        invariant Valid() && fresh(Repr) && count <= n
        invariant elems == seq(count, _ => x)
        decreases n - count
      {
        Append(x);
      }
    }

    /** The elements of `s` from position `b` up to and including
        position `e`: the range's end is appended too. */
    constructor Range(s: seq<int>, b: nat, e: nat)
      requires b <= e < |s|
      ensures Valid() && fresh(Repr)
      ensures elems == s[b..e + 1]
    {
      first, last, count := null, null, 0;
      nodes, elems := [], [];
      Repr := {this};
      new;
      var k := b;
      while true
        invariant b <= k <= e && Valid() && fresh(Repr)
        invariant elems == s[b..k]
        decreases e - k
      {
        Append(s[k]);
        SliceGrow(s, b, k);
        if k != e {
          k := k + 1;
        } else {
          break;
        }
      }
    }

    /** A copy of the elements of `other`, in order, on nodes of its own,
        read through a cursor on `other`. */
    constructor Copy(other: List)
      requires other.Valid()
      ensures Valid() && fresh(Repr)
      ensures elems == other.elems
    {
      first, last, count := null, null, 0;
      nodes, elems := [], [];
      Repr := {this};
      new;
      var r := other.Begin();
      if r.Ok? {
        var it := r.value;
        while count != other.count
          invariant Valid() && fresh(Repr) && Repr !! other.Repr && other.Valid()
          invariant it !in Repr && it !in other.Repr
          invariant count <= |other.nodes| && elems == other.elems[..count]
          invariant it.node == other.nodes[if count < |other.nodes| then count else |other.nodes| - 1]
          decreases |other.nodes| - count
        {
          CopyStep(other, it, count);
        }
      }
    }

    /** One round of the copying loop: the element under the cursor `it`,
        at position `k` of `other`, is appended and the cursor moves on. */
    method CopyStep(other: List, it: Iterator, ghost k: nat)
      requires Valid() && other.Valid() && Repr !! other.Repr && it !in Repr && it !in other.Repr
      requires k == count < |other.nodes| && elems == other.elems[..k] && it.node == other.nodes[k]
      modifies Repr, it
      ensures Valid() && fresh(Repr - old(Repr)) && Repr !! other.Repr && it !in Repr && other.Valid()
      ensures count == k + 1 && elems == other.elems[..k + 1]
      ensures it.node == other.nodes[if k + 1 < |other.nodes| then k + 1 else k]
    {
      var x := it.Get(other, k);
      AppendBeside(x, other);
      it.Increment(other, k);
    }

    /** `Append`, seen from a list `other` that shares no object with this
        one and so is left as it was. */
    method AppendBeside(x: int, ghost other: List)
      requires Valid() && other.Valid() && Repr !! other.Repr
      modifies Repr
      ensures Valid() && fresh(Repr - old(Repr)) && Repr !! other.Repr && other.Valid()
      ensures elems == old(elems) + [x] && unchanged(other)
    {
      Append(x);
      assert unchanged(other.Repr);
    }

    /** Takes over the nodes of `other`, which is left empty. */
    constructor Move(other: List)
      requires other.Valid()
      modifies other
      ensures Valid() && other.Valid()
      ensures elems == old(other.elems) && other.elems == []
      ensures Repr == old(other.Repr) - {other} + {this} && other.Repr == {other}
    {
      first, last, count := other.first, other.last, other.count;
      nodes, elems := other.nodes, other.elems;
      Repr := other.Repr - {other} + {this};
      new;
      other.first, other.last, other.count := null, null, 0;
      other.nodes, other.elems, other.Repr := [], [], {other};
    }

    /** The elements of `s`, appended in order. */
    constructor FromSeq(s: seq<int>)
      ensures Valid() && fresh(Repr)
      ensures elems == s
    {
      first, last, count := null, null, 0;
      nodes, elems := [], [];
      Repr := {this};
      new;
      for i := 0 to |s|
        invariant Valid() && fresh(Repr)
        invariant elems == s[..i]
      {
        Append(s[i]);
      }
    }

    /** Removing the node at position `j` keeps the list valid, given the
        writes that unlink it. */
    twostate lemma Dropped(j: nat)
      requires old(Valid()) && j < old(|nodes|)
      requires nodes == DropAt(old(nodes), j) && elems == DropAt(old(elems), j)
      requires Repr == old(Repr - {nodes[j]}) && count == |nodes|
      requires first == (if j == 0 then (if j + 1 < old(|nodes|) then old(nodes[j + 1]) else null) else old(first))
      requires last == (if j + 1 == old(|nodes|) then (if j > 0 then old(nodes[j - 1]) else null) else old(last))
      requires forall x :: x in old(nodes) && !Cut(old(nodes), j).Touches(x) ==> x.prev == old(x.prev) && x.next == old(x.next)
      requires j > 0 ==> (old(nodes[j - 1]).next == (if j + 1 < old(|nodes|) then old(nodes[j + 1]) else null) &&
        old(nodes[j - 1]).prev == old(nodes[j - 1].prev))
      requires j + 1 < old(|nodes|) ==> (old(nodes[j + 1]).prev == (if j > 0 then old(nodes[j - 1]) else null) &&
        old(nodes[j + 1]).next == old(nodes[j + 1].next))
      requires forall x :: x in old(nodes) ==> x.data == old(x.data)
      ensures Valid()
    {
      DroppedShape(j);
      DroppedData(j);
    }

    /** The shape half of `Dropped`: the remaining nodes are linked,
        distinct and owned by the list, and the end pointers sit on them. */
    twostate lemma DroppedShape(j: nat)
      requires old(Valid()) && j < old(|nodes|)
      requires nodes == DropAt(old(nodes), j)
      requires Repr == old(Repr - {nodes[j]})
      requires first == (if j == 0 then (if j + 1 < old(|nodes|) then old(nodes[j + 1]) else null) else old(first))
      requires last == (if j + 1 == old(|nodes|) then (if j > 0 then old(nodes[j - 1]) else null) else old(last))
      requires forall x :: x in old(nodes) && !Cut(old(nodes), j).Touches(x) ==> x.prev == old(x.prev) && x.next == old(x.next)
      requires j > 0 ==> (old(nodes[j - 1]).next == (if j + 1 < old(|nodes|) then old(nodes[j + 1]) else null) &&
        old(nodes[j - 1]).prev == old(nodes[j - 1].prev))
      requires j + 1 < old(|nodes|) ==> (old(nodes[j + 1]).prev == (if j > 0 then old(nodes[j - 1]) else null) &&
        old(nodes[j + 1]).next == old(nodes[j + 1].next))
      ensures Linked(nodes) && Distinct(nodes) && forall x :: x in nodes ==> x in Repr
      ensures first == (if |nodes| == 0 then null else nodes[0])
      ensures last == (if |nodes| == 0 then null else nodes[|nodes| - 1])
    {
      var ns := old(nodes);
      DropLinks(Cut(ns, j));
      DistinctDrop(ns, j);
      if j == 0 && j + 1 < |ns| { assert nodes[0] == ns[1]; }
      if j + 1 == |ns| && j > 0 { assert nodes[|nodes| - 1] == ns[j - 1]; }
    }

    /** The data half of `Dropped`: every remaining node still carries its
        element. */
    twostate lemma DroppedData(j: nat)
      requires old(Valid()) && j < old(|nodes|)
      requires nodes == DropAt(old(nodes), j) && elems == DropAt(old(elems), j)
      requires forall x :: x in old(nodes) ==> x.data == old(x.data)
      ensures Holds(nodes, elems)
    {
      var ns, es := old(nodes), old(elems);
      forall i | 0 <= i < |ns| ensures ns[i].data == es[i] {
        assert ns[i] in ns;
      }
      HoldsDrop(ns, es, j);
    }

    /** Splicing the chain `g.ms` into the list before position `g.p` keeps
        the list valid, given the writes that link it in. */
    twostate lemma Grafted(g: Graft)
      requires old(Valid()) && g.p <= old(|nodes|) && |g.ms| > 0
      requires Distinct(g.ms) && forall x :: x in g.ms ==> x !in old(Repr)
      requires old(NextLinked(g.ms)) && old(PrevLinked(g.ms)) && old(Holds(g.ms, g.fs))
      requires Seamed(Insertion(old(nodes), g.ms, g.p))
      requires forall x :: x in old(nodes) || x in g.ms ==> x.data == old(x.data)
      requires nodes == old(nodes)[..g.p] + g.ms + old(nodes)[g.p..]
      requires elems == old(elems)[..g.p] + g.fs + old(elems)[g.p..]
      requires count == |nodes| && this in Repr && old(Repr) <= Repr && forall x :: x in g.ms ==> x in Repr
      requires first == (if g.p == 0 then g.ms[0] else old(first))
      requires last == (if g.p == old(|nodes|) then g.ms[|g.ms| - 1] else old(last))
      ensures Valid()
    {
      GraftedShape(g);
      GraftedData(g);
    }

    /** The shape half of `Grafted`: the nodes are linked, distinct and owned
        by the list. */
    twostate lemma GraftedShape(g: Graft)
      requires old(Valid()) && g.p <= old(|nodes|) && |g.ms| > 0
      requires Distinct(g.ms) && forall x :: x in g.ms ==> x !in old(Repr)
      requires old(NextLinked(g.ms)) && old(PrevLinked(g.ms))
      requires Seamed(Insertion(old(nodes), g.ms, g.p))
      requires nodes == old(nodes)[..g.p] + g.ms + old(nodes)[g.p..]
      requires old(Repr) <= Repr && forall x :: x in g.ms ==> x in Repr
      requires first == (if g.p == 0 then g.ms[0] else old(first))
      requires last == (if g.p == old(|nodes|) then g.ms[|g.ms| - 1] else old(last))
      ensures Linked(nodes) && Distinct(nodes) && forall x :: x in nodes ==> x in Repr
      ensures first == nodes[0] && last == nodes[|nodes| - 1]
    {
      var ns, ms, p := old(nodes), g.ms, g.p;
      var s := Insertion(ns, ms, p);
      assert s.Ok() && s.Joined() == nodes;
      InsertLinks(s);
      DistinctSplice(ns, ms, p);
      SpliceEnds(ns, ms, p);
    }

    /** A chain that holds the same keys before and after kept the data of
        every node. */
    static twostate lemma KeptByHolds(c: Keyed)
      requires old(Holds(c.ns, c.es)) && Holds(c.ns, c.es)
      ensures forall x :: x in c.ns ==> x.data == old(x.data)
    {
      forall x | x in c.ns
        ensures x.data == old(x.data)
      {
        var i :| 0 <= i < |c.ns| && c.ns[i] == x;
      }
    }

    /** The data half of `Grafted`: every node still carries its element. */
    twostate lemma GraftedData(g: Graft)
      requires old(Valid()) && g.p <= old(|nodes|) && old(Holds(g.ms, g.fs))
      requires forall x :: x in old(nodes) || x in g.ms ==> x.data == old(x.data)
      requires nodes == old(nodes)[..g.p] + g.ms + old(nodes)[g.p..]
      requires elems == old(elems)[..g.p] + g.fs + old(elems)[g.p..]
      ensures Holds(nodes, elems)
    {
      var ns, es, ms, fs, p := old(nodes), old(elems), g.ms, g.fs, g.p;
      forall i | 0 <= i < |ns| ensures ns[i].data == es[i] {
        assert ns[i] in ns;
      }
      forall i | 0 <= i < |ms| ensures ms[i].data == fs[i] {
        assert ms[i] in ms;
      }
      HoldsInsert(ns, es, ms, fs, p);
    }

    /** Linking a whole chain `g.ms` in at position `g.p` keeps the list
        valid, given the writes that link its two ends to their new
        neighbours; every other node kept its links. */
    twostate lemma ChainGrafted(g: Graft)
      requires old(Valid()) && g.p <= old(|nodes|) && |g.ms| > 0
      requires Distinct(g.ms) && forall x :: x in g.ms ==> x !in old(Repr)
      requires old(NextLinked(g.ms)) && old(PrevLinked(g.ms)) && old(Holds(g.ms, g.fs))
      requires g.ms[0].prev == (if g.p > 0 then old(nodes[g.p - 1]) else null)
      requires g.ms[|g.ms| - 1].next == (if g.p < old(|nodes|) then old(nodes[g.p]) else null)
      requires |g.ms| > 1 ==> g.ms[0].next == old(g.ms[0].next) && g.ms[|g.ms| - 1].prev == old(g.ms[|g.ms| - 1].prev)
      requires g.p > 0 ==> old(nodes[g.p - 1]).next == g.ms[0] && old(nodes[g.p - 1]).prev == old(nodes[g.p - 1].prev)
      requires g.p < old(|nodes|) ==> old(nodes[g.p]).prev == g.ms[|g.ms| - 1] && old(nodes[g.p]).next == old(nodes[g.p].next)
      requires forall x ::
        ((x in old(nodes) || x in g.ms) && x != g.ms[0] && x != g.ms[|g.ms| - 1] &&
         (g.p == 0 || x != old(nodes[g.p - 1])) && (g.p == old(|nodes|) || x != old(nodes[g.p]))) ==>
        x.prev == old(x.prev) && x.next == old(x.next)
      requires forall x :: x in old(nodes) || x in g.ms ==> x.data == old(x.data)
      requires nodes == old(nodes)[..g.p] + g.ms + old(nodes)[g.p..]
      requires elems == old(elems)[..g.p] + g.fs + old(elems)[g.p..]
      requires count == |nodes| && this in Repr && old(Repr) <= Repr && forall x :: x in g.ms ==> x in Repr
      requires first == (if g.p == 0 then g.ms[0] else old(first))
      requires last == (if g.p == old(|nodes|) then g.ms[|g.ms| - 1] else old(last))
      ensures Valid()
    {
      var s := Insertion(old(nodes), g.ms, g.p);
      assert s.Ok();
      forall i | 0 <= i < |s.ns| && !s.Touches(s.ns[i])
        ensures s.ns[i].prev == old(s.ns[i].prev) && s.ns[i].next == old(s.ns[i].next)
      {
        assert s.ns[i] in old(nodes) && s.ns[i] !in g.ms;
      }
      forall i | 0 <= i < |s.ms| && !s.Touches(s.ms[i])
        ensures s.ms[i].prev == old(s.ms[i].prev) && s.ms[i].next == old(s.ms[i].next)
      {
        assert s.ms[i] in g.ms && s.ms[i] !in old(nodes);
      }
      assert Seamed(s);
      Grafted(g);
    }

    /** Linking one new node in at position `p` keeps the list valid,
        given the writes that link it to its neighbours. */
    twostate lemma Inserted(p: nat)
      requires old(Valid()) && p <= old(|nodes|)
      requires |nodes| == old(|nodes|) + 1 && nodes == old(nodes)[..p] + [nodes[p]] + old(nodes)[p..]
      requires elems == old(elems)[..p] + [nodes[p].data] + old(elems)[p..]
      requires var n := nodes[p]; old(allocated(n)) && n.data == old(n.data)
      requires nodes[p] !in old(Repr) && Repr == old(Repr) + {nodes[p]}
      requires count == |nodes|
      requires nodes[p].prev == (if p > 0 then old(nodes[p - 1]) else null)
      requires nodes[p].next == (if p < old(|nodes|) then old(nodes[p]) else null)
      requires p > 0 ==> old(nodes[p - 1]).next == nodes[p] && old(nodes[p - 1]).prev == old(nodes[p - 1].prev)
      requires p < old(|nodes|) ==> old(nodes[p]).prev == nodes[p] && old(nodes[p]).next == old(nodes[p].next)
      requires forall x :: x in old(nodes) && (p == 0 || x != old(nodes[p - 1])) && (p == old(|nodes|) || x != old(nodes[p])) ==>
        x.prev == old(x.prev) && x.next == old(x.next)
      requires forall x :: x in old(nodes) ==> x.data == old(x.data)
      requires first == nodes[0] && last == nodes[|nodes| - 1]
      ensures Valid()
    {
      var n := nodes[p];
      var g := Graft([n], [n.data], p);
      assert old(Holds([n], [n.data]));
      Grafted(g);
    }

    /** Adds `x` after the last element. */
    method Append(x: int)
      requires Valid()
      modifies Repr
      ensures Valid() && fresh(Repr - old(Repr))
      ensures elems == old(elems) + [x]
      ensures |nodes| == old(|nodes|) + 1 && nodes[..old(|nodes|)] == old(nodes) && fresh(nodes[old(|nodes|)])
    {
      var n := new Node(x);
      label L:
      if count == 0 {
        first := n;
        last := n;
      } else {
        last.next := n;
        n.prev := last;
        last := n;
      }
      count := count + 1;
      ghost var p := |nodes|;
      nodes, elems, Repr := nodes + [n], elems + [x], Repr + {n};
      Inserted@L(p);
    }

    /** Adds `x` before the first element. */
    method Prepend(x: int)
      requires Valid()
      modifies Repr
      ensures Valid() && fresh(Repr - old(Repr))
      ensures elems == [x] + old(elems)
      ensures |nodes| == old(|nodes|) + 1 && nodes[1..] == old(nodes) && fresh(nodes[0])
    {
      var n := new Node(x);
      label L:
      if count == 0 {
        first := n;
        last := n;
      } else {
        first.prev := n;
        n.next := first;
        first := n;
      }
      count := count + 1;
      nodes, elems, Repr := [n] + nodes, [x] + elems, Repr + {n};
      Inserted@L(0);
    }

    /** Removes the first node; an empty list is left as it is. */
    method RemoveFirst()
      requires Valid()
      modifies Repr
      ensures Valid()
      ensures nodes == DropAt(old(nodes), 0) && elems == DropAt(old(elems), 0)
      ensures Repr == old(Repr) - {old(At(0))}
    {
      if count != 0 {
        ghost var c := Cut(nodes, 0);
        assert |nodes| > 1 ==> first.next == nodes[1] && nodes[1] in Repr;
        var removed := first;
        first := first.next;
        count := count - 1;
        if first != null {
          first.prev := null;
        } else {
          last := null;
        }
        nodes, elems, Repr := DropAt(nodes, 0), DropAt(elems, 0), Repr - {removed};
        Dropped(c.j);
      }
    }

    /** Removes the last node; an empty list is left as it is. */
    method RemoveLast()
      requires Valid()
      modifies Repr
      ensures Valid()
      ensures nodes == DropAt(old(nodes), old(|nodes|) - 1) && elems == DropAt(old(elems), old(|elems|) - 1)
      ensures Repr == old(Repr) - {old(At(|nodes| - 1))}
    {
      if count != 0 {
        ghost var c := Cut(nodes, |nodes| - 1);
        assert |nodes| > 1 ==> last.prev == nodes[|nodes| - 2] && nodes[|nodes| - 2] in Repr;
        var removed := last;
        last := last.prev;
        count := count - 1;
        if last != null {
          last.next := null;
        } else {
          first := null;
        }
        nodes, elems, Repr := DropAt(nodes, |nodes| - 1), DropAt(elems, |elems| - 1), Repr - {removed};
        Dropped(c.j);
      }
    }

    /** The node at position `i`, or null past either end. */
    ghost function At(i: int): Node?
      reads this
    {
      if 0 <= i < |nodes| then nodes[i] else null
    }

    /** Overwriting the element of the node at position `k` keeps the list
        valid. */
    twostate lemma Rewritten(k: nat)
      requires old(Valid()) && k < old(|nodes|)
      requires nodes == old(nodes) && elems == old(elems)[k := nodes[k].data]
      requires Repr == old(Repr) && first == old(first) && last == old(last) && count == old(count)
      requires forall x :: x in nodes ==> x.prev == old(x.prev) && x.next == old(x.next)
      requires forall x :: x in nodes && x != nodes[k] ==> x.data == old(x.data)
      ensures Valid()
    {
      forall i | 0 <= i < |nodes| ensures nodes[i].data == elems[i] {
        assert nodes[i] in nodes;
        if i != k {
          assert nodes[i] != nodes[k];
        }
      }
    }

    /** Removes node `n`, found at position `j`; a null node is ignored. */
    method RemoveNode(n: Node?, ghost j: nat)
      requires Valid()
      requires n != null ==> j < |nodes| && nodes[j] == n
      modifies Repr
      ensures Valid()
      ensures nodes == if n == null then old(nodes) else DropAt(old(nodes), j)
      ensures elems == if n == null then old(elems) else DropAt(old(elems), j)
      ensures Repr == old(Repr) - {n}
    {
      if n == null {
        return;
      } else if n == first {
        DistinctIndex(nodes, 0, j);
        RemoveFirst();
      } else if n == last {
        DistinctIndex(nodes, |nodes| - 1, j);
        RemoveLast();
      } else {
        RemoveInner(n, j);
      }
    }

    /** `RemoveNode` for a node that has neighbours on both sides: they are
        linked to each other and the node is dropped. */
    method RemoveInner(n: Node, ghost j: nat)
      requires Valid() && 0 < j < |nodes| - 1 && nodes[j] == n
      modifies Repr
      ensures Valid() && Repr == old(Repr) - {n} && n.data == old(n.data)
      ensures nodes == DropAt(old(nodes), j) && elems == DropAt(old(elems), j)
    {
      assert n.prev == nodes[j - 1] && n.next == nodes[j + 1];
      assert nodes[j - 1] in Repr && nodes[j + 1] in Repr;
      Bypass(n.prev, n.next);
      count := count - 1;
      nodes, elems, Repr := DropAt(nodes, j), DropAt(elems, j), Repr - {n};
      Dropped(j);
    }

    /** The two link writes that take a middle node out: its neighbours `p`
        and `q` now point at each other. */
    static method Bypass(p: Node, q: Node)
      requires p != q
      modifies p, q
      ensures p.next == q && q.prev == p && p.prev == old(p.prev) && q.next == old(q.next)
      ensures p.data == old(p.data) && q.data == old(q.data)
    {
      q.prev := p;
      p.next := q;
    }

    /** Unlinks node `n`, found at position `j`, without destroying it; the
        node keeps its element and no longer has neighbours. */
    method DetachNode(n: Node, ghost j: nat) returns (o: Outcome)
      requires Valid()
      requires |nodes| > 0 ==> j < |nodes| && nodes[j] == n
      modifies Repr
      ensures Valid()
      ensures old(nodes) == [] ==> o == Fail(EmptyContainer) && nodes == old(nodes) && elems == old(elems) && Repr == old(Repr)
      ensures old(nodes) != [] ==> (o == Pass && Repr == old(Repr) - {n} &&
        nodes == DropAt(old(nodes), j) && elems == DropAt(old(elems), j))
      ensures old(nodes) != [] ==> n.prev == null && n.next == null && n.data == old(n.data)
    {
      if count == 0 {
        return Fail(EmptyContainer);
      }
      Unhook(n, j);
      o := Pass;
    }

    /** The relinking done by `DetachNode` once the list is known to hold `n`. */
    method Unhook(n: Node, ghost j: nat)
      requires Valid() && j < |nodes| && nodes[j] == n
      modifies Repr
      ensures Valid()
      ensures Repr == old(Repr) - {n}
      ensures nodes == DropAt(old(nodes), j) && elems == DropAt(old(elems), j)
      ensures n.prev == null && n.next == null && n.data == old(n.data)
    {
      if n == first {
        DistinctIndex(nodes, 0, j);
        UnhookFirst();
      } else if n == last {
        DistinctIndex(nodes, |nodes| - 1, j);
        UnhookLast();
      } else {
        assert j != 0 && j != |nodes| - 1;
        RemoveInner(n, j);
        n.next := null;
        n.prev := null;
      }
    }

    /** `Unhook` of the first node. */
    method UnhookFirst()
      requires Valid() && |nodes| > 0
      modifies Repr
      ensures Valid()
      ensures Repr == old(Repr) - {old(nodes[0])}
      ensures nodes == DropAt(old(nodes), 0) && elems == DropAt(old(elems), 0)
      ensures old(nodes[0]).prev == null && old(nodes[0]).next == null && old(nodes[0]).data == old(nodes[0].data)
    {
      var n := first;
      assert |nodes| > 1 ==> n.next == nodes[1] && nodes[1] in Repr;
      first := n.next;
      if n == last {
        last := n.prev;
      } else {
        n.next.prev := n.prev;
      }
      n.next := null;
      count := count - 1;
      nodes, elems, Repr := DropAt(nodes, 0), DropAt(elems, 0), Repr - {n};
      Dropped(0);
    }

    /** `Unhook` of the last node of a list with more than one node. */
    method UnhookLast()
      requires Valid() && |nodes| > 1
      modifies Repr
      ensures Valid()
      ensures Repr == old(Repr) - {old(nodes[|nodes| - 1])}
      ensures nodes == DropAt(old(nodes), old(|nodes|) - 1) && elems == DropAt(old(elems), old(|elems|) - 1)
      ensures old(nodes[|nodes| - 1]).prev == null && old(nodes[|nodes| - 1]).next == null
      ensures old(nodes[|nodes| - 1]).data == old(nodes[|nodes| - 1].data)
    {
      var n := last;
      ghost var k := |nodes| - 1;
      assert n.prev == nodes[k - 1] && nodes[k - 1] in Repr;
      n.prev.next := n.next;
      last := n.prev;
      n.prev := null;
      count := count - 1;
      nodes, elems, Repr := DropAt(nodes, k), DropAt(elems, k), Repr - {n};
      Dropped(k);
    }

    /** Links node `n` in right after `base`, found at position `k`. */
    method AppendNode(base: Node?, n: Node?, ghost k: nat) returns (o: Outcome)
      requires Valid()
      requires base != null ==> k < |nodes| && nodes[k] == base
      requires n != null ==> n !in Repr
      modifies Repr, n
      ensures Valid()
      ensures base == null || n == null ==> o == Fail(InvalidNode) && nodes == old(nodes) && elems == old(elems) && Repr == old(Repr)
      ensures base != null && n != null ==> (o == Pass && Repr == old(Repr) + {n} &&
        nodes == old(nodes[..k + 1]) + [n] + old(nodes[k + 1..]) &&
        elems == old(elems[..k + 1]) + [old(n.data)] + old(elems[k + 1..]))
    {
      if base == null || n == null {
        return Fail(InvalidNode);
      }
      assert k + 1 < |nodes| ==> base.next == nodes[k + 1] && nodes[k + 1] in Repr;
      label L:
      if base == last {
        last := n;
      } else {
        base.next.prev := n;
      }
      n.prev := base;
      n.next := base.next;
      base.next := n;
      count := count + 1;
      nodes, elems, Repr := nodes[..k + 1] + [n] + nodes[k + 1..], elems[..k + 1] + [n.data] + elems[k + 1..], Repr + {n};
      Inserted@L(k + 1);
      o := Pass;
    }

    /** Links node `n` in right before `base`, found at position `k`. */
    method PrependNode(base: Node?, n: Node?, ghost k: nat) returns (o: Outcome)
      requires Valid()
      requires base != null ==> k < |nodes| && nodes[k] == base
      requires n != null ==> n !in Repr
      modifies Repr, n
      ensures Valid()
      ensures base == null || n == null ==> o == Fail(InvalidNode) && nodes == old(nodes) && elems == old(elems) && Repr == old(Repr)
      ensures base != null && n != null ==> (o == Pass && Repr == old(Repr) + {n} &&
        nodes == old(nodes[..k]) + [n] + old(nodes[k..]) &&
        elems == old(elems[..k]) + [old(n.data)] + old(elems[k..]))
    {
      if base == null || n == null {
        return Fail(InvalidNode);
      }
      assert k > 0 ==> base.prev == nodes[k - 1] && nodes[k - 1] in Repr;
      label L:
      if base == first {
        first := n;
      } else {
        base.prev.next := n;
      }
      n.next := base;
      n.prev := base.prev;
      base.prev := n;
      count := count + 1;
      nodes, elems, Repr := nodes[..k] + [n] + nodes[k..], elems[..k] + [n.data] + elems[k..], Repr + {n};
      Inserted@L(k);
      o := Pass;
    }

    /** The first node at or after `begin`, found at position `b`, whose
        element matches `key`, walking forward; null when there is none. */
    method FindFrom(key: Key, begin: Node?, ghost b: nat) returns (r: Node?)
      requires Valid() && b <= |nodes| && begin == At(b)
      ensures r == At(IndexFrom(elems, b, key))
      ensures r == null <==> IndexFrom(elems, b, key) == |elems|
    {
      r := begin;
      ghost var i := b;
      while r != null
        invariant b <= i <= |nodes| && r == At(i)
        invariant forall t :: b <= t < i ==> !key.Matches(elems[t])
        decreases |nodes| - i
      {
        if key.Matches(r.data) {
          break;
        }
        r := r.next;
        i := i + 1;
      }
      IndexFromAt(elems, b, key, i);
    }

    /** The last node at or before `begin`, found at position `e`, whose
        element matches `key`, walking backward; null when there is none. */
    method FindBackFrom(key: Key, begin: Node?, ghost e: int) returns (r: Node?)
      requires Valid() && -1 <= e < |nodes| && begin == At(e)
      ensures r == At(LastIndexBelow(elems, e + 1, key))
      ensures r == null <==> LastIndexBelow(elems, e + 1, key) == -1
    {
      r := begin;
      ghost var i := e;
      while r != null
        invariant -1 <= i <= e && r == At(i)
        invariant forall t :: i < t <= e ==> !key.Matches(elems[t])
        decreases i
      {
        if key.Matches(r.data) {
          break;
        }
        r := r.prev;
        i := i - 1;
      }
      LastIndexBelowAt(elems, e + 1, key, i);
    }

    /** The first node holding the smallest element at or after `begin`,
        found at position `b`. */
    method FindMinimum(begin: Node?, ghost b: nat) returns (r: Result<Node>)
      requires Valid()
      requires begin != null && |nodes| > 0 ==> b < |nodes| && nodes[b] == begin
      ensures begin == null ==> r == Err(InvalidNode)
      ensures begin != null && nodes == [] ==> r == Err(EmptyContainer)
      ensures begin != null && nodes != [] ==> r == Ok(nodes[MinIndexFrom(elems, b)])
    {
      if begin == null {
        return Err(InvalidNode);
      } else if count == 0 {
        return Err(EmptyContainer);
      }
      var current, min := begin.next, begin;
      ghost var i, m := b + 1, b;
      while current != null
        invariant b <= m < i <= |nodes| && current == At(i) && min == nodes[m]
        invariant forall t :: b <= t < i ==> elems[m] <= elems[t]
        invariant forall t :: b <= t < m ==> elems[t] > elems[m]
        decreases |nodes| - i
      {
        if current.data < min.data {
          min, m := current, i;
        }
        current := current.next;
        i := i + 1;
      }
      MinIndexFromAt(elems, b, m);
      r := Ok(min);
    }

    /** The forward search for `x` from `begin`, found at position `b`. */
    method Find(x: int, begin: Node?, ghost b: nat) returns (r: Node?)
      requires Valid() && b <= |nodes| && begin == At(b)
      ensures r == At(IndexFrom(elems, b, Is(x)))
    {
      r := FindFrom(Is(x), begin, b);
    }

    /** The forward search for an element other than `x`. */
    method FindNotOf(x: int, begin: Node?, ghost b: nat) returns (r: Node?)
      requires Valid() && b <= |nodes| && begin == At(b)
      ensures r == At(IndexFrom(elems, b, IsNot(x)))
    {
      r := FindFrom(IsNot(x), begin, b);
    }

    /** The backward search for `x` from `begin`, found at position `e`. */
    method FindReversed(x: int, begin: Node?, ghost e: int) returns (r: Node?)
      requires Valid() && -1 <= e < |nodes| && begin == At(e)
      ensures r == At(LastIndexBelow(elems, e + 1, Is(x)))
    {
      r := FindBackFrom(Is(x), begin, e);
    }

    /** The backward search for an element other than `x`. */
    method FindNotOfReversed(x: int, begin: Node?, ghost e: int) returns (r: Node?)
      requires Valid() && -1 <= e < |nodes| && begin == At(e)
      ensures r == At(LastIndexBelow(elems, e + 1, IsNot(x)))
    {
      r := FindBackFrom(IsNot(x), begin, e);
    }

    /** Removes the first element that matches `key`, if any. */
    method RemoveFirstMatch(key: Key)
      requires Valid()
      modifies Repr
      ensures Valid() && Repr <= old(Repr)
      ensures elems == DropAt(old(elems), IndexFrom(old(elems), 0, key))
    {
      ghost var k := IndexFrom(elems, 0, key);
      var n := FindFrom(key, first, 0);
      RemoveNode(n, k);
    }

    /** Removes the last element that matches `key`, if any. */
    method RemoveLastMatch(key: Key)
      requires Valid()
      modifies Repr
      ensures Valid() && Repr <= old(Repr)
      ensures elems == DropAt(old(elems), LastIndexBelow(old(elems), |old(elems)|, key))
    {
      ghost var k := LastIndexBelow(elems, |elems|, key);
      var n := FindBackFrom(key, last, |nodes| - 1);
      RemoveNode(n, if k < 0 then 0 else k);
    }

    /** Removes the first occurrence of `x`. */
    method RemoveFirstOf(x: int)
      requires Valid()
      modifies Repr
      ensures Valid() && Repr <= old(Repr)
      ensures elems == DropAt(old(elems), IndexFrom(old(elems), 0, Is(x)))
    {
      RemoveFirstMatch(Is(x));
    }

    /** Removes the last occurrence of `x`. */
    method RemoveLastOf(x: int)
      requires Valid()
      modifies Repr
      ensures Valid() && Repr <= old(Repr)
      ensures elems == DropAt(old(elems), LastIndexBelow(old(elems), |old(elems)|, Is(x)))
    {
      RemoveLastMatch(Is(x));
    }

    /** Removes the first element other than `x`. */
    method RemoveFirstNotOf(x: int)
      requires Valid()
      modifies Repr
      ensures Valid() && Repr <= old(Repr)
      ensures elems == DropAt(old(elems), IndexFrom(old(elems), 0, IsNot(x)))
    {
      RemoveFirstMatch(IsNot(x));
    }

    /** Removes the last element other than `x`. */
    method RemoveLastNotOf(x: int)
      requires Valid()
      modifies Repr
      ensures Valid() && Repr <= old(Repr)
      ensures elems == DropAt(old(elems), LastIndexBelow(old(elems), |old(elems)|, IsNot(x)))
    {
      RemoveLastMatch(IsNot(x));
    }

    /** The neighbours of the node at position `i` are the nodes at the
        adjacent positions, or null past either end. */
    lemma Neighbours(i: nat)
      requires Valid() && i < |nodes|
      ensures nodes[i].next == At(i + 1) && nodes[i].prev == At(i - 1)
    {
      if i + 1 == |nodes| {
        assert nodes[i] == last;
      }
      if i == 0 {
        assert nodes[i] == first;
      }
    }

    /** Removes node `r`, found at position `m`, and returns its successor,
        which then sits at position `m`. */
    method RemoveAndAdvance(r: Node, ghost m: nat) returns (next: Node?)
      requires Valid() && m < |nodes| && nodes[m] == r
      modifies Repr
      ensures Valid() && Repr == old(Repr) - {r}
      ensures elems == DropAt(old(elems), m) && next == At(m)
      ensures forall t :: 0 <= t < m ==> nodes[t] == old(nodes[t])
    {
      next := r.next;
      Neighbours(m);
      ghost var before := nodes;
      RemoveNode(r, m);
      DropAtElements(before, m);
    }

    /** One round of `RemoveMatchesFrom`: removes the match `r` and
        searches again from its successor. */
    method RemoveRound(key: Key, r: Node, ghost p: seq<int>, ghost scanned: seq<int>, ghost unscanned: seq<int>, ghost kept: seq<int>)
      returns (r': Node?, ghost scanned': seq<int>, ghost unscanned': seq<int>, ghost kept': seq<int>)
      requires Valid() && RemoveLoop(elems, p, scanned, unscanned, kept, key)
      requires r == At(IndexFrom(elems, |kept|, key))
      modifies Repr
      ensures Valid() && Repr <= old(Repr)
      ensures RemoveLoop(elems, p, scanned', unscanned', kept', key)
      ensures scanned + unscanned == scanned' + unscanned' && |unscanned'| < |unscanned| && |kept| <= |kept'|
      ensures r' == At(IndexFrom(elems, |kept'|, key))
      ensures r' == null <==> IndexFrom(elems, |kept'|, key) == |elems|
      ensures forall t :: 0 <= t < |kept| ==> nodes[t] == old(nodes[t])
    {
      ghost var m := IndexFrom(elems, |kept|, key);
      scanned', unscanned', kept' := RemoveLoopStep(elems, p, scanned, unscanned, kept, key);
      var next := RemoveAndAdvance(r, m);
      r' := FindFrom(key, next, m);
    }

    /** Removes every element matching `key` from position `|p|` on, where
        `begin` is: the loop that finds a match, remembers its successor,
        removes it and searches again from the successor. */
    method RemoveMatchesFrom(key: Key, begin: Node?, ghost p: seq<int>, ghost rest: seq<int>)
      requires Valid() && elems == p + rest && begin == At(|p|)
      modifies Repr
      ensures Valid() && Repr <= old(Repr)
      ensures elems == p + RemoveMatching(rest, key)
      ensures |p| > 0 ==> nodes[|p| - 1] == old(nodes[|p| - 1])
    {
      ghost var kept, scanned, unscanned := p, [], rest;
      RemoveLoopStart(elems, p, rest, key);
      var r := FindFrom(key, begin, |p|);
      while r != null
        invariant Valid() && Repr <= old(Repr)
        invariant RemoveLoop(elems, p, scanned, unscanned, kept, key)
        invariant rest == scanned + unscanned && |p| <= |kept|
        invariant r == At(IndexFrom(elems, |kept|, key))
        invariant r == null <==> IndexFrom(elems, |kept|, key) == |elems|
        invariant |p| > 0 ==> nodes[|p| - 1] == old(nodes[|p| - 1])
        decreases |unscanned|
      {
        r, scanned, unscanned, kept := RemoveRound(key, r, p, scanned, unscanned, kept);
      }
      RemoveLoopDone(elems, p, scanned, unscanned, kept, key);
    }

    /** Removes every occurrence of `x`. */
    method RemoveIf(x: int)
      requires Valid()
      modifies Repr
      ensures Valid() && Repr <= old(Repr)
      ensures elems == RemoveMatching(old(elems), Is(x))
    {
      ghost var rest := elems;
      RemoveMatchesFrom(Is(x), first, [], rest);
    }

    /** Removes every element other than `x`. */
    method RemoveIfNot(x: int)
      requires Valid()
      modifies Repr
      ensures Valid() && Repr <= old(Repr)
      ensures elems == RemoveMatching(old(elems), IsNot(x))
    {
      ghost var rest := elems;
      RemoveMatchesFrom(IsNot(x), first, [], rest);
    }

    /** Removes every element for which `rule` holds, looking at each
        node in turn after remembering its successor. */
    method RemoveIfMatch(rule: int -> bool)
      requires Valid()
      modifies Repr
      ensures Valid() && Repr <= old(Repr)
      ensures elems == RemoveMatching(old(elems), Where(rule))
    {
      ghost var key := Where(rule);
      ghost var scanned, unscanned := [], elems;
      assert elems == RemoveMatching(scanned, key) + unscanned;
      var current := first;
      while current != null
        invariant Valid() && Repr <= old(Repr)
        invariant elems == RemoveMatching(scanned, key) + unscanned
        invariant old(elems) == scanned + unscanned
        invariant current == At(|RemoveMatching(scanned, key)|)
        decreases |unscanned|
      {
        ghost var m := |RemoveMatching(scanned, key)|;
        RemoveScanRound(scanned, unscanned, key);
        if rule(current.data) {
          current := RemoveAndAdvance(current, m);
        } else {
          Neighbours(m);
          current := current.next;
        }
        scanned, unscanned := scanned + [unscanned[0]], unscanned[1..];
      }
      assert unscanned == [] && scanned + unscanned == scanned;
    }

    /** Removes every node, one at a time from the front. */
    method EraseAll()
      requires Valid()
      modifies Repr
      ensures Valid() && Repr <= old(Repr)
      ensures elems == [] && nodes == []
    {
      while count != 0
        invariant Valid() && Repr <= old(Repr)
        decreases count
      {
        RemoveFirst();
      }
    }

    /** Overwrites every occurrence of `o` with `n`, searching again from
        the node after each replaced one. */
    method ReplaceAllWith(o: int, n: int)
      requires Valid()
      modifies Repr
      ensures Valid() && Repr == old(Repr) && nodes == old(nodes)
      ensures elems == ReplaceAll(old(elems), o, n)
    {
      var current := first;
      ghost var i := 0;
      while current != null
        invariant Valid() && Repr == old(Repr) && nodes == old(nodes)
        invariant i <= |nodes| && current == At(i)
        invariant ReplacedBelow(elems, old(elems), i, o, n)
        decreases |nodes| - i
      {
        ghost var k := IndexFrom(elems, i, Is(o));
        ReplaceStep(elems, old(elems), i, o, n);
        current := FindFrom(Is(o), current, i);
        if current != null {
          Rewrite(current, k, n);
          current := current.next;
          i := k + 1;
        } else {
          i := |nodes|;
        }
      }
      ReplaceDone(elems, old(elems), o, n);
    }

    /** Overwrites the element at position `k`, when there is one. */
    method Rewrite(x: Node?, ghost k: int, n: int)
      requires Valid() && x == At(k)
      modifies Repr
      ensures Valid() && Repr == old(Repr) && nodes == old(nodes)
      ensures elems == if 0 <= k < |old(elems)| then old(elems)[k := n] else old(elems)
    {
      if x != null {
        label L:
        x.data := n;
        elems := elems[k := n];
        Rewritten@L(k);
      }
    }

    /** Overwrites the first occurrence of `o` with `n`. */
    method ReplaceFirstWith(o: int, n: int)
      requires Valid()
      modifies Repr
      ensures Valid() && Repr == old(Repr) && nodes == old(nodes)
      ensures var k := IndexFrom(old(elems), 0, Is(o));
        elems == if k < |old(elems)| then old(elems)[k := n] else old(elems)
    {
      ghost var k := IndexFrom(elems, 0, Is(o));
      var x := Find(o, first, 0);
      Rewrite(x, k, n);
    }

    /** Overwrites the last occurrence of `o` with `n`. */
    method ReplaceLastWith(o: int, n: int)
      requires Valid()
      modifies Repr
      ensures Valid() && Repr == old(Repr) && nodes == old(nodes)
      ensures var k := LastIndexBelow(old(elems), |old(elems)|, Is(o));
        elems == if k >= 0 then old(elems)[k := n] else old(elems)
    {
      ghost var k := LastIndexBelow(elems, |elems|, Is(o));
      var x := FindReversed(o, last, |nodes| - 1);
      Rewrite(x, k, n);
    }

    /** Whether the list holds no node. */
    function IsEmpty(): (r: bool)
      requires Valid()
      reads this, Repr
      ensures r <==> elems == []
    {
      count == 0
    }

    /** The number of nodes. */
    function GetNodeCount(): (r: nat)
      requires Valid()
      reads this, Repr
      ensures r == |elems|
    {
      count
    }

    /** Whether the list is non-empty and ascending, checked by the first
        node's own recursion; an empty list does not count as sorted. */
    function IsSorted(): (r: bool)
      requires Valid()
      reads this, Repr
      ensures r <==> elems != [] && Sorted(elems)
    {
      if count == 0 then false
      else
        assert elems[0..] == elems;
        ChainSortedIffSorted(elems);
        IsSortedFrom(nodes, elems, first, 0)
    }

    /** List equality compares the first nodes, that is, the identity of
        the lists and not their contents: two distinct lists are equal
        only when both are empty. */
    function Equals(other: List): (r: bool)
      requires Valid() && other.Valid() && (this == other || Repr !! other.Repr)
      reads this, other, Repr, other.Repr
      ensures r <==> this == other || (elems == [] && other.elems == [])
    {
      assert this != other && elems != [] ==> nodes[0] in Repr && nodes[0] !in other.Repr;
      first == other.first
    }

    /** The negation of `Equals`. */
    function NotEquals(other: List): (r: bool)
      requires Valid() && other.Valid() && (this == other || Repr !! other.Repr)
      reads this, other, Repr, other.Repr
      ensures r <==> this != other && (elems != [] || other.elems != [])
    {
      !Equals(other)
    }

    /** The first element, or an error on an empty list. */
    function First(): (r: Result<int>)
      requires Valid()
      reads this, Repr
      ensures elems == [] ==> r == Err(EmptyContainer)
      ensures elems != [] ==> r == Ok(elems[0])
    {
      if count == 0 then Err(EmptyContainer) else Ok(first.data)
    }

    /** The last element, or an error on an empty list. */
    function Last(): (r: Result<int>)
      requires Valid()
      reads this, Repr
      ensures elems == [] ==> r == Err(EmptyContainer)
      ensures elems != [] ==> r == Ok(elems[|elems| - 1])
    {
      if count == 0 then Err(EmptyContainer) else Ok(last.data)
    }

    /** Exchanges the contents of two lists by exchanging their end
        pointers and counts; a list swapped with itself, or two lists with
        the same first node (both empty), are left as they are. */
    method Swap(other: List)
      requires Valid() && other.Valid() && (this == other || Repr !! other.Repr)
      modifies this, other
      ensures Valid() && other.Valid()
      ensures elems == old(other.elems) && other.elems == old(elems)
      ensures nodes == old(other.nodes) && other.nodes == old(nodes)
      ensures Repr + other.Repr == old(Repr + other.Repr)
      ensures this != other ==> Repr !! other.Repr
    {
      if Equals(other) {
        return;
      }
      Exchange(other);
    }

    /** The exchange done by `Swap` once the two lists are known to be
        distinct. */
    method Exchange(other: List)
      requires Valid() && other.Valid() && this != other && Repr !! other.Repr
      modifies this, other
      ensures Valid() && other.Valid()
      ensures elems == old(other.elems) && other.elems == old(elems)
      ensures nodes == old(other.nodes) && other.nodes == old(nodes)
      ensures Repr == old(other.Repr) - {other} + {this} && other.Repr == old(Repr) - {this} + {other}
    {
      TradeFields(other);
      Adopted(other);
      other.Adopted(this);
    }

    /** The field writes of `Swap`: the two lists trade end pointers,
        counts and contents, each keeping itself in its own footprint. */
    method TradeFields(other: List)
      requires this != other
      modifies this, other
      ensures first == old(other.first) && other.first == old(first)
      ensures last == old(other.last) && other.last == old(last)
      ensures count == old(other.count) && other.count == old(count)
      ensures nodes == old(other.nodes) && other.nodes == old(nodes)
      ensures elems == old(other.elems) && other.elems == old(elems)
      ensures Repr == old(other.Repr) - {other} + {this} && other.Repr == old(Repr) - {this} + {other}
    {
      first, other.first := other.first, first;
      last, other.last := other.last, last;
      count, other.count := other.count, count;
      nodes, other.nodes := other.nodes, nodes;
      elems, other.elems := other.elems, elems;
      Repr, other.Repr := other.Repr - {other} + {this}, Repr - {this} + {other};
    }

    /** Taking over the nodes, end pointers and count of the list `from`,
        as they were, gives a valid list. */
    twostate lemma Adopted(from: List)
      requires old(from.Valid()) && from != this
      requires nodes == old(from.nodes) && elems == old(from.elems)
      requires first == old(from.first) && last == old(from.last) && count == old(from.count)
      requires Repr == old(from.Repr) - {from} + {this}
      requires forall x :: x in nodes ==> x.prev == old(x.prev) && x.next == old(x.next) && x.data == old(x.data)
      ensures Valid()
    {
      var ns, es := nodes, elems;
      assert old(Linked(ns)) && old(Holds(ns, es));
      assert NextLinked(ns) by {
        forall i | 0 <= i < |ns| - 1 ensures ns[i].next == ns[i + 1] {
          assert ns[i] in ns;
          assert old(ns[i].next) == ns[i + 1];
        }
      }
      assert PrevLinked(ns) by {
        forall i | 0 < i < |ns| ensures ns[i].prev == ns[i - 1] {
          assert ns[i] in ns;
          assert old(ns[i].prev) == ns[i - 1];
        }
      }
      forall i | 0 <= i < |ns| ensures ns[i].data == es[i] {
        assert ns[i] in ns;
      }
      if ns != [] {
        assert ns[0] in ns && ns[|ns| - 1] in ns;
      }
    }

    /** Cuts the list down to `n` elements from the back, or pads it with
        copies of `x` at the back, until it holds `n` elements. */
    method Resize(n: nat, x: int)
      requires Valid()
      modifies Repr
      ensures Valid() && fresh(Repr - old(Repr))
      ensures elems == Resized(old(elems), n, x)
    {
      ghost var m := if n < |elems| then n else |elems|;
      while n < count
        invariant Valid() && Repr <= old(Repr)
        invariant m <= |elems| <= |old(elems)|
        invariant forall t :: 0 <= t < |elems| ==> elems[t] == old(elems)[t]
        decreases count
      {
        RemoveLast();
      }
      while n > count
        invariant Valid() && fresh(Repr - old(Repr))
        invariant m <= |elems| <= n
        invariant forall t :: 0 <= t < |elems| ==> elems[t] == if t < |old(elems)| then old(elems)[t] else x
        decreases n - count
      {
        Append(x);
      }
    }

    /** Keeps the first occurrence of each element: for each node in turn,
        every later node holding the same element is removed. */
    method Unique()
      requires Valid()
      modifies Repr
      ensures Valid() && Repr <= old(Repr)
      ensures elems == Dedup(old(elems))
    {
      ghost var kept, tail := [], elems;
      UniqueLoopStart(elems);
      var current := first;
      while current != null
        invariant Valid() && Repr <= old(Repr)
        invariant UniqueLoop(elems, old(elems), kept, tail)
        invariant current == At(|kept|)
        decreases |tail|
      {
        ghost var x, rest := UniqueLoopStep(elems, old(elems), kept, tail);
        Neighbours(|kept|);
        RemoveMatchesFrom(Is(current.data), current.next, kept + [x], rest);
        current := current.next;
        kept, tail := kept + [x], RemoveMatching(rest, Is(x));
      }
      UniqueLoopDone(elems, old(elems), kept, tail);
    }

    /** Exchanging two nodes by rewiring their links as `Rewired` says keeps
        the list valid. */
    twostate lemma Exchanged(e: Transposition)
      requires old(Valid()) && e.ns == old(nodes) && e.Ok() && Linked(e.Result())
      requires forall x :: x in old(nodes) ==> x.data == old(x.data)
      requires nodes == e.Result() && elems == Swapped(old(elems), e.i, e.j)
      requires count == old(count) && Repr == old(Repr) && this in Repr
      requires first == (if e.i == 0 then e.ns[e.j] else old(first))
      requires last == (if e.j == |e.ns| - 1 then e.ns[e.i] else old(last))
      ensures Valid()
    {
      ExchangedData(e);
      DistinctSwapped(e.ns, e.i, e.j);
      SwappedEnds(e.ns, e.i, e.j);
    }

    /** The data half of `Exchanged`: the swapped nodes still carry the
        swapped elements and stay in the footprint. */
    twostate lemma ExchangedData(e: Transposition)
      requires old(Valid()) && e.ns == old(nodes) && e.Ok()
      requires forall x :: x in old(nodes) ==> x.data == old(x.data)
      requires nodes == e.Result() && elems == Swapped(old(elems), e.i, e.j) && Repr == old(Repr)
      ensures Holds(nodes, elems) && forall x :: x in nodes ==> x in Repr
    {
      var ns, es := old(nodes), old(elems);
      forall k | 0 <= k < |ns| ensures ns[k].data == es[k] {
        assert ns[k] in ns;
      }
      HoldsSwapped(ns, es, e.i, e.j);
      forall x | x in nodes ensures x in Repr {
        assert multiset(nodes) == multiset(ns);
        assert x in multiset(ns);
      }
    }

    /** Exchanges `a`, at position `i`, with `b` when `b` is its successor;
        otherwise the nodes are refused. */
    method SwapSuccessiveNodes(a: Node, b: Node, ghost i: nat) returns (o: Outcome)
      requires Valid() && i < |nodes| && nodes[i] == a
      modifies Repr
      ensures Valid() && Repr == old(Repr)
      ensures (i + 1 < |old(nodes)| && old(nodes[i + 1]) == b) ==>
        o == Pass && nodes == Swapped(old(nodes), i, i + 1) && elems == Swapped(old(elems), i, i + 1)
      ensures !(i + 1 < |old(nodes)| && old(nodes[i + 1]) == b) ==>
        o == Fail(NodesNotSuccessive) && nodes == old(nodes) && elems == old(elems)
      ensures forall x :: x in old(nodes) ==> x.data == old(x.data)
    {
      Neighbours(i);
      if a.next != b || b.prev != a {
        if i + 1 < |nodes| { Neighbours(i + 1); }
        return Fail(NodesNotSuccessive);
      }
      ghost var e := Transposition(nodes, i, i + 1);
      label L:
      RelinkNeighbours(a, b, i, e);
      Exchanged@L(e);
      o := Pass;
    }

    /** `Transpose` seen as the exchange `e` of positions `i` and `i + 1`. */
    method RelinkNeighbours(a: Node, b: Node, ghost i: nat, ghost e: Transposition)
      requires Valid() && i + 1 < |nodes| && a == nodes[i] && b == nodes[i + 1]
      requires e == Transposition(nodes, i, i + 1)
      modifies this`first, this`last, this`nodes, this`elems, a, b, At(i - 1), At(i + 2)
      ensures e.Ok() && Linked(nodes)
      ensures nodes == e.Result() && elems == Swapped(old(elems), e.i, e.j)
      ensures forall x :: x in old(nodes) ==> x.data == old(x.data)
      ensures first == (if e.i == 0 then e.ns[e.j] else old(first))
      ensures last == (if e.j == |e.ns| - 1 then e.ns[e.i] else old(last))
    {
      Neighbours(i);
      Neighbours(i + 1);
      ghost var p, n := e.Before(i), e.After(i + 1);
      assert p != null ==> p != n;
      RewireNeighbours(a, b, p, n, i, e);
      RewiredLinked(e);
    }

    /** `Transpose` seen as the rewiring `e` of positions `i` and `i + 1`. */
    method RewireNeighbours(a: Node, b: Node, ghost p: Node?, ghost n: Node?, ghost i: nat, ghost e: Transposition)
      requires i + 1 < |nodes| == |elems| && Distinct(nodes)
      requires e == Transposition(nodes, i, i + 1) && a == nodes[i] && b == nodes[i + 1]
      requires p == e.Before(i) && n == e.After(i + 1) && (p != null ==> p != n)
      requires a.next == b && b.prev == a && a.prev == p && b.next == n
      requires (a == first <==> p == null) && (b == last <==> n == null)
      modifies this`first, this`last, this`nodes, this`elems, a, b, p, n
      ensures e.Ok() && Rewired(e)
      ensures nodes == e.Result() && elems == Swapped(old(elems), e.i, e.j)
      ensures forall x :: x in old(nodes) ==> x.data == old(x.data)
      ensures first == (if e.i == 0 then e.ns[e.j] else old(first))
      ensures last == (if e.j == |e.ns| - 1 then e.ns[e.i] else old(last))
    {
      Transpose(a, b, p, n, i);
      RewiredNeighbours(e);
    }

    /** The relinking done by `SwapSuccessiveNodes`: `a` and its successor
        `b`, between `p` and `n`, change places. */
    method Transpose(a: Node, b: Node, ghost p: Node?, ghost n: Node?, ghost i: nat)
      requires i + 1 < |nodes| == |elems|
      requires a.next == b && b.prev == a && a.prev == p && b.next == n
      requires a != b && p != a && p != b && n != a && n != b && (p != null ==> p != n)
      requires (a == first <==> p == null) && (b == last <==> n == null)
      modifies this`first, this`last, this`nodes, this`elems, a, b, p, n
      ensures nodes == Swapped(old(nodes), i, i + 1) && elems == Swapped(old(elems), i, i + 1)
      ensures b.prev == p && a.next == n && b.next == a && a.prev == b
      ensures p != null ==> p.next == b && p.prev == old(p.prev)
      ensures n != null ==> n.prev == a && n.next == old(n.next)
      ensures first == (if p == null then b else old(first)) && last == (if n == null then a else old(last))
      ensures a.data == old(a.data) && b.data == old(b.data)
      ensures p != null ==> p.data == old(p.data)
      ensures n != null ==> n.data == old(n.data)
    {
      b.prev := a.prev;
      a.next := b.next;
      if a != first {
        a.prev.next := b;
      } else {
        first := b;
      }
      if b != last {
        b.next.prev := a;
      } else {
        last := a;
      }
      a.prev := b;
      b.next := a;
      nodes, elems := Swapped(nodes, i, i + 1), Swapped(elems, i, i + 1);
    }

    /** Exchanges the nodes `a`, at position `i`, and `b`, at position `j`,
        whether or not they are neighbours; null nodes are refused. */
    method SwapNodes(a: Node?, b: Node?, ghost i: nat, ghost j: nat) returns (o: Outcome)
      requires Valid()
      requires a != null ==> i < |nodes| && nodes[i] == a
      requires b != null ==> j < |nodes| && nodes[j] == b
      modifies Repr
      ensures Valid() && Repr == old(Repr)
      ensures a == null || b == null ==> o == Fail(InvalidNode) && nodes == old(nodes) && elems == old(elems)
      ensures a != null && b != null ==>
        o == Pass && nodes == Swapped(old(nodes), i, j) && elems == Swapped(old(elems), i, j)
      ensures forall x :: x in old(nodes) ==> x.data == old(x.data)
    {
      if a == null || b == null {
        return Fail(InvalidNode);
      } else if a == b {
        DistinctIndex(nodes, i, j);
        assert Swapped(nodes, i, j) == nodes && Swapped(elems, i, j) == elems;
        return Pass;
      }
      Neighbours(i);
      Neighbours(j);
      if a.next == b {
        DistinctIndex(nodes, i + 1, j);
        o := SwapSuccessiveNodes(a, b, i);
      } else if a.prev == b {
        DistinctIndex(nodes, i - 1, j);
        SwappedSymmetric(nodes, i, j);
        SwappedSymmetric(elems, i, j);
        o := SwapSuccessiveNodes(b, a, j);
      } else {
        o := SwapNonSuccessiveNodes(a, b, i, j);
      }
    }

    /** Selection sort by relinking: the least remaining node is swapped
        into each position in turn.  The elements end up in ascending order
        and are the same elements as before, held by the same nodes, which
        keep their data. */
    method Sort()
      requires Valid()
      modifies Repr
      ensures Valid() && Repr == old(Repr)
      ensures Sorted(elems) && multiset(elems) == multiset(old(elems))
      ensures multiset(nodes) == multiset(old(nodes))
      ensures forall x :: x in old(nodes) ==> x.data == old(x.data)
    {
      if count == 0 || first == last {
        return;
      }
      var swap := first;
      ghost var k := 0;
      while swap != null
        invariant Valid() && Repr == old(Repr) && k <= |nodes| && swap == At(k)
        invariant multiset(elems) == multiset(old(elems)) && SortedBelow(elems, k)
        invariant multiset(nodes) == multiset(old(nodes))
        invariant forall x :: x in old(nodes) ==> x.data == old(x.data)
        decreases |nodes| - k
      {
        ghost var before := nodes;
        label Round:
        swap := SelectMinimum(swap, k);
        forall x | x in old(nodes)
          ensures x.data == old(x.data)
        {
          assert x in multiset(before);
          assert x.data == old@Round(x.data);
        }
        k := k + 1;
      }
    }

    /** One round of `Sort`: the least node from position `k` on is swapped
        into position `k`, and the node after it is returned.  The sorted
        prefix grows by one, and the nodes are only rearranged. */
    method SelectMinimum(swap: Node, ghost k: nat) returns (next: Node?)
      requires Valid() && k < |nodes| && swap == nodes[k] && SortedBelow(elems, k)
      modifies Repr
      ensures Valid() && Repr == old(Repr) && |nodes| == old(|nodes|) && next == At(k + 1)
      ensures SortedBelow(elems, k + 1) && multiset(elems) == multiset(old(elems))
      ensures multiset(nodes) == multiset(old(nodes))
      ensures forall x :: x in old(nodes) ==> x.data == old(x.data)
    {
      var r := FindMinimum(swap, k);
      var min := r.value;
      ghost var m := MinIndexFrom(elems, k);
      SelectStep(elems, k);
      var _ := SwapNodes(min, swap, m, k);
      Neighbours(k);
      next := min.next;
    }

    /** Exchanges `a`, at position `i`, with `b`, at position `j`: refuses
        null nodes and a node paired with itself, and hands neighbours to
        `SwapSuccessiveNodes`. */
    method SwapNonSuccessiveNodes(a: Node?, b: Node?, ghost i: nat, ghost j: nat) returns (o: Outcome)
      requires Valid()
      requires a != null ==> i < |nodes| && nodes[i] == a
      requires b != null ==> j < |nodes| && nodes[j] == b
      modifies Repr
      ensures Valid() && Repr == old(Repr)
      ensures a == null || b == null ==> o == Fail(InvalidNode) && nodes == old(nodes) && elems == old(elems)
      ensures a != null && b != null && i == j ==> o == Fail(SameNodes) && nodes == old(nodes) && elems == old(elems)
      ensures a != null && b != null && i != j ==>
        o == Pass && nodes == Swapped(old(nodes), i, j) && elems == Swapped(old(elems), i, j)
      ensures forall x :: x in old(nodes) ==> x.data == old(x.data)
    {
      if a == null || b == null {
        return Fail(InvalidNode);
      } else if a == b {
        return Fail(SameNodes);
      }
      assert i != j;  // a != b, and the two positions hold a and b
      Neighbours(i);
      Neighbours(j);
      if a.next == b {
        DistinctIndex(nodes, i + 1, j);
        o := SwapSuccessiveNodes(a, b, i);
      } else if a.prev == b {
        DistinctIndex(nodes, i - 1, j);
        SwappedSymmetric(nodes, i, j);
        SwappedSymmetric(elems, i, j);
        o := SwapSuccessiveNodes(b, a, j);
      } else {
        SwapApart(a, b, i, j);
        o := Pass;
      }
    }

    /** The relinking done by `SwapNonSuccessiveNodes` for nodes with
        another node between them. */
    method SwapApart(a: Node, b: Node, ghost i: nat, ghost j: nat)
      requires Valid() && i < |nodes| && j < |nodes| && nodes[i] == a && nodes[j] == b
      requires i != j && i + 1 != j && j + 1 != i
      modifies Repr
      ensures Valid() && Repr == old(Repr)
      ensures nodes == Swapped(old(nodes), i, j) && elems == Swapped(old(elems), i, j)
      ensures forall x :: x in old(nodes) ==> x.data == old(x.data)
    {
      ghost var e := if i < j then Transposition(nodes, i, j) else Transposition(nodes, j, i);
      label L:
      RelinkApart(a, b, i, j, e);
      Exchanged@L(e);
    }

    /** `Interchange` seen as the exchange `e` of positions `i` and `j`,
        which keeps the chain linked. */
    method RelinkApart(a: Node, b: Node, ghost i: nat, ghost j: nat, ghost e: Transposition)
      requires Valid() && i < |nodes| && j < |nodes| && nodes[i] == a && nodes[j] == b
      requires i != j && i + 1 != j && j + 1 != i
      requires e == (if i < j then Transposition(nodes, i, j) else Transposition(nodes, j, i))
      modifies this`first, this`last, this`nodes, this`elems, a, b, At(i - 1), At(i + 1), At(j - 1), At(j + 1)
      ensures e.Ok() && Linked(nodes)
      ensures nodes == e.Result() && elems == Swapped(old(elems), e.i, e.j)
      ensures nodes == Swapped(old(nodes), i, j) && elems == Swapped(old(elems), i, j)
      ensures forall x :: x in old(nodes) ==> x.data == old(x.data)
      ensures first == (if e.i == 0 then e.ns[e.j] else old(first))
      ensures last == (if e.j == |e.ns| - 1 then e.ns[e.i] else old(last))
    {
      Neighbours(i);
      Neighbours(j);
      ghost var pa, na, pb, nb := At(i - 1), At(i + 1), At(j - 1), At(j + 1);
      RewireApart(a, b, pa, na, pb, nb, i, j, e);
      RewiredLinked(e);
    }

    /** `Interchange` seen as the rewiring `e` of positions `i` and `j`. */
    method RewireApart(a: Node, b: Node, ghost pa: Node?, ghost na: Node?, ghost pb: Node?, ghost nb: Node?,
                       ghost i: nat, ghost j: nat, ghost e: Transposition)
      requires i < |nodes| == |elems| && j < |nodes| && Distinct(nodes) && nodes[i] == a && nodes[j] == b
      requires e == (if i < j then Transposition(nodes, i, j) else Transposition(nodes, j, i))
      requires i != j && i + 1 != j && j + 1 != i
      requires pa == At(i - 1) && na == At(i + 1) && pb == At(j - 1) && nb == At(j + 1)
      requires a.prev == pa && a.next == na && b.prev == pb && b.next == nb
      requires (a == first <==> pa == null) && (a == last <==> na == null)
      requires (b == first <==> pb == null) && (b == last <==> nb == null)
      modifies this`first, this`last, this`nodes, this`elems, a, b, pa, na, pb, nb
      ensures e.Ok() && Rewired(e)
      ensures nodes == Swapped(old(nodes), i, j) && elems == Swapped(old(elems), i, j)
      ensures nodes == e.Result() && elems == Swapped(old(elems), e.i, e.j)
      ensures forall x :: x in old(nodes) ==> x.data == old(x.data)
      ensures first == (if e.i == 0 then e.ns[e.j] else old(first))
      ensures last == (if e.j == |e.ns| - 1 then e.ns[e.i] else old(last))
    {
      Interchange(a, b, pa, na, pb, nb, i, j);
      RewiredApart(e);
      SwappedSymmetric(old(nodes), i, j);
      SwappedSymmetric(old(elems), i, j);
    }

    /** The link writes of `SwapNonSuccessiveNodes`: `a`, between `pa` and
        `na`, and `b`, between `pb` and `nb`, take each other's places. */
    method Interchange(a: Node, b: Node, ghost pa: Node?, ghost na: Node?, ghost pb: Node?, ghost nb: Node?,
                       ghost i: nat, ghost j: nat)
      requires i < |nodes| == |elems| && j < |nodes|
      requires a.prev == pa && a.next == na && b.prev == pb && b.next == nb
      requires a != b && a != pb && a != nb && b != pa && b != na && a != pa && a != na && b != pb && b != nb
      requires pa != null ==> pa != na && pa != pb
      requires nb != null ==> nb != na && nb != pb
      requires (a == first <==> pa == null) && (a == last <==> na == null)
      requires (b == first <==> pb == null) && (b == last <==> nb == null)
      modifies this`first, this`last, this`nodes, this`elems, a, b, pa, na, pb, nb
      ensures nodes == Swapped(old(nodes), i, j) && elems == Swapped(old(elems), i, j)
      ensures b.prev == pa && b.next == na && a.prev == pb && a.next == nb
      ensures pa != null ==> pa.next == b
      ensures na != null ==> na.prev == b
      ensures pb != null ==> pb.next == a
      ensures nb != null ==> nb.prev == a
      ensures pa != null && pa != nb ==> pa.prev == old(pa.prev)
      ensures nb != null && nb != pa ==> nb.next == old(nb.next)
      ensures na != null && na != pb ==> na.next == old(na.next)
      ensures pb != null && pb != na ==> pb.prev == old(pb.prev)
      ensures first == (if pa == null then b else if pb == null then a else old(first))
      ensures last == (if na == null then b else if nb == null then a else old(last))
      ensures a.data == old(a.data) && b.data == old(b.data)
      ensures pa != null ==> pa.data == old(pa.data)
      ensures na != null ==> na.data == old(na.data)
      ensures pb != null ==> pb.data == old(pb.data)
      ensures nb != null ==> nb.data == old(nb.data)
    {
      var t: Node?;
      if a == first {
        b.prev.next := a;
        a.prev := b.prev;
        b.prev := null;
        first := b;
      } else if b == first {
        a.prev.next := b;
        b.prev := a.prev;
        a.prev := null;
        first := a;
      } else {
        a.prev.next := b;
        b.prev.next := a;
        t := b.prev;
        b.prev := a.prev;
        a.prev := t;
      }
      if a == last {
        a.next := b.next;
        b.next.prev := a;
        b.next := null;
        last := b;
      } else if b == last {
        b.next := a.next;
        a.next.prev := b;
        a.next := null;
        last := a;
      } else {
        a.next.prev := b;
        b.next.prev := a;
        t := a.next;
        a.next := b.next;
        b.next := t;
      }
      nodes, elems := Swapped(nodes, i, j), Swapped(elems, i, j);
    }

    /** Merges `other` into this list and leaves it empty.  Each list is
        sorted first unless it already is, so the result is the ascending
        arrangement of the elements of both. */
    method Merge(other: List)
      requires Valid() && other.Valid() && Repr !! other.Repr
      modifies Repr, other.Repr
      ensures Valid() && other.Valid() && Repr !! other.Repr
      ensures Repr + other.Repr == old(Repr + other.Repr)
      ensures Sorted(elems) && multiset(elems) == multiset(old(elems)) + multiset(old(other.elems))
      ensures multiset(nodes) == multiset(old(nodes)) + multiset(old(other.nodes))
      ensures forall x :: x in old(nodes) ==> x.data == old(x.data)
      ensures forall x :: x in old(other.nodes) ==> x.data == old(x.data)
      ensures Sorted(old(elems)) && Sorted(old(other.elems)) ==>
        nodes == MergeBy(old(nodes), old(elems), old(other.nodes), old(other.elems))
      ensures other.elems == []
    {
      SortBoth(other);
      ghost var xs, ys := elems, other.elems;
      ghost var xn, yn := nodes, other.nodes;
      ghost var tn, te := MergeBy(xn, xs, yn, ys), ListSpec.Merge(xs, ys);
      HoldsMerge(xn, xs, yn, ys);
      label Relinking:
      MergeRuns(other);
      KeptByHolds@Relinking(Keyed(tn, te));
      MergeByMembers(xn, xs, yn, ys);
      MergeSorted(xs, ys);
      MergeByPermutation(xs, xs, ys, ys);
      MergeByPermutation(xn, xs, yn, ys);
      forall x | x in old(nodes) || x in old(other.nodes)
        ensures x.data == old(x.data)
      {
        assert x in multiset(xn) || x in multiset(yn);
      }
    }

    /** The first step of `Merge`: each list is sorted unless it already
        is, which leaves a sorted list as it was. */
    method SortBoth(other: List)
      requires Valid() && other.Valid() && Repr !! other.Repr
      modifies Repr, other.Repr
      ensures Valid() && other.Valid() && Repr == old(Repr) && other.Repr == old(other.Repr)
      ensures Sorted(elems) && multiset(elems) == multiset(old(elems))
      ensures Sorted(other.elems) && multiset(other.elems) == multiset(old(other.elems))
      ensures multiset(nodes) == multiset(old(nodes)) && multiset(other.nodes) == multiset(old(other.nodes))
      ensures forall x :: x in old(nodes) ==> x.data == old(x.data)
      ensures forall x :: x in old(other.nodes) ==> x.data == old(x.data)
      ensures Sorted(old(elems)) ==> nodes == old(nodes) && elems == old(elems)
      ensures Sorted(old(other.elems)) ==> other.nodes == old(other.nodes) && other.elems == old(other.elems)
    {
      var s := IsSorted();
      if !s {
        Sort();
        if old(elems) == [] {
          assert |multiset(nodes)| == |nodes|;
        }
      }
      assert forall x :: x in old(other.nodes) ==> x in other.Repr;
      var t := other.IsSorted();
      if !t {
        other.Sort();
        if old(other.elems) == [] {
          assert |multiset(other.nodes)| == |other.nodes|;
        }
      }
    }

    /** The merging loop of `Merge`: while both lists have nodes, the head
        of `other` moves in before the current node when it is smaller, and
        otherwise the current node advances; what is left of `other` then
        goes at the back.  On equal elements this list's node stays first. */
    method MergeRuns(other: List)
      requires Valid() && other.Valid() && Repr !! other.Repr
      modifies Repr, other.Repr
      ensures Valid() && other.Valid() && Repr !! other.Repr
      ensures Repr + other.Repr == old(Repr + other.Repr)
      ensures nodes == MergeBy(old(nodes), old(elems), old(other.nodes), old(other.elems))
      ensures elems == ListSpec.Merge(old(elems), old(other.elems)) && other.elems == []
    {
      ghost var tn := MergeBy(nodes, elems, other.nodes, other.elems);
      ghost var te := ListSpec.Merge(elems, other.elems);
      MergeLoopStart(nodes, elems, other.nodes, other.elems);
      MergeLoopStart(elems, elems, other.elems, other.elems);
      var current := first;
      ghost var p: nat := 0;
      while current != null && other.count != 0
        invariant Valid() && other.Valid() && Repr !! other.Repr
        invariant Repr + other.Repr == old(Repr + other.Repr)
        invariant p <= |nodes| && current == At(p)
        invariant MergeLoop(nodes, elems, p, other.nodes, other.elems, tn)
        invariant MergeLoop(elems, elems, p, other.elems, other.elems, te)
        decreases |nodes| - p + 2 * |other.nodes|
      {
        current, p := MergeStep(other, current, p, tn, te);
      }
      MergeLoopDone(nodes, elems, p, other.nodes, other.elems, tn);
      MergeLoopDone(elems, elems, p, other.elems, other.elems, te);
      if other.count != 0 {
        Concatenate(other);
      }
    }

    /** One round of the merging loop, with `current` at position `p`. */
    method MergeStep(other: List, current: Node, ghost p: nat, ghost tn: seq<Node>, ghost te: seq<int>)
      returns (next: Node?, ghost p': nat)
      requires Valid() && other.Valid() && Repr !! other.Repr && other.nodes != []
      requires p < |nodes| && current == nodes[p]
      requires MergeLoop(nodes, elems, p, other.nodes, other.elems, tn)
      requires MergeLoop(elems, elems, p, other.elems, other.elems, te)
      modifies Repr, other.Repr
      ensures Valid() && other.Valid() && Repr !! other.Repr
      ensures Repr + other.Repr == old(Repr + other.Repr)
      ensures p' <= |nodes| && next == At(p')
      ensures MergeLoop(nodes, elems, p', other.nodes, other.elems, tn)
      ensures MergeLoop(elems, elems, p', other.elems, other.elems, te)
      ensures |nodes| - p' + 2 * |other.nodes| < old(|nodes|) - p + 2 * old(|other.nodes|)
    {
      var head := other.first;
      if current.data > head.data {
        MergeLoopTake(nodes, elems, p, other.nodes, other.elems, tn);
        MergeLoopTake(elems, elems, p, other.elems, other.elems, te);
        MoveHead(other, current, p);
        next, p' := current, p + 1;
        Neighbours(p');
      } else {
        MergeLoopKeep(nodes, elems, p, other.nodes, other.elems, tn);
        MergeLoopKeep(elems, elems, p, other.elems, other.elems, te);
        Neighbours(p);
        next, p' := current.next, p + 1;
      }
    }

    /** Moves the first node of `other` in before `current`, at position
        `p`, as `Merge` does when that node is the smaller. */
    method MoveHead(other: List, current: Node, ghost p: nat)
      requires Valid() && other.Valid() && Repr !! other.Repr && other.nodes != []
      requires p < |nodes| && current == nodes[p]
      modifies Repr, other.Repr
      ensures Valid() && other.Valid() && Repr !! other.Repr
      ensures Repr + other.Repr == old(Repr + other.Repr)
      ensures nodes == old(nodes[..p]) + [old(other.nodes[0])] + old(nodes[p..])
      ensures elems == old(elems[..p]) + [old(other.elems[0])] + old(elems[p..])
      ensures other.nodes == old(other.nodes[1..]) && other.elems == old(other.elems[1..])
    {
      MoveMember(Repr, other.Repr, other.nodes[0]);
      var head := other.DetachFirst();
      var _ := PrependNode(current, head, p);
    }

    /** `DetachNode` applied to the first node, which it returns. */
    method DetachFirst() returns (head: Node)
      requires Valid() && nodes != []
      modifies Repr
      ensures Valid() && Repr == old(Repr) - {head}
      ensures head == old(nodes[0]) && head.data == old(elems[0])
      ensures nodes == old(nodes[1..]) && elems == old(elems[1..])
    {
      head := first;
      DropAtEnds(nodes);
      DropAtEnds(elems);
      var _ := DetachNode(head, 0);
    }

    /** Moves the nodes of `other` to the back of this list, leaving
        `other` empty; an empty `other` changes nothing. */
    method Concatenate(other: List)
      requires Valid() && other.Valid() && Repr !! other.Repr
      modifies Repr, other.Repr
      ensures Valid() && other.Valid() && Repr !! other.Repr
      ensures elems == old(elems) + old(other.elems) && other.elems == []
      ensures nodes == old(nodes) + old(other.nodes)
      ensures Repr + other.Repr == old(Repr + other.Repr)
    {
      if other.count == 0 {
        return;
      }
      assert other.first in other.Repr && other.last in other.Repr;
      LinkAtEnd(other.first, other.last, other.count, other.nodes, other.elems, other.Repr - {other});
      other.Clear();
    }

    /** Forgets every node, as a list whose nodes were handed over to
        another list does. */
    method Clear()
      requires this in Repr
      modifies this
      ensures Valid() && elems == [] && Repr == {this}
    {
      first, last, count := null, null, 0;
      nodes, elems, Repr := [], [], {this};
    }

    /** The relinking done by `Concatenate`: the chain `ms` from `head` to
        `tail`, holding `fs` and owned through `s`, is linked in after the
        last node. */
    method LinkAtEnd(head: Node, tail: Node, n: nat, ghost ms: seq<Node>, ghost fs: seq<int>, ghost s: set<object>)
      requires Valid() && Repr !! s && this !in s
      requires |ms| == n > 0 && ms[0] == head && ms[n - 1] == tail && tail.next == null
      requires Distinct(ms) && NextLinked(ms) && PrevLinked(ms) && Holds(ms, fs)
      requires forall x :: x in ms ==> x in s
      modifies Repr, head
      ensures Valid() && Repr == old(Repr) + s
      ensures nodes == old(nodes) + ms && elems == old(elems) + fs
    {
      label L:
      head.prev := last;
      if last != null {
        last.next := head;
      } else {
        first := head;
      }
      last := tail;
      count := count + n;
      ghost var g := Graft(ms, fs, |nodes|);
      assert nodes[..g.p] == nodes && nodes[g.p..] == [] && elems[..g.p] == elems && elems[g.p..] == [];
      nodes, elems, Repr := nodes + ms, elems + fs, Repr + s;
      ChainGrafted@L(g);
    }

    /** Moves the nodes of `other` in after `base`, the node at position
        `k`, leaving `other` empty; a null `base` is refused.  Appending
        after the last node is `Concatenate`. */
    method AppendList(base: Node?, other: List, ghost k: nat) returns (o: Outcome)
      requires Valid() && other.Valid() && Repr !! other.Repr
      requires base != null ==> k < |nodes| && nodes[k] == base
      modifies Repr, other.Repr
      ensures Valid() && other.Valid() && Repr !! other.Repr
      ensures Repr + other.Repr == old(Repr + other.Repr)
      ensures base == null ==> (o == Fail(InvalidNode) && nodes == old(nodes) && elems == old(elems) &&
        other.nodes == old(other.nodes) && other.elems == old(other.elems))
      ensures base != null ==> (o == Pass && other.nodes == [] && other.elems == [] &&
        nodes == old(nodes)[..k + 1] + old(other.nodes) + old(nodes)[k + 1..] &&
        elems == old(elems)[..k + 1] + old(other.elems) + old(elems)[k + 1..])
    {
      if base == null {
        return Fail(InvalidNode);
      }
      o := Pass;
      if base == last {
        DistinctIndex(nodes, k, |nodes| - 1);
        assert nodes[..k + 1] == nodes && nodes[k + 1..] == [];
        assert elems[..k + 1] == elems && elems[k + 1..] == [];
        Concatenate(other);
        return;
      }
      if other.count == 0 {
        assert nodes[..k + 1] + nodes[k + 1..] == nodes;
        assert elems[..k + 1] + elems[k + 1..] == elems;
        return;
      }
      assert k < |nodes| - 1;
      assert other.first in other.Repr && other.last in other.Repr;
      LinkAfter(base, k, other.first, other.last, other.count, other.nodes, other.elems, other.Repr - {other});
      other.Clear();
    }

    /** The relinking done by `AppendList` when `base`, at position `k`,
        has a successor: the chain `ms` from `head` to `tail`, holding `fs`
        and owned through `s`, goes in between the two. */
    method LinkAfter(base: Node, ghost k: nat, head: Node, tail: Node, n: nat,
                     ghost ms: seq<Node>, ghost fs: seq<int>, ghost s: set<object>)
      requires Valid() && Repr !! s && this !in s
      requires k < |nodes| - 1 && nodes[k] == base
      requires |ms| == n > 0 && ms[0] == head && ms[n - 1] == tail
      requires Distinct(ms) && NextLinked(ms) && PrevLinked(ms) && Holds(ms, fs)
      requires forall x :: x in ms ==> x in s
      modifies Repr, head, tail
      ensures Valid() && Repr == old(Repr) + s
      ensures nodes == old(nodes)[..k + 1] + ms + old(nodes)[k + 1..]
      ensures elems == old(elems)[..k + 1] + fs + old(elems)[k + 1..]
    {
      Neighbours(k);
      Neighbours(k + 1);
      label L:
      base.next.prev := tail;
      tail.next := base.next;
      head.prev := base;
      base.next := head;
      count := count + n;
      ghost var g := Graft(ms, fs, k + 1);
      nodes, elems, Repr := nodes[..k + 1] + ms + nodes[k + 1..], elems[..k + 1] + fs + elems[k + 1..], Repr + s;
      ChainGrafted@L(g);
    }

    /** Moves the nodes of `other` in after the node `it` stands on, at
        position `k`. */
    method Splice(it: Iterator, other: List, ghost k: nat) returns (o: Outcome)
      requires Valid() && other.Valid() && Repr !! other.Repr
      requires k < |nodes| && nodes[k] == it.node
      modifies Repr, other.Repr
      ensures Valid() && other.Valid() && Repr !! other.Repr
      ensures Repr + other.Repr == old(Repr + other.Repr)
      ensures o == Pass && other.nodes == [] && other.elems == []
      ensures nodes == old(nodes)[..k + 1] + old(other.nodes) + old(nodes)[k + 1..]
      ensures elems == old(elems)[..k + 1] + old(other.elems) + old(elems)[k + 1..]
    {
      o := AppendList(it.node, other, k);
    }

    /** A cursor on the first node; an empty list has none. */
    method Begin() returns (r: Result<Iterator>)
      requires Valid()
      ensures r.Err? <==> elems == []
      ensures r.Err? ==> r.error == EmptyContainer
      ensures r.Ok? ==> fresh(r.value) && r.value.node == nodes[0]
    {
      if count == 0 {
        return Err(EmptyContainer);
      }
      var it := new Iterator(first);
      r := Ok(it);
    }

    /** A cursor on the last node, not past it; an empty list has none. */
    method End() returns (r: Result<Iterator>)
      requires Valid()
      ensures r.Err? <==> elems == []
      ensures r.Err? ==> r.error == EmptyContainer
      ensures r.Ok? ==> fresh(r.value) && r.value.node == nodes[|nodes| - 1]
    {
      if count == 0 {
        return Err(EmptyContainer);
      }
      var it := new Iterator(last);
      r := Ok(it);
    }
  }

  /** A cursor standing on a node of a list.  Moving it never leaves the
      list: at either end it stays where it is. */
  class Iterator {
    var node: Node

    constructor (n: Node)
      ensures node == n
    {
      node := n;
    }

    /** Moves to the next node of the list `l`, if the cursor is not on
        the last one; `i` is the cursor's position in `l`. */
    method Increment(ghost l: List, ghost i: nat)
      requires l.Valid() && i < |l.nodes| && node == l.nodes[i]
      modifies this
      ensures node == l.nodes[if i + 1 < |l.nodes| then i + 1 else i]
    {
      l.Neighbours(i);
      if node.next != null {
        node := node.next;
      }
    }

    /** Moves to the previous node of the list `l`, if the cursor is not on
        the first one. */
    method Decrement(ghost l: List, ghost i: nat)
      requires l.Valid() && i < |l.nodes| && node == l.nodes[i]
      modifies this
      ensures node == l.nodes[if i > 0 then i - 1 else i]
    {
      l.Neighbours(i);
      if node.prev != null {
        node := node.prev;
      }
    }

    /** The element under the cursor. */
    method Get(ghost l: List, ghost i: nat) returns (x: int)
      requires l.Valid() && i < |l.nodes| && node == l.nodes[i]
      ensures x == l.elems[i]
    {
      x := node.data;
    }

    /** Two cursors on one list are equal exactly when they stand at the
        same position. */
    method Equals(other: Iterator, ghost l: List, ghost i: nat, ghost j: nat) returns (r: bool)
      requires l.Valid() && i < |l.nodes| && j < |l.nodes| && node == l.nodes[i] && other.node == l.nodes[j]
      ensures r <==> i == j
    {
      r := node == other.node;
      if r {
        DistinctIndex(l.nodes, i, j);
      }
    }

    method NotEquals(other: Iterator, ghost l: List, ghost i: nat, ghost j: nat) returns (r: bool)
      requires l.Valid() && i < |l.nodes| && j < |l.nodes| && node == l.nodes[i] && other.node == l.nodes[j]
      ensures r <==> i != j
    {
      var e := Equals(other, l, i, j);
      r := !e;
    }
  }

  /** A cursor on `n`; there is none on a null node. */
  method NewIterator(n: Node?) returns (r: Result<Iterator>)
    ensures r.Err? <==> n == null
    ensures r.Err? ==> r.error == InvalidIterator
    ensures r.Ok? ==> fresh(r.value) && r.value.node == n
  {
    if n == null {
      return Err(InvalidIterator);
    }
    var it := new Iterator(n);
    r := Ok(it);
  }
}
