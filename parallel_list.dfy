/** The sorted singly-linked integer set, in its sequential behaviour: a
    sentinel head followed by a chain of nodes in strictly ascending order,
    with a counter of the nodes in the chain.  Per-node mutexes and atomic
    loads and stores are concurrency control only; here they are plain field
    reads and writes. */
module ParallelList {
  import opened SortedKeys

  class Node {
    const value: int
    var marked: bool
    var next: Node?

    /** A fresh node: unmarked and linked to nothing. */
    constructor (value: int)
      ensures this.value == value && !marked && next == null
    {
      this.value := value;
      marked := false;
      next := null;
    }

    /** Stores the forward link; the mark is untouched. */
    method SetNext(n: Node?)
      modifies this
      ensures next == n && marked == old(marked)
    {
      next := n;
    }

    /** Loads the forward link. */
    method GetNext() returns (n: Node?)
      ensures n == next
    {
      n := next;
    }

    /** Sets the deletion mark, once and for good; the forward link is untouched. */
    method Mark()
      modifies this
      ensures marked && next == old(next)
    {
      marked := true;
    }

    /** Loads the deletion mark. */
    method IfMarked() returns (m: bool)
      ensures m == marked
    {
      m := marked;
    }
  }

  /** No node occurs twice in a chain. */
  ghost predicate Distinct(c: seq<Node>)
  {
    forall i, j :: 0 <= i < j < |c| ==> c[i] != c[j]
  }

  /** The node that follows position `i` of a chain: null after the last. */
  function Succ(c: seq<Node>, i: nat): Node?
  {
    if i + 1 < |c| then c[i + 1] else null
  }

  /** The keys of a chain's nodes, in chain order (keys never change). */
  ghost function Values(c: seq<Node>): (r: seq<int>)
    ensures |r| == |c|
  {
    seq(|c|, i requires 0 <= i < |c| => c[i].value)
  }

  /** The nodes of a chain as a set of objects. */
  ghost function Objects(c: seq<Node>): set<object>
  {
    set n | n in c
  }

  /** Splicing a new node in after position `k` shifts the tail by one and adds
      just that node. */
  lemma SpliceNodeIn(c: seq<Node>, k: nat, x: Node)
    requires k < |c| && Distinct(c) && x !in c
    ensures var d := c[..k + 1] + [x] + c[k + 1..];
      |d| == |c| + 1 && d[k + 1] == x &&
      (forall i :: 0 <= i <= k ==> d[i] == c[i]) &&
      (forall i :: k + 1 < i < |d| ==> d[i] == c[i - 1]) &&
      Distinct(d) && Objects(d) == Objects(c) + {x} &&
      Values(d)[1..] == Values(c)[1..][..k] + [x.value] + Values(c)[1..][k..]
  {
    var d := c[..k + 1] + [x] + c[k + 1..];
    assert forall i :: 0 <= i < |d| ==> d[i] == if i <= k then c[i] else if i == k + 1 then x else c[i - 1];
    assert c == c[..k + 1] + c[k + 1..];
  }

  /** Cutting out the node at position `k + 1` shifts the tail back by one and
      drops just that node. */
  lemma SpliceNodeOut(c: seq<Node>, k: nat)
    requires k + 1 < |c| && Distinct(c)
    ensures var d := c[..k + 1] + c[k + 2..];
      |d| == |c| - 1 &&
      (forall i :: 0 <= i <= k ==> d[i] == c[i]) &&
      (forall i :: k < i < |d| ==> d[i] == c[i + 1]) &&
      Distinct(d) && Objects(d) == Objects(c) - {c[k + 1]} &&
      Values(d)[1..] == Values(c)[1..][..k] + Values(c)[1..][k + 1..]
  {
    var d := c[..k + 1] + c[k + 2..];
    assert forall i :: 0 <= i < |d| ==> d[i] == if i <= k then c[i] else c[i + 1];
    assert c == c[..k + 1] + [c[k + 1]] + c[k + 2..];
    assert forall i :: 0 <= i < |d| ==> d[i] != c[k + 1];
  }

  class IntList {
    var head: Node
    var length: int

    // public view: the keys of the nodes reachable after the head, in chain order
    ghost var Keys: seq<int>
    // the nodes reachable from the head, the head first
    ghost var Chain: seq<Node>
    ghost var Repr: set<object>

    /** Following `next` from the head visits exactly `Chain` and then null; the
        keys after the head are `Keys`, strictly ascending; no node of the chain
        is marked; the counter is the number of nodes after the head. */
    ghost predicate Valid()
      reads this, Repr
    {
      this in Repr &&
      Repr == {this} + Objects(Chain) &&
      |Chain| == |Keys| + 1 && Chain[0] == head &&
      Distinct(Chain) &&
      Values(Chain)[1..] == Keys &&
      StrictlyIncreasing(Keys) &&
      (forall i :: 0 <= i < |Chain| ==> !Chain[i].marked) &&
      (forall i {:trigger Chain[i].next} :: 0 <= i < |Chain| ==> Chain[i].next == Succ(Chain, i)) &&
      length == |Keys|
    }

    /** The invariant holds again once `x` is linked in behind position `k` of
        the chain `c0` that was valid before, with its key placed at index `k`
        of the keys. */
    lemma ValidAfterSpliceIn(c0: seq<Node>, keys0: seq<int>, k: nat, x: Node)
      requires |c0| == |keys0| + 1 && c0[0] == head && Distinct(c0) && Values(c0)[1..] == keys0
      requires k <= |keys0| && x !in c0 && Chain == c0[..k + 1] + [x] + c0[k + 1..]
      requires Keys == keys0[..k] + [x.value] + keys0[k..] && StrictlyIncreasing(Keys)
      requires Repr == {this} + Objects(c0) + {x} && length == |Keys|
      requires forall i :: 0 <= i < |c0| && i != k ==> !c0[i].marked && c0[i].next == Succ(c0, i)
      requires !c0[k].marked && c0[k].next == x && !x.marked && x.next == Succ(c0, k)
      ensures Valid()
    {
      SpliceNodeIn(c0, k, x);
      forall i | 0 <= i < |Chain|
        ensures !Chain[i].marked && Chain[i].next == Succ(Chain, i)
      {
        if i < k {
          assert Chain[i] == c0[i];
        } else if k + 1 < i {
          assert Chain[i] == c0[i - 1];
        }
      }
    }

    /** The invariant holds again once the predecessor at position `k` of the
        chain `c0` that was valid before is linked past the node after it, and
        that node's key is dropped from index `k` of the keys. */
    lemma ValidAfterSpliceOut(c0: seq<Node>, keys0: seq<int>, k: nat)
      requires |c0| == |keys0| + 1 && c0[0] == head && Distinct(c0) && Values(c0)[1..] == keys0
      requires k < |keys0| && Chain == c0[..k + 1] + c0[k + 2..]
      requires Keys == keys0[..k] + keys0[k + 1..] && StrictlyIncreasing(Keys)
      requires Repr == {this} + (Objects(c0) - {c0[k + 1]}) && length == |Keys|
      requires forall i :: 0 <= i < |c0| && i != k && i != k + 1 ==> !c0[i].marked && c0[i].next == Succ(c0, i)
      requires !c0[k].marked && c0[k].next == Succ(c0, k + 1)
      ensures Valid()
    {
      SpliceNodeOut(c0, k);
      forall i | 0 <= i < |Chain|
        ensures !Chain[i].marked && Chain[i].next == Succ(Chain, i)
      {
        if i < k {
          assert Chain[i] == c0[i];
        } else if k < i {
          assert Chain[i] == c0[i + 1];
        }
      }
    }

    /** An empty set: a lone sentinel head with the dummy key 0. */
    constructor ()
      ensures Valid() && fresh(Repr)
      ensures Keys == [] && length == 0
    {
      head := new Node(0);
      length := 0;
      Keys := [];
      Chain := [head];
      new;
      Repr := {this} + Objects(Chain);
    }

    /** The forward walk: returns the adjacent pair that brackets `v`, where
        every node from the first real one up to `pred` holds a key below `v`
        and `succ` is the first node whose key is at least `v`, or null. */
    method Find(v: int) returns (pred: Node, succ: Node?)
      requires Valid()
      ensures pred.next == succ
      ensures pred == Chain[Rank(Keys, v)] && succ == Succ(Chain, Rank(Keys, v))
      ensures pred != head ==> pred.value < v
      ensures succ != null ==> v <= succ.value
    {
      ghost var i := 0;
      pred := head;
      succ := pred.GetNext();
      while succ != null && succ.value < v
        invariant 0 <= i <= |Keys|
        invariant forall j :: 0 <= j < i ==> Keys[j] < v
        invariant pred == Chain[i] && succ == Succ(Chain, i)
        decreases |Keys| - i
      {
        pred := succ;
        succ := succ.GetNext();
        i := i + 1;
      }
      assert i < |Keys| ==> succ == Chain[i + 1] && succ.value == Keys[i];
      assert 0 < i ==> pred.value == Keys[i - 1];
      assert i == Rank(Keys, v);
    }

    /** Adds `v` unless it is present.  The re-validation of the source's retry
        loop is kept, and proved never to fail in a sequential run. */
    method Insert(v: int) returns (inserted: bool)
      requires Valid()
      modifies Repr
      ensures Valid() && fresh(Repr - old(Repr))
      ensures inserted <==> v !in old(Keys)
      ensures Keys == InsertKey(old(Keys), v)
      ensures length == if inserted then old(length) + 1 else old(length)
      ensures !inserted ==> Chain == old(Chain) && Repr == old(Repr) && unchanged(Repr)
      ensures inserted ==>
        var k := Rank(old(Keys), v);
        fresh(Chain[k + 1]) && Chain == old(Chain)[..k + 1] + [Chain[k + 1]] + old(Chain)[k + 1..] &&
        Repr == old(Repr) + {Chain[k + 1]}
    {
      var pred, succ := Find(v);
      ghost var k := Rank(Keys, v);
      MemberAtRank(Keys, v);

      var link := pred.GetNext();
      if link != succ {
        // a concurrent change between the walk and the lock: retried in the source
        assert false;
      }

      if succ != null && succ.value == v {
        assert InsertKey(Keys, v) == Keys;
        return false;
      }

      var x := LinkIn(pred, succ, v, k);
      inserted := true;
      assert Keys == InsertKey(old(Keys), v);
    }

    /** The splice of an insertion: a new node for `v` is pointed at `succ`,
        then `pred` is pointed at the new node, and the counter goes up. */
    method LinkIn(pred: Node, succ: Node?, v: int, ghost k: nat) returns (x: Node)
      requires Valid() && k <= |Keys| && pred == Chain[k] && succ == Succ(Chain, k)
      requires (forall j :: 0 <= j < k ==> Keys[j] < v) && (k < |Keys| ==> v < Keys[k])
      modifies Repr
      ensures Valid() && fresh(x) && x.value == v
      ensures Chain == old(Chain)[..k + 1] + [x] + old(Chain)[k + 1..]
      ensures Keys == old(Keys)[..k] + [v] + old(Keys)[k..]
      ensures Repr == old(Repr) + {x} && length == old(length) + 1
    {
      ghost var c0, keys0 := Chain, Keys;
      assert forall i :: 0 <= i < |c0| && i != k ==> c0[i] != pred;
      x := new Node(v);
      x.SetNext(succ);
      pred.SetNext(x);

      Chain := c0[..k + 1] + [x] + c0[k + 1..];
      Keys := keys0[..k] + [v] + keys0[k..];
      Repr := Repr + {x};
      length := length + 1;

      SpliceIn(keys0, k, v);
      ValidAfterSpliceIn(c0, keys0, k, x);
    }

    /** Removes `v` if it is present: marks its node, then links the
        predecessor past it; the removed node keeps its own forward link. */
    method Delete(v: int) returns (deleted: bool)
      requires Valid()
      modifies Repr
      ensures Valid() && Repr <= old(Repr)
      ensures deleted <==> v in old(Keys)
      ensures Keys == RemoveKey(old(Keys), v)
      ensures length == if deleted then old(length) - 1 else old(length)
      ensures !deleted ==> Chain == old(Chain) && Repr == old(Repr) && unchanged(Repr)
      ensures deleted ==>
        var k := Rank(old(Keys), v);
        var target := old(Chain)[k + 1];
        Chain == old(Chain)[..k + 1] + old(Chain)[k + 2..] &&
        Repr == old(Repr) - {target} &&
        target.marked && target.next == old(target.next)
    {
      var pred, target := Find(v);
      MemberAtRank(Keys, v);
      if target == null || target.value != v {
        assert RemoveKey(Keys, v) == Keys;
        return false;
      }
      ghost var k := Rank(Keys, v);

      var targetMarked := target.IfMarked();
      if targetMarked {
        // another deleter got there first: retried in the source
        assert false;
      }
      var link := pred.GetNext();
      if link != target {
        // the predecessor changed: retried in the source
        assert false;
      }
      var predMarked := pred.IfMarked();
      if predMarked {
        // the predecessor was itself removed: retried in the source
        assert false;
      }

      Unlink(pred, target, k);
      deleted := true;
      assert Keys == RemoveKey(old(Keys), v);
    }

    /** The splice of a deletion: `target` is marked, then `pred` is pointed
        at the node after it, and the counter goes down. */
    method Unlink(pred: Node, target: Node, ghost k: nat)
      requires Valid() && k < |Keys| && pred == Chain[k] && target == Chain[k + 1]
      modifies Repr
      ensures Valid()
      ensures Chain == old(Chain)[..k + 1] + old(Chain)[k + 2..]
      ensures Keys == old(Keys)[..k] + old(Keys)[k + 1..]
      ensures Repr == old(Repr) - {target} && length == old(length) - 1
      ensures target.marked && target.next == old(target.next)
    {
      ghost var c0, keys0 := Chain, Keys;
      assert forall i :: 0 <= i < |c0| && i != k && i != k + 1 ==> c0[i] != pred && c0[i] != target;
      target.Mark();
      var after := target.GetNext();
      pred.SetNext(after);

      Chain := c0[..k + 1] + c0[k + 2..];
      Keys := keys0[..k] + keys0[k + 1..];
      Repr := Repr - {target};
      length := length - 1;

      SpliceOut(keys0, k);
      ValidAfterSpliceOut(c0, keys0, k);
    }

    /** Scans the whole chain for `v` (without using the order to stop early)
        and reports it only if its node is unmarked. */
    method Contains(v: int) returns (found: bool)
      requires Valid()
      ensures found <==> v in Keys
    {
      ghost var i := 0;
      var cur := head.GetNext();
      while cur != null
        invariant 0 <= i <= |Keys| && cur == Succ(Chain, i)
        invariant v !in Keys[..i]
        decreases |Keys| - i
      {
        assert cur == Chain[i + 1] && cur.value == Keys[i];
        if cur.value == v {
          var m := cur.IfMarked();
          return !m;
        }
        assert Keys[..i + 1] == Keys[..i] + [Keys[i]];
        cur := cur.GetNext();
        i := i + 1;
      }
      assert Keys[..i] == Keys;
      return false;
    }

    /** Hands the keys to the visitor `f` in chain order and stops after the
        first one it answers false to; returns the keys it handed over. */
    method Range(f: int -> bool) returns (visited: seq<int>)
      requires Valid()
      ensures visited == Visited(Keys, f)
      ensures StrictlyIncreasing(visited)
    {
      ghost var i := 0;
      visited := [];
      var node := head.GetNext();
      while node != null
        invariant 0 <= i <= |Keys| && node == Succ(Chain, i)
        invariant visited == Keys[..i]
        invariant forall j :: 0 <= j < i ==> f(Keys[j])
        decreases |Keys| - i
      {
        assert node == Chain[i + 1] && node.value == Keys[i];
        assert Keys[..i + 1] == Keys[..i] + [Keys[i]];
        visited := visited + [node.value];
        if !f(node.value) {
          VisitedStopsAt(Keys, f, i);
          return;
        }
        node := node.GetNext();
        i := i + 1;
      }
      VisitedAll(Keys, f);
    }

    /** Reads the counter: the number of nodes after the head, which is the
        number of keys in the set. */
    method Len() returns (n: int)
      requires Valid()
      ensures n == |Chain| - 1 && n == |Elements(Keys)|
    {
      n := length;
      DistinctKeysCount(Keys);
    }
  }
}
