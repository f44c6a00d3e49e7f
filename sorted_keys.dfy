/** The abstract view of the list: the keys reachable from the sentinel head,
    in chain order, as a strictly ascending sequence of integers.  Every
    operation of the linked list is specified by a function in this module. */
module SortedKeys {

  /** Ascending without duplicates: the order the chain after the head keeps. */
  predicate StrictlyIncreasing(s: seq<int>)
  {
    forall i, j :: 0 <= i < j < |s| ==> s[i] < s[j]
  }

  /** The keys of a chain as a set. */
  function Elements(s: seq<int>): set<int>
  {
    set x | x in s
  }

  /** Where the forward walk stops: the index of the first key that is not
      less than `v`, or `|s|` when every key is less. */
  function Rank(s: seq<int>, v: int): (r: nat)
    ensures r <= |s|
    ensures forall j :: 0 <= j < r ==> s[j] < v
    ensures r < |s| ==> v <= s[r]
  {
    if s == [] || v <= s[0] then 0 else 1 + Rank(s[1..], v)
  }

  /** In an ascending chain, `v` is present exactly when the key where the walk
      stops is `v` itself. */
  lemma MemberAtRank(s: seq<int>, v: int)
    requires StrictlyIncreasing(s)
    ensures v in s <==> Rank(s, v) < |s| && s[Rank(s, v)] == v
  {
    var r := Rank(s, v);
    if v in s {
      var k :| 0 <= k < |s| && s[k] == v;
      assert k == r;
    }
  }

  /** Splicing `v` in between the keys below it and the keys above it keeps the
      chain ascending and adds exactly `v` to its keys. */
  lemma SpliceIn(s: seq<int>, k: nat, v: int)
    requires StrictlyIncreasing(s) && k <= |s|
    requires forall j :: 0 <= j < k ==> s[j] < v
    requires k < |s| ==> v < s[k]
    ensures StrictlyIncreasing(s[..k] + [v] + s[k..])
    ensures Elements(s[..k] + [v] + s[k..]) == Elements(s) + {v}
  {
    var r := s[..k] + [v] + s[k..];
    assert forall i :: 0 <= i < |r| ==> r[i] == if i < k then s[i] else if i == k then v else s[i - 1];
    forall i, j | 0 <= i < j < |r|
      ensures r[i] < r[j]
    {
      if j < k || k < i {
      } else if i == k {
        assert k < |s| ==> s[k] <= s[j - 1];
      } else if j == k {
      } else {
        assert s[i] < v;
        assert k < |s| ==> s[k] <= s[j - 1];
      }
    }
    assert s == s[..k] + s[k..];
  }

  /** Cutting out the key at index `k` keeps the chain ascending and removes
      exactly that key from its keys. */
  lemma SpliceOut(s: seq<int>, k: nat)
    requires StrictlyIncreasing(s) && k < |s|
    ensures StrictlyIncreasing(s[..k] + s[k + 1..])
    ensures Elements(s[..k] + s[k + 1..]) == Elements(s) - {s[k]}
  {
    var r := s[..k] + s[k + 1..];
    assert forall i :: 0 <= i < |r| ==> r[i] == if i < k then s[i] else s[i + 1];
    assert s == s[..k] + [s[k]] + s[k + 1..];
    assert forall i :: 0 <= i < |r| ==> r[i] != s[k];
  }

  /** The set operation that a successful or rejected insertion performs:
      a present key leaves the chain as it is, an absent one is spliced in
      where the walk stopped. */
  function InsertKey(s: seq<int>, v: int): (r: seq<int>)
    requires StrictlyIncreasing(s)
    ensures StrictlyIncreasing(r)
    ensures Elements(r) == Elements(s) + {v}
    ensures |r| == if v in s then |s| else |s| + 1
  {
    var k := Rank(s, v);
    MemberAtRank(s, v);
    if k < |s| && s[k] == v then s
    else
      SpliceIn(s, k, v);
      s[..k] + [v] + s[k..]
  }

  /** A key above every key present is appended at the end of the chain. */
  lemma InsertAbove(s: seq<int>, v: int)
    requires StrictlyIncreasing(s) && forall j :: 0 <= j < |s| ==> s[j] < v
    ensures InsertKey(s, v) == s + [v]
  {
    assert s[..|s|] == s;
  }

  /** A key below every key present is placed at the front of the chain. */
  lemma InsertBelow(s: seq<int>, v: int)
    requires StrictlyIncreasing(s) && s != [] && v < s[0]
    ensures InsertKey(s, v) == [v] + s
  {
    assert Rank(s, v) == 0;
    assert s[..0] == [] && s[0..] == s;
  }

  /** The set operation that a successful or rejected deletion performs:
      a present key is cut out of the chain, an absent one changes nothing. */
  function RemoveKey(s: seq<int>, v: int): (r: seq<int>)
    requires StrictlyIncreasing(s)
    ensures StrictlyIncreasing(r)
    ensures Elements(r) == Elements(s) - {v}
    ensures |r| == if v in s then |s| - 1 else |s|
  {
    var k := Rank(s, v);
    MemberAtRank(s, v);
    if k < |s| && s[k] == v then
      SpliceOut(s, k);
      s[..k] + s[k + 1..]
    else s
  }

  /** Only the empty chain has no keys. */
  lemma NoElementsNoChain(s: seq<int>)
    ensures s == [] <==> Elements(s) == {}
  {
    if s != [] {
      assert s[0] in Elements(s);
    }
  }

  /** The first key of an ascending chain is its least. */
  lemma FirstIsLeast(s: seq<int>, i: nat)
    requires StrictlyIncreasing(s) && i < |s|
    ensures s[0] <= s[i]
  {
  }

  /** An ascending chain is determined by its set of keys: this is what makes
      the contracts of InsertKey and RemoveKey a complete description. */
  lemma {:induction false} SameElementsSameChain(a: seq<int>, b: seq<int>)
    requires StrictlyIncreasing(a) && StrictlyIncreasing(b)
    requires Elements(a) == Elements(b)
    ensures a == b
  {
    NoElementsNoChain(a);
    NoElementsNoChain(b);
    if a != [] && b != [] {
      assert a[0] in Elements(b) && b[0] in Elements(a);
      var i :| 0 <= i < |b| && b[i] == a[0];
      var j :| 0 <= j < |a| && a[j] == b[0];
      FirstIsLeast(b, i);
      FirstIsLeast(a, j);
      assert Elements(a[1..]) == Elements(a) - {a[0]} by {
        assert a == [a[0]] + a[1..];
        assert forall x :: x in a[1..] ==> a[0] < x;
      }
      assert Elements(b[1..]) == Elements(b) - {b[0]} by {
        assert b == [b[0]] + b[1..];
        assert forall x :: x in b[1..] ==> b[0] < x;
      }
      SameElementsSameChain(a[1..], b[1..]);
      assert a == [a[0]] + a[1..] && b == [b[0]] + b[1..];
    }
  }

  /** Deleting a key just inserted gives back the chain before the insertion. */
  lemma RemoveAfterInsert(s: seq<int>, v: int)
    requires StrictlyIncreasing(s) && v !in s
    ensures RemoveKey(InsertKey(s, v), v) == s
  {
    var t := InsertKey(s, v);
    assert v !in Elements(s);
    SameElementsSameChain(RemoveKey(t, v), s);
  }

  /** Inserting a key just deleted gives back the chain before the deletion. */
  lemma InsertAfterRemove(s: seq<int>, v: int)
    requires StrictlyIncreasing(s) && v in s
    ensures InsertKey(RemoveKey(s, v), v) == s
  {
    var t := RemoveKey(s, v);
    assert v in Elements(s);
    SameElementsSameChain(InsertKey(t, v), s);
  }

  /** A second insertion of the same key is rejected and changes nothing. */
  lemma InsertTwice(s: seq<int>, v: int)
    requires StrictlyIncreasing(s)
    ensures v in InsertKey(s, v)
    ensures InsertKey(InsertKey(s, v), v) == InsertKey(s, v)
  {
    assert v in Elements(InsertKey(s, v));
  }

  /** A second deletion of the same key finds it absent and changes nothing. */
  lemma RemoveTwice(s: seq<int>, v: int)
    requires StrictlyIncreasing(s)
    ensures v !in RemoveKey(s, v)
    ensures RemoveKey(RemoveKey(s, v), v) == RemoveKey(s, v)
  {
    assert v !in Elements(RemoveKey(s, v));
  }

  /** The values a visitor is handed by a forward walk that stops at the first
      key for which the visitor answers false (that key is still handed over). */
  function Visited(s: seq<int>, f: int -> bool): (r: seq<int>)
    ensures |r| <= |s| && r == s[..|r|]
    ensures s != [] ==> r != []
    ensures forall j :: 0 <= j < |r| - 1 ==> f(r[j])
    ensures |r| < |s| ==> !f(r[|r| - 1])
  {
    if s == [] then []
    else if !f(s[0]) then [s[0]]
    else [s[0]] + Visited(s[1..], f)
  }

  /** The walk that visits every key, because the visitor never stops it. */
  lemma {:induction false} VisitedAll(s: seq<int>, f: int -> bool)
    requires forall j :: 0 <= j < |s| ==> f(s[j])
    ensures Visited(s, f) == s
  {
    if s != [] {
      VisitedAll(s[1..], f);
    }
  }

  /** The walk that stops at the first refused key hands over everything up to
      and including that key. */
  lemma {:induction false} VisitedStopsAt(s: seq<int>, f: int -> bool, k: nat)
    requires k < |s| && !f(s[k])
    requires forall j :: 0 <= j < k ==> f(s[j])
    ensures Visited(s, f) == s[..k + 1]
  {
    if k > 0 {
      VisitedStopsAt(s[1..], f, k - 1);
      assert s[..k + 1] == [s[0]] + s[1..][..k];
    }
  }

  /** In an ascending chain no key repeats, so there are as many keys in the
      set as nodes in the chain. */
  lemma {:induction false} DistinctKeysCount(s: seq<int>)
    requires StrictlyIncreasing(s)
    ensures |Elements(s)| == |s|
  {
    if s != [] {
      var t := s[1..];
      assert StrictlyIncreasing(t);
      DistinctKeysCount(t);
      assert Elements(s) == {s[0]} + Elements(t) by {
        assert s == [s[0]] + t;
      }
      assert s[0] !in Elements(t) by {
        assert forall j :: 0 <= j < |t| ==> s[0] < t[j];
      }
    }
  }
}
