/** Properties that relate several calls on one list, stated as client
    methods whose contracts follow from the single-call contracts of
    `IntList` and the lemmas about the key sequences. */
module ListScenarios {
  import opened SortedKeys
  import opened ParallelList

  /** Inserting an absent key and deleting it again both succeed, leave the
      keys and the counter as they were, and the key is no longer found. */
  method InsertThenDelete(l: IntList, v: int) returns (inserted: bool, deleted: bool, found: bool)
    requires l.Valid() && v !in l.Keys
    modifies l.Repr
    ensures l.Valid()
    ensures inserted && deleted && !found
    ensures l.Keys == old(l.Keys) && l.length == old(l.length)
  {
    ghost var keys0 := l.Keys;
    inserted := l.Insert(v);
    deleted := l.Delete(v);
    InsertTwice(keys0, v);
    RemoveAfterInsert(keys0, v);
    found := l.Contains(v);
  }

  /** A second deletion of the same key reports false and changes nothing,
      whether or not the first one found the key. */
  method DeleteTwice(l: IntList, v: int) returns (first: bool, second: bool)
    requires l.Valid()
    modifies l.Repr
    ensures l.Valid()
    ensures first <==> v in old(l.Keys)
    ensures !second
    ensures l.Keys == RemoveKey(old(l.Keys), v) && v !in l.Keys
  {
    first := l.Delete(v);
    RemoveTwice(old(l.Keys), v);
    second := l.Delete(v);
  }

  /** A second insertion of the same key reports false and changes nothing. */
  method InsertTwiceRejected(l: IntList, v: int) returns (first: bool, second: bool)
    requires l.Valid()
    modifies l.Repr
    ensures l.Valid()
    ensures first <==> v !in old(l.Keys)
    ensures !second
    ensures l.Keys == InsertKey(old(l.Keys), v) && v in l.Keys
  {
    first := l.Insert(v);
    InsertTwice(old(l.Keys), v);
    second := l.Insert(v);
  }

  /** The first key inserted into no keys is the only one. */
  lemma FirstKey(mid: int)
    ensures InsertKey([], mid) == [mid]
  {
    InsertAbove([], mid);
  }

  /** A smaller key inserted next goes in front of it. */
  lemma SmallerKey(mid: int, low: int)
    requires low < mid
    ensures InsertKey([mid], low) == [low, mid]
  {
    InsertBelow([mid], low);
  }

  /** A larger key inserted last goes behind both. */
  lemma LargerKey(low: int, mid: int, high: int)
    requires low < mid < high
    ensures InsertKey([low, mid], high) == [low, mid, high]
  {
    InsertAbove([low, mid], high);
  }

  /** Keys inserted out of order into an empty list are handed to a visitor
      that accepts everything in ascending order (for example 5, 3 and 8 are
      handed over as 3, 5, 8). */
  method ThreeInserts(l: IntList, mid: int, low: int, high: int) returns (visited: seq<int>)
    requires l.Valid() && l.Keys == [] && low < mid < high
    modifies l.Repr
    ensures visited == [low, mid, high]
  {
    var a := l.Insert(mid);
    FirstKey(mid);
    var b := l.Insert(low);
    SmallerKey(mid, low);
    var c := l.Insert(high);
    LargerKey(low, mid, high);
    visited := l.Range(x => true);
    VisitedAll(l.Keys, x => true);
  }
}
