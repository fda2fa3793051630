/** linked_list<T>: a singly linked chain of nodes headed by `start`, with a separate
    `l_size` counter. The chain is read as the sequence of its nodes' data from `start`
    to the node whose `next` is null; pointer identity and node deallocation have no
    counterpart here. */
module LinkedList {

  /** Largest value of size_t on a 64-bit target. */
  const SizeMax: nat := 0xFFFF_FFFF_FFFF_FFFF

  /** The chain's data in order, and the l_size counter. */
  datatype List<T> = List(items: seq<T>, size: nat)

  /** The class invariant: l_size counts the nodes reachable from start. */
  predicate Valid<T>(l: List<T>) {
    l.size == |l.items|
  }

  /** The constructor: a null start and a zero counter. */
  function New<T>(): (l: List<T>)
    ensures Valid(l)
    ensures |l.items| == 0
  {
    List([], 0)
  }

  /** empty(): answers from the counter alone, which the invariant ties to the chain. */
  function Empty<T>(l: List<T>): (b: bool)
    requires Valid(l)
    ensures b <==> l.items == []
  {
    l.size == 0
  }

  /** size(): the counter, which is the length of the chain. */
  function Size<T>(l: List<T>): (n: nat)
    requires Valid(l)
    ensures n == |l.items|
  {
    l.size
  }

  /** add(): a new node becomes start, pointing at the old start when there was one. */
  function Add<T>(l: List<T>, item: T): (r: List<T>)
    requires Valid(l)
    ensures Valid(r)
    ensures |r.items| == |l.items| + 1
    ensures r.items[0] == item && r.items[1..] == l.items
  {
    if Empty(l) then List([item], l.size + 1)
    else List([item] + l.items, l.size + 1)
  }

  /** Where the walk in insert() leaves `current`. */
  datatype Walk = Stopped(at: nat) | FellOff

  /** The loop of insert(): `current` starts at position `from`; while the counter is
      below `bound` it steps to the next node, returning early (FellOff) when there is
      none. The counter and the position move together. */
  function WalkFrom(length: nat, from: nat, bound: nat): (w: Walk)
    requires from < length
    requires from <= bound
    ensures w == (if bound < length then Stopped(bound) else FellOff)
    decreases bound - from
  {
    if from == bound then Stopped(from)
    else if from + 1 >= length then FellOff
    else WalkFrom(length, from + 1, bound)
  }

  /** insert(item, index). With index 0 the item is first added at the front and the
      loop bound `index - 1` wraps to SizeMax, so the walk runs off the tail and returns:
      the net effect is add(). Otherwise the walk stops at position index - 1 and the
      new node is linked after it, or the call returns unchanged when the chain is too
      short. */
  function Insert<T>(l: List<T>, item: T, index: nat): (r: List<T>)
    requires Valid(l)
    requires index <= SizeMax
    ensures Valid(r)
    ensures index == 0 && |l.items| < SizeMax ==> r == Add(l, item)
    ensures 0 < index <= |l.items| ==> r.items == l.items[..index] + [item] + l.items[index..]
    ensures index > |l.items| ==> r == l
  {
    if Empty(l) && index != 0 then l
    else
      var l' := if index == 0 then Add(l, item) else l;
      // size_t arithmetic: 0 - 1 wraps to the largest value
      var bound := if index == 0 then SizeMax else index - 1;
      match WalkFrom(|l'.items|, 0, bound)
      case FellOff => l'
      case Stopped(p) =>
        // linking after the tail and linking before a successor build the same chain
        List(l'.items[..p + 1] + [item] + l'.items[p + 1..], l'.size + 1)
  }

  /** The least position holding `value`. */
  function FirstIndex<T(==)>(s: seq<T>, value: T): (i: nat)
    requires value in s
    ensures i < |s| && s[i] == value
    ensures value !in s[..i]
  {
    if s[0] == value then 0
    else
      assert s == [s[0]] + s[1..];
      var j := FirstIndex(s[1..], value);
      assert s[..j + 1] == [s[0]] + s[1..][..j];
      j + 1
  }

  /** The walk of remove_value(): skip nodes until the first one holding `value`, and
      unlink it; a chain without `value` comes back whole. */
  function UnlinkFirst<T(==)>(s: seq<T>, value: T): (r: seq<T>)
    ensures value !in s ==> r == s
    ensures value in s ==> r == s[..FirstIndex(s, value)] + s[FirstIndex(s, value) + 1..]
  {
    if |s| == 0 then s
    else if s[0] == value then s[1..]
    else
      assert s == [s[0]] + s[1..];
      [s[0]] + UnlinkFirst(s[1..], value)
  }

  /** remove_value(value): deletes the first occurrence only and decrements the counter;
      no change when `value` is absent. */
  function RemoveValue<T(==)>(l: List<T>, value: T): (r: List<T>)
    requires Valid(l)
    ensures Valid(r)
    ensures value !in l.items ==> r == l
    ensures value in l.items ==>
      var i := FirstIndex(l.items, value);
      |r.items| == |l.items| - 1 &&
      (forall j :: 0 <= j < i ==> r.items[j] == l.items[j] != value) &&
      (forall j :: i <= j < |r.items| ==> r.items[j] == l.items[j + 1])
  {
    if Empty(l) || value !in l.items then l
    else List(UnlinkFirst(l.items, value), l.size - 1)
  }

  /** The walk of remove_value_all(): every node holding `value` is unlinked, the
      others keep their order. */
  function UnlinkAll<T(==)>(s: seq<T>, value: T): (r: seq<T>)
    ensures value !in r
    ensures |r| == |s| - multiset(s)[value]
    ensures multiset(r) == multiset(s)[value := 0]
  {
    if |s| == 0 then []
    else
      assert s == [s[0]] + s[1..];
      var rest := UnlinkAll(s[1..], value);
      if s[0] == value then rest else [s[0]] + rest
  }

  /** remove_value_all(value): the counter drops once per unlinked node. */
  function RemoveValueAll<T(==)>(l: List<T>, value: T): (r: List<T>)
    requires Valid(l)
    ensures Valid(r)
    ensures value !in r.items
    ensures r.size == l.size - multiset(l.items)[value]
    ensures multiset(r.items) == multiset(l.items)[value := 0]
    ensures r.items == UnlinkAll(l.items, value)
  {
    if Empty(l) then l
    else List(UnlinkAll(l.items, value), l.size - multiset(l.items)[value])
  }

  /** remove_index(index): an empty list or an index at or past the counter leaves the
      list alone (the source prints a message); otherwise the node at `index` is
      unlinked, whether it is start, an inner node or the tail. */
  function RemoveIndex<T>(l: List<T>, index: nat): (r: List<T>)
    requires Valid(l)
    ensures Valid(r)
    ensures index >= |l.items| ==> r == l
    ensures index < |l.items| ==>
      |r.items| == |l.items| - 1 &&
      (forall j :: 0 <= j < index ==> r.items[j] == l.items[j]) &&
      (forall j :: index <= j < |r.items| ==> r.items[j] == l.items[j + 1])
  {
    if Empty(l) then l
    else if index >= l.size then l
    else if index == 0 then
      if l.size == 1 then List([], 0) else List(l.items[1..], l.size - 1)
    else if index == l.size - 1 then List(l.items[..index], l.size - 1)
    else List(l.items[..index] + l.items[index + 1..], l.size - 1)
  }

  /** Removing what add() just put at the front gives the list back. */
  lemma AddThenRemoveIndex<T>(l: List<T>, item: T)
    requires Valid(l)
    ensures RemoveIndex(Add(l, item), 0) == l
  {
  }

  /** remove_index undoes insert at the same in-range position, the front included. */
  lemma InsertThenRemoveIndex<T>(l: List<T>, item: T, index: nat)
    requires Valid(l)
    requires index <= |l.items| < SizeMax
    ensures RemoveIndex(Insert(l, item, index), index) == l
  {
  }

  /** Removing by value what add() just put at the front gives the list back. */
  lemma AddThenRemoveValue<T>(l: List<T>, item: T)
    requires Valid(l)
    ensures RemoveValue(Add(l, item), item) == l
  {
  }

  /** remove_value is remove_index at the first position holding the value. */
  lemma RemoveValueIsRemoveIndex<T>(l: List<T>, value: T)
    requires Valid(l)
    ensures value in l.items ==> RemoveValue(l, value) == RemoveIndex(l, FirstIndex(l.items, value))
    ensures value !in l.items ==> RemoveValue(l, value) == RemoveIndex(l, |l.items|)
  {
    if value in l.items {
      var a := RemoveValue(l, value);
      var b := RemoveIndex(l, FirstIndex(l.items, value));
      assert a.items == b.items;
    }
  }

  /** Filtering distributes over concatenation: what remove_value_all keeps stays in
      its original order. */
  lemma {:induction false} UnlinkAllAppend<T>(a: seq<T>, b: seq<T>, value: T)
    ensures UnlinkAll(a + b, value) == UnlinkAll(a, value) + UnlinkAll(b, value)
    decreases |a|
  {
    if |a| == 0 {
      assert a + b == b;
    } else {
      assert (a + b)[1..] == a[1..] + b;
      UnlinkAllAppend(a[1..], b, value);
    }
  }

  /** remove_value_all is idempotent. */
  lemma RemoveValueAllIdempotent<T>(l: List<T>, value: T)
    requires Valid(l)
    ensures RemoveValueAll(RemoveValueAll(l, value), value) == RemoveValueAll(l, value)
  {
    var r := RemoveValueAll(l, value);
    UnlinkAllAbsent(r.items, value);
  }

  /** A chain without `value` passes through the filter unchanged. */
  lemma {:induction false} UnlinkAllAbsent<T>(s: seq<T>, value: T)
    requires value !in s
    ensures UnlinkAll(s, value) == s
    decreases |s|
  {
    if |s| > 0 {
      assert s == [s[0]] + s[1..];
      UnlinkAllAbsent(s[1..], value);
    }
  }
}
