/** The intrusive circular doubly linked list of list.h. */
module DlList {

  /**
   * A struct dl_list and the struct it is embedded in, which is its entry. The entry of
   * a list head is not used.
   */
  class Node<T> {
    var next: Node?<T>
    var prev: Node?<T>
    var entry: T

    /** A node in no list. */
    constructor (e: T)
      ensures next == null && prev == null && entry == e
    {
      next := null;
      prev := null;
      entry := e;
    }
  }

  /** Once round the list, from the head to the head. */
  function Circle<T>(head: Node<T>, s: seq<Node<T>>): (c: seq<Node<T>>)
    ensures |c| == |s| + 2 && c[0] == c[|s| + 1] == head
    ensures forall i | 0 <= i < |s| :: c[i + 1] == s[i]
  {
    [head] + s + [head]
  }

  ghost function Around<T>(head: Node<T>, s: seq<Node<T>>, k: nat): Node<T>
    requires k < |s| + 2
  {
    Circle(head, s)[k]
  }

  ghost predicate Joined<T>(c: seq<Node<T>>, i: int)
    requires 0 <= i < |c| - 1
    reads c`next, c`prev
  {
    c[i].next == c[i + 1] && c[i + 1].prev == c[i]
  }

  ghost predicate Distinct<T>(head: Node<T>, s: seq<Node<T>>) {
    && head !in s
    && forall i, j | 0 <= i < j < |s| :: s[i] != s[j]
  }

  /** The list of this head holds the nodes s, in this order. */
  ghost predicate Ring<T>(head: Node<T>, s: seq<Node<T>>)
    reads Circle(head, s)`next, Circle(head, s)`prev
  {
    && Distinct(head, s)
    && forall i | 0 <= i <= |s| :: Joined(Circle(head, s), i)
  }

  function Inserted<T>(s: seq<T>, k: nat, x: T): (r: seq<T>)
    requires k <= |s|
    ensures |r| == |s| + 1
  {
    s[..k] + [x] + s[k..]
  }

  function Deleted<T>(s: seq<T>, k: nat): (r: seq<T>)
    requires k < |s|
    ensures |r| == |s| - 1
  {
    s[..k] + s[k + 1..]
  }

  lemma InsertedDistinct<T>(head: Node<T>, s: seq<Node<T>>, k: nat, x: Node<T>)
    requires Distinct(head, s) && k <= |s| && x != head && x !in s
    ensures Distinct(head, Inserted(s, k, x))
  {
  }

  lemma DeletedDistinct<T>(head: Node<T>, s: seq<Node<T>>, k: nat)
    requires Distinct(head, s) && k < |s|
    ensures Distinct(head, Deleted(s, k)) && s[k] !in Deleted(s, k)
    ensures forall x | x in Deleted(s, k) :: x in s
  {
  }

  lemma InsertedCircle<T>(head: Node<T>, s: seq<Node<T>>, k: nat, x: Node<T>)
    requires k <= |s|
    ensures var c, d := Circle(head, s), Circle(head, Inserted(s, k, x));
            && d[k + 1] == x
            && (forall i | 0 <= i <= k :: d[i] == c[i])
            && (forall i | k + 1 < i < |d| :: d[i] == c[i - 1])
  {
  }

  lemma DeletedCircle<T>(head: Node<T>, s: seq<Node<T>>, k: nat)
    requires k < |s|
    ensures var c, d := Circle(head, s), Circle(head, Deleted(s, k));
            && (forall i | 0 <= i <= k :: d[i] == c[i])
            && (forall i | k < i < |d| :: d[i] == c[i + 1])
  {
  }

  /** No other place of the circle is the node at k before its end, or the one behind it. */
  lemma OnceRound<T>(head: Node<T>, s: seq<Node<T>>, k: nat)
    requires Distinct(head, s) && k <= |s|
    ensures var c := Circle(head, s);
            && (forall i | 0 <= i <= |s| && i != k :: c[i] != c[k])
            && (forall i | 1 <= i <= |s| + 1 && i != k + 1 :: c[i] != c[k + 1])
  {
    var c := Circle(head, s);
    forall i | 0 <= i <= |s| && i != k ensures c[i] != c[k] {
      if k > 0 { assert c[k] == s[k - 1]; }
      if i > 0 { assert c[i] == s[i - 1]; }
    }
    forall i | 1 <= i <= |s| + 1 && i != k + 1 ensures c[i] != c[k + 1] {
      if k < |s| { assert c[k + 1] == s[k]; }
      if i <= |s| { assert c[i] == s[i - 1]; }
    }
  }

  lemma {:induction false} SameSteps<T>(head: Node<T>, s: seq<Node<T>>, t: seq<Node<T>>, k: nat)
    requires Ring(head, s) && Ring(head, t) && k <= |s| + 1 && k <= |t| + 1
    ensures Circle(head, s)[k] == Circle(head, t)[k]
  {
    if k > 0 {
      SameSteps(head, s, t, k - 1);
      assert Joined(Circle(head, s), k - 1) && Joined(Circle(head, t), k - 1);
    }
  }

  /** The links of a list allow only one reading of what it holds. */
  lemma RingDetermines<T>(head: Node<T>, s: seq<Node<T>>, t: seq<Node<T>>)
    requires Ring(head, s) && Ring(head, t)
    ensures s == t
  {
    var n := if |s| < |t| then |s| else |t|;
    SameSteps(head, s, t, n + 1);
    assert |s| == |t|;
    forall i | 0 <= i < n ensures s[i] == t[i] {
      SameSteps(head, s, t, i + 1);
    }
  }

  /** dl_list_init. */
  method Init<T>(list: Node<T>)
    modifies list`next, list`prev
    ensures Ring(list, [])
  {
    list.next := list;
    list.prev := list;
  }

  /** The links that dl_list_add sets. */
  method LinkAfter<T>(list: Node<T>, item: Node<T>, ghost behind: Node<T>)
    requires list.next == behind && item != list && item != behind
    modifies item`next, item`prev, list`next, behind`prev
    ensures list.next == item && item.prev == list
    ensures item.next == behind && behind.prev == item
  {
    item.next := list.next;
    item.prev := list;
    list.next.prev := item;
    list.next := item;
  }

  /** The links that dl_list_del sets. */
  method Unlink<T>(item: Node<T>, ghost before: Node<T>, ghost behind: Node<T>)
    requires item.prev == before && item.next == behind && item != before && item != behind
    modifies item`next, item`prev, before`next, behind`prev
    ensures before.next == behind && behind.prev == before
    ensures item.next == null && item.prev == null
  {
    item.next.prev := item.prev;
    item.prev.next := item.next;
    item.next := null;
    item.prev := null;
  }

  /**
   * dl_list_add: the item goes in behind the node at position k of the circle. No other
   * node is touched but the two neighbours, and they in one link each.
   */
  method Add<T>(list: Node<T>, item: Node<T>, ghost head: Node<T>, ghost s: seq<Node<T>>, ghost k: nat)
    requires Ring(head, s) && k <= |s| && list == Circle(head, s)[k]
    requires item != head && item !in s
    modifies item`next, item`prev, list`next, Around(head, s, k + 1)`prev
    ensures Ring(head, Inserted(s, k, item))
  {
    ghost var c := Circle(head, s);
    OnceRound(head, s, k);
    assert Joined(c, k);
    ghost var behind := c[k + 1];
    LinkAfter(list, item, behind);
    InsertedDistinct(head, s, k, item);
    ghost var d := Circle(head, Inserted(s, k, item));
    InsertedCircle(head, s, k, item);
    forall i | 0 <= i < k
      ensures Joined(d, i)
    {
      assert old(Joined(c, i));
    }
    forall i | k + 1 < i <= |s| + 1
      ensures Joined(d, i)
    {
      assert old(Joined(c, i - 1));
    }
    assert Joined(d, k) && Joined(d, k + 1);
  }

  /** dl_list_add on the head: the item comes first. */
  method AddFirst<T>(list: Node<T>, item: Node<T>, ghost s: seq<Node<T>>)
    requires Ring(list, s) && item != list && item !in s
    modifies item`next, item`prev, list`next, Around(list, s, 1)`prev
    ensures Ring(list, [item] + s)
  {
    Add(list, item, list, s, 0);
    assert Inserted(s, 0, item) == [item] + s;
  }

  /** dl_list_add_tail: the item comes last. */
  method AddTail<T>(list: Node<T>, item: Node<T>, ghost s: seq<Node<T>>)
    requires Ring(list, s) && item != list && item !in s
    modifies item`next, item`prev, list`prev, Around(list, s, |s|)`next
    ensures Ring(list, s + [item])
  {
    assert Joined(Circle(list, s), |s|);
    Add(list.prev, item, list, s, |s|);
    assert Inserted(s, |s|, item) == s + [item];
  }

  /** dl_list_del: the list closes behind the node, which points nowhere any more. */
  method Del<T>(item: Node<T>, ghost head: Node<T>, ghost s: seq<Node<T>>, ghost k: nat)
    requires Ring(head, s) && k < |s| && item == s[k]
    modifies item`next, item`prev, Around(head, s, k)`next, Around(head, s, k + 2)`prev
    ensures Ring(head, Deleted(s, k))
    ensures item.next == null && item.prev == null
  {
    ghost var c := Circle(head, s);
    OnceRound(head, s, k);
    OnceRound(head, s, k + 1);
    assert Joined(c, k) && Joined(c, k + 1);
    Unlink(item, c[k], c[k + 2]);
    DeletedDistinct(head, s, k);
    ghost var d := Circle(head, Deleted(s, k));
    DeletedCircle(head, s, k);
    forall i | 0 <= i < k
      ensures Joined(d, i)
    {
      assert old(Joined(c, i));
    }
    forall i | k < i < |s|
      ensures Joined(d, i)
    {
      assert old(Joined(c, i + 1));
    }
    assert Joined(d, k);
  }

  /** dl_list_empty. */
  method Empty<T>(list: Node<T>, ghost s: seq<Node<T>>) returns (empty: bool)
    requires Ring(list, s)
    ensures empty <==> s == []
  {
    assert Joined(Circle(list, s), 0);
    empty := list.next == list;
  }

  /** dl_list_len: going round by next comes back to the head, after as many nodes as there are. */
  method Len<T>(list: Node<T>, ghost s: seq<Node<T>>) returns (count: nat)
    requires Ring(list, s)
    ensures count == |s|
  {
    ghost var c := Circle(list, s);
    assert Joined(c, 0);
    var item := list.next;
    count := 0;
    while item != list
      invariant count <= |s| && item == c[count + 1]
      decreases |s| - count
    {
      assert Joined(c, count + 1);
      item := item.next;
      count := count + 1;
    }
  }

  /** dl_list_for_each, with a body that only looks. */
  method ForEach<T>(list: Node<T>, ghost s: seq<Node<T>>) returns (visited: seq<Node<T>>)
    requires Ring(list, s)
    ensures visited == s
  {
    ghost var c := Circle(list, s);
    assert Joined(c, 0);
    var item := list.next;
    visited := [];
    while item != list
      invariant |visited| <= |s| && visited == s[..|visited|] && item == c[|visited| + 1]
      decreases |s| - |visited|
    {
      assert Joined(c, |visited| + 1);
      visited := visited + [item];
      item := item.next;
    }
  }

  function Reversed<T>(s: seq<T>): (r: seq<T>)
    ensures |r| == |s|
    ensures forall i | 0 <= i < |s| :: r[i] == s[|s| - 1 - i]
  {
    seq(|s|, i requires 0 <= i < |s| => s[|s| - 1 - i])
  }

  /** The node at position v from the end, or the head in front of the first one. */
  function FromEnd<T>(list: Node<T>, s: seq<Node<T>>, v: nat): Node<T> {
    if v < |s| then s[|s| - 1 - v] else list
  }

  lemma FromEndOnCircle<T>(list: Node<T>, s: seq<Node<T>>, v: nat)
    requires Distinct(list, s) && v <= |s|
    ensures FromEnd(list, s, v) == Circle(list, s)[|s| - v]
  {
  }

  /** Where the links back lead. */
  lemma Backward<T>(list: Node<T>, s: seq<Node<T>>, v: nat)
    requires Ring(list, s) && v < |s|
    ensures FromEnd(list, s, v).prev == FromEnd(list, s, v + 1)
    ensures FromEnd(list, s, v + 1) == list <==> v + 1 == |s|
    ensures Reversed(s)[..v + 1] == Reversed(s)[..v] + [FromEnd(list, s, v)]
  {
    assert v + 1 < |s| ==> s[|s| - 2 - v] in s;
    ReversedNext(list, s, v);
    FromEndOnCircle(list, s, v);
    FromEndOnCircle(list, s, v + 1);
    assert Joined(Circle(list, s), |s| - v - 1);
  }

  lemma BackFromHead<T>(list: Node<T>, s: seq<Node<T>>)
    requires Ring(list, s)
    ensures list.prev == FromEnd(list, s, 0)
    ensures FromEnd(list, s, 0) == list <==> s == []
    ensures Reversed(s)[..0] == [] && Reversed(s)[..|s|] == Reversed(s)
  {
    assert s != [] ==> s[|s| - 1] in s;
    FromEndOnCircle(list, s, 0);
    assert Joined(Circle(list, s), |s|);
  }

  /** dl_list_for_each_reverse: the links back spell the list from its end. */
  method ForEachReverse<T>(list: Node<T>, ghost s: seq<Node<T>>) returns (visited: seq<Node<T>>)
    requires Ring(list, s)
    ensures visited == Reversed(s)
  {
    BackFromHead(list, s);
    var item: Node<T> := list.prev;
    visited := [];
    while item != list
      invariant |visited| <= |s| && item == FromEnd(list, s, |visited|)
      invariant item == list <==> |visited| == |s|
      invariant visited == Reversed(s)[..|visited|]
      decreases |s| - |visited|
    {
      Backward(list, s, |visited|);
      visited := visited + [item];
      item := item.prev;
    }
  }

  lemma ReversedNext<T>(list: Node<T>, s: seq<Node<T>>, v: nat)
    requires v < |s|
    ensures Reversed(s)[..v + 1] == Reversed(s)[..v] + [FromEnd(list, s, v)]
  {
    assert Reversed(s)[v] == FromEnd(list, s, v);
  }

  /** The nodes that stay. */
  function Without<T(==)>(s: seq<T>, doomed: set<T>): seq<T>
  {
    if s == [] then []
    else
      var n := |s| - 1;
      Without(s[..n], doomed) + if s[n] in doomed then [] else [s[n]]
  }

  lemma {:induction false} WithoutMembers<T>(s: seq<T>, doomed: set<T>, x: T)
    ensures x in Without(s, doomed) <==> x in s && x !in doomed
  {
    if s != [] {
      WithoutMembers(s[..|s| - 1], doomed, x);
      assert s == s[..|s| - 1] + [s[|s| - 1]];
    }
  }

  lemma NextOfWalk<T>(s: seq<T>, doomed: set<T>, n: nat)
    requires n < |s|
    ensures s[..n + 1] == s[..n] + [s[n]]
    ensures Without(s[..n + 1], doomed) == Without(s[..n], doomed) + if s[n] in doomed then [] else [s[n]]
  {
    assert s[..n + 1][..n] == s[..n];
  }

  /** The list in the middle of the walk: what was kept so far, and what is yet to be visited. */
  ghost function Midway<T>(s: seq<T>, doomed: set<T>, n: nat): seq<T>
    requires n <= |s|
  {
    Without(s[..n], doomed) + s[n..]
  }

  lemma DeleteMiddle<T>(w: seq<T>, s: seq<T>, n: nat)
    requires n < |s|
    ensures Deleted(w + s[n..], |w|) == w + s[n + 1..]
  {
  }

  lemma KeepMiddle<T>(w: seq<T>, s: seq<T>, n: nat)
    requires n < |s|
    ensures w + s[n..] == (w + [s[n]]) + s[n + 1..]
  {
    assert s[n..] == [s[n]] + s[n + 1..];
    assert w + ([s[n]] + s[n + 1..]) == (w + [s[n]]) + s[n + 1..];
  }

  lemma MidwayNext<T>(s: seq<T>, doomed: set<T>, n: nat)
    requires n < |s|
    ensures var m, k := Midway(s, doomed, n), |Without(s[..n], doomed)|;
            && k < |m| && m[k] == s[n]
            && Midway(s, doomed, n + 1) == (if s[n] in doomed then Deleted(m, k) else m)
            && |Without(s[..n + 1], doomed)| == (if s[n] in doomed then k else k + 1)
    ensures s[..n + 1] == s[..n] + [s[n]]
  {
    NextOfWalk(s, doomed, n);
    if s[n] in doomed {
      assert Without(s[..n], doomed) + [] == Without(s[..n], doomed);
      DeleteMiddle(Without(s[..n], doomed), s, n);
    } else {
      KeepMiddle(Without(s[..n], doomed), s, n);
    }
  }

  lemma MidwayEnd<T>(s: seq<T>, doomed: set<T>, n: nat)
    requires n <= |s| && |Midway(s, doomed, n)| == |Without(s[..n], doomed)|
    ensures n == |s| && Midway(s, doomed, n) == Without(s, doomed)
  {
    assert s[..|s|] == s;
  }

  /** Where the links lead from position k of the list. */
  lemma Onward<T>(list: Node<T>, s: seq<Node<T>>, k: nat)
    requires Ring(list, s) && k <= |s| + 1
    ensures var c := Circle(list, s);
            && c[k].next == c[if k <= |s| then k + 1 else 1]
            && (k >= 1 ==> (c[k] == list <==> k == |s| + 1))
  {
    assert Joined(Circle(list, s), if k <= |s| then k else 0);
    if 1 <= k <= |s| {
      assert s[k - 1] in s;
    }
  }

  /** The node at position k, or the head behind the last one. */
  function Spot<T>(list: Node<T>, s: seq<Node<T>>, k: nat): Node<T> {
    if k < |s| then s[k] else list
  }

  lemma FromHead<T>(list: Node<T>, s: seq<Node<T>>)
    requires Ring(list, s)
    ensures list.next == Spot(list, s, 0) && (Spot(list, s, 0) == list ==> s == [])
    ensures Spot(list, s, 0).next != null
  {
    Onward(list, s, 0);
    Onward(list, s, 1);
  }

  /** The body of the walk: it may delete the node it is at. The node after it stays in its place. */
  method Visit<T>(item: Node<T>, n: Node<T>, doomed: set<Node<T>>, ghost list: Node<T>,
                  ghost s: seq<Node<T>>, ghost k: nat, ghost all: seq<Node<T>>)
    returns (ghost t: seq<Node<T>>, ghost j: nat)
    requires Ring(list, s) && k < |s| && item == s[k] && n == item.next
    requires forall x | x in s :: x in all
    modifies list`next, list`prev, all`next, all`prev
    ensures t == (if item in doomed then Deleted(s, k) else s) && Ring(list, t)
    ensures j == (if item in doomed then k else k + 1) && j <= |t|
    ensures forall x | x in t :: x in all
    ensures n == Spot(list, t, j) && n.next != null && (n == list ==> j == |t|)
  {
    Onward(list, s, k + 1);
    t, j := s, k + 1;
    if item in doomed {
      assert Around(list, s, k) == if k > 0 then s[k - 1] else list;
      assert Around(list, s, k + 2) == if k + 1 < |s| then s[k + 1] else list;
      assert s[k] in s && (k > 0 ==> s[k - 1] in s) && (k + 1 < |s| ==> s[k + 1] in s);
      Del(item, list, s, k);
      t, j := Deleted(s, k), k;
    }
    Onward(list, t, j + 1);
  }

  /**
   * dl_list_for_each_safe, with a body that may delete the node it is at: every node of
   * the list is visited once, in order, and just the ones not deleted are left.
   */
  method ForEachSafe<T>(list: Node<T>, doomed: set<Node<T>>, ghost s: seq<Node<T>>)
    returns (visited: seq<Node<T>>)
    requires Ring(list, s)
    modifies list`next, list`prev, s`next, s`prev
    ensures visited == s
    ensures Ring(list, Without(s, doomed))
  {
    ghost var left, k, v := s, 0, 0;
    assert s[..0] == [] && s[0..] == s;
    FromHead(list, s);
    var item: Node<T> := list.next;
    visited := [];
    var n: Node<T> := item.next;
    while item != list
      invariant v <= |s| && visited == s[..v]
      invariant left == Midway(s, doomed, v) && Ring(list, left)
      invariant forall x | x in left :: x in s
      invariant k == |Without(s[..v], doomed)| <= |left|
      invariant item == Spot(list, left, k) && (item == list ==> k == |left|)
      invariant n == item.next
      decreases |s| - v
    {
      MidwayNext(s, doomed, v);
      visited := visited + [item];
      left, k := Visit(item, n, doomed, list, left, k, s);
      v := v + 1;
      item := n;
      n := n.next;
    }
    MidwayEnd(s, doomed, v);
  }
}
