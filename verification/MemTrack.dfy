/** The books of the tracking allocator of wm_mem.c, on values. */
module MemBooks {
  import opened DlList

  /** MEMORY_BLOCK. The header pattern is the address malloc gave. */
  datatype Block = Block(pad: nat, file: string, line: nat, length: nat, header: nat)

  const WORD := 0x1_0000_0000

  /** The size of a header and of a trailer. */
  const PATTERN := 4

  /** What a block asks of malloc, in a word. */
  function Cost(b: Block): (c: nat)
    ensures c < WORD
  {
    (b.length + PATTERN + PATTERN + b.pad) % WORD
  }

  function Total(bs: seq<Block>): nat {
    if bs == [] then 0 else Total(bs[..|bs| - 1]) + Cost(bs[|bs| - 1])
  }

  lemma TotalOfOneMore(bs: seq<Block>, b: Block)
    ensures Total(bs + [b]) == Total(bs) + Cost(b)
  {
    assert (bs + [b])[..|bs|] == bs;
  }

  lemma {:induction false} TotalOfOneLess(bs: seq<Block>, k: nat)
    requires k < |bs|
    ensures Total(Deleted(bs, k)) + Cost(bs[k]) == Total(bs)
  {
    var n := |bs| - 1;
    if k == n {
      assert Deleted(bs, k) == bs[..n];
    } else {
      TotalOfOneLess(bs[..n], k);
      assert Deleted(bs, k) == Deleted(bs[..n], k) + [bs[n]];
      TotalOfOneMore(Deleted(bs[..n], k), bs[n]);
    }
  }

  /** The blocks in use, in the order of the list, and the three counters. */
  datatype Books = Books(used: seq<Block>, bytes: nat, count: nat, max: nat)

  function Charge(s: Books, b: Block): Books {
    var bytes := (s.bytes + Cost(b)) % WORD;
    Books(s.used + [b], bytes, (s.count + 1) % WORD, if bytes > s.max then bytes else s.max)
  }

  function Refund(s: Books, k: nat): Books
    requires k < |s.used|
  {
    Books(Deleted(s.used, k), (s.bytes - Cost(s.used[k])) % WORD, (s.count - 1) % WORD, s.max)
  }

  /** A block in use counts for its length, its padding and eight bytes more, in a word. */
  lemma WhatABlockCosts(s: Books, b: Block)
    ensures Charge(s, b).bytes == (s.bytes + b.length + 8 + b.pad) % 0x1_0000_0000
    ensures Charge(s, b).max == if Charge(s, b).bytes > s.max then Charge(s, b).bytes else s.max
    ensures forall k | 0 <= k < |s.used| ::
              Refund(s, k).bytes == (s.bytes - (s.used[k].length + 8 + s.used[k].pad)) % 0x1_0000_0000
  {
    AddThenReduce(b.length + 8 + b.pad, s.bytes);
    forall k | 0 <= k < |s.used|
      ensures Refund(s, k).bytes == (s.bytes - (s.used[k].length + 8 + s.used[k].pad)) % 0x1_0000_0000
    {
      LessTheRest(s.bytes, s.used[k].length + 8 + s.used[k].pad);
    }
  }

  lemma LessTheRest(x: int, y: int)
    ensures (x - y % WORD) % WORD == (x - y) % WORD
  {
    var q := y / WORD;
    assert y == WORD * q + y % WORD;
    Shift(x - y, q);
  }

  datatype Event = Take(b: Block) | Give(k: nat)

  /** Giving back what is not there changes nothing. */
  function Step(s: Books, e: Event): Books {
    match e
    case Take(b) => Charge(s, b)
    case Give(k) => if k < |s.used| then Refund(s, k) else s
  }

  const Clean := Books([], 0, 0, 0)

  function Run(es: seq<Event>): Books {
    if es == [] then Clean else Step(Run(es[..|es| - 1]), es[|es| - 1])
  }

  /** The largest total over the whole run. */
  function Peak(es: seq<Event>): nat {
    if es == [] then 0
    else
      var before, now := Peak(es[..|es| - 1]), Total(Run(es).used);
      if now > before then now else before
  }

  lemma AddThenReduce(x: int, y: int)
    ensures (x % WORD + y) % WORD == (x + y) % WORD
    ensures (x % WORD - y) % WORD == (x - y) % WORD
  {
    var q := x / WORD;
    assert x == WORD * q + x % WORD;
    Shift(x % WORD + y, q);
    Shift(x % WORD - y, q);
  }

  lemma Shift(x: int, q: int)
    ensures (x + WORD * q) % WORD == x % WORD
  {
    var y := x + WORD * q;
    assert x == WORD * (x / WORD) + x % WORD;
    assert y - y % WORD == WORD * (y / WORD);
    assert WORD * (y / WORD - x / WORD - q) == x % WORD - y % WORD;
  }

  /** The byte counter is the total of the blocks in use, and the block counter is their number, a word wide. */
  ghost predicate Exact(s: Books) {
    && s.bytes == Total(s.used) % WORD
    && s.count == |s.used| % WORD
  }

  lemma StepIsExact(s: Books, e: Event)
    requires Exact(s)
    ensures Exact(Step(s, e))
  {
    match e
    case Take(b) => ChargeIsExact(s, b);
    case Give(k) => if k < |s.used| { RefundIsExact(s, k); }
  }

  lemma ChargeIsExact(s: Books, b: Block)
    requires Exact(s)
    ensures Exact(Charge(s, b))
  {
    TotalOfOneMore(s.used, b);
    AddThenReduce(Total(s.used), Cost(b));
    AddThenReduce(|s.used|, 1);
  }

  lemma RefundIsExact(s: Books, k: nat)
    requires Exact(s) && k < |s.used|
    ensures Exact(Refund(s, k))
  {
    var n, total, cost := |s.used|, Total(s.used), Cost(s.used[k]);
    TotalOfOneLess(s.used, k);
    AddThenReduce(total, cost);
    AddThenReduce(n, 1);
    var r := Refund(s, k);
    assert |r.used| == n - 1 && Total(r.used) == total - cost;
    assert r.bytes == (s.bytes - cost) % WORD && r.count == (s.count - 1) % WORD;
  }

  /** In every run the counters are exact. */
  lemma {:induction false} RunIsExact(es: seq<Event>)
    ensures Exact(Run(es))
  {
    if es != [] {
      RunIsExact(es[..|es| - 1]);
      StepIsExact(Run(es[..|es| - 1]), es[|es| - 1]);
    }
  }

  /**
   * If the blocks in use never came to more than the address space holds, the byte counter
   * is their total and the high-water mark is the largest total there ever was.
   */
  lemma {:induction false} MarkIsPeak(es: seq<Event>)
    requires Peak(es) < WORD
    ensures Run(es).bytes == Total(Run(es).used) <= Run(es).max == Peak(es)
  {
    RunIsExact(es);
    if es != [] { RunIsExact(es[..|es| - 1]); }
    if es != [] {
      var before, e := es[..|es| - 1], es[|es| - 1];
      MarkIsPeak(before);
      MarkMoves(Run(before), e);
      assert Run(es) == Step(Run(before), e);
      ExactSmall(Run(es));
    }
  }

  lemma ExactSmall(s: Books)
    requires Exact(s) && Total(s.used) < WORD
    ensures s.bytes == Total(s.used)
  {
  }

  lemma MarkMoves(s: Books, e: Event)
    requires Exact(s) && Total(s.used) < WORD && Total(Step(s, e).used) < WORD
    requires s.bytes <= s.max
    ensures var t, now := Step(s, e), Total(Step(s, e).used);
            t.max == if now > s.max then now else s.max
  {
    StepIsExact(s, e);
    ExactSmall(s);
    ExactSmall(Step(s, e));
    GiveLowers(s, e);
  }

  lemma GiveLowers(s: Books, e: Event)
    ensures e.Give? ==> Total(Step(s, e).used) <= Total(s.used)
  {
    if e.Give? && e.k < |s.used| {
      TotalOfOneLess(s.used, e.k);
    }
  }

  /** Giving a block back as it was taken leaves the counters as they were, all but the mark. */
  lemma RefundUndoesCharge(s: Books, b: Block)
    requires Exact(s)
    ensures Refund(Charge(s, b), |s.used|) == s.(max := Charge(s, b).max)
  {
    var c := Charge(s, b);
    StepIsExact(s, Take(b));
    StepIsExact(c, Give(|s.used|));
    assert Deleted(s.used + [b], |s.used|) == s.used;
  }
}

/** The tracking allocator itself, on its two lists. */
module MemTrack {
  import opened DlList
  import opened MemBooks

  const MEM_BLOCK_SIZE := 600

  ghost function Entries(s: seq<Node<Block>>): (bs: seq<Block>)
    reads s
    ensures |bs| == |s|
  {
    seq(|s|, i requires 0 <= i < |s| reads s => s[i].entry)
  }

  lemma EntriesDeleted(s: seq<Node<Block>>, k: nat)
    requires k < |s|
    ensures Entries(Deleted(s, k)) == Deleted(Entries(s), k)
  {
  }

  /** The two lists have no block in common and together hold the whole pool. */
  ghost predicate Partition(pool: seq<Node<Block>>, used: seq<Node<Block>>, free: seq<Node<Block>>) {
    && |used| + |free| == |pool|
    && (forall x | x in used :: x in pool && x !in free)
    && (forall x | x in free :: x in pool)
    && (forall x | x in pool :: x in used || x in free)
  }

  lemma Moved(pool: seq<Node<Block>>, s: seq<Node<Block>>, t: seq<Node<Block>>, k: nat, head: Node<Block>)
    requires Partition(pool, s, t) && Distinct(head, s) && k < |s|
    ensures Partition(pool, Deleted(s, k), t + [s[k]])
  {
    DeletedDistinct(head, s, k);
    var d := Deleted(s, k);
    forall x | x in s ensures x in d || x == s[k] {
      var i :| 0 <= i < |s| && s[i] == x;
      if i < k {
        assert d[i] == x;
      } else if i > k {
        assert d[i - 1] == x;
      }
    }
    assert s[k] in s;
  }

  /** No two blocks in use have the same address. */
  ghost predicate Headers(bs: seq<Block>) {
    forall i, j | 0 <= i < j < |bs| :: bs[i].header != bs[j].header
  }

  lemma HeadersOfOneMore(bs: seq<Block>, b: Block)
    requires Headers(bs) && !Tracked(bs, b.header)
    ensures Headers(bs + [b])
  {
    forall i, j | 0 <= i < j <= |bs|
      ensures (bs + [b])[i].header != (bs + [b])[j].header
    {
      assert (bs + [b])[i] == bs[i];
    }
  }

  lemma HeadersOfOneLess(bs: seq<Block>, k: nat)
    requires Headers(bs) && k < |bs|
    ensures Headers(Deleted(bs, k))
  {
  }

  lemma OnlyHere(bs: seq<Block>, k: nat)
    requires Headers(bs) && k < |bs|
    ensures Tracked(bs, bs[k].header)
    ensures forall j | 0 <= j < |bs| && bs[j].header == bs[k].header :: j == k
  {
  }

  ghost predicate Sound(s: Books) {
    Exact(s) && Headers(s.used)
  }

  lemma ChargeIsSound(s: Books, b: Block)
    requires Sound(s) && !Tracked(s.used, b.header)
    ensures Sound(Charge(s, b))
  {
    StepIsExact(s, Take(b));
    HeadersOfOneMore(s.used, b);
  }

  lemma RefundIsSound(s: Books, k: nat)
    requires Sound(s) && k < |s.used|
    ensures Sound(Refund(s, k))
  {
    StepIsExact(s, Give(k));
    HeadersOfOneLess(s.used, k);
  }

  /** Whether a block in use has this address. */
  ghost predicate Tracked(bs: seq<Block>, header: nat) {
    exists i | 0 <= i < |bs| :: bs[i].header == header
  }

  lemma OnCircle(head: Node<Block>, s: seq<Node<Block>>, i: nat)
    requires i < |s| + 2
    ensures Circle(head, s)[i] == head || Circle(head, s)[i] in s
  {
    if 0 < i <= |s| {
      assert Circle(head, s)[i] == s[i - 1];
    }
  }

  /** Adding to one list leaves another as it is. */
  method AddAway(item: Node<Block>, to: Node<Block>, ghost t: seq<Node<Block>>,
                 ghost other: Node<Block>, ghost s: seq<Node<Block>>)
    requires Ring(to, t) && item != to && item !in t
    requires Ring(other, s) && item != other && item !in s
    requires other != to && other !in t && to !in s && forall x | x in s :: x !in t
    modifies item`next, item`prev, to`prev, Around(to, t, |t|)`next
    ensures Ring(to, t + [item]) && Ring(other, s)
  {
    OnCircle(to, t, |t|);
    AddTail(to, item, t);
    forall i | 0 <= i <= |s|
      ensures Joined(Circle(other, s), i)
    {
      assert old(Joined(Circle(other, s), i));
      OnCircle(other, s, i);
      OnCircle(other, s, i + 1);
    }
  }

  /** Deleting from one list leaves another as it is. */
  method DelAway(item: Node<Block>, ghost from: Node<Block>, ghost s: seq<Node<Block>>, ghost k: nat,
                 ghost other: Node<Block>, ghost t: seq<Node<Block>>)
    requires Ring(from, s) && k < |s| && item == s[k]
    requires Ring(other, t) && other != from && from !in t && other !in s && forall x | x in s :: x !in t
    modifies item`next, item`prev, Around(from, s, k)`next, Around(from, s, k + 2)`prev
    ensures Ring(from, Deleted(s, k)) && Ring(other, t)
  {
    OnCircle(from, s, k);
    OnCircle(from, s, k + 2);
    Del(item, from, s, k);
    forall i | 0 <= i <= |t|
      ensures Joined(Circle(other, t), i)
    {
      assert old(Joined(Circle(other, t), i));
      OnCircle(other, t, i);
      OnCircle(other, t, i + 1);
    }
  }

  /** A node goes from its place in one list to the end of another. */
  method Transfer(item: Node<Block>, to: Node<Block>, ghost from: Node<Block>,
                  ghost s: seq<Node<Block>>, ghost k: nat, ghost t: seq<Node<Block>>)
    requires Ring(from, s) && Ring(to, t) && k < |s| && item == s[k]
    requires from != to && from !in t && to !in s && forall x | x in s :: x !in t
    modifies item`next, item`prev, Around(from, s, k)`next, Around(from, s, k + 2)`prev
    modifies to`prev, Around(to, t, |t|)`next
    ensures Ring(from, Deleted(s, k)) && Ring(to, t + [item])
  {
    DeletedDistinct(from, s, k);
    DelAway(item, from, s, k, to, t);
    AddAway(item, to, t, from, Deleted(s, k));
  }

  /** A product of two words, a word wide. */
  function Product(n: nat, size: nat): (p: nat)
    ensures p < 0x1_0000_0000 && (n * size < 0x1_0000_0000 ==> p == n * size)
  {
    n * size % WORD
  }

  /** Two lists that share out the pool. */
  ghost predicate TwoLists(a: Node<Block>, b: Node<Block>, pool: seq<Node<Block>>,
                           s: seq<Node<Block>>, t: seq<Node<Block>>)
    reads a`next, a`prev, b`next, b`prev, s`next, s`prev, t`next, t`prev
  {
    && a != b && a !in pool && b !in pool
    && Partition(pool, s, t)
    && Ring(a, s)
    && Ring(b, t)
  }

  method Move(item: Node<Block>, to: Node<Block>, ghost from: Node<Block>, ghost pool: seq<Node<Block>>,
              ghost s: seq<Node<Block>>, ghost k: nat, ghost t: seq<Node<Block>>, ghost all: set<Node<Block>>)
    requires TwoLists(from, to, pool, s, t) && k < |s| && item == s[k]
    requires from in all && to in all && forall x | x in pool :: x in all
    modifies all`next, all`prev
    ensures TwoLists(from, to, pool, Deleted(s, k), t + [item])
  {
    Moved(pool, s, t, k, from);
    OnCircle(from, s, k);
    OnCircle(from, s, k + 2);
    OnCircle(to, t, |t|);
    assert s[k] in s;
    Transfer(item, to, from, s, k, t);
  }

  /** The first node of the list whose block has this address, or the head. */
  method Find(list: Node<Block>, header: nat, ghost s: seq<Node<Block>>) returns (item: Node<Block>, ghost k: nat)
    requires Ring(list, s)
    ensures item != list ==> item in s && item.entry.header == header
    ensures item == list ==> forall i | 0 <= i < |s| :: s[i].entry.header != header
    ensures k <= |s| && item == Spot(list, s, k)
    ensures k < |s| ==> s[k].entry.header == header
    ensures forall i | 0 <= i < k :: s[i].entry.header != header
  {
    FromHead(list, s);
    item := list.next;
    k := 0;
    while item != list && item.entry.header != header
      invariant k <= |s| && item == Spot(list, s, k) && (item == list ==> k == |s|)
      invariant forall i | 0 <= i < k :: s[i].entry.header != header
      decreases |s| - k
    {
      Onward(list, s, k + 1);
      Onward(list, s, k + 2);
      item := item.next;
      k := k + 1;
    }
  }

  class Allocator {
    const memory_used_list: Node<Block>
    const memory_free_list: Node<Block>
    const mem_blocks: seq<Node<Block>>
    var memory_manager_initialized: bool
    var alloc_heap_mem_bytes: nat
    var alloc_heap_mem_blk_cnt: nat
    var alloc_heap_mem_max_size: nat
    ghost var used: seq<Node<Block>>
    ghost var free: seq<Node<Block>>

    ghost predicate Pool() {
      && |mem_blocks| == MEM_BLOCK_SIZE
      && memory_used_list != memory_free_list
      && Distinct(memory_used_list, mem_blocks)
      && Distinct(memory_free_list, mem_blocks)
      && nodes == {memory_used_list, memory_free_list} + set x | x in mem_blocks
    }

    ghost predicate Lists()
      reads this`used, this`free, memory_used_list`next, memory_used_list`prev
      reads memory_free_list`next, memory_free_list`prev, used`next, used`prev, free`next, free`prev
    {
      TwoLists(memory_used_list, memory_free_list, mem_blocks, used, free)
    }

    /** Everything the allocator keeps its lists in. */
    ghost const nodes: set<Node<Block>>

    ghost predicate Valid()
      reads this, memory_used_list, memory_free_list, used, free
    {
      && Pool()
      && Sound(State())
      && (if memory_manager_initialized then Lists() else used == [] && State() == Clean)
    }

    ghost function State(): Books
      reads this, used
    {
      Books(Entries(used), alloc_heap_mem_bytes, alloc_heap_mem_blk_cnt, alloc_heap_mem_max_size)
    }

    /** The free list, or what it will be once it is set up. */
    ghost function Available(): seq<Node<Block>>
      reads this
    {
      if memory_manager_initialized then free else mem_blocks
    }

    /** What the start of the program leaves: nothing set up yet. */
    constructor (used_list: Node<Block>, free_list: Node<Block>, blocks: seq<Node<Block>>)
      requires |blocks| == 600 && used_list != free_list
      requires Distinct(used_list, blocks) && Distinct(free_list, blocks)
      ensures Valid() && !memory_manager_initialized && State() == Clean
    {
      memory_used_list, memory_free_list, mem_blocks := used_list, free_list, blocks;
      nodes := {used_list, free_list} + set x | x in blocks;
      memory_manager_initialized := false;
      alloc_heap_mem_bytes, alloc_heap_mem_blk_cnt, alloc_heap_mem_max_size := 0, 0, 0;
      used, free := [], [];
    }

    /** The first call puts the whole pool into the free list. */
    method SetUp()
      requires Valid()
      modifies this`memory_manager_initialized, this`used, this`free
      modifies nodes`next, nodes`prev
      ensures Valid() && memory_manager_initialized
      ensures State() == old(State()) && used == old(used) && free == old(Available())
    {
      if !memory_manager_initialized {
        MakeLists();
        memory_manager_initialized := true;
        used, free := [], mem_blocks;
      }
    }

    /** An empty used list, and the pool in the free list. */
    method MakeLists()
      requires Pool()
      modifies nodes`next, nodes`prev
      ensures Ring(memory_used_list, []) && Ring(memory_free_list, mem_blocks)
    {
      Init(memory_used_list);
      Init(memory_free_list);
      for i := 0 to MEM_BLOCK_SIZE
        invariant Ring(memory_used_list, [])
        invariant Ring(memory_free_list, mem_blocks[..i])
      {
        assert Around(memory_free_list, mem_blocks[..i], i) == if i > 0 then mem_blocks[i - 1] else memory_free_list;
        AddTail(memory_free_list, mem_blocks[i], mem_blocks[..i]);
        assert mem_blocks[..i + 1] == mem_blocks[..i] + [mem_blocks[i]];
      }
      assert mem_blocks[..MEM_BLOCK_SIZE] == mem_blocks;
    }

    /** The three counters after an allocation. */
    method CountIn(cost: nat)
      modifies this`alloc_heap_mem_bytes, this`alloc_heap_mem_blk_cnt, this`alloc_heap_mem_max_size
      ensures alloc_heap_mem_bytes == (old(alloc_heap_mem_bytes) + cost) % WORD
      ensures alloc_heap_mem_blk_cnt == (old(alloc_heap_mem_blk_cnt) + 1) % WORD
      ensures alloc_heap_mem_max_size
           == if alloc_heap_mem_bytes > old(alloc_heap_mem_max_size) then alloc_heap_mem_bytes
              else old(alloc_heap_mem_max_size)
    {
      alloc_heap_mem_bytes := (alloc_heap_mem_bytes + cost) % WORD;
      alloc_heap_mem_blk_cnt := (alloc_heap_mem_blk_cnt + 1) % WORD;
      if alloc_heap_mem_bytes > alloc_heap_mem_max_size {
        alloc_heap_mem_max_size := alloc_heap_mem_bytes;
      }
    }

    method CountOut(cost: nat)
      modifies this`alloc_heap_mem_bytes, this`alloc_heap_mem_blk_cnt
      ensures alloc_heap_mem_bytes == (old(alloc_heap_mem_bytes) - cost) % WORD
      ensures alloc_heap_mem_blk_cnt == (old(alloc_heap_mem_blk_cnt) - 1) % WORD
    {
      alloc_heap_mem_bytes := (alloc_heap_mem_bytes - cost) % WORD;
      alloc_heap_mem_blk_cnt := (alloc_heap_mem_blk_cnt - 1) % WORD;
    }

    /** The first free block goes into the used list. */
    method TakeFirst() returns (item: Node<Block>)
      requires Pool() && Lists() && free != []
      modifies this`used, this`free, nodes`next, nodes`prev
      ensures Lists() && item == old(free[0]) && used == old(used) + [item] && free == old(free[1..])
    {
      FromHead(memory_free_list, free);
      item := memory_free_list.next;
      Move(item, memory_used_list, memory_free_list, mem_blocks, free, 0, used, nodes);
      used, free := used + [item], Deleted(free, 0);
    }

    /** The block just taken is written. */
    method Fill(item: Node<Block>, b: Block)
      requires Lists() && |used| > 0 && item == used[|used| - 1]
      modifies item`entry
      ensures Lists() && Entries(used) == old(Entries(used))[..|used| - 1] + [b]
    {
      item.entry := b;
    }

    method TakeFor(b: Block)
      requires Pool() && Lists() && free != []
      modifies this`used, this`free, nodes
      ensures Lists() && used == old(used) + [old(free[0])] && free == old(free[1..])
      ensures Entries(used) == old(Entries(used)) + [b]
    {
      ghost var before := Entries(used);
      assert free[0] in free;
      var item := TakeFirst();
      assert Entries(used)[..|used| - 1] == before;
      Fill(item, b);
    }

    /** A used block goes to the end of the free list. */
    method GiveBack(item: Node<Block>, ghost k: nat)
      requires Pool() && Lists() && k < |used| && item == used[k]
      modifies this`used, this`free, nodes`next, nodes`prev
      ensures Lists() && used == Deleted(old(used), k) && free == old(free) + [item]
      ensures Entries(used) == Deleted(old(Entries(used)), k)
    {
      ghost var before := Entries(used);
      Move(item, memory_free_list, memory_used_list, mem_blocks, used, k, free, nodes);
      assert Entries(used) == before;
      EntriesDeleted(used, k);
      used, free := Deleted(used, k), free + [item];
    }

    /** An allocation on the lists and on the counters. */
    method Charged(b: Block)
      requires Pool() && Lists() && free != []
      modifies this`used, this`free, nodes
      modifies this`alloc_heap_mem_bytes, this`alloc_heap_mem_blk_cnt, this`alloc_heap_mem_max_size
      ensures Lists() && State() == Charge(old(State()), b)
      ensures used == old(used) + [old(free[0])] && free == old(free[1..])
    {
      CountIn(Cost(b));
      TakeFor(b);
    }

    /** A block for a new address. */
    method Track(b: Block)
      requires Valid() && memory_manager_initialized && free != []
      requires !Tracked(Entries(used), b.header)
      modifies this, nodes
      ensures Valid() && memory_manager_initialized
      ensures State() == Charge(old(State()), b)
      ensures used == old(used) + [old(free[0])] && free == old(free[1..])
    {
      ghost var before := State();
      ChargeIsSound(before, b);
      Charged(b);
      assert State() == Charge(before, b);
    }

    /** mem_alloc_debug, malloc's answer being the address. */
    method Alloc(size: nat, file: string, line: nat, address: nat) returns (r: nat)
      requires Valid() && size < WORD && address < WORD
      requires address != 0 ==> !Tracked(Entries(used), address)
      modifies this, nodes
      ensures Valid() && memory_manager_initialized
      ensures var b, there := Block(4 - size % 4, file, line, size, address), old(Available());
              if address != 0 && there != [] then
                && State() == Charge(old(State()), b)
                && used == old(used) + [there[0]] && free == there[1..]
                && r == (address + PATTERN) % WORD
              else
                State() == old(State()) && used == old(used) && free == there && r == 0
    {
      SetUp();
      var pad := 4 - size % 4;
      if address == 0 {
        return 0;
      }
      var tracked := TrackIfFree(Block(pad, file, line, size, address));
      if tracked {
        r := (address + PATTERN) % WORD;
      } else {
        r := 0;
      }
    }

    /** A block for a new address, if one is free. */
    method TrackIfFree(b: Block) returns (tracked: bool)
      requires Valid() && memory_manager_initialized
      requires !Tracked(Entries(used), b.header)
      modifies this, nodes
      ensures Valid() && memory_manager_initialized
      ensures tracked <==> old(free) != []
      ensures tracked ==>
                State() == Charge(old(State()), b) && used == old(used) + [old(free)[0]] && free == old(free)[1..]
      ensures !tracked ==> State() == old(State()) && used == old(used) && free == old(free)
    {
      var none := Empty(memory_free_list, free);
      if !none {
        Track(b);
      }
      tracked := !none;
    }

    /** mem_calloc_debug: an allocation of the product, a word wide. */
    method Calloc(n: nat, size: nat, file: string, line: nat, address: nat) returns (r: nat)
      requires Valid() && n < WORD && size < WORD && address < WORD
      requires address != 0 ==> !Tracked(Entries(used), address)
      modifies this, nodes
      ensures Valid() && memory_manager_initialized
      ensures var length := Product(n, size); var there := old(Available());
              if address != 0 && there != [] then
                && State() == Charge(old(State()), Block(4 - length % 4, file, line, length, address))
                && used == old(used) + [there[0]] && free == there[1..]
                && r == (address + PATTERN) % WORD
              else
                State() == old(State()) && used == old(used) && free == there && r == 0
    {
      var length := Product(n, size);
      r := Alloc(length, file, line, address);
    }

    /** mem_free_debug, returning whether the memory was given back to the C library. */
    method Free(p: nat) returns (given: bool)
      requires Valid() && memory_manager_initialized && p < WORD
      modifies this, nodes`next, nodes`prev
      ensures Valid() && memory_manager_initialized
      ensures given <==> Tracked(old(Entries(used)), (p - PATTERN) % WORD)
      ensures !given ==> State() == old(State()) && used == old(used) && free == old(free)
      ensures forall k | 0 <= k < |old(used)| && old(Entries(used))[k].header == (p - PATTERN) % WORD ::
                && State() == Refund(old(State()), k)
                && used == Deleted(old(used), k) && free == old(free) + [old(used)[k]]
    {
      var header := (p - PATTERN) % WORD;
      ghost var k;
      var item;
      item, k := Find(memory_used_list, header, used);
      given := item != memory_used_list;
      if given {
        OnlyHere(State().used, k);
        Untrack(item, k);
      }
    }

    /** A tracked block is given back. */
    method Untrack(item: Node<Block>, ghost k: nat)
      requires Valid() && memory_manager_initialized && k < |used| && item == used[k]
      modifies this, nodes`next, nodes`prev
      ensures Valid() && memory_manager_initialized
      ensures State() == Refund(old(State()), k)
      ensures used == Deleted(old(used), k) && free == old(free) + [item]
    {
      ghost var before := State();
      RefundIsSound(before, k);
      Released(item, k);
      assert State() == Refund(before, k);
    }

    /** A release on the lists and on the counters. */
    method Released(item: Node<Block>, ghost k: nat)
      requires Pool() && Lists() && k < |used| && item == used[k]
      modifies this`used, this`free, nodes`next, nodes`prev
      modifies this`alloc_heap_mem_bytes, this`alloc_heap_mem_blk_cnt
      ensures Lists() && State() == Refund(old(State()), k)
      ensures used == Deleted(old(used), k) && free == old(free) + [item]
    {
      ghost var before := State();
      CountOut(Cost(item.entry));
      assert Entries(used) == before.used && Entries(used)[k] == item.entry;
      GiveBack(item, k);
      assert Entries(used) == Deleted(before.used, k);
    }
  }
}
