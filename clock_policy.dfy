/**
 The access policy of the cache, stated on values: a cache state is its filter
 bits, its queue of resident page numbers (front first) and its capacity, and
 `Access` is the state one `accessPage` call leaves behind. The class in
 module MeClock is proved to perform exactly this transition; the lemmas here
 say what the transition does.
 */
module ClockPolicy {
  import opened BloomFilter

  datatype Cache = Cache(filter: Bits, queue: seq<int>, capacity: nat)

  /** No page number is resident twice. */
  predicate Distinct(q: seq<int>)
  {
    forall i, j :: 0 <= i < j < |q| ==> q[i] != q[j]
  }

  /** The state right after construction: empty queue, no bit set. */
  function Init(capacity: nat): (c: Cache)
    ensures c.queue == [] && c.capacity == capacity
    ensures forall b :: 0 <= b < Size ==> !c.filter[b]
  {
    Cache(Empty(), [], capacity)
  }

  /** Position of the first occurrence of `k`, or `|q|` (the end) when there is none. */
  function IndexOf(q: seq<int>, k: int): (i: nat)
    ensures i <= |q|
    ensures i < |q| ==> q[i] == k
    ensures forall j :: 0 <= j < i ==> q[j] != k
  {
    if q == [] then 0
    else if q[0] == k then 0
    else 1 + IndexOf(q[1..], k)
  }

  /** Position of the first page the filter does not report, or `|q|` when every page is reported. */
  function FirstUnmarked(f: Bits, q: seq<int>): (i: nat)
    ensures i <= |q|
    ensures i < |q| ==> !Contains(f, q[i])
    ensures forall j :: 0 <= j < i ==> Contains(f, q[j])
  {
    if q == [] then 0
    else if !Contains(f, q[0]) then 0
    else 1 + FirstUnmarked(f, q[1..])
  }

  function RemoveAt(q: seq<int>, i: nat): seq<int>
    requires i < |q|
  {
    q[..i] + q[i + 1..]
  }

  /** One call of `accessPage(k)`. */
  function Access(c: Cache, k: int): (r: Cache)
    ensures r.capacity == c.capacity
    ensures k in r.queue && Contains(r.filter, k)
    ensures |c.queue| <= |r.queue| <= |c.queue| + 1
  {
    var i := IndexOf(c.queue, k);
    if i < |c.queue| then
      // hit: promote only a page the filter does not report, then mark it
      var q := if Contains(c.filter, k) then c.queue else RemoveAt(c.queue, i) + [k];
      Cache(Add(c.filter, k), q, c.capacity)
    else
      // miss: when full, evict the front-most unreported page, if any
      var v := if |c.queue| >= c.capacity then FirstUnmarked(c.filter, c.queue) else |c.queue|;
      if v < |c.queue| then
        Cache(Add(Remove(c.filter, c.queue[v]), k), RemoveAt(c.queue, v) + [k], c.capacity)
      else
        Cache(Add(c.filter, k), c.queue + [k], c.capacity)
  }

  // ---- Uniqueness ----

  lemma RemoveAtKeepsDistinct(q: seq<int>, i: nat)
    requires Distinct(q) && i < |q|
    ensures Distinct(RemoveAt(q, i))
    ensures forall x :: x in RemoveAt(q, i) <==> x in q && x != q[i]
  {
    var r := RemoveAt(q, i);
    forall x | x in q && x != q[i] ensures x in r {
      var j :| 0 <= j < |q| && q[j] == x;
      if j < i { assert r[j] == x; } else { assert r[j - 1] == x; }
    }
  }

  /** `accessPage` never makes a page resident twice. */
  lemma AccessKeepsDistinct(c: Cache, k: int)
    requires Distinct(c.queue)
    ensures Distinct(Access(c, k).queue)
  {
    var i := IndexOf(c.queue, k);
    if i < |c.queue| {
      if !Contains(c.filter, k) {
        RemoveAtKeepsDistinct(c.queue, i);
      }
    } else {
      var v := if |c.queue| >= c.capacity then FirstUnmarked(c.filter, c.queue) else |c.queue|;
      if v < |c.queue| {
        RemoveAtKeepsDistinct(c.queue, v);
      }
    }
  }

  // ---- Hit ----

  /** `q` with every occurrence of `k` taken out, the rest in order. */
  function Erase(q: seq<int>, k: int): seq<int>
  {
    if q == [] then []
    else if q[0] == k then Erase(q[1..], k)
    else [q[0]] + Erase(q[1..], k)
  }

  lemma {:induction false} EraseAbsent(q: seq<int>, k: int)
    requires k !in q
    ensures Erase(q, k) == q
  {
    if q != [] {
      EraseAbsent(q[1..], k);
    }
  }

  /** In a queue of distinct pages, removing the page at `i` is erasing its number. */
  lemma {:induction false} RemoveAtIsErase(q: seq<int>, i: nat)
    requires Distinct(q) && i < |q|
    ensures RemoveAt(q, i) == Erase(q, q[i])
  {
    if i == 0 {
      assert q[i] !in q[1..];
      EraseAbsent(q[1..], q[i]);
      assert RemoveAt(q, i) == q[1..];
    } else {
      RemoveAtIsErase(q[1..], i - 1);
      assert q[0] != q[i];
      assert RemoveAt(q, i) == [q[0]] + RemoveAt(q[1..], i - 1);
    }
  }

  lemma MoveToTailSameMultiset(q: seq<int>, i: nat)
    requires i < |q|
    ensures multiset(RemoveAt(q, i) + [q[i]]) == multiset(q)
  {
    assert q == q[..i] + [q[i]] + q[i + 1..];
  }

  /** A hit keeps the resident pages; it reorders nothing when the page was
      reported, and otherwise moves the page to the tail keeping the others in
      order. Only the page's own two bits change, and they become set. */
  lemma AccessHit(c: Cache, k: int)
    requires Distinct(c.queue) && k in c.queue
    ensures multiset(Access(c, k).queue) == multiset(c.queue)
    ensures Contains(c.filter, k) ==> Access(c, k).queue == c.queue
    ensures !Contains(c.filter, k) ==> Access(c, k).queue == Erase(c.queue, k) + [k]
    ensures forall b :: 0 <= b < Size ==>
      Access(c, k).filter[b] == (b == Hash1(k) || b == Hash2(k) || c.filter[b])
  {
    var i := IndexOf(c.queue, k);
    if !Contains(c.filter, k) {
      MoveToTailSameMultiset(c.queue, i);
      RemoveAtIsErase(c.queue, i);
    }
  }

  /** Accessing the same page twice in a row is the same as accessing it once:
      after the first access the page is resident and reported, so the second
      is a hit that reorders nothing and sets bits already set. */
  lemma AccessTwice(c: Cache, k: int)
    requires Distinct(c.queue)
    ensures Access(Access(c, k), k) == Access(c, k)
  {
    var r := Access(c, k);
    AccessKeepsDistinct(c, k);
    AccessHit(r, k);
    AddIdempotent(r.filter, k);
  }

  // ---- Miss ----

  /** Every resident page is reported by the filter. */
  predicate AllMarked(c: Cache)
  {
    forall i :: 0 <= i < |c.queue| ==> Contains(c.filter, c.queue[i])
  }

  /** `r` is `c` after the miss of `k` evicted the page at `v`: the front-most
      unreported page, whose two bits are cleared before those of `k` are set. */
  predicate EvictedAt(c: Cache, k: int, v: nat, r: Cache)
  {
    && v < |c.queue|
    && !Contains(c.filter, c.queue[v])
    && (forall j :: 0 <= j < v ==> Contains(c.filter, c.queue[j]))
    && r.queue == c.queue[..v] + c.queue[v + 1..] + [k]
    && (forall b :: 0 <= b < Size ==>
          r.filter[b] == (b == Hash1(k) || b == Hash2(k) ||
                          (c.filter[b] && b != Hash1(c.queue[v]) && b != Hash2(c.queue[v]))))
  }

  /** A miss appends the page. It evicts at most one page, only when the queue
      was at or over capacity, and then the front-most unreported one; when no
      page is unreported nothing is evicted and the queue grows by one. */
  lemma AccessMiss(c: Cache, k: int)
    requires k !in c.queue
    ensures var r := Access(c, k);
      && r.queue[|r.queue| - 1] == k
      && (|r.queue| == |c.queue| + 1 || |r.queue| == |c.queue|)
      && (|r.queue| == |c.queue| + 1 ==>
            && r.queue == c.queue + [k]
            && (|c.queue| < c.capacity || AllMarked(c))
            && (forall b :: 0 <= b < Size ==> r.filter[b] == (b == Hash1(k) || b == Hash2(k) || c.filter[b])))
      && (|r.queue| == |c.queue| ==>
            c.capacity <= |c.queue| && exists v :: EvictedAt(c, k, v, r))
    ensures |c.queue| < c.capacity ==> Access(c, k).queue == c.queue + [k]
    ensures AllMarked(c) ==> Access(c, k).queue == c.queue + [k]
  {
    var r := Access(c, k);
    var i := IndexOf(c.queue, k);
    assert i == |c.queue|;
    var v := if |c.queue| >= c.capacity then FirstUnmarked(c.filter, c.queue) else |c.queue|;
    if v < |c.queue| {
      assert EvictedAt(c, k, v, r);
    } else if |c.queue| >= c.capacity {
      assert AllMarked(c);
    }
  }

  // ---- Runs of accesses from construction ----

  /** The state after accessing `ks` in order. */
  function Run(c: Cache, ks: seq<int>): Cache
    decreases |ks|
  {
    if ks == [] then c else Run(Access(c, ks[0]), ks[1..])
  }

  /** `q` extended by the pages of `ks` not yet in it, in first-access order. */
  function Absorb(q: seq<int>, ks: seq<int>): seq<int>
    decreases |ks|
  {
    if ks == [] then q else Absorb(if ks[0] in q then q else q + [ks[0]], ks[1..])
  }

  /** While every resident page is reported, an access marks its page, leaves
      every other page reported, and so neither evicts nor reorders. */
  lemma AccessKeepsAllMarked(c: Cache, k: int)
    requires AllMarked(c)
    ensures AllMarked(Access(c, k))
    ensures Access(c, k).queue == if k in c.queue then c.queue else c.queue + [k]
  {
    var r := Access(c, k);
    if k in c.queue {
      assert Contains(c.filter, k);
    } else {
      AccessMiss(c, k);
    }
    forall i | 0 <= i < |r.queue| ensures Contains(r.filter, r.queue[i]) {
      if i < |c.queue| {
        AddKeepsMembers(c.filter, k, c.queue[i]);
      }
    }
  }

  lemma {:induction false} RunKeepsAllMarked(c: Cache, ks: seq<int>)
    requires AllMarked(c)
    ensures AllMarked(Run(c, ks))
    ensures Run(c, ks).queue == Absorb(c.queue, ks)
    decreases |ks|
  {
    if ks != [] {
      AccessKeepsAllMarked(c, ks[0]);
      RunKeepsAllMarked(Access(c, ks[0]), ks[1..]);
    }
  }

  /** From construction, the filter reports every resident page forever: no
      access ever evicts, no hit ever reorders, and the queue is the distinct
      pages accessed so far in first-access order, whatever the capacity. */
  lemma RunFromInit(capacity: nat, ks: seq<int>)
    ensures AllMarked(Run(Init(capacity), ks))
    ensures Run(Init(capacity), ks).queue == Absorb([], ks)
  {
    RunKeepsAllMarked(Init(capacity), ks);
  }

  /** Capacity 3, accesses 1, 2, 3, 4: the miss of 4 finds 1, 2 and 3 all
      reported, evicts nothing, and the queue ends over capacity. */
  lemma StarvationExample()
    ensures Run(Init(3), [1, 2, 3, 4]).queue == [1, 2, 3, 4]
    ensures |Run(Init(3), [1, 2, 3, 4]).queue| > Run(Init(3), [1, 2, 3, 4]).capacity
  {
    RunFromInit(3, [1, 2, 3, 4]);
    assert Absorb([], [1, 2, 3, 4]) == [1, 2, 3, 4];
  }
}
