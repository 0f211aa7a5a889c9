/**
 The cache object: 128 filter bits updated in place, the queue of resident
 page numbers (front first) and the capacity given at construction. Each
 method is proved to perform the corresponding transition of ClockPolicy on
 the abstract state `Model()`.
 */
module MeClock {
  import opened BloomFilter
  import opened ClockPolicy

  class MeClockCache {
    const bloomFilter: array<bool>
    var fifoQueue: seq<int>
    const capacity: nat

    /** The object invariant: the filter has its 128 bits and no page is resident twice. */
    ghost predicate Valid()
      reads this
    {
      bloomFilter.Length == Size && Distinct(fifoQueue)
    }

    /** The abstract state the methods are specified against. */
    ghost function Model(): Cache
      reads this, bloomFilter
      requires Valid()
    {
      Cache(bloomFilter[..], fifoQueue, capacity)
    }

    constructor (cap: nat)
      ensures Valid() && fresh(bloomFilter)
      ensures Model() == Init(cap)
    {
      bloomFilter := new bool[Size](_ => false);
      fifoQueue := [];
      capacity := cap;
      new;
      assert bloomFilter[..] == Empty();
    }

    method AddToBloomFilter(k: int)
      requires bloomFilter.Length == Size
      modifies bloomFilter
      ensures bloomFilter[..] == Add(old(bloomFilter[..]), k)
    {
      bloomFilter[Hash1(k)] := true;
      bloomFilter[Hash2(k)] := true;
    }

    /** Membership as the class tests it: the two bits of the array. */
    predicate IsInBloomFilter(k: int)
      reads bloomFilter
      requires bloomFilter.Length == Size
      ensures IsInBloomFilter(k) == Contains(bloomFilter[..], k)
    {
      bloomFilter[Hash1(k)] && bloomFilter[Hash2(k)]
    }

    method RemoveFromBloomFilter(k: int)
      requires bloomFilter.Length == Size
      modifies bloomFilter
      ensures bloomFilter[..] == Remove(old(bloomFilter[..]), k)
    {
      bloomFilter[Hash1(k)] := false;
      bloomFilter[Hash2(k)] := false;
    }

    /** The linear lookup of `accessPage`: the position of `k`, or the end of the queue. */
    method FindPage(k: int) returns (it: nat)
      ensures it == IndexOf(fifoQueue, k)
      ensures it < |fifoQueue| <==> k in fifoQueue
    {
      it := 0;
      while it < |fifoQueue| && fifoQueue[it] != k
        invariant it <= |fifoQueue|
        invariant forall j :: 0 <= j < it ==> fifoQueue[j] != k
      {
        it := it + 1;
      }
    }

    method AccessPage(k: int)
      requires Valid()
      modifies this, bloomFilter
      ensures Valid()
      ensures Model() == Access(old(Model()), k)
      ensures k in fifoQueue && IsInBloomFilter(k)
    {
      ghost var c := Model();
      AccessKeepsDistinct(c, k);
      var it := FindPage(k);
      if it < |fifoQueue| {
        // hit
        if !IsInBloomFilter(k) {
          fifoQueue := fifoQueue[..it] + fifoQueue[it + 1..] + [fifoQueue[it]];
        }
        AddToBloomFilter(k);
      } else {
        // miss
        if |fifoQueue| >= capacity {
          var j := 0;
          while j < |fifoQueue|
            invariant j <= |fifoQueue|
            invariant fifoQueue == c.queue && bloomFilter[..] == c.filter
            invariant forall m :: 0 <= m < j ==> Contains(c.filter, c.queue[m])
          {
            if !IsInBloomFilter(fifoQueue[j]) {
              assert FirstUnmarked(c.filter, c.queue) == j;
              RemoveFromBloomFilter(fifoQueue[j]);
              fifoQueue := fifoQueue[..j] + fifoQueue[j + 1..];
              break;
            }
            j := j + 1;
          }
        }
        fifoQueue := fifoQueue + [k];
        AddToBloomFilter(k);
      }
    }

    /** The resident pages, front to back. */
    function DisplayCache(): (pages: seq<int>)
      reads this, bloomFilter
      requires Valid()
      ensures pages == Model().queue
      ensures Distinct(pages)
    {
      fifoQueue
    }
  }

  /** Capacity 3, pages 1, 2, 3, 4 accessed in turn: nothing is evicted and
      four pages stay resident. */
  method StarvationScenario() returns (pages: seq<int>)
    ensures pages == [1, 2, 3, 4]
  {
    var cache := new MeClockCache(3);
    cache.AccessPage(1);
    cache.AccessPage(2);
    cache.AccessPage(3);
    cache.AccessPage(4);
    pages := cache.DisplayCache();
    StarvationExample();
    assert Run(Init(3), [1, 2, 3, 4]) == Access(Access(Access(Access(Init(3), 1), 2), 3), 4);
  }
}
