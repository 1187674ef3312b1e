// src/io/cache.c: buffers of six sizes, allocated when first needed and recycled
// after use.

module CachePool {
  import opened Bytes

  // ----- specified_cache_size

  const CLASSES: nat := 6

  function Size(k: nat): nat
    requires k < CLASSES
  {
    if k == 0 then 64 else if k == 1 then 128 else if k == 2 then 256
    else if k == 3 then 512 else if k == 4 then 1024 else 2048
  }

  /** The class that serves a request: the smallest that fits, or none. */
  function ClassOf(size: int): (k: nat)
    ensures k <= CLASSES
    ensures k < CLASSES ==> size <= Size(k)
    ensures forall j :: 0 <= j < k ==> Size(j) < size
  {
    if size <= 64 then 0 else if size <= 128 then 1 else if size <= 256 then 2
    else if size <= 512 then 3 else if size <= 1024 then 4 else if size <= 2048 then 5 else 6
  }

  predicate IsSize(n: nat) {
    ClassOf(n) < CLASSES && Size(ClassOf(n)) == n
  }

  lemma SizeOfClass(k: nat)
    requires k < CLASSES
    ensures ClassOf(Size(k)) == k && IsSize(Size(k)) && Size(k) == [64, 128, 256, 512, 1024, 2048][k]
  {
  }

  // ----- caches

  /** `id` is the cache's place among all that were ever made. */
  datatype Cache = Cache(id: nat, allocated_size: nat, cache_size: int, buff: Bytes)

  function Zeros(n: nat): Bytes {
    seq(n, _ => '\0')
  }

  predicate IsClean(c: Cache) {
    c.cache_size == 0 && c.buff == Zeros(c.allocated_size)
  }

  // ----- what a run of requests and returns does to one size class

  datatype Op = Get(k: nat) | Put(k: nat)

  /** Caches of class k outstanding after `ops`. */
  function Held(ops: seq<Op>, k: nat): int {
    if ops == [] then 0
    else
      Held(ops[..|ops| - 1], k)
      + (match ops[|ops| - 1]
         case Get(j) => if j == k then 1 else 0
         case Put(j) => if j == k then -1 else 0)
  }

  /** The most that were ever outstanding at once. */
  function Peak(ops: seq<Op>, k: nat): int {
    if ops == [] then 0
    else
      var p := Peak(ops[..|ops| - 1], k);
      if Held(ops, k) > p then Held(ops, k) else p
  }

  /** Caches allocated: one for each request that finds every existing one outstanding. */
  function Created(ops: seq<Op>, k: nat): int {
    if ops == [] then 0
    else
      var before := ops[..|ops| - 1];
      Created(before, k)
      + if ops[|ops| - 1] == Get(k) && Created(before, k) == Held(before, k) then 1 else 0
  }

  /** Over any run, no more is ever allocated than was needed at the busiest moment. */
  lemma {:induction false} HighWater(ops: seq<Op>, k: nat)
    ensures Created(ops, k) == Peak(ops, k) >= Held(ops, k)
  {
    if ops != [] {
      HighWater(ops[..|ops| - 1], k);
    }
  }

  // ----- the books of the pool

  function CountOfSize(all: seq<nat>, size: nat): nat {
    if all == [] then 0
    else CountOfSize(all[..|all| - 1], size) + if all[|all| - 1] == size then 1 else 0
  }

  ghost function Ids(cs: seq<Cache>): set<nat> {
    set i | 0 <= i < |cs| :: cs[i].id
  }

  /** The caches of one size that satisfy `lent`, or that do not. */
  ghost function Lent(all: seq<nat>, outstanding: set<nat>, size: nat): set<nat> {
    set id | 0 <= id < |all| && id in outstanding && all[id] == size
  }

  ghost function Spare(all: seq<nat>, outstanding: set<nat>, size: nat): set<nat> {
    set id | 0 <= id < |all| && id !in outstanding && all[id] == size
  }

  /** A free list holds exactly the caches of its size that are not lent, clean, each once. */
  ghost predicate FreeList(free: seq<Cache>, all: seq<nat>, outstanding: set<nat>, size: nat) {
    && Ids(free) == Spare(all, outstanding, size)
    && (forall i, j :: 0 <= i < j < |free| ==> free[i].id != free[j].id)
    && (forall i :: 0 <= i < |free| ==> free[i].allocated_size == size && IsClean(free[i]))
  }

  /** One size class: its free list, and its counts as the history of requests gives them. */
  ghost predicate Class(free: seq<Cache>, all: seq<nat>, outstanding: set<nat>, ops: seq<Op>, k: nat)
    requires k < CLASSES
  {
    && FreeList(free, all, outstanding, Size(k))
    && CountOfSize(all, Size(k)) == Created(ops, k)
    && |Lent(all, outstanding, Size(k))| == Held(ops, k)
  }

  /** Every cache ever made is lent or on the free list of its own class, never both. */
  ghost predicate Books(available: seq<seq<Cache>>, all: seq<nat>, outstanding: set<nat>, ops: seq<Op>) {
    && |available| == CLASSES
    && (forall id :: id in outstanding ==> id < |all|)
    && (forall id :: 0 <= id < |all| ==> IsSize(all[id]))
    && (forall k :: 0 <= k < CLASSES ==> Class(available[k], all, outstanding, ops, k))
  }

  lemma {:induction false} CountIsPartition(all: seq<nat>, outstanding: set<nat>, size: nat)
    ensures CountOfSize(all, size) == |Lent(all, outstanding, size)| + |Spare(all, outstanding, size)|
  {
    if all == [] {
      assert Lent(all, outstanding, size) == {} && Spare(all, outstanding, size) == {};
    } else {
      var n := |all| - 1;
      CountIsPartition(all[..n], outstanding, size);
      assert all == all[..n] + [all[n]];
      Made(all[..n], outstanding, size, all[n]);
    }
  }

  /** One more cache, lent or not. */
  lemma Made(all: seq<nat>, outstanding: set<nat>, size: nat, s: nat)
    ensures Lent(all + [s], outstanding, size)
      == Lent(all, outstanding, size) + if s == size && |all| in outstanding then {|all|} else {}
    ensures Spare(all + [s], outstanding, size)
      == Spare(all, outstanding, size) + if s == size && |all| !in outstanding then {|all|} else {}
    ensures CountOfSize(all + [s], size) == CountOfSize(all, size) + if s == size then 1 else 0
  {
    assert (all + [s])[..|all|] == all;
  }

  /** One cache changes hands. */
  lemma Moved(all: seq<nat>, outstanding: set<nat>, size: nat, id: nat)
    requires id < |all| && id !in outstanding
    ensures Lent(all, outstanding + {id}, size) == Lent(all, outstanding, size) + if all[id] == size then {id} else {}
    ensures Spare(all, outstanding + {id}, size) == Spare(all, outstanding, size) - if all[id] == size then {id} else {}
    ensures id !in Lent(all, outstanding, size) && (all[id] == size ==> id in Spare(all, outstanding, size))
  {
  }

  lemma SizesDiffer(j: nat, k: nat)
    requires j < CLASSES && k < CLASSES
    ensures Size(j) == Size(k) <==> j == k
  {
  }

  lemma Step(ops: seq<Op>, op: Op, j: nat)
    ensures Held(ops + [op], j) == Held(ops, j) + if op == Get(j) then 1 else if op == Put(j) then -1 else 0
    ensures Created(ops + [op], j) == Created(ops, j) + if op == Get(j) && Created(ops, j) == Held(ops, j) then 1 else 0
  {
    assert (ops + [op])[..|ops|] == ops;
  }

  /** An empty free list means that every cache of the class is outstanding. */
  lemma FreeListLength(free: seq<Cache>, all: seq<nat>, outstanding: set<nat>, ops: seq<Op>, k: nat)
    requires k < CLASSES && Class(free, all, outstanding, ops, k)
    ensures free == [] <==> Created(ops, k) == Held(ops, k)
  {
    CountIsPartition(all, outstanding, Size(k));
    if free == [] {
      assert Ids(free) == {};
    } else {
      assert free[0].id in Ids(free);
    }
  }

  lemma ClassAllocate(free: seq<Cache>, all: seq<nat>, outstanding: set<nat>, ops: seq<Op>, j: nat, k: nat)
    requires j < CLASSES && Class(free, all, outstanding, ops, j)
    requires |all| !in outstanding
    requires k < CLASSES && (j == k ==> free == [])
    ensures Class(free, all + [Size(k)], outstanding + {|all|}, ops + [Get(k)], j)
  {
    FreeListLength(free, all, outstanding, ops, j);
    Made(all, outstanding, Size(j), Size(k));
    Moved(all + [Size(k)], outstanding, Size(j), |all|);
    SizesDiffer(j, k);
    Step(ops, Get(k), j);
    var s := Spare(all, outstanding, Size(j));
    assert |all| !in s;
    assert s + {|all|} - {|all|} == s;
  }

  lemma ClassReuse(free: seq<Cache>, all: seq<nat>, outstanding: set<nat>, ops: seq<Op>, j: nat, k: nat, id: nat)
    requires j < CLASSES && Class(free, all, outstanding, ops, j)
    requires k < CLASSES && id < |all| && all[id] == Size(k) && id !in outstanding
    requires j == k ==> free != [] && free[0].id == id
    ensures Class(if j == k then free[1..] else free, all, outstanding + {id}, ops + [Get(k)], j)
  {
    FreeListLength(free, all, outstanding, ops, j);
    Moved(all, outstanding, Size(j), id);
    SizesDiffer(j, k);
    Step(ops, Get(k), j);
    if j == k {
      FreeTail(free, all, outstanding, Size(k));
    }
  }

  lemma FreeTail(free: seq<Cache>, all: seq<nat>, outstanding: set<nat>, size: nat)
    requires FreeList(free, all, outstanding, size) && free != []
    ensures FreeList(free[1..], all, outstanding + {free[0].id}, size)
  {
    assert free[0].id in Ids(free);
    Moved(all, outstanding, size, free[0].id);
    IdsTail(free);
  }

  lemma IdsTail(free: seq<Cache>)
    requires free != [] && forall i, j :: 0 <= i < j < |free| ==> free[i].id != free[j].id
    ensures Ids(free[1..]) == Ids(free) - {free[0].id}
  {
    forall id | id in Ids(free) - {free[0].id}
      ensures id in Ids(free[1..])
    {
      var i :| 0 <= i < |free| && free[i].id == id;
      assert free[1..][i - 1].id == id;
    }
  }

  lemma ClassRecycle(free: seq<Cache>, all: seq<nat>, outstanding: set<nat>, ops: seq<Op>, j: nat, k: nat, c: Cache)
    requires j < CLASSES && Class(free, all, outstanding, ops, j)
    requires k < CLASSES && c.id < |all| && all[c.id] == Size(k) == c.allocated_size && c.id in outstanding
      && IsClean(c)
    ensures Class(if j == k then free + [c] else free, all, outstanding - {c.id}, ops + [Put(k)], j)
  {
    var back := outstanding - {c.id};
    assert outstanding == back + {c.id};
    Moved(all, back, Size(j), c.id);
    SizesDiffer(j, k);
    Step(ops, Put(k), j);
    if j == k {
      FreeSnoc(free, all, outstanding, Size(k), c);
    }
  }

  lemma FreeSnoc(free: seq<Cache>, all: seq<nat>, outstanding: set<nat>, size: nat, c: Cache)
    requires FreeList(free, all, outstanding, size)
    requires c.id < |all| && all[c.id] == size == c.allocated_size && c.id in outstanding && IsClean(c)
    ensures FreeList(free + [c], all, outstanding - {c.id}, size)
  {
    var back := outstanding - {c.id};
    assert outstanding == back + {c.id};
    Moved(all, back, size, c.id);
    IdsSnoc(free, c);
    forall i | 0 <= i < |free|
      ensures free[i].id != c.id
    {
      assert free[i].id in Ids(free);
    }
  }

  lemma IdsSnoc(free: seq<Cache>, c: Cache)
    ensures Ids(free + [c]) == Ids(free) + {c.id}
  {
    assert (free + [c])[|free|] == c;
    forall id | id in Ids(free)
      ensures id in Ids(free + [c])
    {
      var i :| 0 <= i < |free| && free[i].id == id;
      assert (free + [c])[i].id == id;
    }
  }

  // The three ways a request or a return changes the books.

  lemma BooksAllocate(available: seq<seq<Cache>>, all: seq<nat>, outstanding: set<nat>, ops: seq<Op>, k: nat)
    requires Books(available, all, outstanding, ops) && k < CLASSES && available[k] == []
    ensures |all| !in outstanding
    ensures Books(available, all + [Size(k)], outstanding + {|all|}, ops + [Get(k)])
  {
    SizeOfClass(k);
    forall j {:trigger available[j]} | 0 <= j < CLASSES
      ensures Class(available[j], all + [Size(k)], outstanding + {|all|}, ops + [Get(k)], j)
    {
      ClassAllocate(available[j], all, outstanding, ops, j, k);
    }
  }

  lemma BooksReuse(available: seq<seq<Cache>>, all: seq<nat>, outstanding: set<nat>, ops: seq<Op>, k: nat)
    requires Books(available, all, outstanding, ops) && k < CLASSES && available[k] != []
    ensures var c := available[k][0];
      && c.id < |all| && c.id !in outstanding && all[c.id] == Size(k) == c.allocated_size && IsClean(c)
      && Books(available[k := available[k][1..]], all, outstanding + {c.id}, ops + [Get(k)])
  {
    var c := available[k][0];
    var rest := available[k := available[k][1..]];
    assert Class(available[k], all, outstanding, ops, k);
    assert c.id in Ids(available[k]);
    forall j {:trigger rest[j]} | 0 <= j < CLASSES
      ensures Class(rest[j], all, outstanding + {c.id}, ops + [Get(k)], j)
    {
      ClassReuse(available[j], all, outstanding, ops, j, k, c.id);
    }
  }

  lemma BooksRecycle(available: seq<seq<Cache>>, all: seq<nat>, outstanding: set<nat>, ops: seq<Op>, k: nat, c: Cache)
    requires Books(available, all, outstanding, ops) && k < CLASSES
    requires c.id in outstanding && all[c.id] == Size(k) == c.allocated_size && IsClean(c)
    ensures Books(available[k := available[k] + [c]], all, outstanding - {c.id}, ops + [Put(k)])
  {
    var longer := available[k := available[k] + [c]];
    forall j {:trigger longer[j]} | 0 <= j < CLASSES
      ensures Class(longer[j], all, outstanding - {c.id}, ops + [Put(k)], j)
    {
      ClassRecycle(available[j], all, outstanding, ops, j, k, c);
    }
  }

  class Pool {
    var available: seq<seq<Cache>>  // available_cache_node: a free list for each class
    var all: seq<nat>               // all_node: the size of every cache ever made
    ghost var outstanding: set<nat>
    ghost var ops: seq<Op>

    // The free lists, which make_sure_cache_mm sets up on first use.
    ghost function Lists(): seq<seq<Cache>>
      reads this
    {
      if available == [] then seq(CLASSES, _ => []) else available
    }

    ghost predicate Valid()
      reads this
    {
      Books(Lists(), all, outstanding, ops)
    }

    /** This cache is one the pool lent out, with its size unaltered. */
    ghost predicate Lends(c: Cache)
      reads this
    {
      c.id in outstanding && c.id < |all| && all[c.id] == c.allocated_size
    }

    constructor ()
      ensures Valid() && outstanding == {} && ops == []
    {
      available, all, outstanding, ops := [], [], {}, [];
      new;
      forall k | 0 <= k < CLASSES
        ensures Class([], [], {}, [], k)
      {
        assert Lent([], {}, Size(k)) == {} && Spare([], {}, Size(k)) == {};
      }
    }

    // make_sure_cache_mm
    method MakeSureCacheMm()
      requires Valid()
      modifies this`available
      ensures Valid() && available != []
    {
      if available == [] {
        for index := 0 to CLASSES
          invariant available == seq(index, _ => [])
        {
          available := available + [[]];
        }
      }
    }

    // get_new_cache
    method GetNewCache(expected_size: int) returns (cache: Option<Cache>)
      requires Valid()
      modifies this
      ensures Valid()
      ensures cache == None <==> expected_size > 2048
      ensures cache == None ==> outstanding == old(outstanding) && all == old(all) && ops == old(ops)
      ensures cache.Some? ==> var c := cache.value;
        && c.id !in old(outstanding) && outstanding == old(outstanding) + {c.id} && Lends(c)
        && old(all) <= all
        && c.allocated_size == Size(ClassOf(expected_size)) && c.cache_size == expected_size
        && c.buff == Zeros(c.allocated_size)
        && ops == old(ops) + [Get(ClassOf(expected_size))]
    {
      MakeSureCacheMm();
      var k := FindClass(expected_size);
      if k == |available| {
        return None;
      }
      if available[k] == [] {
        BooksAllocate(available, all, outstanding, ops, k);
        cache := Some(Cache(|all|, Size(k), expected_size, Zeros(Size(k))));
        all := all + [Size(k)];
      } else {
        BooksReuse(available, all, outstanding, ops, k);
        cache := Some(available[k][0].(cache_size := expected_size));
        available := available[k := available[k][1..]];
      }
      outstanding := outstanding + {cache.value.id};
      ops := ops + [Get(k)];
    }

    // recycle_cache; its -1, for a cache of none of the six sizes, cannot occur
    method RecycleCache(cache: Cache)
      requires Valid() && Lends(cache)
      modifies this
      ensures Valid() && all == old(all)
      ensures outstanding == old(outstanding) - {cache.id}
      ensures ops == old(ops) + [Put(ClassOf(cache.allocated_size))]
    {
      MakeSureCacheMm();
      var k := FindClass(cache.allocated_size);
      var clean := cache.(cache_size := 0, buff := Zeros(cache.allocated_size));
      BooksRecycle(available, all, outstanding, ops, k, clean);
      available := available[k := available[k] + [clean]];
      outstanding := outstanding - {cache.id};
      ops := ops + [Put(k)];
    }
  }

  // The walk over the classes, smallest first.
  method FindClass(size: int) returns (k: nat)
    ensures k == ClassOf(size)
  {
    k := 0;
    while k < CLASSES && Size(k) < size
      invariant k <= ClassOf(size)
    {
      k := k + 1;
    }
  }
}
