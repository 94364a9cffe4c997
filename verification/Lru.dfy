/** The block cache: a byte budget, recency order, and eviction from the oldest end. */
module Lru {
  import opened Bytes
  import opened Blkptr
  import opened BlockIo

  type Key = seq<Byte>

  /** The medium, as `read_block` shows it. */
  type Medium = BlockPointer -> BlockResult

  /** An ordered dictionary: `order` lists the keys from the oldest use to the latest. */
  datatype Cache = Cache(order: seq<Key>, entries: map<Key, BlockResult>)

  function Weight(res: BlockResult): nat
  {
    (if res.data.Some? then |res.data.value| else 0) + (if res.physical.Some? then |res.physical.value| else 0)
  }

  /** The exact sum of the weights of the entries. */
  function Total(order: seq<Key>, entries: map<Key, BlockResult>): nat
    requires forall k :: k in order ==> k in entries
  {
    if order == [] then 0 else Weight(entries[order[0]]) + Total(order[1..], entries)
  }

  predicate Distinct(order: seq<Key>)
  {
    forall i, j :: 0 <= i < j < |order| ==> order[i] != order[j]
  }

  ghost predicate Shaped(c: Cache)
  {
    Distinct(c.order) && (forall k :: k in c.order <==> k in c.entries)
  }

  /** Every entry is what the medium holds for its key, and none is empty. */
  ghost predicate Honest(c: Cache, read: Medium)
  {
    forall k :: k in c.entries ==>
      |k| == BLKPTR_SIZE && c.entries[k] == read(ParseBlkptr(k, 0)) && Weight(c.entries[k]) > 0
  }

  ghost predicate Sound(c: Cache, read: Medium, max: nat)
  {
    Shaped(c) && Honest(c, read) && Total(c.order, c.entries) <= max
  }

  function Without(order: seq<Key>, k: Key): seq<Key>
  {
    if order == [] then []
    else if order[0] == k then order[1..]
    else [order[0]] + Without(order[1..], k)
  }

  /** `move_to_end` */
  function Touch(c: Cache, k: Key): Cache { c.(order := Without(c.order, k) + [k]) }

  /** The newest entries that are left when the oldest go one by one while over budget. */
  ghost function Evict(c: Cache, max: nat): Cache
    requires Shaped(c)
    decreases |c.order|
  {
    if c.order == [] || Total(c.order, c.entries) <= max then c
    else
      DropOldest(c);
      Evict(Cache(c.order[1..], c.entries - {c.order[0]}), max)
  }

  predicate Storable(res: BlockResult, max: nat)
  {
    0 < Weight(res) <= Max(max / 8, 1)
  }

  /** One access: the new cache and the answer. */
  ghost function Access(c: Cache, read: Medium, max: nat, bp: BlockPointer): (Cache, BlockResult)
    requires Shaped(c)
  {
    if bp.raw in c.entries then (Touch(c, bp.raw), c.entries[bp.raw])
    else
      var res := read(bp);
      if Storable(res, max) then
        Append(c, bp.raw, res);
        (Evict(Cache(c.order + [bp.raw], c.entries[bp.raw := res]), max), res)
      else (c, res)
  }

  // ----- order and weights -----

  lemma Append(c: Cache, k: Key, res: BlockResult)
    requires Shaped(c) && k !in c.entries
    ensures Shaped(Cache(c.order + [k], c.entries[k := res]))
  {
  }

  lemma DropOldest(c: Cache)
    requires Shaped(c) && c.order != []
    ensures Shaped(Cache(c.order[1..], c.entries - {c.order[0]}))
    ensures Total(c.order[1..], c.entries - {c.order[0]}) == Total(c.order, c.entries) - Weight(c.entries[c.order[0]])
  {
    var rest, less := c.order[1..], c.entries - {c.order[0]};
    forall k | k in less
      ensures k in rest
    {
      var i :| 0 <= i < |c.order| && c.order[i] == k;
      assert rest[i - 1] == k;
    }
    SameTotal(rest, c.entries, less);
  }

  lemma {:induction false} SameTotal(order: seq<Key>, m: map<Key, BlockResult>, n: map<Key, BlockResult>)
    requires forall k :: k in order ==> k in m && k in n && m[k] == n[k]
    ensures Total(order, m) == Total(order, n)
  {
    if order != [] {
      SameTotal(order[1..], m, n);
    }
  }

  lemma {:induction false} TotalAppend(order: seq<Key>, k: Key, m: map<Key, BlockResult>)
    requires k in m && forall x :: x in order ==> x in m
    ensures Total(order + [k], m) == Total(order, m) + Weight(m[k])
  {
    var all := order + [k];
    if order == [] {
      assert all[1..] == [];
    } else {
      assert all[1..] == order[1..] + [k];
      TotalAppend(order[1..], k, m);
    }
  }

  lemma {:induction false} WithoutFacts(order: seq<Key>, k: Key, m: map<Key, BlockResult>)
    requires Distinct(order) && k in order && forall x :: x in order ==> x in m
    ensures var w := Without(order, k);
            && Distinct(w) && (forall x :: x in w <==> x in order && x != k)
            && Total(w, m) + Weight(m[k]) == Total(order, m)
  {
    if order[0] != k {
      var rest := order[1..];
      assert k in rest;
      WithoutFacts(rest, k, m);
      var w, v := Without(order, k), Without(rest, k);
      assert w == [order[0]] + v && w[1..] == v;
      assert order[0] !in v;
      forall i, j | 0 <= i < j < |w|
        ensures w[i] != w[j]
      {
        if i > 0 { assert w[i] == v[i - 1] && w[j] == v[j - 1]; } else { assert w[j] == v[j - 1] && v[j - 1] in v; }
      }
    } else {
      assert k !in order[1..];
    }
  }

  /** The order before an access, less `n` entries at the old end. */
  lemma {:induction false} EvictIsSuffix(c: Cache, max: nat) returns (n: nat)
    requires Shaped(c)
    ensures n <= |c.order|
    ensures var e := Evict(c, max);
            && Shaped(e) && e.order == c.order[n..]
            && (forall k :: k in e.entries ==> k in c.entries && e.entries[k] == c.entries[k])
            && Total(e.order, e.entries) == Total(c.order[n..], c.entries)
            && Total(e.order, e.entries) <= max
            && (n > 0 ==> Total(c.order[n - 1..], c.entries) > max)
    decreases |c.order|
  {
    if c.order == [] || Total(c.order, c.entries) <= max {
      n := 0;
    } else {
      DropOldest(c);
      var rest, less := c.order[1..], c.entries - {c.order[0]};
      var m := EvictIsSuffix(Cache(rest, less), max);
      n := m + 1;
      assert rest[m..] == c.order[n..];
      SameTotal(c.order[n..], c.entries, less);
      if m > 0 {
        assert rest[m - 1..] == c.order[n - 1..];
        SameTotal(c.order[n - 1..], c.entries, less);
      } else {
        assert c.order[0..] == c.order;
      }
    }
  }

  // ----- invisible, bounded, least recently used -----

  /** A hit: the answer is the medium's, and its entry becomes the latest. */
  lemma HitLaws(c: Cache, read: Medium, max: nat, bp: BlockPointer)
    requires Sound(c, read, max) && Genuine(bp) && bp.raw in c.entries
    ensures var (c', res) := Access(c, read, max, bp);
            && res == read(bp) && Sound(c', read, max)
            && c'.order == Without(c.order, bp.raw) + [bp.raw] && c'.entries == c.entries
  {
    hide Without, Total, ParseBlkptr, Weight;
    var w := Without(c.order, bp.raw);
    WithoutFacts(c.order, bp.raw, c.entries);
    TotalAppend(w, bp.raw, c.entries);
  }

  /** A miss that is kept: only the oldest entries go, and only while over budget. */
  lemma StoreLaws(c: Cache, read: Medium, max: nat, bp: BlockPointer) returns (n: nat)
    requires Sound(c, read, max) && Genuine(bp) && bp.raw !in c.entries && Storable(read(bp), max)
    ensures var (c', res) := Access(c, read, max, bp);
            var all, with := c.order + [bp.raw], c.entries[bp.raw := read(bp)];
            && res == read(bp) && Sound(c', read, max)
            && n <= |all| && c'.order == all[n..]
            && (n > 0 ==> (forall k :: k in all[n - 1..] ==> k in with) && Total(all[n - 1..], with) > max)
  {
    hide Total, Evict, Weight, Honest;
    var more := Cache(c.order + [bp.raw], c.entries[bp.raw := read(bp)]);
    Append(c, bp.raw, read(bp));
    assert Shaped(more);
    hide Shaped;
    n := EvictIsSuffix(more, max);
    HonestMore(c, read, bp);
    HonestLess(more, Evict(more, max), read);
    if n > 0 { SuffixKnown(more, n - 1); }
  }

  lemma HonestMore(c: Cache, read: Medium, bp: BlockPointer)
    requires Honest(c, read) && Genuine(bp) && Weight(read(bp)) > 0
    ensures Honest(Cache(c.order + [bp.raw], c.entries[bp.raw := read(bp)]), read)
  {
    hide Weight;
  }

  lemma HonestLess(c: Cache, e: Cache, read: Medium)
    requires Honest(c, read) && forall k :: k in e.entries ==> k in c.entries && e.entries[k] == c.entries[k]
    ensures Honest(e, read)
  {
    hide Weight, ParseBlkptr;
  }

  lemma SuffixKnown(c: Cache, n: nat)
    requires Shaped(c) && n <= |c.order|
    ensures forall k :: k in c.order[n..] ==> k in c.entries
  {
  }

  /** One access, hit or miss, is invisible and within budget. */
  lemma AccessLaws(c: Cache, read: Medium, max: nat, bp: BlockPointer)
    requires Sound(c, read, max) && Genuine(bp)
    ensures var (c', res) := Access(c, read, max, bp);
            res == read(bp) && Sound(c', read, max)
  {
    if bp.raw in c.entries {
      HitLaws(c, read, max, bp);
    } else if Storable(read(bp), max) {
      var n := StoreLaws(c, read, max, bp);
    }
  }

  /** A cache as it is made. */
  const NO_ENTRIES := Cache([], map[])

  lemma EmptyIsShaped()
    ensures Shaped(NO_ENTRIES)
  {
  }

  /** The answers of a whole run of accesses, and the cache it leaves. */
  ghost function Run(c: Cache, read: Medium, max: nat, calls: seq<BlockPointer>): (r: (Cache, seq<BlockResult>))
    requires Shaped(c)
    ensures Shaped(r.0)
  {
    if calls == [] then (c, [])
    else
      var last := |calls| - 1;
      var (before, answers) := Run(c, read, max, calls[..last]);
      ShapeKept(before, read, max, calls[last]);
      var (after, answer) := Access(before, read, max, calls[last]);
      (after, answers + [answer])
  }

  /** A run from an empty cache. */
  ghost function Session(read: Medium, max: nat, calls: seq<BlockPointer>): (Cache, seq<BlockResult>)
  {
    EmptyIsShaped();
    Run(NO_ENTRIES, read, max, calls)
  }

  lemma ShapeKept(c: Cache, read: Medium, max: nat, bp: BlockPointer)
    requires Shaped(c)
    ensures Shaped(Access(c, read, max, bp).0)
  {
    if bp.raw in c.entries {
      WithoutFacts(c.order, bp.raw, c.entries);
    } else if Storable(read(bp), max) {
      Append(c, bp.raw, read(bp));
      var n := EvictIsSuffix(Cache(c.order + [bp.raw], c.entries[bp.raw := read(bp)]), max);
    }
  }

  /** The place of the last call for a key; -1 for none. */
  function LastUse(calls: seq<BlockPointer>, k: Key): (i: int)
    ensures -1 <= i < |calls| && (i >= 0 ==> calls[i].raw == k)
    ensures forall j :: i < j < |calls| ==> calls[j].raw != k
  {
    if calls == [] then -1
    else if calls[|calls| - 1].raw == k then |calls| - 1
    else LastUse(calls[..|calls| - 1], k)
  }

  /** The keys stand in the order of their last calls, the oldest first. */
  ghost predicate Recent(order: seq<Key>, calls: seq<BlockPointer>)
  {
    && (forall i :: 0 <= i < |order| ==> LastUse(calls, order[i]) >= 0)
    && (forall i, j :: 0 <= i < j < |order| ==> LastUse(calls, order[i]) < LastUse(calls, order[j]))
  }

  lemma {:induction false} WithoutRecent(order: seq<Key>, k: Key, calls: seq<BlockPointer>)
    requires Distinct(order) && k in order && Recent(order, calls)
    ensures var w := Without(order, k);
            Recent(w, calls) && Distinct(w) && (forall x :: x in w <==> x in order && x != k)
  {
    hide LastUse;
    if order[0] == k {
      assert order == [k] + order[1..];
    } else {
      var rest := order[1..];
      assert order == [order[0]] + rest;
      WithoutRecent(rest, k, calls);
      FirstRecent(order[0], rest, Without(rest, k), calls);
    }
  }

  /** An older key in front of later ones. */
  lemma FirstRecent(first: Key, rest: seq<Key>, some: seq<Key>, calls: seq<BlockPointer>)
    requires Recent([first] + rest, calls) && Distinct([first] + rest)
    requires Recent(some, calls) && Distinct(some) && forall x :: x in some ==> x in rest
    ensures Recent([first] + some, calls) && Distinct([first] + some)
  {
    hide LastUse;
    var all := [first] + rest;
    forall j | 0 <= j < |some|
      ensures LastUse(calls, first) < LastUse(calls, some[j]) && first != some[j]
    {
      assert some[j] in rest;
      var i :| 0 <= i < |rest| && rest[i] == some[j];
      assert all[0] == first && all[i + 1] == some[j];
    }
    assert LastUse(calls, all[0]) >= 0;
  }

  /** One more call leaves the last calls for other keys as they were. */
  lemma OneMoreCall(order: seq<Key>, calls: seq<BlockPointer>, bp: BlockPointer)
    requires Recent(order, calls) && bp.raw !in order
    ensures Recent(order, calls + [bp]) && Recent(order + [bp.raw], calls + [bp])
  {
    var more := calls + [bp];
    assert more[..|calls|] == calls;
    forall i | 0 <= i < |order|
      ensures LastUse(more, order[i]) == LastUse(calls, order[i]) < |calls|
    {
      assert order[i] in order;
    }
    assert LastUse(more, bp.raw) == |calls|;
  }

  lemma RecentSuffix(order: seq<Key>, calls: seq<BlockPointer>, n: nat)
    requires Recent(order, calls) && n <= |order|
    ensures Recent(order[n..], calls)
  {
    hide LastUse;
  }

  lemma AccessRecent(c: Cache, read: Medium, max: nat, calls: seq<BlockPointer>, bp: BlockPointer)
    requires Shaped(c) && Recent(c.order, calls)
    ensures Recent(Access(c, read, max, bp).0.order, calls + [bp])
  {
    hide Recent, Evict, Storable, Without;
    if bp.raw in c.entries {
      WithoutRecent(c.order, bp.raw, calls);
      OneMoreCall(Without(c.order, bp.raw), calls, bp);
    } else {
      OneMoreCall(c.order, calls, bp);
      if Storable(read(bp), max) {
        Append(c, bp.raw, read(bp));
        var n := EvictIsSuffix(Cache(c.order + [bp.raw], c.entries[bp.raw := read(bp)]), max);
        RecentSuffix(c.order + [bp.raw], calls + [bp], n);
      }
    }
  }

  /** After every run from an empty cache, the entries stand in the order of their last calls. */
  lemma {:induction false} RunIsRecent(read: Medium, max: nat, calls: seq<BlockPointer>)
    ensures Recent(Session(read, max, calls).0.order, calls)
  {
    hide Access, Recent;
    EmptyIsShaped();
    if calls == [] {
      assert Recent([], []) by { NoKeys(); }
    } else {
      var last := |calls| - 1;
      RunIsRecent(read, max, calls[..last]);
      AccessRecent(Run(NO_ENTRIES, read, max, calls[..last]).0, read, max, calls[..last], calls[last]);
      assert calls[..last] + [calls[last]] == calls;
    }
  }

  lemma NoKeys()
    ensures Recent([], [])
  {
  }

  /** What a cache is after some calls: every entry is what the medium holds, the exact weight is
      within the budget, nothing that failed is kept, and the entries stand in the order of their
      last calls. */
  ghost predicate WellKept(c: Cache, read: Medium, max: nat, calls: seq<BlockPointer>)
  {
    && Sound(c, read, max)
    && (forall k :: k in c.entries ==> c.entries[k].Ok())
    && Recent(c.order, calls)
  }

  /** For every run from an empty cache: each answer is what the medium holds, nothing that failed is
      ever kept, the budget is never exceeded, and the entries stand in the order of their last
      calls. */
  lemma {:induction false} RunIsInvisible(read: Medium, max: nat, calls: seq<BlockPointer>)
    requires forall bp :: bp in calls ==> Genuine(bp)
    requires forall bp :: read(bp).data.Some? || read(bp).physical.Some? ==> read(bp).Ok()
    ensures var (c, answers) := Session(read, max, calls);
            && |answers| == |calls| && (forall i :: 0 <= i < |calls| ==> answers[i] == read(calls[i]))
            && WellKept(c, read, max, calls)
  {
    hide Access, Sound, Genuine, Recent;
    EmptyIsShaped();
    RunIsRecent(read, max, calls);
    if calls == [] {
      assert Sound(NO_ENTRIES, read, max) by { EmptyIsSound(read, max); }
    } else {
      var last := |calls| - 1;
      RunIsInvisible(read, max, calls[..last]);
      var (before, answers) := Run(NO_ENTRIES, read, max, calls[..last]);
      assert calls[last] in calls;
      AccessLaws(before, read, max, calls[last]);
    }
    KeptIsOk(Run(NO_ENTRIES, read, max, calls).0, read, max);
  }

  lemma EmptyIsSound(read: Medium, max: nat)
    ensures Sound(NO_ENTRIES, read, max)
  {
  }

  lemma KeptIsOk(c: Cache, read: Medium, max: nat)
    requires Sound(c, read, max)
    requires forall bp :: read(bp).data.Some? || read(bp).physical.Some? ==> read(bp).Ok()
    ensures forall k :: k in c.entries ==> c.entries[k].Ok()
  {
  }
}
