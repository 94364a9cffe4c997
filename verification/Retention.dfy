/** What the cache is sure to keep: a working set that fits the budget. */
module Retention {
  import opened Bytes
  import opened Blkptr
  import opened BlockIo
  import opened Lru

  /** A result worth keeping has bytes, and at most an eighth of the budget of them (or just one). */
  predicate Keepable(res: BlockResult, max: nat)
  {
    var logical := if res.data.Some? then |res.data.value| else 0;
    var n := logical + (if res.physical.Some? then |res.physical.value| else 0);
    n == 1 || (n > 0 && 8 * n <= max)
  }

  lemma KeepableIff(res: BlockResult, max: nat)
    ensures Keepable(res, max) <==> Storable(res, max)
  {
  }

  /** The keys of the calls whose results are worth keeping. */
  function Working(read: Medium, max: nat, calls: seq<BlockPointer>): set<Key>
  {
    if calls == [] then {}
    else
      var last := |calls| - 1;
      Working(read, max, calls[..last]) + (if Keepable(read(calls[last]), max) then {calls[last].raw} else {})
  }

  /** Their weight, each key counted once. */
  function Load(read: Medium, max: nat, calls: seq<BlockPointer>): nat
  {
    if calls == [] then 0
    else
      var last, before := |calls| - 1, calls[..|calls| - 1];
      var bp := calls[last];
      Load(read, max, before)
      + (if Keepable(read(bp), max) && bp.raw !in Working(read, max, before) then Weight(read(bp)) else 0)
  }

  /** The entries are those of earlier calls and, newer than they, the working set of the calls since. */
  ghost predicate Split(c: Cache, read: Medium, max: nat, older: seq<Key>, newer: seq<Key>, since: seq<BlockPointer>)
  {
    && Sound(c, read, max) && c.order == older + newer
    && (forall k :: k in c.entries ==> Keepable(c.entries[k], max))
    && (forall k :: k in newer ==> k in c.entries)
    && (forall k :: k in newer <==> k in Working(read, max, since))
    && Total(newer, c.entries) == Load(read, max, since)
  }

  lemma {:induction false} OneMore(read: Medium, max: nat, since: seq<BlockPointer>, bp: BlockPointer)
    ensures Working(read, max, since + [bp])
         == Working(read, max, since) + (if Keepable(read(bp), max) then {bp.raw} else {})
    ensures Load(read, max, since + [bp])
         == Load(read, max, since)
            + (if Keepable(read(bp), max) && bp.raw !in Working(read, max, since) then Weight(read(bp)) else 0)
  {
    var all := since + [bp];
    assert all[..|all| - 1] == since;
  }

  lemma {:induction false} WithoutLeft(a: seq<Key>, b: seq<Key>, k: Key)
    requires k in a
    ensures Without(a + b, k) == Without(a, k) + b
  {
    if a[0] == k {
      assert (a + b)[1..] == a[1..] + b;
    } else {
      assert (a + b)[1..] == a[1..] + b;
      WithoutLeft(a[1..], b, k);
    }
  }

  lemma {:induction false} WithoutRight(a: seq<Key>, b: seq<Key>, k: Key)
    requires k !in a
    ensures Without(a + b, k) == a + Without(b, k)
  {
    if a == [] {
      assert a + b == b;
    } else {
      assert (a + b)[1..] == a[1..] + b;
      WithoutRight(a[1..], b, k);
    }
  }

  lemma Apart(older: seq<Key>, newer: seq<Key>, k: Key)
    requires Distinct(older + newer) && k in older
    ensures k !in newer
  {
    var i :| 0 <= i < |older| && older[i] == k;
    var all := older + newer;
    forall j | 0 <= j < |newer|
      ensures newer[j] != k
    {
      assert all[i] != all[|older| + j];
    }
  }

  /** A hit among the older entries adds it to the newer ones. */
  lemma {:induction false} HitOld(c: Cache, read: Medium, max: nat, older: seq<Key>, newer: seq<Key>,
                                  since: seq<BlockPointer>, bp: BlockPointer)
    requires Split(c, read, max, older, newer, since) && Genuine(bp) && bp.raw in older
    ensures Split(Access(c, read, max, bp).0, read, max, Without(older, bp.raw), newer + [bp.raw], since + [bp])
  {
    hide Without, Total, ParseBlkptr, Weight, Keepable;
    var k := bp.raw;
    OneMore(read, max, since, bp);
    hide Working, Load;
    assert k in c.order;
    Apart(older, newer, k);
    HitLaws(c, read, max, bp);
    WithoutLeft(older, newer, k);
    TotalAppend(newer, k, c.entries);
    assert Without(older, k) + newer + [k] == Without(older, k) + (newer + [k]);
  }

  /** A hit among the newer entries moves it to their end. */
  lemma {:induction false} HitNew(c: Cache, read: Medium, max: nat, older: seq<Key>, newer: seq<Key>,
                                  since: seq<BlockPointer>, bp: BlockPointer)
    requires Split(c, read, max, older, newer, since) && Genuine(bp) && bp.raw in newer
    ensures Split(Access(c, read, max, bp).0, read, max, older, Without(newer, bp.raw) + [bp.raw], since + [bp])
  {
    hide Without, Total, ParseBlkptr, Weight, Keepable;
    var k := bp.raw;
    OneMore(read, max, since, bp);
    hide Working, Load;
    HitLaws(c, read, max, bp);
    MovedToEnd(older, newer, k, c.entries);
  }

  /** Moving a newer key to the end changes neither the older keys, nor the newer ones, nor their weight. */
  lemma {:induction false} MovedToEnd(older: seq<Key>, newer: seq<Key>, k: Key, m: map<Key, BlockResult>)
    requires Distinct(older + newer) && k in newer && forall x :: x in newer ==> x in m
    ensures Without(older + newer, k) + [k] == older + (Without(newer, k) + [k])
    ensures forall x :: x in Without(newer, k) + [k] <==> x in newer
    ensures Total(Without(newer, k) + [k], m) == Total(newer, m)
  {
    hide Without, Total, Weight;
    if k in older { Apart(older, newer, k); }
    NewerDistinct(older, newer);
    WithoutRight(older, newer, k);
    WithoutFacts(newer, k, m);
    TotalAppend(Without(newer, k), k, m);
  }

  lemma NewerDistinct(older: seq<Key>, newer: seq<Key>)
    requires Distinct(older + newer)
    ensures Distinct(newer)
  {
    var all := older + newer;
    forall i, j | 0 <= i < j < |newer|
      ensures newer[i] != newer[j]
    {
      assert all[|older| + i] != all[|older| + j];
    }
  }

  /** Making room for a working set that fits drops older entries only. */
  lemma {:induction false} DropsOlder(c: Cache, max: nat, older: seq<Key>, newer: seq<Key>) returns (m: nat)
    requires Shaped(c) && c.order == older + newer && (forall k :: k in newer ==> k in c.entries)
    requires Total(newer, c.entries) <= max
    ensures var e := Evict(c, max);
            && m <= |older| && Shaped(e) && e.order == older[m..] + newer
            && (forall k :: k in e.entries ==> k in c.entries && e.entries[k] == c.entries[k])
            && Total(newer, c.entries) == TotalIn(newer, e)
  {
    hide Total, Evict, Shaped;
    m := EvictIsSuffix(c, max);
    if m > |older| {
      var j := m - 1 - |older|;
      assert c.order[m - 1..] == newer[j..];
      SuffixTotal(newer, j, c.entries);
    }
    var e := Evict(c, max);
    assert c.order[m..] == older[m..] + newer;
    Listed(e);
    SameTotal(newer, c.entries, e.entries);
  }

  lemma Listed(c: Cache)
    requires Shaped(c)
    ensures forall k :: k in c.order <==> k in c.entries
  {
  }

  ghost function TotalIn(order: seq<Key>, c: Cache): int
  {
    if forall k :: k in order ==> k in c.entries then Total(order, c.entries) else -1
  }

  /** A miss that is worth keeping adds to the newer entries, which all stay as long as they fit. */
  lemma {:induction false} Miss(c: Cache, read: Medium, max: nat, older: seq<Key>, newer: seq<Key>,
                                since: seq<BlockPointer>, bp: BlockPointer) returns (left: seq<Key>)
    requires Split(c, read, max, older, newer, since) && Genuine(bp) && bp.raw !in c.entries
    requires Keepable(read(bp), max) && Load(read, max, since + [bp]) <= max
    ensures Split(Access(c, read, max, bp).0, read, max, left, newer + [bp.raw], since + [bp])
  {
    hide Without, Total, ParseBlkptr, Weight, Keepable, Evict, Sound, Genuine;
    var k, res := bp.raw, read(bp);
    OneMore(read, max, since, bp);
    hide Working, Load;
    KeepableIff(res, max);
    hide Storable;
    AccessLaws(c, read, max, bp);
    assert Shaped(c) by { SoundIsShaped(c, read, max); }
    hide Shaped;
    Append(c, k, res);
    var more := Cache(c.order + [k], c.entries[k := res]);
    SameTotal(newer, c.entries, more.entries);
    TotalAppend(newer, k, more.entries);
    assert more.order == older + (newer + [k]);
    var m := DropsOlder(more, max, older, newer + [k]);
    left := older[m..];
  }

  lemma SoundIsShaped(c: Cache, read: Medium, max: nat)
    requires Sound(c, read, max)
    ensures Shaped(c)
  {
  }

  lemma {:induction false} SuffixTotal(order: seq<Key>, n: nat, m: map<Key, BlockResult>)
    requires n <= |order| && forall k :: k in order ==> k in m
    ensures (forall k :: k in order[n..] ==> k in m) && Total(order[n..], m) <= Total(order, m)
  {
    if n > 0 {
      SuffixTotal(order[1..], n - 1, m);
      assert order[1..][n - 1..] == order[n..];
    }
  }

  /** What is not worth keeping leaves the cache as it was. */
  lemma {:induction false} NotKept(c: Cache, read: Medium, max: nat, older: seq<Key>, newer: seq<Key>,
                                   since: seq<BlockPointer>, bp: BlockPointer)
    requires Split(c, read, max, older, newer, since) && bp.raw !in c.entries && !Keepable(read(bp), max)
    ensures Access(c, read, max, bp) == (c, read(bp)) && Split(c, read, max, older, newer, since + [bp])
  {
    hide Total, ParseBlkptr, Weight, Keepable, Sound;
    OneMore(read, max, since, bp);
    hide Working, Load;
    KeepableIff(read(bp), max);
  }

  /** One more call, of any kind, keeps the working set in the cache if it fits the budget. */
  lemma {:induction false} StaysSplit(c: Cache, read: Medium, max: nat, older: seq<Key>, newer: seq<Key>,
                                      since: seq<BlockPointer>, bp: BlockPointer)
      returns (older': seq<Key>, newer': seq<Key>)
    requires Split(c, read, max, older, newer, since) && Genuine(bp) && Load(read, max, since + [bp]) <= max
    ensures Split(Access(c, read, max, bp).0, read, max, older', newer', since + [bp])
  {
    hide Split, Access, Genuine, Load, Keepable;
    EntriesListed(c, read, max, older, newer, since);
    if bp.raw in older {
      HitOld(c, read, max, older, newer, since, bp);
      older', newer' := Without(older, bp.raw), newer + [bp.raw];
    } else if bp.raw in newer {
      HitNew(c, read, max, older, newer, since, bp);
      older', newer' := older, Without(newer, bp.raw) + [bp.raw];
    } else if Keepable(read(bp), max) {
      older' := Miss(c, read, max, older, newer, since, bp);
      newer' := newer + [bp.raw];
    } else {
      NotKept(c, read, max, older, newer, since, bp);
      older', newer' := older, newer;
    }
  }

  lemma EntriesListed(c: Cache, read: Medium, max: nat, older: seq<Key>, newer: seq<Key>, since: seq<BlockPointer>)
    requires Split(c, read, max, older, newer, since)
    ensures Shaped(c) && forall k :: k in c.entries ==> k in older || k in newer
  {
    hide Total, Honest, Keepable, Working, Load;
    assert forall k :: k in c.entries ==> k in older + newer;
  }

  lemma {:induction false} LoadGrows(read: Medium, max: nat, since: seq<BlockPointer>, bp: BlockPointer)
    ensures Load(read, max, since) <= Load(read, max, since + [bp])
  {
    OneMore(read, max, since, bp);
  }

  lemma {:induction false} RunSplit(read: Medium, max: nat, before: seq<BlockPointer>, since: seq<BlockPointer>)
      returns (older: seq<Key>, newer: seq<Key>)
    requires (forall bp :: bp in before + since ==> Genuine(bp)) && Load(read, max, since) <= max
    ensures Split(Session(read, max, before + since).0, read, max, older, newer, since)
  {
    hide Access, Genuine, Load, Split, Session;
    var all := before + since;
    if since == [] {
      assert all == before;
      older, newer := Session(read, max, before).0.order, [];
      RunKeepsWorth(read, max, before);
    } else {
      var n := |since| - 1;
      var bp := since[n];
      assert since[..n] + [bp] == since && all[..|all| - 1] == before + since[..n] && all[|all| - 1] == bp;
      assert forall x :: x in before + since[..n] ==> x in all;
      LoadGrows(read, max, since[..n], bp);
      assert bp in all;
      older, newer := RunSplit(read, max, before, since[..n]);
      older, newer := StaysSplit(Session(read, max, before + since[..n]).0, read, max, older, newer, since[..n], bp);
      SessionStep(read, max, all);
    }
  }

  lemma {:induction false} SessionStep(read: Medium, max: nat, calls: seq<BlockPointer>)
    requires calls != []
    ensures var last := |calls| - 1;
            var c := Session(read, max, calls[..last]).0;
            Shaped(c) && Session(read, max, calls).0 == Access(c, read, max, calls[last]).0
  {
    hide Access;
    EmptyIsShaped();
  }

  /** After any run the entries are sound, all worth keeping, and all older than the calls to come. */
  lemma {:induction false} RunKeepsWorth(read: Medium, max: nat, calls: seq<BlockPointer>)
    requires forall bp :: bp in calls ==> Genuine(bp)
    ensures var c := Session(read, max, calls).0;
            Split(c, read, max, c.order, [], [])
  {
    hide Genuine, Split, Access, Keepable, Session;
    if calls == [] {
      EmptySplit(read, max);
    } else {
      var last := |calls| - 1;
      RunKeepsWorth(read, max, calls[..last]);
      var c := Session(read, max, calls[..last]).0;
      assert calls[last] in calls;
      SessionStep(read, max, calls);
      AccessKeepsWorth(c, read, max, calls[last]);
    }
  }

  lemma {:induction false} EmptySplit(read: Medium, max: nat)
    ensures Session(read, max, []).0 == NO_ENTRIES && Split(NO_ENTRIES, read, max, [], [], [])
  {
    EmptyIsShaped();
  }

  lemma {:induction false} AccessKeepsWorth(c: Cache, read: Medium, max: nat, bp: BlockPointer)
    requires Split(c, read, max, c.order, [], []) && Genuine(bp)
    ensures var c' := Access(c, read, max, bp).0;
            Split(c', read, max, c'.order, [], [])
  {
    hide Genuine, Keepable, Total, Weight, Evict, Without, ParseBlkptr;
    AccessLaws(c, read, max, bp);
    KeepableIff(read(bp), max);
    hide Storable, Honest;
    var c' := Access(c, read, max, bp).0;
    assert c'.order + [] == c'.order;
    assert Total([], c'.entries) == 0 by { NoWeight(c'.entries); }
    if bp.raw !in c.entries && Storable(read(bp), max) {
      Append(c, bp.raw, read(bp));
      var m := EvictIsSuffix(Cache(c.order + [bp.raw], c.entries[bp.raw := read(bp)]), max);
    }
  }

  lemma {:induction false} NoWeight(m: map<Key, BlockResult>)
    ensures Total([], m) == 0
  {
  }

  /** For every run from an empty cache, cut anywhere: if the results worth keeping of the calls since then
      fit the budget together, each counted once, they are all in the cache, so that the next call for any
      of them is a hit that leaves every entry in place. Nothing else is ever kept. */
  lemma {:induction false} WorkingSetStays(read: Medium, max: nat, before: seq<BlockPointer>,
                                           since: seq<BlockPointer>)
    requires (forall bp :: bp in before + since ==> Genuine(bp)) && Load(read, max, since) <= max
    ensures var c := Session(read, max, before + since).0;
            && Shaped(c)
            && (forall bp :: bp in since && Keepable(read(bp), max) ==>
                  bp.raw in c.entries && Access(c, read, max, bp) == (Touch(c, bp.raw), read(bp)))
            && (forall k :: k in c.entries ==> Keepable(c.entries[k], max))
  {
    hide Genuine, Keepable, Session, Total, Load, Honest, Touch, Access;
    var older, newer := RunSplit(read, max, before, since);
    var c := Session(read, max, before + since).0;
    forall bp | bp in since && Keepable(read(bp), max)
      ensures bp.raw in c.entries && Access(c, read, max, bp) == (Touch(c, bp.raw), read(bp))
    {
      WorkingHas(read, max, since, bp);
      assert bp in before + since;
      HitAnswers(c, read, max, bp);
    }
  }

  lemma HitAnswers(c: Cache, read: Medium, max: nat, bp: BlockPointer)
    requires Sound(c, read, max) && Genuine(bp) && bp.raw in c.entries
    ensures Access(c, read, max, bp) == (Touch(c, bp.raw), read(bp))
  {
    hide Total, ParseBlkptr, Weight, Without;
  }

  lemma {:induction false} WorkingHas(read: Medium, max: nat, calls: seq<BlockPointer>, bp: BlockPointer)
    requires bp in calls && Keepable(read(bp), max)
    ensures bp.raw in Working(read, max, calls)
  {
    hide Keepable;
    var last := |calls| - 1;
    if calls[last] != bp { WorkingHas(read, max, calls[..last], bp); }
  }
}
