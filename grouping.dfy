/**
 * `groupSystems` of src/utils/dataMap.ts: splits systems into named buckets,
 * by system type or by data use, with the buckets in first-seen order.
 */
module Grouping {
  import opened Types
  import opened Seqs

  /** The bucket of the systems without declarations in data-use mode. */
  const NoDataUse: string := "(no data use)"

  /** A JavaScript `Map<string, System[]>`: its keys in insertion order and its entries. */
  datatype Groups = Groups(keys: seq<string>, buckets: map<string, seq<System>>)

  predicate Valid(g: Groups)
  {
    NoDup(g.keys) &&
    (forall k :: k in g.keys ==> k in g.buckets) &&
    (forall k :: k in g.buckets ==> k in g.keys)
  }

  /** `groups.get(key) ?? []` */
  function Get(g: Groups, key: string): seq<System>
  {
    if key in g.buckets then g.buckets[key] else []
  }

  /** `const arr = groups.get(key) ?? []; arr.push(x); groups.set(key, arr)` */
  function Push(g: Groups, key: string, x: System): Groups
  {
    Groups(if key in g.buckets then g.keys else g.keys + [key], g.buckets[key := Get(g, key) + [x]])
  }

  /** The number of systems held by the buckets, counting each placement. */
  function TotalSize(g: Groups): nat
  {
    SumSizes(g.keys, g.buckets)
  }

  function SumSizes(keys: seq<string>, buckets: map<string, seq<System>>): nat
  {
    if keys == [] then 0
    else
      var k := keys[|keys| - 1];
      SumSizes(keys[..|keys| - 1], buckets) + (if k in buckets then |buckets[k]| else 0)
  }

  /** `decls.map((d) => d.data_use)` */
  function DeclaredUses(decls: seq<PrivacyDeclaration>): (r: seq<string>)
    ensures |r| == |decls| && forall i :: 0 <= i < |r| ==> r[i] == decls[i].dataUse
  {
    seq(|decls|, i requires 0 <= i < |decls| => decls[i].dataUse)
  }

  /** `new Set(system.privacy_declarations.map((d) => d.data_use))`, in iteration order. */
  function DataUsesOf(system: System): seq<string>
  {
    Distinct(DeclaredUses(system.privacyDeclarations))
  }

  /** The keys of the buckets a system is pushed onto, in push order. */
  function BucketKeys(system: System, mode: LayoutMode): seq<string>
  {
    match mode
    case SystemType => [system.systemType]
    case DataUse =>
      var uses := DataUsesOf(system);
      if |uses| == 0 then [NoDataUse] else uses
  }

  /** Whether `groupSystems` places `system` in the bucket `key`. */
  predicate InBucket(system: System, key: string, mode: LayoutMode)
  {
    key in BucketKeys(system, mode)
  }

  /**
   * By system type a system belongs to the bucket of its raw type only; by
   * data use to the bucket of each use it declares, or to `(no data use)`
   * when it declares nothing.
   */
  lemma InBucketMeaning(system: System, key: string)
    ensures InBucket(system, key, SystemType) <==> key == system.systemType
    ensures InBucket(system, key, DataUse) <==>
      if system.privacyDeclarations == [] then key == NoDataUse
      else exists d :: d in system.privacyDeclarations && d.dataUse == key
  {
    var decls := system.privacyDeclarations;
    if decls != [] {
      assert DeclaredUses(decls)[0] in DataUsesOf(system);
      forall d | d in decls ensures d.dataUse in DataUsesOf(system) {
        var i :| 0 <= i < |decls| && decls[i] == d;
        assert DeclaredUses(decls)[i] == d.dataUse;
      }
      if key in DataUsesOf(system) {
        var i :| 0 <= i < |decls| && DeclaredUses(decls)[i] == key;
        assert decls[i] in decls;
      }
    }
  }

  /** In data-use mode a system with declarations is pushed once per distinct data use. */
  lemma DataUseBucketCount(system: System)
    requires system.privacyDeclarations != []
    ensures |BucketKeys(system, DataUse)| == |set d | d in system.privacyDeclarations :: d.dataUse|
  {
    var decls := system.privacyDeclarations;
    var uses := DataUsesOf(system);
    assert DeclaredUses(decls)[0] in uses;
    NoDupCardinality(uses);
    forall u ensures u in uses <==> u in (set d | d in decls :: d.dataUse) {
      InBucketMeaning(system, u);
    }
    assert (set u | u in uses) == (set d | d in decls :: d.dataUse);
  }

  /** Every bucket key of every system, in push order. */
  function AllBucketKeys(systems: seq<System>, mode: LayoutMode): seq<string>
  {
    if systems == [] then []
    else AllBucketKeys(systems[..|systems| - 1], mode) + BucketKeys(systems[|systems| - 1], mode)
  }

  /** Pushes `x` onto each bucket of `keys` in order. */
  function PushAll(g: Groups, keys: seq<string>, x: System): Groups
    decreases |keys|
  {
    if keys == [] then g else Push(PushAll(g, keys[..|keys| - 1], x), keys[|keys| - 1], x)
  }

  /** The groups after the loop of `groupSystems` has handled `systems`. */
  function GroupSpec(systems: seq<System>, mode: LayoutMode): Groups
  {
    if systems == [] then Groups([], map[])
    else
      var x := systems[|systems| - 1];
      PushAll(GroupSpec(systems[..|systems| - 1], mode), BucketKeys(x, mode), x)
  }

  /**
   * `g` is what pushing the keys `pushed` in order produces: its keys are
   * the distinct pushed keys in first-seen order and it holds one system per push.
   */
  ghost predicate Tracks(g: Groups, pushed: seq<string>)
  {
    Valid(g) && g.keys == Distinct(pushed) && TotalSize(g) == |pushed|
  }

  lemma {:induction false} SumSizesOther(keys: seq<string>, buckets: map<string, seq<System>>, k: string, v: seq<System>)
    requires k !in keys
    ensures SumSizes(keys, buckets[k := v]) == SumSizes(keys, buckets)
    decreases |keys|
  {
    if keys != [] {
      SumSizesOther(keys[..|keys| - 1], buckets, k, v);
    }
  }

  lemma {:induction false} SumSizesUpdate(keys: seq<string>, buckets: map<string, seq<System>>, k: string, v: seq<System>)
    requires NoDup(keys) && k in keys && k in buckets
    ensures SumSizes(keys, buckets[k := v]) + |buckets[k]| == SumSizes(keys, buckets) + |v|
    decreases |keys|
  {
    var front, last := keys[..|keys| - 1], keys[|keys| - 1];
    assert keys == front + [last];
    if last == k {
      assert k !in front;
      SumSizesOther(front, buckets, k, v);
    } else {
      assert NoDup(front);
      SumSizesUpdate(front, buckets, k, v);
    }
  }

  lemma PushValid(g: Groups, key: string, x: System)
    requires Valid(g)
    ensures Valid(Push(g, key, x))
    ensures TotalSize(Push(g, key, x)) == TotalSize(g) + 1
  {
    var g' := Push(g, key, x);
    if key in g.buckets {
      SumSizesUpdate(g.keys, g.buckets, key, Get(g, key) + [x]);
    } else {
      assert key !in g.keys;
      SumSizesOther(g.keys, g.buckets, key, Get(g, key) + [x]);
      assert g'.keys[..|g'.keys| - 1] == g.keys;
      assert SumSizes(g'.keys, g'.buckets) == SumSizes(g.keys, g'.buckets) + 1;
      assert forall i :: 0 <= i < |g.keys| ==> g.keys[i] != key;
    }
  }

  lemma PushKeys(g: Groups, pushed: seq<string>, key: string, x: System, after: seq<string>)
    requires g.keys == Distinct(pushed)
    requires key in g.buckets <==> key in pushed
    requires after == pushed + [key]
    ensures Push(g, key, x).keys == Distinct(after)
  {
    DistinctSnoc(pushed, key);
  }

  /** Pushing `x` onto the buckets `keys` keeps the groups tracking the pushed keys. */
  lemma {:induction false} PushAllTracks(g: Groups, pushed: seq<string>, keys: seq<string>, x: System)
    requires Tracks(g, pushed)
    requires forall k :: k in g.buckets <==> k in pushed
    ensures Tracks(PushAll(g, keys, x), pushed + keys)
    ensures forall k :: k in PushAll(g, keys, x).buckets <==> k in pushed + keys
    decreases |keys|
  {
    if keys == [] {
      assert pushed + keys == pushed;
    } else {
      var front, last := keys[..|keys| - 1], keys[|keys| - 1];
      var after := pushed + keys;
      assert pushed + front + [last] == after by { assert keys == front + [last]; }
      PushAllTracks(g, pushed, front, x);
      var h := PushAll(g, front, x);
      PushValid(h, last, x);
      PushKeys(h, pushed + front, last, x, after);
      assert forall k :: k in Push(h, last, x).buckets <==> k in after;
    }
  }

  lemma {:induction false} PushAllGet(g: Groups, keys: seq<string>, x: System)
    requires NoDup(keys)
    ensures forall k :: Get(PushAll(g, keys, x), k) == Get(g, k) + (if k in keys then [x] else [])
    decreases |keys|
  {
    if keys != [] {
      var front, last := keys[..|keys| - 1], keys[|keys| - 1];
      assert keys == front + [last];
      assert NoDup(front) && last !in front;
      PushAllGet(g, front, x);
    }
  }

  lemma BucketKeysNoDup(system: System, mode: LayoutMode)
    ensures NoDup(BucketKeys(system, mode))
  {
  }

  /** What `groupSystems` returns, described bucket by bucket. */
  lemma {:induction false} GroupSpecProperties(systems: seq<System>, mode: LayoutMode)
    ensures Tracks(GroupSpec(systems, mode), AllBucketKeys(systems, mode))
    ensures forall k :: k in GroupSpec(systems, mode).buckets <==> k in AllBucketKeys(systems, mode)
    ensures forall k :: Get(GroupSpec(systems, mode), k) == Filter(systems, x => InBucket(x, k, mode))
    ensures forall k :: k in GroupSpec(systems, mode).buckets ==> GroupSpec(systems, mode).buckets[k] != []
    decreases |systems|
  {
    if systems == [] {
      assert Distinct<string>([]) == [];
    } else {
      var front, x := systems[..|systems| - 1], systems[|systems| - 1];
      assert systems == front + [x];
      GroupSpecProperties(front, mode);
      var g := GroupSpec(front, mode);
      BucketKeysNoDup(x, mode);
      PushAllTracks(g, AllBucketKeys(front, mode), BucketKeys(x, mode), x);
      PushAllGet(g, BucketKeys(x, mode), x);
      forall k ensures Get(GroupSpec(systems, mode), k) == Filter(systems, x => InBucket(x, k, mode)) {
        FilterSnoc(front, x => InBucket(x, k, mode), x);
      }
      forall k | k in GroupSpec(systems, mode).buckets ensures GroupSpec(systems, mode).buckets[k] != [] {
        if k in BucketKeys(x, mode) {
          assert Get(GroupSpec(systems, mode), k) == Get(g, k) + [x];
        } else {
          assert Get(GroupSpec(systems, mode), k) == Get(g, k);
        }
      }
    }
  }

  /** In system-type mode every system is pushed exactly once. */
  lemma {:induction false} SystemTypeKeysCount(systems: seq<System>)
    ensures |AllBucketKeys(systems, SystemType)| == |systems|
    decreases |systems|
  {
    if systems != [] {
      SystemTypeKeysCount(systems[..|systems| - 1]);
    }
  }

  lemma GroupSpecStep(systems: seq<System>, i: nat, mode: LayoutMode)
    requires i < |systems|
    ensures GroupSpec(systems[..i + 1], mode)
         == PushAll(GroupSpec(systems[..i], mode), BucketKeys(systems[i], mode), systems[i])
  {
    assert systems[..i + 1][..i] == systems[..i];
  }

  /** The whole result of `groupSystems`, as its method states it. */
  lemma GroupSpecSummary(systems: seq<System>, mode: LayoutMode)
    ensures Valid(GroupSpec(systems, mode))
    ensures GroupSpec(systems, mode).keys == Distinct(AllBucketKeys(systems, mode))
    ensures forall k :: Get(GroupSpec(systems, mode), k) == Filter(systems, x => InBucket(x, k, mode))
    ensures forall k :: k in GroupSpec(systems, mode).buckets ==> GroupSpec(systems, mode).buckets[k] != []
    ensures TotalSize(GroupSpec(systems, mode)) == |AllBucketKeys(systems, mode)|
    ensures mode == SystemType ==> TotalSize(GroupSpec(systems, mode)) == |systems|
  {
    GroupSpecProperties(systems, mode);
    if mode == SystemType {
      SystemTypeKeysCount(systems);
    }
  }

  /** `for (const use of uses) { ...push system onto the bucket use... }` */
  method PushEach(g: Groups, uses: seq<string>, system: System) returns (groups: Groups)
    ensures groups == PushAll(g, uses, system)
  {
    groups := g;
    for j := 0 to |uses|
      invariant groups == PushAll(g, uses[..j], system)
    {
      assert uses[..j + 1][..j] == uses[..j];
      groups := Push(groups, uses[j], system);
    }
    assert uses[..|uses|] == uses;
  }

  /**
   * `groupSystems`: with `SystemType` one bucket per raw system type; with
   * `DataUse` one bucket per distinct data use of each system, and the
   * bucket `(no data use)` for a system without declarations.
   */
  method GroupSystems(systems: seq<System>, layoutMode: LayoutMode) returns (groups: Groups)
    ensures groups == GroupSpec(systems, layoutMode)
    ensures Valid(groups)
    ensures groups.keys == Distinct(AllBucketKeys(systems, layoutMode))
    ensures forall k :: Get(groups, k) == Filter(systems, x => InBucket(x, k, layoutMode))
    ensures forall k :: k in groups.buckets ==> groups.buckets[k] != []
    ensures TotalSize(groups) == |AllBucketKeys(systems, layoutMode)|
    ensures layoutMode == SystemType ==> TotalSize(groups) == |systems|
  {
    groups := Groups([], map[]);
    for i := 0 to |systems|
      invariant groups == GroupSpec(systems[..i], layoutMode)
    {
      var system := systems[i];
      GroupSpecStep(systems, i, layoutMode);
      if layoutMode == SystemType {
        var key := system.systemType;
        assert [key][..0] == [];
        groups := Push(groups, key, system);
      } else {
        var uses := DataUsesOf(system);
        if |uses| == 0 {
          assert [NoDataUse][..0] == [];
          groups := Push(groups, NoDataUse, system);
        } else {
          groups := PushEach(groups, uses, system);
        }
      }
    }
    assert systems[..|systems|] == systems;
    GroupSpecSummary(systems, layoutMode);
  }
}
