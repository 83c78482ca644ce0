/**
 * The connection logic of src/components/CategoryConnectors.tsx: which
 * system cards a hovered card is linked to (those sharing at least one short
 * data category with it), and the set of card ids to highlight.
 */
module CategoryConnectors {
  import opened Types
  import opened Seqs
  import opened Strings
  import opened DataMap

  /** A line drawn from the hovered card to a related card. */
  datatype Connection = Connection(from: string, to: string)

  /** `new Map(systems.map((s) => [s.fides_key, s])).get(id)`: a later system with the same key wins. */
  function LookupLast(systems: seq<System>, id: string): (r: Option<System>)
    ensures r.None? <==> forall s :: s in systems ==> s.fidesKey != id
    ensures r.Some? ==> r.value in systems && r.value.fidesKey == id
  {
    assert forall s :: s in systems ==> KeyOf(s) in KeysOf(systems, KeyOf);
    LastWith(systems, KeyOf, id)
  }

  /** Two systems are related when they declare a common short data category. */
  predicate Related(a: System, b: System)
  {
    CategorySet(a) * CategorySet(b) != {}
  }

  /**
   * The deduplication key `getConnectionsForHovered` as written uses for the
   * pair of cards `a`, `b`: the two ids in ascending order joined by two
   * dashes. It names both ids and does not depend on their order (see
   * `JoinedPairKeySymmetric`), but different pairs can share it.
   */
  function JoinedPairKey(a: string, b: string): (r: string)
    ensures r == a + "--" + b || r == b + "--" + a
    ensures |r| == |a| + |b| + 2
  {
    if Less(b, a) then b + "--" + a else a + "--" + b
  }

  /** The joined key of a pair is the same whichever card is hovered. */
  lemma JoinedPairKeySymmetric(a: string, b: string)
    ensures JoinedPairKey(a, b) == JoinedPairKey(b, a)
  {
    LessTotal(a, b);
  }

  /** The deduplication key the joined string stands for: the unordered pair itself. */
  function PairKey(a: string, b: string): (string, string)
  {
    if Less(b, a) then (b, a) else (a, b)
  }

  /** For a fixed hovered id, different partners give different pair keys. */
  lemma PairKeyInjective(h: string, k1: string, k2: string)
    ensures PairKey(h, k1) == PairKey(h, k2) ==> k1 == k2
  {
    LessTotal(h, k1);
    LessTotal(h, k2);
    LessTotal(k1, k2);
    LessIrreflexive(h);
  }

  /** The partner ids of a list of connections, in order. */
  function Targets(conns: seq<Connection>): (r: seq<string>)
    ensures |r| == |conns| && forall i :: 0 <= i < |r| ==> r[i] == conns[i].to
  {
    seq(|conns|, i requires 0 <= i < |conns| => conns[i].to)
  }

  /**
   * The keys of the systems other than the hovered id that are related to
   * `hovered`, in list order and with repetitions: the reference the
   * connection scan is measured against.
   */
  function RelatedKeys(systems: seq<System>, h: string, hovered: System): (r: seq<string>)
    ensures forall k :: k in r <==> k != h && exists s :: s in systems && s.fidesKey == k && Related(hovered, s)
  {
    if systems == [] then []
    else
      var front, s := systems[..|systems| - 1], systems[|systems| - 1];
      assert systems == front + [s];
      var f := RelatedKeys(front, h, hovered);
      if s.fidesKey != h && Related(hovered, s) then f + [s.fidesKey] else f
  }

  /**
   * The loop of `getConnectionsForHovered` over `systems`, deduplicating by
   * `pairKey`: the connections pushed and the keys seen so far.
   */
  function Scan<K(==)>(systems: seq<System>, h: string, hovered: System,
                       pairKey: (string, string) -> K): (r: (seq<Connection>, set<K>))
    ensures forall i :: 0 <= i < |r.0| ==> r.0[i].from == h && r.0[i].to != h
  {
    if systems == [] then ([], {})
    else
      var prev := Scan(systems[..|systems| - 1], h, hovered, pairKey);
      var s := systems[|systems| - 1];
      if s.fidesKey == h || !Related(hovered, s) then prev
      else
        var key := pairKey(h, s.fidesKey);
        if key in prev.1 then prev else (prev.0 + [Connection(h, s.fidesKey)], prev.1 + {key})
  }

  /** `getConnectionsForHovered` with the deduplication key `pairKey`. */
  function ConnectionsWith<K(==)>(systems: seq<System>, h: string,
                                  pairKey: (string, string) -> K): seq<Connection>
  {
    match LookupLast(systems, h)
    case None => []
    case Some(hovered) => Scan(systems, h, hovered, pairKey).0
  }

  /**
   * The connections as `getConnectionsForHovered` as written computes them,
   * with the joined-string key: each goes from the hovered id to a related
   * system key, once at most, in list order, but a partner whose joined key
   * collides with an earlier partner's is dropped (`ConnectorExamples.JoinedPairKeyCollision`).
   */
  function ConnectionsAsWritten(systems: seq<System>, h: string): (r: seq<Connection>)
    ensures LookupLast(systems, h).None? ==> r == []
    ensures forall i :: 0 <= i < |r| ==> r[i].from == h && r[i].to != h
    ensures NoDup(Targets(r))
    ensures LookupLast(systems, h).Some? ==>
      Subseq(Targets(r), RelatedKeys(systems, h, LookupLast(systems, h).value))
  {
    match LookupLast(systems, h)
    case None => []
    case Some(hovered) =>
      ScanSound(systems, h, hovered, JoinedPairKey);
      Scan(systems, h, hovered, JoinedPairKey).0
  }

  /** The connections with the unordered-pair key. */
  function Connections(systems: seq<System>, h: string): seq<Connection>
  {
    ConnectionsWith(systems, h, PairKey)
  }

  /**
   * With a key that tells partners apart, the scan connects the hovered id
   * once to every related system key, in first-seen order, and has seen
   * exactly the keys of those partners.
   */
  lemma {:induction false} ScanTargets<K(!new)>(systems: seq<System>, h: string, hovered: System,
                                                 pairKey: (string, string) -> K)
    requires forall k1, k2 :: pairKey(h, k1) == pairKey(h, k2) ==> k1 == k2
    ensures Targets(Scan(systems, h, hovered, pairKey).0) == Distinct(RelatedKeys(systems, h, hovered))
    ensures forall k :: pairKey(h, k) in Scan(systems, h, hovered, pairKey).1
                    <==> k in RelatedKeys(systems, h, hovered)
    decreases |systems|
  {
    if systems != [] {
      var front, s := systems[..|systems| - 1], systems[|systems| - 1];
      ScanTargets(front, h, hovered, pairKey);
      var prev := Scan(front, h, hovered, pairKey);
      var keys := RelatedKeys(front, h, hovered);
      if s.fidesKey != h && Related(hovered, s) {
        DistinctSnoc(keys, s.fidesKey);
        assert RelatedKeys(systems, h, hovered) == keys + [s.fidesKey];
        if pairKey(h, s.fidesKey) !in prev.1 {
          assert Targets(prev.0 + [Connection(h, s.fidesKey)]) == Targets(prev.0) + [s.fidesKey];
        }
      }
    }
  }

  /**
   * Whatever the key, the scan connects only related system keys, in list
   * order, never twice to the same key, and has seen the key of each target.
   */
  lemma {:induction false} ScanSound<K(!new)>(systems: seq<System>, h: string, hovered: System,
                                               pairKey: (string, string) -> K)
    ensures NoDup(Targets(Scan(systems, h, hovered, pairKey).0))
    ensures forall k :: k in Targets(Scan(systems, h, hovered, pairKey).0) ==>
                        pairKey(h, k) in Scan(systems, h, hovered, pairKey).1
    ensures Subseq(Targets(Scan(systems, h, hovered, pairKey).0), RelatedKeys(systems, h, hovered))
    decreases |systems|
  {
    if systems != [] {
      var front, s := systems[..|systems| - 1], systems[|systems| - 1];
      ScanSound(front, h, hovered, pairKey);
      var prev := Scan(front, h, hovered, pairKey);
      var keys, t := RelatedKeys(front, h, hovered), Targets(prev.0);
      if s.fidesKey != h && Related(hovered, s) {
        assert RelatedKeys(systems, h, hovered) == keys + [s.fidesKey];
        SubseqSnoc(t, keys, s.fidesKey);
        if pairKey(h, s.fidesKey) !in prev.1 {
          assert Targets(prev.0 + [Connection(h, s.fidesKey)]) == t + [s.fidesKey];
          assert s.fidesKey !in t;
        }
      }
    }
  }

  /** The pair key tells partners apart, so the scan's connection targets are the distinct related keys. */
  lemma ConnectionsTargets(systems: seq<System>, h: string)
    ensures LookupLast(systems, h).None? ==> Connections(systems, h) == []
    ensures NoDup(Targets(Connections(systems, h)))
    ensures LookupLast(systems, h).Some? ==>
      Targets(Connections(systems, h)) == Distinct(RelatedKeys(systems, h, LookupLast(systems, h).value))
  {
    forall k1, k2 | PairKey(h, k1) == PairKey(h, k2) ensures k1 == k2 {
      PairKeyInjective(h, k1, k2);
    }
    if LookupLast(systems, h).Some? {
      ScanTargets(systems, h, LookupLast(systems, h).value, PairKey);
    }
  }

  /**
   * `getConnectionsForHovered`: one connection from the hovered card to each
   * other card that shares a short data category with it, or none when the
   * hovered id is not a system key.
   */
  method GetConnectionsForHovered(systems: seq<System>, hoveredId: string) returns (conns: seq<Connection>)
    ensures conns == Connections(systems, hoveredId)
    ensures forall i :: 0 <= i < |conns| ==> conns[i].from == hoveredId && conns[i].to != hoveredId
  {
    var found := LookupLast(systems, hoveredId);
    if found.None? {
      return [];
    }
    var hovered := found.value;
    var categoriesX := GetUniqueDataCategories(hovered);
    conns := [];
    var seen: set<(string, string)> := {};
    for i := 0 to |systems|
      invariant (conns, seen) == Scan(systems[..i], hoveredId, hovered, PairKey)
    {
      var system := systems[i];
      assert systems[..i + 1][..i] == systems[..i];
      if system.fidesKey == hoveredId {
        continue;
      }
      var categoriesY := GetUniqueDataCategories(system);
      var shared := exists c | c in categoriesX :: c in categoriesY;
      SharedIffRelated(categoriesX, categoriesY, hovered, system);
      if shared {
        var key := PairKey(hoveredId, system.fidesKey);
        if key !in seen {
          seen := seen + {key};
          conns := conns + [Connection(hoveredId, system.fidesKey)];
        }
      }
    }
    assert systems[..|systems|] == systems;
  }

  /** `[...categoriesX].some((c) => categoriesY.has(c))` decides `Related`. */
  lemma SharedIffRelated(categoriesX: seq<string>, categoriesY: seq<string>, x: System, y: System)
    requires forall c :: c in categoriesX <==> c in CategorySet(x)
    requires forall c :: c in categoriesY <==> c in CategorySet(y)
    ensures (exists c :: c in categoriesX && c in categoriesY) <==> Related(x, y)
  {
    if Related(x, y) {
      var c :| c in CategorySet(x) * CategorySet(y);
      assert c in categoriesX && c in categoriesY;
    }
    if exists c :: c in categoriesX && c in categoriesY {
      var c :| c in categoriesX && c in categoriesY;
      assert c in CategorySet(x) * CategorySet(y);
    }
  }

  /**
   * The ids `getRelatedCardIds` highlights: the hovered id, and the key of
   * every other system related to the system the hovered id names.
   */
  function RelatedIds(systems: seq<System>, h: string): set<string>
  {
    {h} + match LookupLast(systems, h)
          case None => {}
          case Some(hovered) => set s | s in systems && s.fidesKey != h && Related(hovered, s) :: s.fidesKey
  }

  /** The set of the targets of `conns` has the elements of their list. */
  lemma TargetSet(conns: seq<Connection>)
    ensures forall k :: k in (set c | c in conns :: c.to) <==> k in Targets(conns)
  {
    forall k | k in Targets(conns) ensures k in (set c | c in conns :: c.to) {
      var i :| 0 <= i < |Targets(conns)| && Targets(conns)[i] == k;
      assert conns[i] in conns;
    }
    forall k | k in (set c | c in conns :: c.to) ensures k in Targets(conns) {
      var c :| c in conns && c.to == k;
      var i :| 0 <= i < |conns| && conns[i] == c;
      assert Targets(conns)[i] == k;
    }
  }

  /** The keys of the related systems, as a set. */
  lemma RelatedKeySet(systems: seq<System>, h: string, hovered: System)
    ensures (set s | s in systems && s.fidesKey != h && Related(hovered, s) :: s.fidesKey)
         == set k | k in RelatedKeys(systems, h, hovered)
  {
    var others := set s | s in systems && s.fidesKey != h && Related(hovered, s) :: s.fidesKey;
    forall k | k in RelatedKeys(systems, h, hovered) ensures k in others {
      var s :| s in systems && s.fidesKey == k && Related(hovered, s);
    }
  }

  lemma TargetSetSnoc(conns: seq<Connection>, i: nat)
    requires i < |conns|
    ensures (set c | c in conns[..i + 1] :: c.to) == (set c | c in conns[..i] :: c.to) + {conns[i].to}
  {
    assert conns[..i + 1] == conns[..i] + [conns[i]];
  }

  /** The highlighted ids are the hovered id and the targets of its connections. */
  lemma RelatedIdsOfConnections(systems: seq<System>, h: string)
    ensures RelatedIds(systems, h) == {h} + set c | c in Connections(systems, h) :: c.to
  {
    ConnectionsTargets(systems, h);
    TargetSet(Connections(systems, h));
    if LookupLast(systems, h).Some? {
      RelatedKeySet(systems, h, LookupLast(systems, h).value);
    }
  }

  /** `getRelatedCardIds`: the hovered id plus both ends of each of its connections. */
  method GetRelatedCardIds(systems: seq<System>, hoveredId: string) returns (related: set<string>)
    ensures related == RelatedIds(systems, hoveredId)
    ensures hoveredId in related
  {
    var conns := GetConnectionsForHovered(systems, hoveredId);
    related := {hoveredId};
    for i := 0 to |conns|
      invariant related == {hoveredId} + set c | c in conns[..i] :: c.to
    {
      TargetSetSnoc(conns, i);
      related := related + {conns[i].from};
      related := related + {conns[i].to};
    }
    assert conns[..|conns|] == conns;
    RelatedIdsOfConnections(systems, hoveredId);
  }

  /** The ids `getRelatedCardIds` as written highlights, from the connections with the joined-string key. */
  function RelatedIdsAsWritten(systems: seq<System>, h: string): (r: set<string>)
    ensures h in r
    ensures r <= RelatedIds(systems, h)
  {
    AsWrittenTargetsRelated(systems, h);
    {h} + set c | c in ConnectionsAsWritten(systems, h) :: c.to
  }

  /** Every target of the joined-key connections is highlighted by `RelatedIds`. */
  lemma AsWrittenTargetsRelated(systems: seq<System>, h: string)
    ensures forall c :: c in ConnectionsAsWritten(systems, h) ==> c.to in RelatedIds(systems, h)
  {
    if LookupLast(systems, h).Some? {
      var hovered := LookupLast(systems, h).value;
      var conns, keys := ConnectionsAsWritten(systems, h), RelatedKeys(systems, h, hovered);
      SubseqElements(Targets(conns), keys);
      forall c | c in conns ensures c.to in RelatedIds(systems, h) {
        RelatedKeyIsRelatedId(systems, h, hovered, c.to);
        TargetIn(conns, c);
      }
    }
  }

  lemma TargetIn(conns: seq<Connection>, c: Connection)
    requires c in conns
    ensures c.to in Targets(conns)
  {
    var i :| 0 <= i < |conns| && conns[i] == c;
    assert Targets(conns)[i] == c.to;
  }

  lemma RelatedKeyIsRelatedId(systems: seq<System>, h: string, hovered: System, k: string)
    requires LookupLast(systems, h) == Some(hovered)
    requires k in RelatedKeys(systems, h, hovered)
    ensures k in RelatedIds(systems, h)
  {
    var s :| s in systems && s.fidesKey == k && Related(hovered, s);
  }

  /** When the system keys are distinct, being highlighted is symmetric. */
  lemma RelatedIdsSymmetric(systems: seq<System>, a: string, b: string)
    requires forall i, j :: 0 <= i < j < |systems| ==> systems[i].fidesKey != systems[j].fidesKey
    requires b in RelatedIds(systems, a)
    requires exists s :: s in systems && s.fidesKey == b
    ensures a in RelatedIds(systems, b)
  {
    if a != b {
      var x := LookupLast(systems, a).value;
      var s :| s in systems && s.fidesKey == b && Related(x, s);
      var y := LookupLast(systems, b).value;
      assert s == y by {
        var i :| 0 <= i < |systems| && systems[i] == s;
        var j :| 0 <= j < |systems| && systems[j] == y;
        assert i == j;
      }
      assert x in systems && x.fidesKey == a && Related(y, x);
    }
  }
}
