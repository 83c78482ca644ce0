/**
 * The scenarios of src/components/CategoryConnectors.test.tsx, and the
 * input on which the joined-string pair key of `getConnectionsForHovered`
 * as written drops a connection and makes highlighting one-sided.
 */
module ConnectorExamples {
  import opened Types
  import opened Seqs
  import opened Strings
  import opened DataMap
  import opened CategoryConnectors

  /** A category path under `user.derived.identifiable`. */
  function Identifiable(leaf: string): string
  {
    "user.derived.identifiable." + leaf
  }

  /**
   * The system the tests' `createSystem(key, [leaves])` builds: one
   * advertising declaration over the given leaf categories.
   */
  function Card(key: string, leaves: seq<string>): System
  {
    var paths := seq(|leaves|, i requires 0 <= i < |leaves| => Identifiable(leaves[i]));
    System("", key, key, [PrivacyDeclaration(paths, ["customer"], "advertising", "Decl 0")], [], "Application")
  }

  lemma IdentifiableLeaf(leaf: string)
    requires '.' !in leaf
    ensures ExtractShortCategory(Identifiable(leaf)) == leaf
  {
    assert Identifiable(leaf) == "user.derived.identifiable" + "." + leaf;
    ExtractShortCategoryOfPath("user.derived.identifiable", leaf);
  }

  /** The short categories of one declaration. */
  lemma SingleDeclaration(d: PrivacyDeclaration)
    ensures DeclaredCategories([d]) == set p | p in d.dataCategories :: ExtractShortCategory(p)
  {
  }

  /** Paths whose short names are the leaves, position by position, have the leaves as short names. */
  lemma ShortNames(paths: seq<string>, leaves: seq<string>)
    requires |paths| == |leaves|
    requires forall i :: 0 <= i < |paths| ==> ExtractShortCategory(paths[i]) == leaves[i]
    ensures (set p | p in paths :: ExtractShortCategory(p)) == set c | c in leaves
  {
    forall c | c in (set p | p in paths :: ExtractShortCategory(p)) ensures c in leaves {
      var p :| p in paths && c == ExtractShortCategory(p);
      var i :| 0 <= i < |paths| && paths[i] == p;
      assert leaves[i] == c;
    }
    forall c | c in leaves ensures c in (set p | p in paths :: ExtractShortCategory(p)) {
      var i :| 0 <= i < |leaves| && leaves[i] == c;
      assert paths[i] in paths;
    }
  }

  /** The short categories of a test card are its leaves. */
  lemma CardCategories(key: string, leaves: seq<string>)
    requires forall i :: 0 <= i < |leaves| ==> '.' !in leaves[i]
    ensures CategorySet(Card(key, leaves)) == set c | c in leaves
  {
    var d := Card(key, leaves).privacyDeclarations[0];
    forall i | 0 <= i < |leaves| ensures ExtractShortCategory(d.dataCategories[i]) == leaves[i] {
      IdentifiableLeaf(leaves[i]);
    }
    SingleDeclaration(d);
    ShortNames(d.dataCategories, leaves);
  }

  /** Two test cards with a leaf in common are related. */
  lemma CardsRelated(k1: string, l1: seq<string>, k2: string, l2: seq<string>, c: string)
    requires forall i :: 0 <= i < |l1| ==> '.' !in l1[i]
    requires forall i :: 0 <= i < |l2| ==> '.' !in l2[i]
    requires c in l1 && c in l2
    ensures Related(Card(k1, l1), Card(k2, l2))
  {
    CardCategories(k1, l1);
    CardCategories(k2, l2);
    assert c in CategorySet(Card(k1, l1)) * CategorySet(Card(k2, l2));
  }

  /** Two test cards without a leaf in common are not related. */
  lemma CardsUnrelated(k1: string, l1: seq<string>, k2: string, l2: seq<string>)
    requires forall i :: 0 <= i < |l1| ==> '.' !in l1[i]
    requires forall i :: 0 <= i < |l2| ==> '.' !in l2[i]
    requires forall c :: c in l1 ==> c !in l2
    ensures !Related(Card(k1, l1), Card(k2, l2))
  {
    CardCategories(k1, l1);
    CardCategories(k2, l2);
  }

  /** Only the first system is named `key`, so looking it up finds that one. */
  lemma LookupFirst(systems: seq<System>, key: string)
    requires |systems| > 0 && systems[0].fidesKey == key
    requires forall i :: 0 < i < |systems| ==> systems[i].fidesKey != key
    ensures LookupLast(systems, key) == Some(systems[0])
  {
  }

  /** A card whose categories no other card shares highlights only itself (first and third test). */
  lemma NoSharedCategory()
    ensures RelatedIds([Card("a", ["location"]), Card("b", ["email"])], "a") == {"a"}
  {
    var systems := [Card("a", ["location"]), Card("b", ["email"])];
    LookupFirst(systems, "a");
    CardsUnrelated("a", ["location"], "b", ["email"]);
    assert (set s | s in systems && s.fidesKey != "a" && Related(systems[0], s) :: s.fidesKey) == {};
  }

  /** Three systems with distinct keys, where the first is related to the second only. */
  lemma RelatedIdsOfThree(x: System, y: System, z: System)
    requires x.fidesKey != y.fidesKey && x.fidesKey != z.fidesKey
    requires Related(x, y) && !Related(x, z)
    ensures RelatedIds([x, y, z], x.fidesKey) == {x.fidesKey, y.fidesKey}
  {
    var systems := [x, y, z];
    LookupFirst(systems, x.fidesKey);
    assert y in systems;
  }

  /** A card sharing `location` is highlighted, one with only `cookie_id` is not (second test). */
  lemma SharedCategory()
    ensures RelatedIds([Card("a", ["location", "email"]), Card("b", ["location"]), Card("c", ["cookie_id"])], "a")
         == {"a", "b"}
  {
    CardsRelated("a", ["location", "email"], "b", ["location"], "location");
    CardsUnrelated("a", ["location", "email"], "c", ["cookie_id"]);
    RelatedIdsOfThree(Card("a", ["location", "email"]), Card("b", ["location"]), Card("c", ["cookie_id"]));
  }

  /** An id no system has highlights only itself (fourth test). */
  lemma UnknownHoveredId()
    ensures RelatedIds([Card("a", ["location"])], "nonexistent") == {"nonexistent"}
  {
    assert LookupLast([Card("a", ["location"])], "nonexistent") == None;
  }

  /** The three systems on which the joined key collides: all share `email`. */
  function DashedKeys(): seq<System>
  {
    [Card("--a--", ["email"]), Card("--a", ["email"]), Card("a--", ["email"])]
  }

  /**
   * Three systems with distinct keys, the first related to both others, and a
   * joined key that gives both pairs the same value: `getConnectionsForHovered`
   * as written connects the first to the second only.
   */
  lemma AsWrittenOfThree(x: System, y: System, z: System)
    requires x.fidesKey != y.fidesKey && x.fidesKey != z.fidesKey
    requires Related(x, y) && Related(x, z)
    requires JoinedPairKey(x.fidesKey, y.fidesKey) == JoinedPairKey(x.fidesKey, z.fidesKey)
    ensures Targets(ConnectionsAsWritten([x, y, z], x.fidesKey)) == [y.fidesKey]
  {
    var systems, h := [x, y, z], x.fidesKey;
    LookupFirst(systems, h);
    assert systems[..2] == [x, y] && [x, y][..1] == [x] && [x][..0] == [];
    assert Scan([x], h, x, JoinedPairKey) == ([], {});
    var xy := [x, y];
    assert xy[..|xy| - 1] == [x] && xy[|xy| - 1] == y;
    var prev := Scan([x], h, x, JoinedPairKey);
    assert Scan(xy, h, x, JoinedPairKey) == (prev.0 + [Connection(h, y.fidesKey)], prev.1 + {JoinedPairKey(h, y.fidesKey)});
  }

  lemma RelatedKeysOfThree(x: System, y: System, z: System)
    requires x.fidesKey != y.fidesKey && x.fidesKey != z.fidesKey
    requires Related(x, y) && Related(x, z)
    ensures RelatedKeys([x, y, z], x.fidesKey, x) == [y.fidesKey, z.fidesKey]
  {
    var h := [x, y, z][0].fidesKey;
    assert [x, y, z][..2] == [x, y] && [x, y][..1] == [x] && [x][..0] == [];
    assert RelatedKeys([x], h, x) == [];
    assert RelatedKeys([x, y], h, x) == [y.fidesKey];
  }

  /** The same three systems: the unordered-pair key connects the first to both others. */
  lemma CorrectedOfThree(x: System, y: System, z: System)
    requires x.fidesKey != y.fidesKey && x.fidesKey != z.fidesKey && y.fidesKey != z.fidesKey
    requires Related(x, y) && Related(x, z)
    ensures Targets(Connections([x, y, z], x.fidesKey)) == [y.fidesKey, z.fidesKey]
  {
    LookupFirst([x, y, z], x.fidesKey);
    ConnectionsTargets([x, y, z], x.fidesKey);
    RelatedKeysOfThree(x, y, z);
    DistinctPair(y.fidesKey, z.fidesKey);
  }

  /** The sorted ids `--a`, `--a--` and `--a--`, `a--` join to the same string. */
  lemma DashedKeysCollide()
    ensures JoinedPairKey("--a--", "--a") == JoinedPairKey("--a--", "a--") == "--a----a--"
  {
    assert Less("--a", "--a--");
    assert !Less("a--", "--a--");
  }

  /**
   * Joining the sorted ids with `--` maps the pairs (`--a--`, `--a`) and
   * (`--a--`, `a--`) to the same key `--a----a--`, so `getConnectionsForHovered`
   * as written draws no connection to `a--` although it shares a category with the
   * hovered card; the unordered-pair key connects both.
   */
  lemma JoinedPairKeyCollision()
    ensures Targets(ConnectionsAsWritten(DashedKeys(), "--a--")) == ["--a"]
    ensures Targets(Connections(DashedKeys(), "--a--")) == ["--a", "a--"]
  {
    var x, y, z := Card("--a--", ["email"]), Card("--a", ["email"]), Card("a--", ["email"]);
    DashedKeysCollide();
    CardsRelated("--a--", ["email"], "--a", ["email"], "email");
    CardsRelated("--a--", ["email"], "a--", ["email"], "email");
    AsWrittenOfThree(x, y, z);
    CorrectedOfThree(x, y, z);
  }

  /** Hovering the last of three systems connects it, with the joined key, to the first when the two are related. */
  lemma FirstPartnerConnected(x: System, y: System, z: System)
    requires x.fidesKey != z.fidesKey && y.fidesKey != z.fidesKey
    requires Related(z, x)
    ensures x.fidesKey in Targets(ConnectionsAsWritten([x, y, z], z.fidesKey))
  {
    var systems, h := [x, y, z], z.fidesKey;
    assert systems[..2] == [x, y] && [x, y][..1] == [x] && [x][..0] == [];
    assert LookupLast(systems, h) == Some(z);
    assert Scan([], h, z, JoinedPairKey) == ([], {});
    var first := Scan([x], h, z, JoinedPairKey);
    assert first.0 == [Connection(h, x.fidesKey)];
    var xy := [x, y];
    assert xy[..|xy| - 1] == [x] && xy[|xy| - 1] == y;
    assert Scan(xy, h, z, JoinedPairKey).0[0] == Connection(h, x.fidesKey);
    assert Scan(systems, h, z, JoinedPairKey) == Scan(xy, h, z, JoinedPairKey);
    assert Targets(ConnectionsAsWritten(systems, h))[0] == x.fidesKey;
  }

  /** The ids highlighted as written are the hovered id and the targets of the joined-key connections. */
  lemma AsWrittenIdsOfTargets(systems: seq<System>, h: string)
    ensures RelatedIdsAsWritten(systems, h) == {h} + set k | k in Targets(ConnectionsAsWritten(systems, h))
  {
    TargetSet(ConnectionsAsWritten(systems, h));
  }

  /** The ids highlighted with the unordered-pair key are the hovered id and its connection targets. */
  lemma RelatedIdsOfTargets(systems: seq<System>, h: string)
    ensures RelatedIds(systems, h) == {h} + set k | k in Targets(Connections(systems, h))
  {
    TargetSet(Connections(systems, h));
    RelatedIdsOfConnections(systems, h);
  }

  /** The three systems of `AsWrittenOfThree`: as written only the second is highlighted. */
  lemma AsWrittenHighlightsOfThree(x: System, y: System, z: System)
    requires x.fidesKey != y.fidesKey && x.fidesKey != z.fidesKey
    requires Related(x, y) && Related(x, z)
    requires JoinedPairKey(x.fidesKey, y.fidesKey) == JoinedPairKey(x.fidesKey, z.fidesKey)
    ensures RelatedIdsAsWritten([x, y, z], x.fidesKey) == {x.fidesKey, y.fidesKey}
  {
    AsWrittenOfThree(x, y, z);
    AsWrittenIdsOfTargets([x, y, z], x.fidesKey);
  }

  /** The same three systems: with the unordered-pair key both others are highlighted. */
  lemma CorrectedHighlightsOfThree(x: System, y: System, z: System)
    requires x.fidesKey != y.fidesKey && x.fidesKey != z.fidesKey && y.fidesKey != z.fidesKey
    requires Related(x, y) && Related(x, z)
    ensures RelatedIds([x, y, z], x.fidesKey) == {x.fidesKey, y.fidesKey, z.fidesKey}
  {
    CorrectedOfThree(x, y, z);
    RelatedIdsOfTargets([x, y, z], x.fidesKey);
  }

  /** Hovering the last of three systems highlights the first, as written, when the two are related. */
  lemma FirstPartnerHighlighted(x: System, y: System, z: System)
    requires x.fidesKey != z.fidesKey && y.fidesKey != z.fidesKey
    requires Related(z, x)
    ensures x.fidesKey in RelatedIdsAsWritten([x, y, z], z.fidesKey)
  {
    FirstPartnerConnected(x, y, z);
    AsWrittenIdsOfTargets([x, y, z], z.fidesKey);
  }

  /** The three systems of `AsWrittenOfThree`: hovering the third highlights the first, which does not highlight the third. */
  lemma OneSidedOfThree(x: System, y: System, z: System)
    requires x.fidesKey != y.fidesKey && x.fidesKey != z.fidesKey && y.fidesKey != z.fidesKey
    requires Related(x, y) && Related(x, z)
    requires JoinedPairKey(x.fidesKey, y.fidesKey) == JoinedPairKey(x.fidesKey, z.fidesKey)
    ensures x.fidesKey in RelatedIdsAsWritten([x, y, z], z.fidesKey)
    ensures z.fidesKey !in RelatedIdsAsWritten([x, y, z], x.fidesKey)
  {
    AsWrittenHighlightsOfThree(x, y, z);
    assert CategorySet(z) * CategorySet(x) == CategorySet(x) * CategorySet(z);
    FirstPartnerHighlighted(x, y, z);
  }

  /**
   * Hovering `--a--`: `getRelatedCardIds` as written highlights `--a--` and
   * `--a` only, while the unordered-pair key also highlights `a--`.
   */
  lemma JoinedPairKeyHighlights()
    ensures RelatedIdsAsWritten(DashedKeys(), "--a--") == {"--a--", "--a"}
    ensures RelatedIds(DashedKeys(), "--a--") == {"--a--", "--a", "a--"}
  {
    var x, y, z := Card("--a--", ["email"]), Card("--a", ["email"]), Card("a--", ["email"]);
    DashedKeysCollide();
    CardsRelated("--a--", ["email"], "--a", ["email"], "email");
    CardsRelated("--a--", ["email"], "a--", ["email"], "email");
    AsWrittenHighlightsOfThree(x, y, z);
    CorrectedHighlightsOfThree(x, y, z);
  }

  /**
   * With the joined-string key highlighting is one-sided: hovering `a--`
   * highlights `--a--`, but hovering `--a--` does not highlight `a--`.
   */
  lemma JoinedPairKeyNotSymmetric()
    ensures "--a--" in RelatedIdsAsWritten(DashedKeys(), "a--")
    ensures "a--" !in RelatedIdsAsWritten(DashedKeys(), "--a--")
  {
    var x, y, z := Card("--a--", ["email"]), Card("--a", ["email"]), Card("a--", ["email"]);
    DashedKeysCollide();
    CardsRelated("--a--", ["email"], "--a", ["email"], "email");
    CardsRelated("--a--", ["email"], "a--", ["email"], "email");
    OneSidedOfThree(x, y, z);
  }
}
