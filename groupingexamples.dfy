/**
 * The `groupSystems` scenarios of src/utils/dataMap.test.ts, stated for any
 * systems of the shape the tests build.
 */
module GroupingExamples {
  import opened Types
  import opened Seqs
  import opened Grouping

  /** The bucket keys of three systems, one per system in system-type mode. */
  lemma TypeKeysOfThree(a: System, b: System, c: System)
    ensures AllBucketKeys([a, b, c], SystemType) == [a.systemType, b.systemType, c.systemType]
  {
    assert [a, b, c][..2] == [a, b] && [a, b][..1] == [a] && [a][..0] == [];
    assert AllBucketKeys([a], SystemType) == [a.systemType];
    assert AllBucketKeys([a, b], SystemType) == [a.systemType, b.systemType];
  }

  /** The first and second of three systems pass `p`, the third does not. */
  lemma FilterFirstTwo(a: System, b: System, c: System, p: System -> bool)
    requires p(a) && p(b) && !p(c)
    ensures Filter([a, b, c], p) == [a, b]
  {
    assert [a, b, c][..2] == [a, b] && [a, b][..1] == [a] && [a][..0] == [];
    assert Filter([a], p) == [a];
    assert Filter([a, b], p) == [a, b];
  }

  /** Only the third of three systems passes `p`. */
  lemma FilterLast(a: System, b: System, c: System, p: System -> bool)
    requires !p(a) && !p(b) && p(c)
    ensures Filter([a, b, c], p) == [c]
  {
    assert [a, b, c][..2] == [a, b] && [a, b][..1] == [a] && [a][..0] == [];
  }

  lemma DistinctAab(x: string, y: string)
    requires x != y
    ensures Distinct([x, x, y]) == [x, y]
  {
    assert [x, x, y][..2] == [x, x] && [x, x][..1] == [x] && [x][..0] == [];
    assert Distinct([x]) == [x];
    assert Distinct([x, x]) == [x];
  }

  /** Two applications and one database: buckets of two and one systems. */
  lemma GroupBySystemTypeExample(a: System, b: System, c: System)
    requires a.systemType == "Application" && b.systemType == "Application"
    requires c.systemType == "Database"
    ensures Get(GroupSpec([a, b, c], SystemType), "Application") == [a, b]
    ensures Get(GroupSpec([a, b, c], SystemType), "Database") == [c]
    ensures GroupSpec([a, b, c], SystemType).keys == ["Application", "Database"]
  {
    GroupSpecProperties([a, b, c], SystemType);
    FilterFirstTwo(a, b, c, x => InBucket(x, "Application", SystemType));
    FilterLast(a, b, c, x => InBucket(x, "Database", SystemType));
    TypeKeysOfThree(a, b, c);
    DistinctAab("Application", "Database");
  }

  /** A system declaring the two uses advertising and analytics appears once in each bucket. */
  lemma GroupByDataUseExample(a: System)
    requires |a.privacyDeclarations| == 2
    requires a.privacyDeclarations[0].dataUse == "advertising"
    requires a.privacyDeclarations[1].dataUse == "analytics"
    ensures Get(GroupSpec([a], DataUse), "advertising") == [a]
    ensures Get(GroupSpec([a], DataUse), "analytics") == [a]
    ensures GroupSpec([a], DataUse).keys == ["advertising", "analytics"]
  {
    UseKeysOfOne(a);
    GroupSpecProperties([a], DataUse);
    FilterOne(a, x => InBucket(x, "advertising", DataUse));
    FilterOne(a, x => InBucket(x, "analytics", DataUse));
    DistinctPair("advertising", "analytics");
  }

  lemma FilterOne(a: System, p: System -> bool)
    requires p(a)
    ensures Filter([a], p) == [a]
  {
    assert [a][..0] == [];
  }

  lemma UseKeysOfOne(a: System)
    requires |a.privacyDeclarations| == 2
    requires a.privacyDeclarations[0].dataUse == "advertising"
    requires a.privacyDeclarations[1].dataUse == "analytics"
    ensures BucketKeys(a, DataUse) == ["advertising", "analytics"]
    ensures AllBucketKeys([a], DataUse) == ["advertising", "analytics"]
  {
    assert DeclaredUses(a.privacyDeclarations) == ["advertising", "analytics"];
    DistinctPair("advertising", "analytics");
    assert [a][..0] == [];
  }

  /** A system without declarations lands in the `(no data use)` bucket. */
  lemma GroupWithoutDataUseExample(a: System)
    requires a.privacyDeclarations == []
    ensures Get(GroupSpec([a], DataUse), NoDataUse) == [a]
    ensures GroupSpec([a], DataUse).keys == [NoDataUse]
  {
    assert DataUsesOf(a) == [];
    GroupSpecProperties([a], DataUse);
    assert [a][..0] == [];
    assert AllBucketKeys([a], DataUse) == [NoDataUse];
  }
}
