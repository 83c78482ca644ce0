/**
 * The data-map utilities of src/utils/dataMap.ts: category normalisation,
 * deduplication of the loaded records, the option lists of the filters and
 * the filters themselves. Grouping, from the same file, is module Grouping.
 */
module DataMap {
  import opened Types
  import opened Seqs
  import opened Strings

  // ---------------------------------------------------------------------
  // Category normaliser

  /**
   * `extractShortCategory`: the last segment of a dotted category path.
   * The result is the dot-free suffix of the path that starts right after
   * its last dot; a path without a dot (the empty one too) is its own result.
   */
  function ExtractShortCategory(fullPath: string): (r: string)
    ensures '.' !in r
    ensures |r| <= |fullPath| && fullPath[|fullPath| - |r|..] == r
    ensures |r| < |fullPath| ==> fullPath[|fullPath| - |r| - 1] == '.'
    ensures '.' !in fullPath ==> r == fullPath
  {
    SplitLast(fullPath, '.');
    // `parts[parts.length - 1] ?? fullPath`: a split always has a last part
    LastPart(fullPath, '.')
  }

  /** Normalising a normalised category changes nothing. */
  lemma ExtractShortCategoryIdempotent(fullPath: string)
    ensures ExtractShortCategory(ExtractShortCategory(fullPath)) == ExtractShortCategory(fullPath)
  {
  }

  /** The leaf of `parent.leaf` is `leaf`, whatever the parent path. */
  lemma ExtractShortCategoryOfPath(parent: string, leaf: string)
    requires '.' !in leaf
    ensures ExtractShortCategory(parent + "." + leaf) == leaf
  {
    var p := parent + "." + leaf;
    var r := ExtractShortCategory(p);
    assert forall k :: |p| - |r| <= k < |p| ==> p[k] == r[k - (|p| - |r|)];
    assert forall k :: |p| - |leaf| <= k < |p| ==> p[k] == leaf[k - (|p| - |leaf|)];
    // the result holds no dot, so it cannot reach back over the dot before `leaf`
    assert p[|p| - |leaf| - 1] == '.';
    assert |r| <= |leaf|;
    // the result starts after a dot, and `leaf` holds none
    assert |r| >= |leaf|;
    assert p[|p| - |leaf|..] == leaf;
  }

  lemma ExtractShortCategoryExamples()
    ensures ExtractShortCategory("user.derived.identifiable.location") == "location"
    ensures ExtractShortCategory("email") == "email"
    ensures ExtractShortCategory("") == ""
  {
    ExtractShortCategoryOfPath("user.derived.identifiable", "location");
    assert "user.derived.identifiable" + "." + "location" == "user.derived.identifiable.location";
    assert '.' !in "email";
  }

  // ---------------------------------------------------------------------
  // Record loader / deduplicator

  /**
   * `parseAndDedupeSampleData` on the loaded records `data`: keeps each
   * record whose `fides_key` has not been seen yet, in input order.
   */
  method ParseAndDedupe(data: seq<System>) returns (r: seq<System>)
    ensures r == KeepFirst(data, KeyOf)
    ensures Subseq(r, data)
    ensures forall i, j :: 0 <= i < j < |r| ==> r[i].fidesKey != r[j].fidesKey
    ensures KeysOf(r, KeyOf) == KeysOf(data, KeyOf)
    ensures forall x :: x in r ==> FirstWith(data, KeyOf, x.fidesKey) == Some(x)
  {
    var seen: set<string> := {};
    r := [];
    for i := 0 to |data|
      invariant r == KeepFirst(data[..i], KeyOf)
      invariant seen == KeysOf(data[..i], KeyOf)
    {
      var system := data[i];
      assert data[..i + 1][..i] == data[..i];
      KeysOfSnoc(data[..i], KeyOf, system);
      if system.fidesKey !in seen {
        seen := seen + {system.fidesKey};
        r := r + [system];
      }
    }
    assert data[..|data|] == data;
  }

  // ---------------------------------------------------------------------
  // Aggregation queries

  /** The short categories of a list of declarations. */
  function DeclaredCategories(decls: seq<PrivacyDeclaration>): set<string>
  {
    set d, c | d in decls && c in d.dataCategories :: ExtractShortCategory(c)
  }

  /** The short categories a system declares, over all its declarations. */
  function CategorySet(system: System): set<string>
  {
    DeclaredCategories(system.privacyDeclarations)
  }

  /** Every data use declared by any of the systems. */
  function AllDataUses(systems: seq<System>): set<string>
  {
    set s, d | s in systems && d in s.privacyDeclarations :: d.dataUse
  }

  /** Every short category of any of the systems. */
  function AllCategories(systems: seq<System>): set<string>
  {
    set s, c | s in systems && c in CategorySet(s) :: c
  }

  lemma DeclaredCategoriesSnoc(decls: seq<PrivacyDeclaration>, d: PrivacyDeclaration)
    ensures forall c :: c in DeclaredCategories(decls + [d]) <==>
      c in DeclaredCategories(decls) ||
      exists k :: 0 <= k < |d.dataCategories| && c == ExtractShortCategory(d.dataCategories[k])
  {
    forall c | c in DeclaredCategories(decls + [d])
      ensures c in DeclaredCategories(decls) ||
        exists k :: 0 <= k < |d.dataCategories| && c == ExtractShortCategory(d.dataCategories[k])
    {
      var d', c' :| d' in decls + [d] && c' in d'.dataCategories && c == ExtractShortCategory(c');
      if d' != d { assert d' in decls; }
    }
  }

  lemma AllDataUsesSnoc(systems: seq<System>, s: System)
    ensures forall u :: u in AllDataUses(systems + [s]) <==>
      u in AllDataUses(systems) ||
      exists k :: 0 <= k < |s.privacyDeclarations| && u == s.privacyDeclarations[k].dataUse
  {
    forall u | u in AllDataUses(systems + [s])
      ensures u in AllDataUses(systems) ||
        exists k :: 0 <= k < |s.privacyDeclarations| && u == s.privacyDeclarations[k].dataUse
    {
      var s', d :| s' in systems + [s] && d in s'.privacyDeclarations && u == d.dataUse;
      if s' != s { assert s' in systems; }
    }
  }

  lemma AllCategoriesSnoc(systems: seq<System>, s: System)
    ensures AllCategories(systems + [s]) == AllCategories(systems) + CategorySet(s)
  {
    forall c | c in AllCategories(systems + [s])
      ensures c in AllCategories(systems) + CategorySet(s)
    {
      var s' :| s' in systems + [s] && c in CategorySet(s');
      if s' != s { assert s' in systems; }
    }
  }

  /**
   * `getUniqueDataCategories`: the short categories of a system, without
   * duplicates, in ascending order.
   */
  method GetUniqueDataCategories(system: System) returns (r: seq<string>)
    ensures StrictlySorted(r)
    ensures forall c :: c in r <==> c in CategorySet(system)
    ensures system.privacyDeclarations == [] ==> r == []
  {
    var categories: seq<string> := [];
    var decls := system.privacyDeclarations;
    for i := 0 to |decls|
      invariant NoDup(categories)
      invariant forall c :: c in categories <==> c in DeclaredCategories(decls[..i])
    {
      var cats := decls[i].dataCategories;
      for j := 0 to |cats|
        invariant NoDup(categories)
        invariant forall c :: c in categories <==>
          (c in DeclaredCategories(decls[..i]) || exists k :: 0 <= k < j && c == ExtractShortCategory(cats[k]))
      {
        categories := SetAdd(categories, ExtractShortCategory(cats[j]));
      }
      assert decls[..i + 1] == decls[..i] + [decls[i]];
      DeclaredCategoriesSnoc(decls[..i], decls[i]);
    }
    assert decls[..|decls|] == decls;
    r := Sort(categories);
    if r != [] {
      assert r[0] in CategorySet(system);
    }
  }

  /**
   * `getUniqueDataUses`: every data use of the systems, without duplicates,
   * in ascending order.
   */
  method GetUniqueDataUses(systems: seq<System>) returns (r: seq<string>)
    ensures StrictlySorted(r)
    ensures forall u :: u in r <==> u in AllDataUses(systems)
  {
    var uses: seq<string> := [];
    for i := 0 to |systems|
      invariant NoDup(uses)
      invariant forall u :: u in uses <==> u in AllDataUses(systems[..i])
    {
      var decls := systems[i].privacyDeclarations;
      for j := 0 to |decls|
        invariant NoDup(uses)
        invariant forall u :: u in uses <==>
          (u in AllDataUses(systems[..i]) || exists k :: 0 <= k < j && u == decls[k].dataUse)
      {
        uses := SetAdd(uses, decls[j].dataUse);
      }
      assert systems[..i + 1] == systems[..i] + [systems[i]];
      AllDataUsesSnoc(systems[..i], systems[i]);
    }
    assert systems[..|systems|] == systems;
    r := Sort(uses);
  }

  /**
   * `getUniqueDataCategoriesList`: every short category of the systems,
   * without duplicates, in ascending order.
   */
  method GetUniqueDataCategoriesList(systems: seq<System>) returns (r: seq<string>)
    ensures StrictlySorted(r)
    ensures forall c :: c in r <==> c in AllCategories(systems)
  {
    var categories: seq<string> := [];
    for i := 0 to |systems|
      invariant NoDup(categories)
      invariant forall c :: c in categories <==> c in AllCategories(systems[..i])
    {
      var cats := GetUniqueDataCategories(systems[i]);
      for j := 0 to |cats|
        invariant NoDup(categories)
        invariant forall c :: c in categories <==> c in AllCategories(systems[..i]) || c in cats[..j]
      {
        assert cats[..j + 1] == cats[..j] + [cats[j]];
        categories := SetAdd(categories, cats[j]);
      }
      assert cats[..|cats|] == cats;
      assert systems[..i + 1] == systems[..i] + [systems[i]];
      AllCategoriesSnoc(systems[..i], systems[i]);
    }
    assert systems[..|systems|] == systems;
    r := Sort(categories);
  }

  // ---------------------------------------------------------------------
  // Filter engine

  /** Some declaration of the system has one of the selected data uses. */
  predicate HasSelectedUse(system: System, selectedUses: seq<string>)
  {
    exists d :: d in system.privacyDeclarations && d.dataUse in selectedUses
  }

  /** One of the selected categories is among the system's short categories. */
  predicate HasSelectedCategory(system: System, selectedCategories: seq<string>)
  {
    exists c :: c in selectedCategories && c in CategorySet(system)
  }

  /**
   * `filterByDataUse`: no selection keeps every system; otherwise the
   * systems with a selected data use, in input order.
   */
  function FilterByDataUse(systems: seq<System>, selectedUses: seq<string>): (r: seq<System>)
    ensures |selectedUses| == 0 ==> r == systems
    ensures Subseq(r, systems)
    ensures |selectedUses| > 0 ==>
      forall x :: multiset(r)[x] == if HasSelectedUse(x, selectedUses) then multiset(systems)[x] else 0
  {
    if |selectedUses| == 0 then
      SubseqRefl(systems);
      systems
    else
      Filter(systems, x => HasSelectedUse(x, selectedUses))
  }

  /**
   * `filterByDataCategories`: no selection keeps every system; otherwise
   * the systems whose short categories meet the selection, in input order.
   */
  function FilterByDataCategories(systems: seq<System>, selectedCategories: seq<string>): (r: seq<System>)
    ensures |selectedCategories| == 0 ==> r == systems
    ensures Subseq(r, systems)
    ensures |selectedCategories| > 0 ==>
      forall x :: multiset(r)[x] == if HasSelectedCategory(x, selectedCategories) then multiset(systems)[x] else 0
  {
    if |selectedCategories| == 0 then
      SubseqRefl(systems);
      systems
    else
      Filter(systems, x => HasSelectedCategory(x, selectedCategories))
  }

  /** Whether `applyFilters` keeps a system. */
  predicate PassesFilters(system: System, selectedUses: seq<string>, selectedCategories: seq<string>)
  {
    (|selectedUses| == 0 || HasSelectedUse(system, selectedUses)) &&
    (|selectedCategories| == 0 || HasSelectedCategory(system, selectedCategories))
  }

  /**
   * `applyFilters`: the use filter, then the category filter. The result is
   * the subsequence of the input that passes both dimensions.
   */
  function ApplyFilters(systems: seq<System>, selectedUses: seq<string>, selectedCategories: seq<string>): (r: seq<System>)
    ensures r == FilterByDataCategories(FilterByDataUse(systems, selectedUses), selectedCategories)
    ensures Subseq(r, systems)
    ensures |selectedUses| == 0 && |selectedCategories| == 0 ==> r == systems
    ensures forall x ::
      multiset(r)[x] == if PassesFilters(x, selectedUses, selectedCategories) then multiset(systems)[x] else 0
  {
    var byUse := if |selectedUses| > 0 then FilterByDataUse(systems, selectedUses) else systems;
    var result := if |selectedCategories| > 0 then FilterByDataCategories(byUse, selectedCategories) else byUse;
    SubseqRefl(systems);
    SubseqRefl(byUse);
    SubseqTrans(result, byUse, systems);
    result
  }

  /** The two filters commute, so the order `applyFilters` uses is immaterial. */
  lemma FiltersCommute(systems: seq<System>, selectedUses: seq<string>, selectedCategories: seq<string>)
    ensures FilterByDataCategories(FilterByDataUse(systems, selectedUses), selectedCategories)
         == FilterByDataUse(FilterByDataCategories(systems, selectedCategories), selectedUses)
  {
    if |selectedUses| > 0 && |selectedCategories| > 0 {
      FilterCommute(systems, x => HasSelectedUse(x, selectedUses), x => HasSelectedCategory(x, selectedCategories));
    }
  }

  /**
   * Adding data uses to a non-empty selection can only keep more systems.
   * (Going from no selection to some selection can drop systems, since no
   * selection keeps everything.)
   */
  lemma FilterByDataUseMonotone(systems: seq<System>, selectedUses: seq<string>, moreUses: seq<string>)
    requires |selectedUses| > 0
    requires forall u :: u in selectedUses ==> u in moreUses
    ensures Subseq(FilterByDataUse(systems, selectedUses), FilterByDataUse(systems, moreUses))
  {
    FilterWeaken(systems, x => HasSelectedUse(x, selectedUses), x => HasSelectedUse(x, moreUses));
  }

  /** Adding categories to a non-empty selection can only keep more systems. */
  lemma FilterByDataCategoriesMonotone(systems: seq<System>, selectedCategories: seq<string>, moreCategories: seq<string>)
    requires |selectedCategories| > 0
    requires forall c :: c in selectedCategories ==> c in moreCategories
    ensures Subseq(FilterByDataCategories(systems, selectedCategories), FilterByDataCategories(systems, moreCategories))
  {
    FilterWeaken(systems, x => HasSelectedCategory(x, selectedCategories), x => HasSelectedCategory(x, moreCategories));
  }

  /** Widening both selections, each either left empty or non-empty, widens `applyFilters`. */
  lemma ApplyFiltersMonotone(systems: seq<System>, uses: seq<string>, moreUses: seq<string>,
                             categories: seq<string>, moreCategories: seq<string>)
    requires |uses| == 0 ==> |moreUses| == 0
    requires |categories| == 0 ==> |moreCategories| == 0
    requires forall u :: u in uses ==> u in moreUses
    requires forall c :: c in categories ==> c in moreCategories
    ensures Subseq(ApplyFilters(systems, uses, categories), ApplyFilters(systems, moreUses, moreCategories))
  {
    var a, b := FilterByDataUse(systems, uses), FilterByDataUse(systems, moreUses);
    if |uses| > 0 {
      FilterByDataUseMonotone(systems, uses, moreUses);
    } else {
      SubseqRefl(a);
    }
    // a is a subsequence of b; filter both by the smaller category selection ...
    var a', b' := FilterByDataCategories(a, categories), FilterByDataCategories(b, categories);
    if |categories| > 0 {
      FilterSubseq(a, b, x => HasSelectedCategory(x, categories));
      FilterByDataCategoriesMonotone(b, categories, moreCategories);
      SubseqTrans(a', b', FilterByDataCategories(b, moreCategories));
    }
  }
}
