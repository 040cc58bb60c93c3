/** The features the extension can switch on and off, and the registry that
    lists them sorted by id. */
module FeatureRegistry {
  import opened Wrappers
  import opened Ordering
  import opened Text

  /** A feature as the registry and the settings logic see it: its id, and
      the value its `isEnabledByDefault` method would return, `None` when
      the feature module does not define that method. */
  datatype Feature = Feature(id: string, enabledByDefault: Option<bool>)

  const ExpandAll: Feature := Feature("expand-all", None)
  const FooterBackgroundFix: Feature := Feature("footer-background-fix", None)
  const ProjectAutoselectBugfix: Feature := Feature("project-autoselect-bugfix", None)

  /** The registered features, in the order they are listed. */
  const Registered: seq<Feature> := [ExpandAll, FooterBackgroundFix, ProjectAutoselectBugfix]

  function IdOf(f: Feature): string {
    f.id
  }

  /** `getFeatures`: the registered features sorted by id with the
      collation `leq`. */
  function GetFeatures(leq: (string, string) -> bool): (r: seq<Feature>)
    requires TotalPreorder(leq)
    ensures multiset(r) == multiset(Registered)
    ensures |r| == 3
    ensures SortedBy(r, IdOf, leq)
  {
    Sort(Registered, IdOf, leq)
  }

  /** Under any collation that puts the three ids in listed order, the
      registry order is the listed order. */
  lemma GetFeaturesInListedOrder(leq: (string, string) -> bool)
    requires TotalPreorder(leq)
    requires leq(ExpandAll.id, FooterBackgroundFix.id)
    requires leq(FooterBackgroundFix.id, ProjectAutoselectBugfix.id)
    ensures GetFeatures(leq) == Registered
  {
    assert leq(ExpandAll.id, ProjectAutoselectBugfix.id);
    assert SortedBy(Registered, IdOf, leq);
    SortOfSorted(Registered, IdOf, leq);
  }

  function CodeUnitLeq(): (string, string) -> bool {
    (a, b) => LexLeq(a, b)
  }

  lemma CodeUnitOrderIsTotalPreorder()
    ensures TotalPreorder(CodeUnitLeq())
  {
    var leq := CodeUnitLeq();
    forall a, b ensures leq(a, b) || leq(b, a) {
      LexLeqTotal(a, b);
    }
    forall a, b, c | leq(a, b) && leq(b, c) ensures leq(a, c) {
      LexLeqTransitive(a, b, c);
    }
  }

  /** In code-point order the registry is expand-all, footer-background-fix,
      project-autoselect-bugfix. */
  lemma GetFeaturesCodePointOrder()
    ensures TotalPreorder(CodeUnitLeq())
    ensures GetFeatures(CodeUnitLeq()) == Registered
  {
    CodeUnitOrderIsTotalPreorder();
    assert LexLeq(ExpandAll.id, FooterBackgroundFix.id);
    assert LexLeq(FooterBackgroundFix.id, ProjectAutoselectBugfix.id);
    GetFeaturesInListedOrder(CodeUnitLeq());
  }

  /** Registered ids are pairwise distinct. */
  lemma RegisteredIdsDistinct()
    ensures forall i, j :: 0 <= i < j < |Registered| ==> Registered[i].id != Registered[j].id
  {
    assert Registered[0].id[0] != Registered[1].id[0];
    assert Registered[0].id[0] != Registered[2].id[0];
    assert Registered[1].id[0] != Registered[2].id[0];
  }
}
