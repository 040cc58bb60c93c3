/** The footer-display-fix feature: adds a custom class to the worklog
    footer and one to the worklog table, and removes them again. */
module FooterDisplayFix {
  import opened HtmlHelper

  const FeatureId: string := "footer-display-fix"
  const CustomFooterClass: string := "tes-fdf-worklog-footer"
  const CustomTableClass: string := "tes-fdf-table"

  /** The class lists of the two elements and the `initialized` flag. */
  datatype DisplayState = DisplayState(footerClasses: set<string>, tableClasses: set<string>, initialized: bool)

  /** Whether the code after the `await` of a lookup runs: a resolved or a
      caught failed lookup continues, one that never resolves does not. */
  predicate Continues<T>(l: Lookup<T>) {
    !l.NeverFound?
  }

  /** Adds or removes `c` when the lookup found the element. */
  function UpdateClasses(classes: set<string>, l: Lookup<()>, c: string, add: bool): (r: set<string>)
    ensures !l.Found? ==> r == classes
    ensures l.Found? && add ==> r == classes + {c}
    ensures l.Found? && !add ==> r == classes - {c}
  {
    if !l.Found? then classes else if add then classes + {c} else classes - {c}
  }

  /** `initialize`: the footer class on a found footer, then the table class
      on a found table, then the flag; a lookup that never resolves stops the
      steps after it. */
  function Initialize(s: DisplayState, footer: Lookup<()>, table: Lookup<()>): (s': DisplayState)
    ensures s'.footerClasses == UpdateClasses(s.footerClasses, footer, CustomFooterClass, true)
    ensures s'.tableClasses == if Continues(footer) then UpdateClasses(s.tableClasses, table, CustomTableClass, true)
                               else s.tableClasses
    ensures s'.initialized == if Continues(footer) && Continues(table) then true else s.initialized
  {
    var s1 := s.(footerClasses := UpdateClasses(s.footerClasses, footer, CustomFooterClass, true));
    if !Continues(footer) then s1
    else
      var s2 := s1.(tableClasses := UpdateClasses(s1.tableClasses, table, CustomTableClass, true));
      if !Continues(table) then s2 else s2.(initialized := true)
  }

  /** `deregister`: the same steps, removing the classes and clearing the flag. */
  function Deregister(s: DisplayState, footer: Lookup<()>, table: Lookup<()>): (s': DisplayState)
    ensures s'.footerClasses == UpdateClasses(s.footerClasses, footer, CustomFooterClass, false)
    ensures s'.tableClasses == if Continues(footer) then UpdateClasses(s.tableClasses, table, CustomTableClass, false)
                               else s.tableClasses
    ensures s'.initialized == if Continues(footer) && Continues(table) then false else s.initialized
  {
    var s1 := s.(footerClasses := UpdateClasses(s.footerClasses, footer, CustomFooterClass, false));
    if !Continues(footer) then s1
    else
      var s2 := s1.(tableClasses := UpdateClasses(s1.tableClasses, table, CustomTableClass, false));
      if !Continues(table) then s2 else s2.(initialized := false)
  }

  /** Initializing twice gives the class lists initializing once gives. */
  lemma InitializeIdempotent(s: DisplayState, footer: Lookup<()>, table: Lookup<()>)
    ensures Initialize(Initialize(s, footer, table), footer, table) == Initialize(s, footer, table)
  {
  }

  /** No class other than the two custom ones is added or removed. */
  lemma OnlyCustomClassesChange(s: DisplayState, footer: Lookup<()>, table: Lookup<()>, c: string)
    requires c != CustomFooterClass && c != CustomTableClass
    ensures (c in Initialize(s, footer, table).footerClasses <==> c in s.footerClasses)
    ensures (c in Initialize(s, footer, table).tableClasses <==> c in s.tableClasses)
    ensures (c in Deregister(s, footer, table).footerClasses <==> c in s.footerClasses)
    ensures (c in Deregister(s, footer, table).tableClasses <==> c in s.tableClasses)
  {
  }

  /** With both elements found, deregistering after initializing leaves
      both lists without the custom class, even one the page had itself. */
  lemma DeregisterAfterInitialize(s: DisplayState)
    ensures var s' := Deregister(Initialize(s, Found(()), Found(())), Found(()), Found(()));
            s'.footerClasses == s.footerClasses - {CustomFooterClass}
            && s'.tableClasses == s.tableClasses - {CustomTableClass}
            && !s'.initialized
  {
  }
}
