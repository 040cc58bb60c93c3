/** The footer-background-fix feature: gives the worklog footer an id the
    extension's style sheet targets, and removes the id again. */
module FooterBackgroundFix {
  import opened Wrappers
  import opened HtmlHelper

  const FeatureId: string := "footer-background-fix"
  const FooterId: string := "tes-worklog-footer"

  /** The footer's `id` attribute, `None` when it has none. */
  datatype Footer = Footer(idAttr: Option<string>)

  /** `element.id`: the attribute's value, the empty string when absent. */
  function IdOf(f: Footer): string {
    match f.idAttr
    case Some(id) => id
    case None => ""
  }

  /** `assignElementId`: nothing when the id already reads `newId`;
      otherwise the id is overwritten (the assertion only logs). */
  function AssignElementId(f: Footer, newId: string): (r: Footer)
    ensures IdOf(r) == newId
    ensures IdOf(f) == newId ==> r == f
    ensures IdOf(f) != newId ==> r.idAttr == Some(newId)
  {
    if IdOf(f) == newId then f else Footer(Some(newId))
  }

  /** A different existing id is overwritten, not kept. */
  lemma AssignOverwritesExistingId(existing: string, newId: string)
    requires existing != newId
    ensures AssignElementId(Footer(Some(existing)), newId) == Footer(Some(newId))
  {
  }

  datatype BackgroundState = BackgroundState(footer: Footer, initialized: bool)

  /** `initialize`: a found footer gets the id; the flag is set unless the
      lookup never resolves. */
  function Initialize(s: BackgroundState, footer: Lookup<()>): (s': BackgroundState)
    ensures footer.NeverFound? ==> s' == s
    ensures footer.Found? ==> s'.footer == AssignElementId(s.footer, FooterId) && IdOf(s'.footer) == FooterId
    ensures footer.Errored? ==> s'.footer == s.footer
    ensures !footer.NeverFound? ==> s'.initialized
  {
    match footer
    case NeverFound => s
    case Found(_) => BackgroundState(AssignElementId(s.footer, FooterId), true)
    case Errored => s.(initialized := true)
  }

  /** `deregister`: a found footer loses its id attribute; the flag is
      cleared unless the lookup never resolves. */
  function Deregister(s: BackgroundState, footer: Lookup<()>): (s': BackgroundState)
    ensures footer.NeverFound? ==> s' == s
    ensures footer.Found? ==> s'.footer.idAttr.None?
    ensures footer.Errored? ==> s'.footer == s.footer
    ensures !footer.NeverFound? ==> !s'.initialized
  {
    match footer
    case NeverFound => s
    case Found(_) => BackgroundState(Footer(None), false)
    case Errored => s.(initialized := false)
  }

  /** An id the footer had before is gone after initialize and deregister. */
  lemma PreviousIdNotRestored(previous: string)
    ensures Deregister(Initialize(BackgroundState(Footer(Some(previous)), false), Found(())), Found(())).footer
         == Footer(None)
  {
  }
}
