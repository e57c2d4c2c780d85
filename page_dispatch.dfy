/**
 * `initializePageSpecific`: the final path segment, taken without a
 * default, picks at most one page feature by exact filename.
 */
module PageDispatch {
  import Strings
  import Navigation

  datatype Feature = SkillsAnimation | ProjectFiltering | ContactFormHandling | NoFeature

  /** The filename that enables each feature. */
  function FileOf(f: Feature): string
    requires f != NoFeature
  {
    match f
    case SkillsAnimation => "about.html"
    case ProjectFiltering => "projects.html"
    case ContactFormHandling => "contact.html"
  }

  /** The `switch` on `location.pathname.split('/').pop()`. */
  function Dispatch(path: string): (f: Feature)
    ensures f != NoFeature ==> Strings.LastSegment(path) == FileOf(f)
  {
    match Strings.LastSegment(path)
    case "about.html" => SkillsAnimation
    case "projects.html" => ProjectFiltering
    case "contact.html" => ContactFormHandling
    case _ => NoFeature
  }

  /** One feature is enabled exactly when the path ends with its filename as a whole segment. */
  lemma DispatchIs(path: string, f: Feature)
    requires f != NoFeature
    ensures Dispatch(path) == f <==> Strings.EndsWithSegment(path, FileOf(f))
  {
    Strings.LastSegmentIs(path, FileOf(f));
  }

  /**
   * A feature is enabled exactly when the path ends with its filename as a
   * whole segment; no feature is enabled when the path ends with none of
   * the three.
   */
  lemma DispatchByFilename(path: string, f: Feature)
    ensures f != NoFeature ==> (Dispatch(path) == f <==> Strings.EndsWithSegment(path, FileOf(f)))
    ensures Dispatch(path) == NoFeature <==>
      !Strings.EndsWithSegment(path, "about.html") &&
      !Strings.EndsWithSegment(path, "projects.html") &&
      !Strings.EndsWithSegment(path, "contact.html")
  {
    if f != NoFeature {
      DispatchIs(path, f);
    }
    DispatchIs(path, SkillsAnimation);
    DispatchIs(path, ProjectFiltering);
    DispatchIs(path, ContactFormHandling);
  }

  /**
   * Unlike `updateActiveNav`, the dispatcher has no default: a path ending
   * in `/` enables nothing even though the navigation treats it as the
   * index page, and whenever a feature is enabled both agree on the page.
   */
  lemma DispatchHasNoIndexDefault(path: string)
    ensures |path| > 0 && path[|path| - 1] == '/' ==>
      Dispatch(path) == NoFeature && Navigation.CurrentPage(path) == Navigation.IndexPage
    ensures Dispatch(path) != NoFeature ==> Navigation.CurrentPage(path) == Strings.LastSegment(path)
  {
    var seg := Strings.LastSegment(path);
    if seg == "" {
      assert Dispatch(path) == NoFeature;
    }
  }
}
