/**
 * The navigation controller of main.js (`initializeNavigation`): the mobile
 * menu toggle, the page-based active link set on load (`updateActiveNav`)
 * and the scroll spy run on every scroll event. The `.nav-link` elements
 * are an array of records; of their class list only the `active` flag is
 * kept.
 */
module Navigation {
  import opened Wrappers
  import Strings

  /** A `.nav-link` element: its `href` attribute and whether it carries `active`. */
  datatype Link = Link(href: string, active: bool)

  /** A `section[id]` element: its `id` and its `offsetTop`/`offsetHeight` in pixels. */
  datatype Section = Section(id: string, top: int, height: int)

  const IndexPage := "index.html"

  /** The distance below the top of the viewport at which the scroll spy probes. */
  const SpyOffset := 100

  /**
   * `location.pathname.split('/').pop() || 'index.html'`: the final path
   * segment, or the index page when the path is empty or ends in `/`.
   * The page name is never empty.
   */
  function CurrentPage(path: string): (page: string)
    ensures page != ""
    ensures |path| == 0 || path[|path| - 1] == '/' ==> page == IndexPage
    ensures |path| > 0 && path[|path| - 1] != '/' ==>
      Strings.Free(page, '/') && |page| <= |path| && page == path[|path| - |page|..] &&
      (|page| == |path| || path[|path| - |page| - 1] == '/')
  {
    var seg := Strings.LastSegment(path);
    if seg == "" then IndexPage else seg
  }

  /**
   * `updateActiveNav`: every link loses `active`, then gains it again when
   * its href is the current page. The second disjunct of the source's
   * test (`currentPage === '' && href === 'index.html'`) is kept as written;
   * it never fires, because the page name is never empty.
   */
  method UpdateActiveNav(links: array<Link>, path: string)
    modifies links
    ensures forall i :: 0 <= i < links.Length ==> links[i].href == old(links[i].href)
    ensures forall i :: 0 <= i < links.Length ==>
      (links[i].active <==> links[i].href == CurrentPage(path))
  {
    var currentPage := CurrentPage(path);
    assert currentPage != "";
    for i := 0 to links.Length
      invariant forall j :: 0 <= j < links.Length ==> links[j].href == old(links[j].href)
      invariant forall j :: 0 <= j < i ==> (links[j].active <==> links[j].href == currentPage)
    {
      var href := links[i].href;
      var active := false;
      if href == currentPage || (currentPage == "" && href == IndexPage) {
        active := true;
      }
      links[i] := Link(href, active);
    }
  }

  /** The section's half-open vertical interval `[top, top + height)` holds `pos`. */
  predicate Covers(s: Section, pos: int) {
    s.top <= pos < s.top + s.height
  }

  /** The id of the last section, in document order, that covers `pos`, if any. */
  function LastCovering(sections: seq<Section>, pos: int): Option<string>
    decreases |sections|
  {
    if |sections| == 0 then None
    else if Covers(sections[|sections| - 1], pos) then Some(sections[|sections| - 1].id)
    else LastCovering(sections[..|sections| - 1], pos)
  }

  /**
   * `LastCovering` finds nothing exactly when no section covers the
   * position, and otherwise names a covering section with no covering
   * section after it.
   */
  lemma {:induction false} LastCoveringSpec(sections: seq<Section>, pos: int)
    ensures LastCovering(sections, pos) == None <==>
      forall k :: 0 <= k < |sections| ==> !Covers(sections[k], pos)
    ensures LastCovering(sections, pos).Some? ==>
      exists k :: 0 <= k < |sections| && Covers(sections[k], pos) &&
        sections[k].id == LastCovering(sections, pos).value &&
        forall m :: k < m < |sections| ==> !Covers(sections[m], pos)
    decreases |sections|
  {
    if |sections| > 0 {
      var n := |sections| - 1;
      var init := sections[..n];
      if Covers(sections[n], pos) {
        assert 0 <= n < |sections| && Covers(sections[n], pos) &&
          sections[n].id == LastCovering(sections, pos).value;
      } else {
        LastCoveringSpec(init, pos);
        assert forall k :: 0 <= k < n ==> sections[k] == init[k];
        if LastCovering(init, pos).Some? {
          var k :| 0 <= k < |init| && Covers(init[k], pos) &&
            init[k].id == LastCovering(init, pos).value &&
            forall m :: k < m < |init| ==> !Covers(init[m], pos);
          assert Covers(sections[k], pos) && sections[k].id == LastCovering(sections, pos).value;
        }
      }
    }
  }

  /**
   * The scroll-spy listener: every section covering `scrollY + 100` clears
   * all links and marks those whose href is `#id`, so the last covering
   * section wins; when none covers the position the links keep whatever
   * they carried before.
   */
  method ScrollSpy(links: array<Link>, sections: seq<Section>, scrollY: int)
    modifies links
    ensures forall i :: 0 <= i < links.Length ==> links[i].href == old(links[i].href)
    ensures LastCovering(sections, scrollY + SpyOffset) == None ==> links[..] == old(links[..])
    ensures LastCovering(sections, scrollY + SpyOffset).Some? ==>
      forall i :: 0 <= i < links.Length ==>
        (links[i].active <==> links[i].href == "#" + LastCovering(sections, scrollY + SpyOffset).value)
  {
    var scrollPos := scrollY + SpyOffset;
    for k := 0 to |sections|
      invariant forall i :: 0 <= i < links.Length ==> links[i].href == old(links[i].href)
      invariant LastCovering(sections[..k], scrollPos) == None ==> links[..] == old(links[..])
      invariant LastCovering(sections[..k], scrollPos).Some? ==>
        forall i :: 0 <= i < links.Length ==>
          (links[i].active <==> links[i].href == "#" + LastCovering(sections[..k], scrollPos).value)
    {
      assert sections[..k + 1][..k] == sections[..k];
      var section := sections[k];
      if scrollPos >= section.top && scrollPos < section.top + section.height {
        var target := "#" + section.id;
        for i := 0 to links.Length
          invariant forall j :: 0 <= j < links.Length ==> links[j].href == old(links[j].href)
          invariant forall j :: 0 <= j < i ==> (links[j].active <==> links[j].href == target)
        {
          links[i] := Link(links[i].href, links[i].href == target);
        }
      }
    }
    assert sections[..|sections|] == sections;
  }

  /** The `#mobile-menu` element; of its class list only membership matters. */
  class MobileMenu {
    var classes: set<string>

    constructor (classes: set<string>)
      ensures this.classes == classes
    {
      this.classes := classes;
    }

    /** The `#mobile-menu-btn` click handler: `classList.toggle('hidden')`. */
    method Toggle()
      modifies this
      ensures classes == ToggleClass(old(classes), "hidden")
    {
      classes := ToggleClass(classes, "hidden");
    }
  }

  /** `classList.toggle(name)`: flips membership of `name`, leaving every other class alone. */
  function ToggleClass(classes: set<string>, name: string): (r: set<string>)
    ensures name in r <==> name !in classes
    ensures r - {name} == classes - {name}
  {
    if name in classes then classes - {name} else classes + {name}
  }

  /** Toggling twice restores the class list. */
  lemma ToggleTwice(classes: set<string>, name: string)
    ensures ToggleClass(ToggleClass(classes, name), name) == classes
  {
    var once := ToggleClass(classes, name);
    var twice := ToggleClass(once, name);
    assert twice - {name} == classes - {name};
    assert name in twice <==> name in classes;
  }

  /** Two clicks on the menu button leave the menu's classes as they were. */
  method ClickTwice(menu: MobileMenu)
    modifies menu
    ensures menu.classes == old(menu.classes)
  {
    menu.Toggle();
    menu.Toggle();
    ToggleTwice(old(menu.classes), "hidden");
  }
}
