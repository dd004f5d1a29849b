/**
 * Marking the navigation links of the current page (`setActiveNavLink`):
 * each link whose href the current path ends with, or the "index.html" link
 * on a directory path, gets the class "active". Classes are only added.
 */
module Navigation {
  import opened Wrappers
  import opened Text

  const ActiveClass := "active"

  /**
   * The string `endsWith` compares against: the attribute value, or "null"
   * when the link has no href attribute (`getAttribute` returns null and
   * `endsWith` converts its argument to a string).
   */
  function HrefText(href: Option<string>): string {
    match href
    case None => "null"
    case Some(h) => h
  }

  /** `setActiveNavLink`'s three-clause test, clause for clause. */
  predicate IsActiveLink(path: string, href: Option<string>) {
    || EndsWith(path, HrefText(href))
    || (path == "/" && href == Some("index.html"))
    || (EndsWith(path, "/") && href == Some("index.html"))
  }

  /** The `path == '/'` clause is subsumed: two clauses decide the same thing. */
  lemma RootClauseSubsumed(path: string, href: Option<string>)
    ensures IsActiveLink(path, href)
        <==> EndsWith(path, HrefText(href)) || (EndsWith(path, "/") && href == Some("index.html"))
  {
  }

  /** On a directory path ("/", "/tjenester/") the "index.html" link is active. */
  lemma IndexActiveOnDirectory(path: string)
    requires |path| > 0 && path[|path| - 1] == '/'
    ensures IsActiveLink(path, Some("index.html"))
  {
  }

  /** A link with an empty href is active on every page. */
  lemma EmptyHrefAlwaysActive(path: string)
    ensures IsActiveLink(path, Some(""))
  {
  }

  /** A link without an href is active exactly on paths ending in "null". */
  lemma MissingHrefMatchesNull(path: string)
    ensures IsActiveLink(path, None) <==> EndsWith(path, "null")
  {
  }

  /** A navigation link element: its href attribute and its class list. */
  class NavLink {
    const href: Option<string>
    var classes: set<string>

    constructor (href: Option<string>, classes: set<string>)
      ensures this.href == href && this.classes == classes
    {
      this.href := href;
      this.classes := classes;
    }
  }

  /** The classes a link ends with after the pass over the links of `path`. */
  function Marked(path: string, link: NavLink, classes: set<string>): set<string> {
    if IsActiveLink(path, link.href) then classes + {ActiveClass} else classes
  }

  /**
   * The `forEach` over the selected links. A link may occur more than once in
   * the list; it is marked once.
   */
  method SetActiveNavLink(path: string, links: seq<NavLink>)
    modifies set l | l in links
    ensures forall k | 0 <= k < |links| :: links[k].classes == Marked(path, links[k], old(links[k].classes))
    ensures forall k | 0 <= k < |links| :: old(links[k].classes) <= links[k].classes
  {
    var i := 0;
    while i < |links|
      invariant 0 <= i <= |links|
      invariant forall k | 0 <= k < |links| ::
        links[k].classes == if links[k] in links[..i] then Marked(path, links[k], old(links[k].classes))
                            else old(links[k].classes)
    {
      var link := links[i];
      if IsActiveLink(path, link.href) {
        link.classes := link.classes + {ActiveClass};
      }
      assert links[..i + 1] == links[..i] + [link];
      i := i + 1;
    }
    assert links[..i] == links;
  }
}
