/**
 The active navigation link: the current page is the last `/`-separated
 segment of the location's path, or `index.html` when that segment is empty,
 and each navigation link is marked active exactly when its `href` names
 that page.
 */
module Nav {
  import opened Text

  const IndexPage := "index.html"

  /** The last element of `pathname.split('/')`. */
  function LastSegment(pathname: string): (seg: string)
    ensures '/' !in seg && |seg| <= |pathname| && seg == pathname[|pathname| - |seg|..]
    ensures |seg| < |pathname| ==> pathname[|pathname| - |seg| - 1] == '/'
  {
    LastOfSplit(pathname, '/');
    var parts := Split(pathname, '/');
    parts[|parts| - 1]
  }

  /** `pathname.split('/').pop() || 'index.html'`. */
  function CurrentPage(pathname: string): (page: string)
    ensures page != [] && '/' !in page
    ensures page == LastSegment(pathname) || (LastSegment(pathname) == [] && page == IndexPage)
  {
    if LastSegment(pathname) == [] then IndexPage else LastSegment(pathname)
  }

  /** A path that ends in `/`, or the empty path, is the index page. */
  lemma {:induction false} DirectoryIsIndex(pathname: string)
    requires pathname == [] || pathname[|pathname| - 1] == '/'
    ensures CurrentPage(pathname) == IndexPage
  {
    var seg := LastSegment(pathname);
  }

  /** Otherwise the page is the text after the last `/`, and it is not empty. */
  lemma {:induction false} FileIsItsOwnPage(pathname: string, i: nat)
    requires i < |pathname| && pathname[i] == '/' && '/' !in pathname[i + 1..]
    requires pathname[|pathname| - 1] != '/'
    ensures CurrentPage(pathname) == pathname[i + 1..]
  {
    var seg := LastSegment(pathname);
    var n := |pathname| - |seg|;
    assert n == i + 1;
  }

  /** The condition of the toggle: `href === path || (path === '' && href === 'index.html')`. */
  predicate IsActive(href: Option<string>, page: string) {
    href == Some(page) || (page == [] && href == Some(IndexPage))
  }

  /**
   The page is never empty, so the second half of the toggle's condition
   never holds: a link is active exactly when its `href` is the page. A link
   without `href` (`getAttribute` gives `null`) is never active.
   */
  lemma EmptyPageCaseIsDead(href: Option<string>, pathname: string)
    ensures IsActive(href, CurrentPage(pathname)) <==> href == Some(CurrentPage(pathname))
    ensures href.None? ==> !IsActive(href, CurrentPage(pathname))
  {
  }

  /** An `<a>` element of the navigation bar. */
  class NavLink {
    const href: Option<string>
    var active: bool

    constructor (href: Option<string>, active: bool)
      ensures this.href == href && this.active == active
    {
      this.href := href;
      this.active := active;
    }
  }

  /**
   `setActiveNav()`: every link of the bar is marked active exactly when it
   points at the current page; no other object changes.
   */
  method SetActiveNav(pathname: string, links: seq<NavLink>)
    modifies set l | l in links
    ensures forall k :: 0 <= k < |links| ==> links[k].active == IsActive(links[k].href, CurrentPage(pathname))
  {
    var page := CurrentPage(pathname);
    MarkLinks(page, links);
  }

  /** The `forEach` of `setActiveNav`: the toggle applied to each link in turn. */
  method MarkLinks(page: string, links: seq<NavLink>)
    modifies set l | l in links
    ensures forall k :: 0 <= k < |links| ==> links[k].active == IsActive(links[k].href, page)
  {
    var i := 0;
    while i < |links|
      invariant 0 <= i <= |links|
      invariant forall k :: 0 <= k < i ==> links[k].active == IsActive(links[k].href, page)
    {
      links[i].active := IsActive(links[i].href, page);
      i := i + 1;
    }
  }
}
