/** `initActiveMenuState` (script.js): marks the navigation links that lead to the current
    page with the `active` class and `aria-current="page"`. */
module ActiveMenu {
  import opened Wrappers
  import opened Dom
  import opened JsText

  /** The page path the links are compared with: an empty path or `/` stands for `/index.html`. */
  function NormalizePath(pathname: string): (p: string)
    ensures p != "" && p != "/"
    ensures pathname != "" && pathname != "/" ==> p == pathname
    ensures pathname == "" || pathname == "/" ==> p == "/index.html"
  {
    if pathname == "" || pathname == "/" then "/index.html" else pathname
  }

  /** The three-way test of the loop: the href equals the path, or the path contains
      `index.html` and the href is `/`, or the path is `/` and the href is `/index.html`. */
  predicate LinkMatches(linkPath: string, currentPath: string) {
    linkPath == currentPath
    || (IndexOf(currentPath, "index.html") != -1 && linkPath == "/")
    || (currentPath == "/" && linkPath == "/index.html")
  }

  /** A link the loop passes over: no href, an empty href, or an href starting with `#`. */
  predicate Skipped(href: Option<string>) {
    href.None? || href.value == "" || IndexOf(href.value, "#") == 0
  }

  /** The link marks after `initActiveMenuState`, given each link's `href` attribute (`None`
      when absent): a skipped link keeps its marks, a matching link is active with
      `aria-current="page"`, and every other link is cleared. */
  ghost predicate PageMarked(hrefs: seq<Option<string>>, pathname: string,
                             before: seq<LinkMark>, after: seq<LinkMark>)
  {
    |before| == |hrefs| && |after| == |hrefs|
    && forall l | 0 <= l < |hrefs| ::
      after[l] == if Skipped(hrefs[l]) then before[l]
                  else if LinkMatches(hrefs[l].value, NormalizePath(pathname)) then LinkMark(true, Page)
                  else Unmarked
  }

  /** The loop over the navigation links. */
  method MarkActivePage(hrefs: seq<Option<string>>, pathname: string, marks: array<LinkMark>)
    requires marks.Length == |hrefs|
    modifies marks
    ensures PageMarked(hrefs, pathname, old(marks[..]), marks[..])
  {
    var currentPath := pathname;
    if currentPath == "" || currentPath == "/" {
      currentPath := "/index.html";
    }
    var i := 0;
    while i < |hrefs|
      invariant 0 <= i <= |hrefs|
      invariant currentPath == NormalizePath(pathname)
      invariant forall l | i <= l < |hrefs| :: marks[l] == old(marks[l])
      invariant forall l | 0 <= l < i ::
        marks[l] == if Skipped(hrefs[l]) then old(marks[l])
                    else if LinkMatches(hrefs[l].value, currentPath) then LinkMark(true, Page)
                    else Unmarked
    {
      var linkPath := hrefs[i];
      if linkPath.None? || linkPath.value == "" || IndexOf(linkPath.value, "#") == 0 {
        i := i + 1;
        continue;
      }
      var href := linkPath.value;
      marks[i] := Unmarked;
      if href == currentPath
         || (IndexOf(currentPath, "index.html") != -1 && href == "/")
         || (currentPath == "/" && href == "/index.html") {
        marks[i] := LinkMark(true, Page);
      }
      i := i + 1;
    }
  }

  /** An href is skipped exactly when it is absent, empty, or starts with `#`. */
  lemma SkippedIffFragment(href: Option<string>)
    ensures Skipped(href) <==> href.None? || href.value == "" || href.value[0] == '#'
  {
  }

  /** The third alternative of the test never fires: the path it is given is never `/`. So a
      link matches exactly when it equals the path, or it is `/` on a page whose path
      contains `index.html`. */
  lemma ThirdAlternativeDead(linkPath: string, pathname: string)
    ensures LinkMatches(linkPath, NormalizePath(pathname)) <==>
      linkPath == NormalizePath(pathname)
      || (IndexOf(NormalizePath(pathname), "index.html") != -1 && linkPath == "/")
  {
  }

  /** `index.html` occurs in any path that ends with it. */
  lemma {:induction false} EndsWithIndexHtml(prefix: string)
    ensures IndexOf(prefix + "index.html", "index.html") != -1
  {
    assert OccursAt(prefix + "index.html", "index.html", |prefix|) by {
      assert (prefix + "index.html")[|prefix|..|prefix| + 10] == "index.html";
    }
  }

  /** On the site root (path empty or `/`) both `/` and `/index.html` are marked. */
  lemma RootMarksHomeLinks(pathname: string)
    requires pathname == "" || pathname == "/"
    ensures LinkMatches("/", NormalizePath(pathname))
    ensures LinkMatches("/index.html", NormalizePath(pathname))
  {
    var p := NormalizePath(pathname);
    assert p[1..] == "index.html";
    assert OccursAt(p, "index.html", 1);
  }

  /** The link `/` is marked on every page whose path ends with `index.html`, in whatever
      directory, since the test only asks whether the path contains it. */
  lemma RootLinkOnEveryIndexPage(dir: string)
    ensures LinkMatches("/", NormalizePath(dir + "index.html"))
  {
    EndsWithIndexHtml(dir);
  }

  /** On a page outside the site root, a link other than `/` is marked only when its href is
      the path itself. */
  lemma OnlyExactMatches(linkPath: string, pathname: string)
    requires pathname != "" && pathname != "/" && linkPath != "/"
    ensures LinkMatches(linkPath, NormalizePath(pathname)) <==> linkPath == pathname
  {
  }
}
