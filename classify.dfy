// Path classification of assets/js/navbar.js: from the location path, the
// relative base path, whether the sub navigation is shown, and whether the
// page is the home page. The path is a parameter (the script reads
// `window.location.pathname`).
module Classify {
  import opened Strings

  /** The directory marker that denotes one level of nesting. */
  const ArticlesMarker: string := "/articles/"

  /** File names of the pages that use the sub navigation, in source order. */
  const SubNavPages: seq<string> :=
    ["articles.html", "why-hire-me.html", "technical-skills.html", "leadership-projects.html", "career-journey.html"]

  /** The site-root path compared literally by the home-page test. */
  const SiteRoot: string := "/sajeevan16.github.io/"

  /** `isSubdirectory`: contains the marker and splits into more than two parts. */
  predicate IsSubdirectory(path: string) {
    Contains(path, ArticlesMarker) && SplitLength(path) > 2
  }

  /** `basePath`: the prefix that leads from a nested page back to the root. */
  function BasePath(path: string): string {
    if IsSubdirectory(path) then "../" else ""
  }

  /** `isSubNav`: the path ends with one of the sub-navigation page names or
      contains the articles directory marker. */
  predicate IsSubNav(path: string) {
    (exists k | 0 <= k < |SubNavPages| :: EndsWith(path, SubNavPages[k]))
    || Contains(path, ArticlesMarker)
  }

  /** `isHomePage`: the path ends with `index.html` or `/`, or is the site root. */
  predicate IsHomePage(path: string) {
    EndsWith(path, "index.html") || EndsWith(path, "/") || path == SiteRoot
  }

  /** The base path is `../` exactly when the path contains `/articles/`: the
      marker holds two slashes, so the split-length test never decides. */
  lemma BasePathIffArticles(path: string)
    ensures IsSubdirectory(path) <==> Contains(path, ArticlesMarker)
    ensures BasePath(path) == (if Contains(path, ArticlesMarker) then "../" else "")
  {
    if Contains(path, ArticlesMarker) {
      var i: nat :| i <= |path| && OccursAt(path, ArticlesMarker, i);
      CountOfOccurrence(path, ArticlesMarker, i, '/');
    }
  }

  /** The site-root literal ends with `/`, so the equality test is subsumed. */
  lemma HomePageIffSuffix(path: string)
    ensures IsHomePage(path) <==> EndsWith(path, "index.html") || EndsWith(path, "/")
  {
    if path == SiteRoot {
      assert path[|path| - 1..] == "/";
    }
  }

  /** Every path outside the sub navigation is at the root: its base path is empty. */
  lemma MainNavBaseIsEmpty(path: string)
    requires !IsSubNav(path)
    ensures BasePath(path) == ""
  {
    BasePathIffArticles(path);
  }

  /** The empty path is classified as a main-navigation page that is not home. */
  lemma EmptyPathIsMainNav()
    ensures !IsSubNav("") && !IsHomePage("") && BasePath("") == ""
  {
    assert !OccursAt("", ArticlesMarker, 0);
  }

  /** A page directly at the root is not under `/articles/`. */
  lemma RootPageNotNested(name: string)
    requires '/' !in name
    ensures !Contains("/" + name, ArticlesMarker)
  {
    var p := "/" + name;
    if Contains(p, ArticlesMarker) {
      var i: nat :| i <= |p| && OccursAt(p, ArticlesMarker, i);
      CountOfOccurrence(p, ArticlesMarker, i, '/');
      CountConcat("/", name, '/');
    }
  }

  /** No page name is empty or contains a `/`. */
  lemma PageNamesWithoutSlash()
    ensures forall k :: 0 <= k < |SubNavPages| ==> '/' !in SubNavPages[k] && SubNavPages[k] != ""
  {
    assert '/' !in SubNavPages[0] && '/' !in SubNavPages[1] && '/' !in SubNavPages[2];
    assert '/' !in SubNavPages[3] && '/' !in SubNavPages[4];
  }

  /** The page names are suffix-free: a page name ends with the k-th one
      only when it is the k-th one, and `index.html` ends with none of them. */
  lemma PageNameSuffixes(k: nat)
    requires k < |SubNavPages|
    ensures forall j :: 0 <= j < |SubNavPages| ==> (EndsWith(SubNavPages[j], SubNavPages[k]) <==> j == k)
    ensures !EndsWith("index.html", SubNavPages[k])
  {
    if k == 0 {
      assert forall j :: 0 <= j < |SubNavPages| ==> (EndsWith(SubNavPages[j], "articles.html") <==> j == 0);
    } else if k == 1 {
      assert forall j :: 0 <= j < |SubNavPages| ==> (EndsWith(SubNavPages[j], "why-hire-me.html") <==> j == 1);
    } else if k == 2 {
      assert forall j :: 0 <= j < |SubNavPages| ==> (EndsWith(SubNavPages[j], "technical-skills.html") <==> j == 2);
    } else if k == 3 {
      assert forall j :: 0 <= j < |SubNavPages| ==> (EndsWith(SubNavPages[j], "leadership-projects.html") <==> j == 3);
    } else {
      assert forall j :: 0 <= j < |SubNavPages| ==> (EndsWith(SubNavPages[j], "career-journey.html") <==> j == 4);
    }
  }

  /** On a sub-navigation page outside `/articles/`, the last path segment
      ends with one of the sub-navigation page names. */
  lemma SubNavSegment(path: string) returns (k: nat)
    requires IsSubNav(path) && !Contains(path, ArticlesMarker)
    ensures k < |SubNavPages| && EndsWith(path, SubNavPages[k])
    ensures EndsWith(LastSegment(path), SubNavPages[k]) && LastSegment(path) != ""
  {
    k :| 0 <= k < |SubNavPages| && EndsWith(path, SubNavPages[k]);
    PageNamesWithoutSlash();
    SuffixOfLastSegment(path, SubNavPages[k]);
    assert |LastSegment(path)| >= |SubNavPages[k]| > 0;
  }

  /** The split-length test never limits the nesting depth: a page two
      directories below `/articles/` still gets the base path `../`. */
  lemma DeepNestingGetsOneLevel()
    ensures BasePath("/articles/" + "a/b.html") == "../"
  {
    assert OccursAt("/articles/" + "a/b.html", ArticlesMarker, 0);
    BasePathIffArticles("/articles/" + "a/b.html");
  }

  /** Page names are matched as suffixes, not as path segments: a file that
      merely ends with a page name selects the sub navigation, while one that
      contains a page name elsewhere does not. */
  lemma SuffixMatchIsLoose()
    ensures IsSubNav("/my-articles.html")
    ensures !IsSubNav("/not-articles-related.html")
  {
    assert EndsWith("/my-articles.html", SubNavPages[0]);
    AbsentByPrefix("/not-articles-related.html", ArticlesMarker);
  }
}
