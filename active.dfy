// Active-link resolution of assets/js/navbar.js: after the table is
// rendered, a loop over the rendered links adds the `active` class to those
// that match the current path. Only the sub navigation is resolved here; the
// main navigation keeps what it was built with.
module Active {
  import opened Strings
  import opened Classify
  import opened Links

  /** Whether the loop adds `active` to a link with target `href`: under
      `/articles/` a link to the articles page; otherwise (else-if) a link
      whose target ends with the non-empty last path segment. Only on
      sub-navigation pages. */
  predicate Highlights(path: string, href: string) {
    IsSubNav(path) &&
    ( (Contains(path, ArticlesMarker) && Contains(href, "articles.html"))
      || (EndsWith(href, LastSegment(path)) && LastSegment(path) != "") )
  }

  /** The state of one link after the loop; adding a class that is present
      changes nothing. */
  function Resolve(path: string, e: NavEntry): NavEntry {
    if Highlights(path, e.href) then e.(active := true) else e
  }

  /** Every link resolved, in order. */
  function Resolved(path: string, links: seq<NavEntry>): seq<NavEntry> {
    seq(|links|, i requires 0 <= i < |links| => Resolve(path, links[i]))
  }

  /** The `forEach` over the rendered links, updating their classes in place. */
  method HighlightActive(path: string, links: array<NavEntry>)
    modifies links
    ensures links[..] == Resolved(path, old(links[..]))
  {
    var subNav := IsSubNav(path);
    var i := 0;
    while i < links.Length
      invariant 0 <= i <= links.Length
      invariant forall j :: 0 <= j < i ==> links[j] == Resolve(path, old(links[j]))
      invariant forall j :: i <= j < links.Length ==> links[j] == old(links[j])
    {
      var href := links[i].href;
      if subNav {
        var pageName := LastSegment(path);
        if Contains(path, ArticlesMarker) && Contains(href, "articles.html") {
          links[i] := links[i].(active := true);
        } else if EndsWith(href, pageName) && pageName != "" {
          links[i] := links[i].(active := true);
        }
      }
      i := i + 1;
    }
  }

  /** The page's navigation after building and resolving, as the script leaves it. */
  method RenderNav(path: string) returns (entries: seq<NavEntry>)
    ensures entries == Resolved(path, BuildNav(path))
  {
    var table := BuildNav(path);
    var links := new NavEntry[|table|](i requires 0 <= i < |table| => table[i]);
    HighlightActive(path, links);
    entries := links[..];
  }

  /** Resolving twice is resolving once. */
  lemma ResolveIdempotent(path: string, links: seq<NavEntry>)
    ensures Resolved(path, Resolved(path, links)) == Resolved(path, links)
  {
  }

  /** On a main-navigation page the loop leaves every link as it was. */
  lemma MainNavUnchanged(path: string, links: seq<NavEntry>)
    requires !IsSubNav(path)
    ensures Resolved(path, links) == links
  {
  }

  /** Under `../`, the Home target does not contain `articles.html`. */
  lemma NestedHomeTargetLacksArticles()
    ensures !Contains("../" + "index.html", "articles.html")
  {
    AbsentByPrefix("../" + "index.html", "articles.html");
  }

  /** Under `../`, no page target other than the Articles one contains
      `articles.html`. */
  lemma NestedPageTargetsLackArticles()
    ensures !Contains("../" + "why-hire-me.html", "articles.html")
    ensures !Contains("../" + "technical-skills.html", "articles.html")
    ensures !Contains("../" + "leadership-projects.html", "articles.html")
    ensures !Contains("../" + "career-journey.html", "articles.html")
  {
    AbsentByPrefix("../" + "why-hire-me.html", "articles.html");
    AbsentByPrefix("../" + "technical-skills.html", "articles.html");
    AbsentByPrefix("../" + "leadership-projects.html", "articles.html");
    AbsentByPrefix("../" + "career-journey.html", "articles.html");
  }

  /** Of the sub-navigation targets under `../`, only the Articles one
      contains `articles.html`. */
  lemma NestedArticlesTarget()
    ensures forall i :: 0 <= i < 6 ==> (Contains(SubNavLinks("../")[i].href, "articles.html") <==> i == 1)
  {
    assert OccursAt("../" + "articles.html", "articles.html", 3);
    NestedHomeTargetLacksArticles();
    NestedPageTargetsLackArticles();
  }

  /** On a page under `/articles/` the Articles link is active, and any other
      link is active exactly when its target ends with the non-empty last
      path segment. */
  lemma ArticlesSectionHighlight(path: string)
    requires Contains(path, ArticlesMarker)
    ensures BuildNav(path) == SubNavLinks("../")
    ensures |Resolved(path, BuildNav(path))| == 6
    ensures Resolved(path, BuildNav(path))[1] == NavEntry("Articles", "../" + "articles.html", true)
    ensures forall i :: 0 <= i < 6 && i != 1 ==>
      (Resolved(path, BuildNav(path))[i].active <==>
        LastSegment(path) != "" && EndsWith(BuildNav(path)[i].href, LastSegment(path)))
  {
    BuildNavVariant(path);
    NestedArticlesTarget();
  }

  /** At the root, the entries after Home target the page names themselves. */
  lemma RootTargetsArePageNames()
    ensures SubNavLinks("")[0].href == "index.html"
    ensures forall i :: 1 <= i < 6 ==> SubNavLinks("")[i].href == SubNavPages[i - 1]
  {
    SubNavTable("");
    forall i | 1 <= i < 6 ensures SubNavLinks("")[i].href == SubNavPages[i - 1] {
      assert "" + SubNavPages[i - 1] == SubNavPages[i - 1];
    }
  }

  /** A root-level target ends with a sub-navigation page name only when it
      is that page's own target. */
  lemma RootTargetSuffixes(k: nat)
    requires k < |SubNavPages|
    ensures forall i :: 0 <= i < 6 ==> (EndsWith(SubNavLinks("")[i].href, SubNavPages[k]) <==> i == k + 1)
  {
    RootTargetsArePageNames();
    PageNameSuffixes(k);
  }

  /** On a sub-navigation page outside `/articles/`, a link becomes active
      exactly when its target is the last path segment. */
  lemma SubNavPageActiveIffSegment(path: string)
    requires IsSubNav(path) && !Contains(path, ArticlesMarker)
    ensures BuildNav(path) == SubNavLinks("")
    ensures |Resolved(path, BuildNav(path))| == 6
    ensures forall i :: 0 <= i < 6 ==>
      (Resolved(path, BuildNav(path))[i].active <==> SubNavLinks("")[i].href == LastSegment(path))
  {
    BuildNavVariant(path);
    var k := SubNavSegment(path);
    var seg := LastSegment(path);
    var t := SubNavLinks("");
    var r := Resolved(path, t);
    RootTargetSuffixes(k);
    SubNavTable("");
    assert "" + SubNavPages[k] == SubNavPages[k];
    forall i | 0 <= i < 6 ensures r[i].active <==> t[i].href == seg {
      assert r[i].active <==> EndsWith(t[i].href, seg);
      if EndsWith(t[i].href, seg) {
        SuffixTransitive(t[i].href, seg, SubNavPages[k]);
        assert i == k + 1;
        assert t[i].href == SubNavPages[k];
        SuffixAntisymmetric(seg, SubNavPages[k]);
      }
    }
  }

  /** Hence Home never becomes active, and the entry for the k-th page name
      does exactly when the last segment is that name: one entry when the
      segment is a page name, none otherwise. */
  lemma SubNavPageHighlight(path: string)
    requires IsSubNav(path) && !Contains(path, ArticlesMarker)
    ensures |Resolved(path, BuildNav(path))| == 6
    ensures forall i :: 0 <= i < 6 ==>
      (Resolved(path, BuildNav(path))[i].active <==> 1 <= i && LastSegment(path) == SubNavPages[i - 1])
  {
    SubNavPageActiveIffSegment(path);
    RootTargetsArePageNames();
    var k0 := SubNavSegment(path);
    RootTargetSuffixes(k0);
    var t, seg := SubNavLinks(""), LastSegment(path);
    assert t[0].href != seg;
    forall i | 0 <= i < 6
      ensures Resolved(path, BuildNav(path))[i].active <==> 1 <= i && seg == SubNavPages[i - 1]
    {
    }
  }

  /** A root-level sub-navigation page whose file name is not itself a page
      name marks no link. */
  lemma UnlistedRootPageMarksNothing(name: string)
    requires '/' !in name && IsSubNav("/" + name)
    requires forall k :: 0 <= k < |SubNavPages| ==> name != SubNavPages[k]
    ensures forall i :: 0 <= i < 6 ==> !Resolved("/" + name, BuildNav("/" + name))[i].active
  {
    var p := "/" + name;
    RootPageNotNested(name);
    assert p == "" + "/" + name;
    LastSegmentOfName("", name);
    SubNavPageHighlight(p);
  }

  /** So a file name that only ends with a page name, such as
      `/my-articles.html`, selects the sub navigation but marks no link. */
  lemma LoosePageNameMarksNothing()
    ensures IsSubNav("/" + "my-articles.html")
    ensures forall i :: 0 <= i < 6 ==> !Resolved("/" + "my-articles.html", BuildNav("/" + "my-articles.html"))[i].active
  {
    var name := "my-" + SubNavPages[0];
    assert name == "my-articles.html";
    EndsWithAppended("/" + "my-", SubNavPages[0]);
    assert "/" + name == "/" + "my-" + SubNavPages[0];
    PageNameSuffixes(0);
    forall k | 0 <= k < |SubNavPages| ensures name != SubNavPages[k] {
      if name == SubNavPages[k] {
        EndsWithAppended("my-", SubNavPages[0]);
      }
    }
    UnlistedRootPageMarksNothing(name);
  }

  /** A page directly under `/articles/` is a nested sub-navigation page
      whose last segment is its file name. */
  lemma NestedPage(name: string)
    requires '/' !in name
    ensures Contains("/articles/" + name, ArticlesMarker)
    ensures LastSegment("/articles/" + name) == name
  {
    var p := "/articles/" + name;
    assert p == "/articles" + "/" + name;
    LastSegmentOfName("/articles", name);
    assert OccursAt(p, ArticlesMarker, 0);
  }

  /** A page `/articles/<name>` highlights its parent Articles link, and
      Home only when the name is a non-empty suffix of `../index.html`. */
  lemma NestedPageHighlight(name: string)
    requires '/' !in name
    ensures Resolved("/articles/" + name, BuildNav("/articles/" + name))[1].active
    ensures Resolved("/articles/" + name, BuildNav("/articles/" + name))[0].active <==>
      name != "" && EndsWith("../" + "index.html", name)
  {
    NestedPage(name);
    ArticlesSectionHighlight("/articles/" + name);
  }

  /** A nested article highlights Articles and not Home. */
  lemma NestedArticleExample()
    ensures Resolved("/articles/" + "my-post.html", BuildNav("/articles/" + "my-post.html"))[1].active
    ensures !Resolved("/articles/" + "my-post.html", BuildNav("/articles/" + "my-post.html"))[0].active
  {
    var home := "../" + "index.html";
    assert home[|home| - 12..][0] != "my-post.html"[0];
    NestedPageHighlight("my-post.html");
  }

  /** A root-level page `/<name>` for the k-th page name highlights exactly
      its own entry (for example `/why-hire-me.html` highlights Why Hire Me). */
  lemma RootPageHighlight(k: nat)
    requires k < |SubNavPages|
    ensures forall i :: 0 <= i < 6 ==>
      (Resolved("/" + SubNavPages[k], BuildNav("/" + SubNavPages[k]))[i].active <==> i == k + 1)
  {
    var p := "/" + SubNavPages[k];
    PageNamesWithoutSlash();
    assert EndsWith(p, SubNavPages[k]);
    assert p == "" + "/" + SubNavPages[k];
    LastSegmentOfName("", SubNavPages[k]);
    RootPageNotNested(SubNavPages[k]);
    SubNavPageHighlight(p);
    RootTargetsArePageNames();
    RootTargetSuffixes(k);
    var r, t := Resolved(p, BuildNav(p)), SubNavLinks("");
    assert LastSegment(p) == SubNavPages[k];
    forall i | 0 <= i < 6 ensures r[i].active <==> i == k + 1 {
      if 1 <= i && SubNavPages[i - 1] == SubNavPages[k] {
        EndsWithSelf(t[i].href);
      }
    }
  }

  /** Under `/articles/` a path that ends with `/` has an empty last segment,
      which switches the last-segment rule off: only Articles is marked. */
  lemma EmptySegmentMarksOnlyArticles(path: string)
    requires Contains(path, ArticlesMarker) && LastSegment(path) == ""
    ensures forall i :: 0 <= i < 6 ==> (Resolved(path, BuildNav(path))[i].active <==> i == 1)
  {
    ArticlesSectionHighlight(path);
  }

  /** At most one active link is not an invariant: `/articles/index.html`
      highlights both Home (by its last segment) and Articles. */
  lemma NestedIndexHighlightsTwo()
    ensures Resolved("/articles/" + "index.html", BuildNav("/articles/" + "index.html"))[0].active
    ensures Resolved("/articles/" + "index.html", BuildNav("/articles/" + "index.html"))[1].active
  {
    assert EndsWith("../" + "index.html", "index.html");
    NestedPageHighlight("index.html");
  }
}
