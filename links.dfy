// Link tables of assets/js/navbar.js: the ordered entries of the sub
// navigation and of the main navigation, reduced to label, link target and
// whether the entry carries the `active` class when built (markup and icons
// are left out).
module Links {
  import opened Strings
  import opened Classify

  datatype NavEntry = NavEntry(caption: string, href: string, active: bool)

  /** Sub-navigation entries: every target is the base path and a page name. */
  function SubNavLinks(base: string): seq<NavEntry> {
    [ NavEntry("Home", base + "index.html", false),
      NavEntry("Articles", base + "articles.html", false),
      NavEntry("Why Hire Me", base + "why-hire-me.html", false),
      NavEntry("Technical Skills", base + "technical-skills.html", false),
      NavEntry("Leadership", base + "leadership-projects.html", false),
      NavEntry("Career Journey", base + "career-journey.html", false) ]
  }

  /** Main-navigation entries: in-page anchors on the home page, links back to
      the home page elsewhere; Articles is always a separate page. */
  function MainNavLinks(base: string, isHome: bool): seq<NavEntry> {
    var home := if isHome then "#hero" else base + "index.html";
    var about := if isHome then "#about" else base + "index.html" + "#about";
    var resume := if isHome then "#resume" else base + "index.html" + "#resume";
    var portfolio := if isHome then "#portfolio" else base + "index.html" + "#portfolio";
    var gallery := if isHome then "#gallery" else base + "index.html" + "#gallery";
    var services := if isHome then "#services" else base + "index.html" + "#services";
    var contact := if isHome then "#contact" else base + "index.html" + "#contact";
    var articles := base + "articles.html";
    [ NavEntry("Home", home, isHome),
      NavEntry("About", about, false),
      NavEntry("Experience", resume, false),
      NavEntry("Projects", portfolio, false),
      NavEntry("Articles", articles, false),
      NavEntry("Gallery", gallery, false),
      NavEntry("Certifications", services, false),
      NavEntry("Contact", contact, false) ]
  }

  /** The table the script renders for a location path. */
  function BuildNav(path: string): seq<NavEntry> {
    if IsSubNav(path) then SubNavLinks(BasePath(path))
    else MainNavLinks(BasePath(path), IsHomePage(path))
  }

  /** The captions of the entries, in order. */
  function Labels(entries: seq<NavEntry>): seq<string> {
    seq(|entries|, i requires 0 <= i < |entries| => entries[i].caption)
  }

  const SubNavLabels: seq<string> :=
    ["Home", "Articles", "Why Hire Me", "Technical Skills", "Leadership", "Career Journey"]

  const MainNavLabels: seq<string> :=
    ["Home", "About", "Experience", "Projects", "Articles", "Gallery", "Certifications", "Contact"]

  /** The sub navigation has six entries in fixed order; Home targets the
      base path and `index.html`, the other five the base path and the
      sub-navigation page names in order; nothing is active when built. */
  lemma SubNavTable(base: string)
    ensures Labels(SubNavLinks(base)) == SubNavLabels
    ensures SubNavLinks(base)[0].href == base + "index.html"
    ensures forall k :: 0 <= k < |SubNavPages| ==> SubNavLinks(base)[k + 1].href == base + SubNavPages[k]
    ensures forall i :: 0 <= i < |SubNavLinks(base)| ==> !SubNavLinks(base)[i].active
  {
  }

  /** On the home page every main entry but Articles is an in-page anchor,
      Articles links to its page, and only Home is active. */
  lemma MainNavOnHome(base: string)
    ensures Labels(MainNavLinks(base, true)) == MainNavLabels
    ensures forall i :: 0 <= i < 8 && i != 4 ==> MainNavLinks(base, true)[i].href[0] == '#'
    ensures MainNavLinks(base, true)[4].href == base + "articles.html"
    ensures forall i :: 0 <= i < 8 ==> (MainNavLinks(base, true)[i].active <==> i == 0)
  {
  }

  /** Off the home page Home links to the base path and `index.html`, every
      other anchor entry to `index.html` followed by its home-page anchor,
      Articles to its page, and nothing is active. */
  lemma MainNavOffHome(base: string)
    ensures Labels(MainNavLinks(base, false)) == MainNavLabels
    ensures MainNavLinks(base, false)[0].href == base + "index.html"
    ensures forall i :: 0 < i < 8 && i != 4 ==>
      MainNavLinks(base, false)[i].href == base + "index.html" + MainNavLinks(base, true)[i].href
    ensures MainNavLinks(base, false)[4].href == base + "articles.html"
    ensures forall i :: 0 <= i < 8 ==> !MainNavLinks(base, false)[i].active
  {
  }

  /** Exactly one variant is rendered: six entries exactly for sub-navigation
      paths, otherwise the eight main entries built at the root with the
      home-page flag. */
  lemma BuildNavVariant(path: string)
    ensures IsSubNav(path) ==> BuildNav(path) == SubNavLinks(if Contains(path, ArticlesMarker) then "../" else "")
    ensures !IsSubNav(path) ==> BuildNav(path) == MainNavLinks("", IsHomePage(path))
    ensures |BuildNav(path)| == 6 <==> IsSubNav(path)
    ensures |BuildNav(path)| == 8 <==> !IsSubNav(path)
  {
    BasePathIffArticles(path);
  }

  /** A root-level sub-navigation link leads to a page that again shows the
      sub navigation, and its Home link to a home page. */
  lemma SubNavTargetsStayInSubNav()
    ensures IsHomePage("/" + SubNavLinks("")[0].href)
    ensures forall k :: 1 <= k < 6 ==> IsSubNav("/" + SubNavLinks("")[k].href)
  {
    SubNavTable("");
    forall k | 1 <= k < 6 ensures IsSubNav("/" + SubNavLinks("")[k].href) {
      assert "" + SubNavPages[k - 1] == SubNavPages[k - 1];
      EndsWithAppended("/", SubNavPages[k - 1]);
    }
    EndsWithAppended("/", "index.html");
  }
}
