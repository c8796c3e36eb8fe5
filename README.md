# Navigation header of sajeevan16.github.io

The site injects its navigation header with one script,
`assets/js/navbar.js`. This project models that script in Dafny. The script
does four things with the current location path:

- It **classifies** the path. It computes the relative base path (`../` for
  a page under `/articles/`, otherwise empty), whether the page uses the
  sub navigation, and whether it is the home page.
- It **builds the link table**. The sub navigation has six entries and the
  main navigation eight. Each entry keeps its caption, its link target and
  whether it carries the `active` class when built.
- It **resolves the active link**. A loop over the rendered links adds
  `active` to the links that match the path.
- It wires the **mobile-menu toggle**. Three class flags change on a click
  on the toggle button and on a click on a navigation link.

The files are:

- `strings.dfy` (module `Strings`): the JavaScript string operations the
  script uses, stated over `seq<char>`. They are `includes`, `endsWith`,
  `split('/').length` and `split('/').pop()`.
- `classify.dfy` (module `Classify`): `isSubdirectory`, `basePath`,
  `isSubNav` and `isHomePage`, with lemmas about them.
- `links.dfy` (module `Links`): the two link tables, and which one a path
  gets.
- `active.dfy` (module `Active`): the resolution loop. It is a method over
  an array of entries. The method is proved equal to a per-entry function
  on sequences, and lemmas say which entries end up active.
- `toggle.dfy` (module `Toggle`): the two click handlers. There is a class
  with the three flags, and a pure state machine that specifies the
  class's methods.

The location path is a parameter everywhere; the script reads
`window.location.pathname`.

The sub navigation is chosen when the path *ends with* one of the five page
names, or *contains* `/articles/`. This is how line 28 of
`assets/js/navbar.js` is written. A looser reading is that any path merely
*containing* a page name would select it. The model follows the code:
`Classify.SuffixMatchIsLoose` shows that `/my-articles.html` selects the sub
navigation while `/not-articles-related.html` does not.

Under `/articles/` more than one link can be active: `/articles/index.html`
marks both Home and Articles (`Active.NestedIndexHighlightsTwo`). Outside
`/articles/`, a sub-navigation page marks at most one link, and never Home
(`Active.SubNavPageHighlight`). Exactly one link is marked only when the
last segment *equals* a page name. A file name that merely ends with a page
name selects the sub navigation but marks nothing: `/my-articles.html`
gets the sub navigation with no active link
(`Active.LoosePageNameMarksNothing`).

The comment at line 12 warns that only one level of nesting is expected.
The split-length test does not enforce this. A page deeper under
`/articles/`, such as `/articles/a/b.html`, still gets the base path `../`,
which reaches only its parent directory (`Classify.DeepNestingGetsOneLevel`).

The functions that define the script's behaviour have their own rows in the
table below. Their third column names the lemma or method that states their
property.

## Model

| member | source | states |
|---|---|---|
| Strings.EndsWith | assets/js/navbar.js:28 | `endsWith`: the suffix of the same length equals the argument; its facts are stated by `EndsWithAppended`, `SuffixTransitive` and `SuffixAntisymmetric` |
| Strings.Contains | assets/js/navbar.js:13 | `includes`: the argument occurs at some position; `CountOfOccurrence` bounds the characters a containing string has, and `AbsentByPrefix` proves absence |
| Strings.SplitLength | assets/js/navbar.js:13 | `split('/').length`: one more than the number of slashes; `BasePathIffArticles` shows it exceeds 2 whenever `/articles/` occurs |
| Strings.Count | assets/js/navbar.js:13 | the number of occurrences of a character: zero exactly when it is absent, and at most the length |
| Classify.IsSubdirectory | assets/js/navbar.js:13 | `isSubdirectory`: contains `/articles/` and splits into more than two parts; `BasePathIffArticles` states that it is the marker test alone |
| Classify.BasePath | assets/js/navbar.js:14 | `basePath`: `../` for a subdirectory, otherwise empty; its property is `BasePathIffArticles` |
| Classify.IsSubNav | assets/js/navbar.js:18-28 | `isSubNav`: ends with one of the five page names or contains `/articles/`; its properties are `SubNavSegment`, `SuffixMatchIsLoose` and `EmptyPathIsMainNav` |
| Classify.IsHomePage | assets/js/navbar.js:53 | `isHomePage`: ends with `index.html` or `/`, or equals the site root; its property is `HomePageIffSuffix` |
| Links.SubNavLinks | assets/js/navbar.js:39-44 | the sub-navigation table for a base path; its property is `SubNavTable` |
| Links.MainNavLinks | assets/js/navbar.js:56-77 | the main-navigation table for a base path and the home-page flag; its properties are `MainNavOnHome` and `MainNavOffHome` |
| Links.BuildNav | assets/js/navbar.js:32-82 | the table chosen by `isSubNav`, built with `basePath` and `isHomePage`; its property is `BuildNavVariant` |
| Active.Highlights | assets/js/navbar.js:102-116 | whether the loop adds `active` to a link: the `/articles/` rule, or else the non-empty last-segment rule, on sub-navigation pages only; its properties are `ArticlesSectionHighlight` and `SubNavPageActiveIffSegment` |
| Active.Resolve | assets/js/navbar.js:109-116 | one link after the loop body: `active` added when `Highlights` holds; its property is `ResolveIdempotent` |
| Active.Resolved | assets/js/navbar.js:96-124 | every link resolved in order; `HighlightActive` is proved to compute it in place, and `MainNavUnchanged` and `SubNavPageHighlight` state its results |
| Toggle.Consistent | assets/js/navbar.js:127-145 | the menu is open exactly when the close glyph shows instead of the list glyph; preserved by `StepConsistent` and `RunConsistent` |
| Toggle.ToggleClick | assets/js/navbar.js:129-133 | the toggle handler on values: every flag flipped; its properties are `ToggleTwiceRestores` and `ToggleSwitches` |
| Toggle.LinkClick | assets/js/navbar.js:138-143 | the link handler on values: close when the menu shows, otherwise no change; its property is `LinkClickCloses` |
| Toggle.Run | assets/js/navbar.js:127-145 | the state after handling clicks in order, each to completion; its properties are `RunConsistent`, `RunConcat` and `RunThenLinkClickCloses` |
| Classify.BasePathIffArticles | assets/js/navbar.js:13-14 | the base path is `../` exactly when the path contains `/articles/`; the split-length test never changes the outcome, because the marker holds two slashes |
| Classify.MainNavBaseIsEmpty | assets/js/navbar.js:13-28 | every path outside the sub navigation has the empty base path, so the main navigation is always built at the root |
| Classify.EmptyPathIsMainNav | assets/js/navbar.js:13-28 | the empty path gets the main navigation, is not the home page, and has an empty base path |
| Classify.RootPageNotNested | assets/js/navbar.js:13 | a page directly at the root, `/` followed by a name without `/`, never contains `/articles/` |
| Classify.PageNamesWithoutSlash | assets/js/navbar.js:18-24 | none of the five sub-navigation page names is empty or contains `/` |
| Classify.DeepNestingGetsOneLevel | assets/js/navbar.js:11-14 | a page two directories below `/articles/` still gets the base path `../`: the code does not detect deeper nesting |
| Classify.PageNameSuffixes | assets/js/navbar.js:18-24 | the page names are suffix-free: one ends with the k-th only when it is the k-th, and `index.html` ends with none |
| Classify.SubNavSegment | assets/js/navbar.js:28 | a sub-navigation path without `/articles/` ends with one of the page names, and so does its non-empty last segment |
| Classify.SuffixMatchIsLoose | assets/js/navbar.js:28 | page names are matched as suffixes: `/my-articles.html` selects the sub navigation and `/not-articles-related.html` does not |
| Classify.HomePageIffSuffix | assets/js/navbar.js:53 | the home-page test holds exactly when the path ends with `index.html` or `/`; the site-root literal ends with `/`, so comparing with it adds nothing |
| Links.SubNavTable | assets/js/navbar.js:39-44 | six entries titled Home, Articles, Why Hire Me, Technical Skills, Leadership and Career Journey; Home targets the base path and `index.html`, the k-th other entry the base path and the k-th page name; none is active when built |
| Links.MainNavOnHome | assets/js/navbar.js:56-77 | on the home page, eight entries in fixed order; every target except Articles starts with `#`; Articles targets the base path and `articles.html`; only Home is active |
| Links.MainNavOffHome | assets/js/navbar.js:56-77 | off the home page, Home targets the base path and `index.html`; every other anchor entry targets that same page followed by its home-page anchor; Articles targets its page; nothing is active |
| Links.BuildNavVariant | assets/js/navbar.js:32-82 | exactly one table is built: six entries exactly on sub-navigation paths, at `../` under `/articles/` and at the root otherwise; eight entries otherwise, always at the root, with the home-page flag |
| Links.SubNavTargetsStayInSubNav | assets/js/navbar.js:28-44 | following a root-level sub-navigation link leads to a path that again selects the sub navigation, and its Home link to a home page |
| Active.HighlightActive | assets/js/navbar.js:95-124 | the loop changes each link in place to what `Resolve` gives for it: on a sub-navigation page it adds `active` under the `/articles/` rule or, failing that, the last-segment rule; on the main navigation it changes nothing |
| Active.RenderNav | assets/js/navbar.js:32-124 | the links the script leaves are the built table with each entry resolved |
| Active.ResolveIdempotent | assets/js/navbar.js:109-116 | resolving a second time changes nothing, because adding a class that is already present is a no-op |
| Active.MainNavUnchanged | assets/js/navbar.js:117-123 | on a main-navigation page the loop leaves every link as it was |
| Active.EmptySegmentMarksOnlyArticles | assets/js/navbar.js:107-116 | under `/articles/`, a path with an empty last segment (one ending in `/`) marks Articles and nothing else, because the `pageName !== ''` guard switches the second rule off |
| Active.NestedHomeTargetLacksArticles | assets/js/navbar.js:39 | the Home target under `../` does not contain `articles.html` |
| Active.NestedPageTargetsLackArticles | assets/js/navbar.js:41-44 | under `../`, none of the Why Hire Me, Technical Skills, Leadership and Career Journey targets contains `articles.html` |
| Active.NestedArticlesTarget | assets/js/navbar.js:39-44 | under `../`, only the Articles target contains `articles.html` |
| Active.ArticlesSectionHighlight | assets/js/navbar.js:107-116 | under `/articles/` the table is the sub navigation at `../`, the Articles entry is active, and any other entry is active exactly when its target ends with the non-empty last segment |
| Active.NestedPageHighlight | assets/js/navbar.js:107-116 | a page `/articles/<name>` marks Articles, and marks Home exactly when the name is a non-empty suffix of `../index.html` |
| Active.NestedArticleExample | assets/js/navbar.js:109-113 | `/articles/my-post.html` marks Articles and not Home |
| Active.NestedIndexHighlightsTwo | assets/js/navbar.js:107-116 | `/articles/index.html` marks both Home and Articles, so at most one active link is not an invariant |
| Active.RootTargetsArePageNames | assets/js/navbar.js:39-44 | at the root, Home targets `index.html` and the entries after Home target the page names in order |
| Active.RootTargetSuffixes | assets/js/navbar.js:39-44 | a root-level target ends with the k-th page name exactly when it is that page's own entry |
| Active.SubNavPageActiveIffSegment | assets/js/navbar.js:107-116 | on a sub-navigation page without `/articles/`, the table is at the root and an entry is active exactly when its target equals the last segment |
| Active.SubNavPageHighlight | assets/js/navbar.js:107-116 | on such a page Home is never active, and the entry of the k-th page is active exactly when the last segment is that page name |
| Active.RootPageHighlight | assets/js/navbar.js:107-116 | the root-level page of the k-th page name marks exactly its own entry, for example `/why-hire-me.html` marks only Why Hire Me |
| Active.UnlistedRootPageMarksNothing | assets/js/navbar.js:107-116 | a root-level sub-navigation page whose file name is not one of the page names marks no link |
| Active.LoosePageNameMarksNothing | assets/js/navbar.js:28-116 | `/my-articles.html` selects the sub navigation, yet no link is marked |
| Toggle.ConsistentStates | assets/js/navbar.js:127-145 | the flags agree with each other exactly in the closed menu and the open menu |
| Toggle.ToggleTwiceRestores | assets/js/navbar.js:129-133 | two toggle clicks restore every state |
| Toggle.ToggleSwitches | assets/js/navbar.js:129-133 | a toggle click opens the closed menu and closes the open one |
| Toggle.LinkClickCloses | assets/js/navbar.js:138-143 | a link click while the header shows the menu closes it; otherwise it changes nothing; a second link click changes nothing |
| Toggle.StepConsistent | assets/js/navbar.js:127-145 | each click keeps the three flags consistent |
| Toggle.RunConsistent | assets/js/navbar.js:127-145 | from a consistent state, every sequence of clicks ends in a consistent state |
| Toggle.RunConcat | assets/js/navbar.js:127-145 | clicks handled one after another compose: handling `a + b` is handling `a` and then `b` |
| Toggle.RunThenLinkClickCloses | assets/js/navbar.js:127-145 | starting from the rendered markup, any clicks followed by a link click leave the menu closed |
| Toggle.Menu.constructor | assets/js/navbar.js:36 | the rendered toggle button carries `bi-list`; the header does not show the menu |
| Toggle.Menu.OnToggleClick | assets/js/navbar.js:129-133 | the handler toggles all three flags, as `ToggleClick` does, and keeps them consistent |
| Toggle.Menu.OnLinkClick | assets/js/navbar.js:138-143 | the handler does what `LinkClick` does, and from a consistent state the menu ends closed |
| Strings.LastSegment | assets/js/navbar.js:107 | `split('/').pop()`: the result has no `/`, is a suffix of the path, and is preceded by `/` whenever it is shorter than the path |
| Strings.LastSegmentOfName | assets/js/navbar.js:107 | the last segment of a directory, `/` and a name without `/` is that name |
| Strings.CountOfOccurrence | assets/js/navbar.js:13 | a path containing a piece has at least as many slashes as the piece, which is what makes the split-length test redundant |

## Left out

- Inserting the header into the document is not modelled (lines 85-91).
  This covers `getElementById`, setting `innerHTML`, and the
  `insertAdjacentHTML('afterbegin', …)` used as a fallback. It is browser
  plumbing; the model stops at the table of entries.
- The `console.warn` diagnostic (line 89) is I/O and is not modelled.
- Listener registration is not modelled: `addEventListener`, and the
  `querySelector`/`querySelectorAll` lookups (lines 95, 127-145). Only the
  effect of a click is modelled, so binding a handler twice on re-running
  the script is not captured either.
- When the toggle button is absent (line 128), the script binds no toggle
  handler, and the link handler at line 141 would fail on a null button.
  The model assumes the button exists.
- The test at line 139 asks whether *any* element carries `header-show`.
  The model reads it as the header's own flag. In the rendered markup only
  the header can carry it.
- The markup, Bootstrap classes and icons of lines 34-81 are not modelled.
  Each entry keeps only its caption, target and `active` class.
- Reading `window.location.pathname` (line 8) is replaced by a parameter.
- Scroll-spy marking of main-navigation links is done in `main.js`
  (comment at lines 118-122); `main.js` is not part of this model.
- Re-rendering the header twice, and whether that duplicates it, is a
  property of the document and is not modelled.
