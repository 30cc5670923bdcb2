/** The page behaviour of script.js: the light/dark theme, the header
    shadow, the active navigation link, the newsletter form, the project
    search and the favourite button. The DOM nodes each handler touches
    are fields of a class; `localStorage` is a map from keys to strings. */
module Site {
  import opened Optional
  import opened Text
  import opened Patterns
  import opened Validators

  // ---------------------------------------------------------------------
  // Theme
  // ---------------------------------------------------------------------

  const Dark: string := "dark"
  const Light: string := "light"
  const ThemeKey: string := "theme"

  /** The parts of the page the theme handlers touch: the `data-theme`
      attribute of the root element, the `hidden` class on the moon and the
      sun icons, and the stored preferences. */
  datatype ThemeState = ThemeState(
    dataTheme: Option<string>,
    moonHidden: bool,
    sunHidden: bool,
    storage: map<string, string>)

  /** `localStorage.getItem('theme') || 'light'`: a missing or empty stored
      value falls back to the light theme. */
  function InitialTheme(stored: Option<string>): (r: string)
    ensures r == Light || (stored.Some? && r == stored.value)
    ensures r != []
    ensures stored.Some? && stored.value != [] ==> r == stored.value
  {
    if stored.Some? && stored.value != [] then stored.value else Light
  }

  /** The value stored under `key`, if any. */
  function Stored(storage: map<string, string>, key: string): Option<string>
  {
    if key in storage then Some(storage[key]) else None
  }

  /** The script as it runs on page load: only an initial theme of exactly
      "dark" touches the page. */
  function Loaded(s: ThemeState): ThemeState
  {
    if InitialTheme(Stored(s.storage, ThemeKey)) == Dark then
      s.(dataTheme := Some(Dark), moonHidden := true, sunHidden := false)
    else s
  }

  /** The theme button's click handler: a dark page turns light, any other
      page (no attribute, "light", anything else) turns dark; the new theme
      is stored and the icons follow it. */
  function ThemeClicked(s: ThemeState): ThemeState
  {
    if s.dataTheme == Some(Dark) then
      ThemeState(Some(Light), false, true, s.storage[ThemeKey := Light])
    else
      ThemeState(Some(Dark), true, false, s.storage[ThemeKey := Dark])
  }

  /** The page, the icons and the stored preference agree: the theme is
      light or dark, the moon is hidden exactly on a dark page, the sun
      exactly on a light one, and the stored theme is the page's. */
  predicate ThemeCoherent(s: ThemeState)
  {
    s.dataTheme.Some? && (s.dataTheme.value == Dark || s.dataTheme.value == Light) &&
    s.moonHidden == (s.dataTheme.value == Dark) && s.sunHidden == (s.dataTheme.value != Dark) &&
    Stored(s.storage, ThemeKey) == s.dataTheme
  }

  /** Only a stored "dark" changes the page on load; then the page is dark
      with the moon hidden and the sun shown. */
  lemma LoadedOnlyWhenDark(s: ThemeState)
    ensures Loaded(s) != s ==> Stored(s.storage, ThemeKey) == Some(Dark)
    ensures Stored(s.storage, ThemeKey) == Some(Dark) ==>
              Loaded(s).dataTheme == Some(Dark) && Loaded(s).moonHidden && !Loaded(s).sunHidden
    ensures Loaded(s).storage == s.storage
  {
  }

  /** A click flips dark to light and anything else to dark, stores the
      new theme, and leaves the page coherent whatever it was before; other
      stored keys are untouched. */
  lemma ThemeClickedCoherent(s: ThemeState)
    ensures ThemeCoherent(ThemeClicked(s))
    ensures ThemeClicked(s).dataTheme == Some(if s.dataTheme == Some(Dark) then Light else Dark)
    ensures forall key :: key != ThemeKey ==> Stored(ThemeClicked(s).storage, key) == Stored(s.storage, key)
  {
  }

  /** Two clicks give back the page they started from exactly when it was
      coherent; in particular a dark page comes back dark. */
  lemma ThemeTwoClicksIff(s: ThemeState)
    ensures ThemeClicked(ThemeClicked(s)) == s <==> ThemeCoherent(s)
    ensures s.dataTheme == Some(Dark) ==> ThemeClicked(ThemeClicked(s)).dataTheme == Some(Dark)
  {
    if ThemeCoherent(s) {
      assert ThemeClicked(ThemeClicked(s)).storage == s.storage;
    }
    if ThemeClicked(ThemeClicked(s)) == s {
      ThemeClickedCoherent(ThemeClicked(s));
    }
  }

  /** The theme parts of one loaded page. */
  class ThemeSwitch {
    var dataTheme: Option<string>
    var moonHidden: bool
    var sunHidden: bool
    var storage: map<string, string>

    function State(): ThemeState
      reads this
    {
      ThemeState(dataTheme, moonHidden, sunHidden, storage)
    }

    /** The page as served, after the load-time script ran. */
    constructor (served: ThemeState)
      ensures State() == Loaded(served)
    {
      dataTheme, moonHidden, sunHidden, storage :=
        served.dataTheme, served.moonHidden, served.sunHidden, served.storage;
      var current := InitialTheme(Stored(served.storage, ThemeKey));
      if current == Dark {
        dataTheme := Some(Dark);
        moonHidden := true;
        sunHidden := false;
      }
    }

    /** One click on the theme button. */
    method Click()
      modifies this
      ensures State() == ThemeClicked(old(State()))
      ensures ThemeCoherent(State())
    {
      if dataTheme == Some(Dark) {
        dataTheme := Some(Light);
        storage := storage[ThemeKey := Light];
        moonHidden := false;
        sunHidden := true;
      } else {
        dataTheme := Some(Dark);
        storage := storage[ThemeKey := Dark];
        moonHidden := true;
        sunHidden := false;
      }
      ThemeClickedCoherent(old(State()));
    }
  }

  // ---------------------------------------------------------------------
  // Header shadow
  // ---------------------------------------------------------------------

  datatype Shadow = StrongShadow | LightShadow

  /** The scroll handler's choice of header shadow for a scroll offset. */
  function HeaderShadow(offset: real): Shadow
  {
    if offset > 100.0 then StrongShadow else LightShadow
  }

  /** The strong shadow starts strictly after 100 pixels, and once reached
      it stays on for every larger offset. */
  lemma HeaderShadowThreshold(offset: real, further: real)
    ensures HeaderShadow(offset) == StrongShadow <==> offset > 100.0
    ensures HeaderShadow(100.0) == LightShadow
    ensures offset <= further && HeaderShadow(offset) == StrongShadow ==> HeaderShadow(further) == StrongShadow
  {
  }

  // ---------------------------------------------------------------------
  // Active navigation link
  // ---------------------------------------------------------------------

  /** A `section[id]`: its `offsetTop`, `offsetHeight` and `id`. */
  datatype Section = Section(top: real, height: real, id: string)

  /** A `.nav-link`: its `href` attribute, if set, and whether it carries
      the `active` class. */
  datatype NavLink = NavLink(href: Option<string>, active: bool)

  /** The section spans `[top, top + height)`. */
  predicate Covers(s: Section, position: real)
  {
    s.top <= position < s.top + s.height
  }

  /** The last section in document order that covers `position`. */
  function LastCovering(sections: seq<Section>, position: real): (r: Option<nat>)
    ensures r.Some? ==> r.value < |sections| && Covers(sections[r.value], position)
    ensures r.Some? ==> forall j :: r.value < j < |sections| ==> !Covers(sections[j], position)
    ensures r.None? ==> forall j :: 0 <= j < |sections| ==> !Covers(sections[j], position)
  {
    if sections == [] then None
    else if Covers(sections[|sections| - 1], position) then Some(|sections| - 1)
    else LastCovering(sections[..|sections| - 1], position)
  }

  /** A link after one pass of the inner loop for the section `id`. */
  function Marked(link: NavLink, id: string): NavLink
  {
    link.(active := link.href == Some("#" + id))
  }

  /** `updateActiveLink` for the scroll position `scrollY`: the links after
      the handler ran, as a function of the links before it. */
  function ActiveLinks(links: seq<NavLink>, sections: seq<Section>, scrollY: real): (r: seq<NavLink>)
    ensures |r| == |links|
  {
    match LastCovering(sections, scrollY + 150.0)
    case None => links
    case Some(j) => seq(|links|, k requires 0 <= k < |links| => Marked(links[k], sections[j].id))
  }

  /** When a section covers the position, exactly the links pointing at the
      last such section are active; otherwise every link keeps its class.
      No `href` changes. */
  lemma ActiveLinksMarkLastSection(links: seq<NavLink>, sections: seq<Section>, scrollY: real)
    ensures forall k :: 0 <= k < |links| ==> ActiveLinks(links, sections, scrollY)[k].href == links[k].href
    ensures LastCovering(sections, scrollY + 150.0).None? ==> ActiveLinks(links, sections, scrollY) == links
    ensures LastCovering(sections, scrollY + 150.0).Some? ==>
              var id := sections[LastCovering(sections, scrollY + 150.0).value].id;
              forall k :: 0 <= k < |links| ==>
                (ActiveLinks(links, sections, scrollY)[k].active <==> links[k].href == Some("#" + id))
  {
  }

  /** The navigation bar's links. */
  class NavBar {
    var links: seq<NavLink>

    constructor (initial: seq<NavLink>)
      ensures links == initial
    {
      links := initial;
    }

    /** The scroll handler: for every section covering the position, in
        document order, clear every link and mark those pointing at it. */
    method UpdateActiveLink(sections: seq<Section>, scrollY: real)
      modifies this
      ensures links == ActiveLinks(old(links), sections, scrollY)
    {
      var position := scrollY + 150.0;
      var i := 0;
      while i < |sections|
        invariant i <= |sections| && |links| == |old(links)|
        invariant LastCovering(sections[..i], position).None? ==> links == old(links)
        invariant LastCovering(sections[..i], position).Some? ==>
                    forall k :: 0 <= k < |links| ==>
                      links[k] == Marked(old(links)[k], sections[LastCovering(sections[..i], position).value].id)
      {
        assert sections[..i + 1][..i] == sections[..i];
        if Covers(sections[i], position) {
          var k := 0;
          while k < |links|
            invariant k <= |links| == |old(links)|
            invariant forall m :: 0 <= m < k ==> links[m] == Marked(old(links)[m], sections[i].id)
            invariant forall m :: k <= m < |links| ==> links[m].href == old(links)[m].href
          {
            links := links[k := links[k].(active := false)];
            if links[k].href == Some("#" + sections[i].id) {
              links := links[k := links[k].(active := true)];
            }
            k := k + 1;
          }
        }
        i := i + 1;
      }
      assert sections[..i] == sections;
    }
  }

  // ---------------------------------------------------------------------
  // Newsletter
  // ---------------------------------------------------------------------

  /** The newsletter's `input` handler: every whitespace character is
      deleted as it is typed. */
  function NewsletterFilter(value: string): string
  {
    Remove(value, IsWhitespace)
  }

  /** The filtered value has no whitespace left, so trimming it changes
      nothing, and filtering again changes nothing. */
  lemma NewsletterFilterClean(value: string)
    ensures !HasWhitespace(NewsletterFilter(value))
    ensures Trim(NewsletterFilter(value)) == NewsletterFilter(value)
    ensures NewsletterFilter(NewsletterFilter(value)) == NewsletterFilter(value)
  {
    TrimWithoutWhitespace(NewsletterFilter(value));
    RemoveIdempotent(value, IsWhitespace);
  }

  /** The newsletter's `submit` test: the trimmed value is a Gmail
      address. */
  predicate GmailAccepted(value: string)
  {
    MatchesGmail(Trim(value))
  }

  /** An accepted newsletter address also passes the general email
      validator once trimmed. */
  lemma GmailAcceptedIsEmail(value: string)
    requires GmailAccepted(value)
    ensures MatchesEmail(Trim(value))
    ensures ValidateEmail(Trim(value)) == Accepted
  {
    GmailIsEmail(Trim(value));
    TrimIdempotent(value);
    EmailAcceptedIff(Trim(value));
  }

  /** The domain is compared case-sensitively: whatever precedes it,
      "@Gmail.com" is rejected. */
  lemma GmailCaseSensitive(local: string)
    ensures !GmailAccepted(local + "@Gmail.com")
  {
    var s := local + "@Gmail.com";
    assert s[|s| - 10..] == "@Gmail.com";
    assert !IsWhitespace(s[|s| - 1]);
    TrimKeepsEnd(s);
    CapitalSuffixNotGmail(s, Trim(s));
  }

  /** No suffix of a string ending in "@Gmail.com" is a Gmail address. */
  lemma CapitalSuffixNotGmail(s: string, r: string)
    requires |s| >= 10 && s[|s| - 10..] == "@Gmail.com" && |r| <= |s| && r == s[|s| - |r|..]
    ensures !MatchesGmail(r)
  {
    if |r| > |GmailSuffix| {
      assert r[|r| - |GmailSuffix|..] == s[|s| - 10..];
      assert "@Gmail.com"[1] != GmailSuffix[1];
    }
  }

  /** One newsletter form's email input. */
  class NewsletterForm {
    var email: string

    constructor ()
      ensures email == []
    {
      email := [];
    }

    /** Typing into the input. */
    method Input(typed: string)
      modifies this
      ensures email == NewsletterFilter(typed)
      ensures !HasWhitespace(email)
    {
      email := Remove(typed, IsWhitespace);
      NewsletterFilterClean(typed);
    }

    /** Submitting: an accepted address empties the input, a rejected one
        leaves it as it was. */
    method Submit() returns (ok: bool)
      modifies this
      ensures ok <==> GmailAccepted(old(email))
      ensures ok ==> email == []
      ensures !ok ==> email == old(email)
    {
      var trimmed := Trim(email);
      if !MatchesGmail(trimmed) {
        return false;
      }
      email := [];
      ok := true;
    }
  }

  // ---------------------------------------------------------------------
  // Project search
  // ---------------------------------------------------------------------

  /** A `.project-card`: its title and address text, and the `display`
      style of the column that holds it. */
  datatype ProjectCard = ProjectCard(title: string, address: string, display: string)

  /** The search handler's test for one card. */
  predicate CardShown(term: string, title: string, address: string)
  {
    Contains(Lower(title), Lower(term)) || Contains(Lower(address), Lower(term))
  }

  /** Lower-casing keeps a contiguous occurrence. */
  lemma LowerKeepsContains(haystack: string, needle: string)
    requires Contains(haystack, needle)
    ensures Contains(Lower(haystack), Lower(needle))
  {
    var i :| 0 <= i <= |haystack| && needle <= haystack[i..];
    assert Lower(needle) <= Lower(haystack)[i..];
  }

  /** An empty search shows every card; a term that occurs as written in
      the title or the address shows its card; and the case of the term
      does not matter. */
  lemma CardShownProperties(term: string, title: string, address: string)
    ensures CardShown([], title, address)
    ensures Contains(title, term) || Contains(address, term) ==> CardShown(term, title, address)
    ensures CardShown(Lower(term), title, address) == CardShown(term, title, address)
  {
    ContainsEmpty(Lower(title));
    if Contains(title, term) {
      LowerKeepsContains(title, term);
    }
    if Contains(address, term) {
      LowerKeepsContains(address, term);
    }
    LowerIdempotent(term);
  }

  /** The grid of project cards. */
  class ProjectGrid {
    var cards: seq<ProjectCard>

    constructor (initial: seq<ProjectCard>)
      ensures cards == initial
    {
      cards := initial;
    }

    /** The search input's handler: each card's column is shown or hidden
        by the test. */
    method Search(term: string)
      modifies this
      ensures |cards| == |old(cards)|
      ensures forall k :: 0 <= k < |cards| ==>
                cards[k].title == old(cards)[k].title && cards[k].address == old(cards)[k].address
      ensures forall k :: 0 <= k < |cards| ==>
                cards[k].display == (if CardShown(term, cards[k].title, cards[k].address) then "block" else "none")
    {
      var searchTerm := Lower(term);
      var k := 0;
      while k < |cards|
        invariant k <= |cards| == |old(cards)|
        invariant forall m :: 0 <= m < |cards| ==>
                    cards[m].title == old(cards)[m].title && cards[m].address == old(cards)[m].address
        invariant forall m :: 0 <= m < k ==>
                    cards[m].display == (if CardShown(term, cards[m].title, cards[m].address) then "block" else "none")
      {
        var title := Lower(cards[k].title);
        var address := Lower(cards[k].address);
        if Contains(title, searchTerm) || Contains(address, searchTerm) {
          cards := cards[k := cards[k].(display := "block")];
        } else {
          cards := cards[k := cards[k].(display := "none")];
        }
        k := k + 1;
      }
    }
  }

  // ---------------------------------------------------------------------
  // Favourite button
  // ---------------------------------------------------------------------

  const Regular: string := "fa-regular"
  const Solid: string := "fa-solid"
  const SavedKey: string := "property_saved"

  /** The heart icon's class list and colour, and the stored preferences. */
  datatype HeartState = HeartState(classes: set<string>, color: string, storage: map<string, string>)

  /** `classList.replace(token, newToken)`: when `token` is present it
      gives way to `newToken`; otherwise nothing changes. */
  function Replace(classes: set<string>, token: string, newToken: string): (r: set<string>)
    ensures token in classes && token != newToken ==> token !in r && newToken in r
    ensures token !in classes ==> r == classes
    ensures forall c :: c != token && c != newToken ==> (c in r <==> c in classes)
  {
    if token in classes then classes - {token} + {newToken} else classes
  }

  /** `toggleSave`: a hollow heart becomes a solid red one and the
      property is stored as saved; any other heart loses its solid class to
      the hollow one, takes the default colour, and is stored as not
      saved. */
  function ToggledSave(s: HeartState): HeartState
  {
    if Regular in s.classes then
      HeartState(Replace(s.classes, Regular, Solid), "red", s.storage[SavedKey := "true"])
    else
      HeartState(Replace(s.classes, Solid, Regular), "", s.storage[SavedKey := "false"])
  }

  /** The heart shows exactly one of the two styles, and the colour and the
      stored flag agree with it. */
  predicate HeartInSync(s: HeartState)
  {
    (Regular in s.classes && Solid !in s.classes && s.color == "" && Stored(s.storage, SavedKey) == Some("false")) ||
    (Solid in s.classes && Regular !in s.classes && s.color == "red" && Stored(s.storage, SavedKey) == Some("true"))
  }

  /** After a toggle the stored flag says "true" exactly when the heart is
      now solid. */
  lemma SavedFlagFollowsHeart(s: HeartState)
    ensures Stored(ToggledSave(s).storage, SavedKey) == Some("true") <==> Solid in ToggledSave(s).classes
    ensures Stored(ToggledSave(s).storage, SavedKey) == Some("true") || Stored(ToggledSave(s).storage, SavedKey) == Some("false")
  {
  }

  /** A heart showing exactly one style stays in sync across a toggle, and
      two toggles give back where it started. */
  lemma TwoTogglesRestore(s: HeartState)
    requires (Regular in s.classes) != (Solid in s.classes)
    ensures HeartInSync(ToggledSave(s))
    ensures HeartInSync(s) ==> ToggledSave(ToggledSave(s)) == s
  {
    if HeartInSync(s) {
      assert ToggledSave(ToggledSave(s)).classes == s.classes;
      assert ToggledSave(ToggledSave(s)).storage == s.storage;
    }
  }

  /** The heart icon of a property page. */
  class FavouriteButton {
    var classes: set<string>
    var color: string
    var storage: map<string, string>

    function State(): HeartState
      reads this
    {
      HeartState(classes, color, storage)
    }

    constructor (initial: HeartState)
      ensures State() == initial
    {
      classes, color, storage := initial.classes, initial.color, initial.storage;
    }

    /** One click on the save button. */
    method ToggleSave()
      modifies this
      ensures State() == ToggledSave(old(State()))
    {
      if Regular in classes {
        classes := Replace(classes, Regular, Solid);
        color := "red";
        storage := storage[SavedKey := "true"];
      } else {
        classes := Replace(classes, Solid, Regular);
        color := "";
        storage := storage[SavedKey := "false"];
      }
    }
  }
}
