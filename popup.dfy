/** The popup page (popup.js): its `state` object and the handlers that update it, the
    search filter over the IDE buttons, and the keyboard shortcuts. The page's DOM is
    reduced to the values the handlers read from it. */
module Popup {
  import opened Wrappers
  import opened Text
  import opened Lists
  import opened Storage

  /** A favourite IDE (`{ name, url }`). */
  datatype Favorite = Favorite(name: string, url: string)

  /** The key `toggleFavorite` removes favourites by. */
  function FavoriteUrl(f: Favorite): string {
    f.url
  }

  // ---------------------------------------------------------------------------
  // Theme

  /** The theme `toggleTheme` switches to: `'dark'` from `'light'`, `'light'` from anything else. */
  function NextTheme(theme: string): (t: string)
    ensures t == "dark" <==> theme == "light"
    ensures t == "light" <==> theme != "light"
  {
    if theme == "light" then "dark" else "light"
  }

  /** Toggling always changes the theme, and toggling twice from light or dark returns to it. */
  lemma NextThemeFlips(theme: string)
    ensures NextTheme(theme) != theme
    ensures theme == "light" || theme == "dark" ==> NextTheme(NextTheme(theme)) == theme
  {
  }

  // ---------------------------------------------------------------------------
  // Search

  /** What the search reads from one IDE button: its name, its description (`None` on the
      button of a favourite, which has no description element) and its tag texts. */
  datatype IdeButton = IdeButton(name: string, description: Option<string>, tags: seq<string>)

  /** The search rule: the lower-cased query occurs in the lower-cased name, description or
      some tag. A button without a description is matched on its name and tags. */
  predicate Matches(b: IdeButton, query: string) {
    var q := Lower(query);
    || Contains(Lower(b.name), q)
    || (b.description.Some? && Contains(Lower(b.description.value), q))
    || exists t :: t in b.tags && Contains(Lower(t), q)
  }

  /** The empty string occurs in every string. */
  lemma ContainsEmpty(s: string)
    ensures Contains(s, "")
  {
    assert s[..0] == "";
  }

  /** An empty query matches every button. */
  lemma EmptyQueryMatches(b: IdeButton)
    ensures Matches(b, "")
  {
    ContainsEmpty(Lower(b.name));
  }

  /** Lower-casing works character by character, so it distributes over concatenation. */
  lemma LowerAppend(a: string, b: string)
    ensures Lower(a + b) == Lower(a) + Lower(b)
  {
    assert forall i :: 0 <= i < |a + b| ==> Lower(a + b)[i] == (Lower(a) + Lower(b))[i];
  }

  /** Lower-casing twice is lower-casing once. */
  lemma LowerIdempotent(s: string)
    ensures Lower(Lower(s)) == Lower(s)
  {
    assert forall i :: 0 <= i < |s| ==> Lower(Lower(s))[i] == Lower(s)[i];
  }

  /** A string that contains `p + x` contains `p`. */
  lemma ContainsPrefix(s: string, p: string, x: string)
    requires Contains(s, p + x)
    ensures Contains(s, p)
  {
    var i := IndexOf(s, p + x).value;
    assert s[i..i + |p|] == (p + x)[..|p|];
    assert OccursAt(s, p, i);
  }

  /** Typing more characters can only hide buttons: a button that matches the longer query
      matches every prefix of it. */
  lemma NarrowingHides(b: IdeButton, query: string, more: string)
    requires Matches(b, query + more)
    ensures Matches(b, query)
  {
    LowerAppend(query, more);
    var q, m := Lower(query), Lower(more);
    if Contains(Lower(b.name), q + m) {
      ContainsPrefix(Lower(b.name), q, m);
    } else if b.description.Some? && Contains(Lower(b.description.value), q + m) {
      ContainsPrefix(Lower(b.description.value), q, m);
    } else {
      var t :| t in b.tags && Contains(Lower(t), q + m);
      ContainsPrefix(Lower(t), q, m);
    }
  }

  /** The search ignores the case of the query. */
  lemma MatchIgnoresCase(b: IdeButton, query: string)
    ensures Matches(b, Lower(query)) == Matches(b, query)
  {
    LowerIdempotent(query);
  }

  /** `visible` holds, button by button, whether each button matches the query. */
  predicate VisibleAs(visible: seq<bool>, buttons: seq<IdeButton>, query: string) {
    |visible| == |buttons| && forall i :: 0 <= i < |buttons| ==> visible[i] == Matches(buttons[i], query)
  }

  /** Some button of the category matches the query. */
  predicate SomeMatch(buttons: seq<IdeButton>, query: string) {
    exists i :: 0 <= i < |buttons| && Matches(buttons[i], query)
  }

  /** The visibility `handleSearch` gives each button of a category. */
  method ButtonVisibility(buttons: seq<IdeButton>, query: string) returns (visible: seq<bool>)
    ensures VisibleAs(visible, buttons, query)
  {
    visible := [];
    var i := 0;
    while i < |buttons|
      invariant 0 <= i <= |buttons|
      invariant |visible| == i
      invariant forall j :: 0 <= j < i ==> visible[j] == Matches(buttons[j], query)
    {
      visible := visible + [Matches(buttons[i], query)];
      i := i + 1;
    }
  }

  /** `buttons.some(button => button.style.display !== 'none')`. */
  method AnyVisible(visible: seq<bool>) returns (shown: bool)
    ensures shown <==> exists i :: 0 <= i < |visible| && visible[i]
  {
    var i := 0;
    while i < |visible|
      invariant 0 <= i <= |visible|
      invariant forall j :: 0 <= j < i ==> !visible[j]
    {
      if visible[i] {
        return true;
      }
      i := i + 1;
    }
    return false;
  }

  /** `handleSearch` (popup.js) as intended, reading a missing description as absent: every
      button is visible exactly when it matches the query, and every category is shown
      exactly when one of its buttons matches. */
  method HandleSearch(categories: seq<seq<IdeButton>>, query: string)
    returns (visible: seq<seq<bool>>, shown: seq<bool>)
    ensures |visible| == |categories| && |shown| == |categories|
    ensures forall c :: 0 <= c < |categories| ==> VisibleAs(visible[c], categories[c], query)
    ensures forall c :: 0 <= c < |categories| ==> (shown[c] <==> SomeMatch(categories[c], query))
  {
    visible, shown := [], [];
    var c := 0;
    while c < |categories|
      invariant 0 <= c <= |categories|
      invariant |visible| == c && |shown| == c
      invariant forall d :: 0 <= d < c ==> VisibleAs(visible[d], categories[d], query)
      invariant forall d :: 0 <= d < c ==> (shown[d] <==> SomeMatch(categories[d], query))
    {
      var v := ButtonVisibility(categories[c], query);
      var s := AnyVisible(v);
      assert s <==> SomeMatch(categories[c], query);
      visible, shown := visible + [v], shown + [s];
      c := c + 1;
    }
  }

  /** With an empty query every category that has a button is shown. */
  lemma EmptyQueryShowsAll(category: seq<IdeButton>)
    requires |category| > 0
    ensures SomeMatch(category, "")
  {
    EmptyQueryMatches(category[0]);
  }

  // ---------------------------------------------------------------------------
  // The search as written: it reads every button's description element

  /** The `TypeError` raised by `querySelector('.ide-description').textContent` on a button
      without a description element. */
  const MissingDescriptionError := "TypeError: Cannot read properties of null (reading 'textContent')"

  /** Every button of the page has a description. */
  predicate AllDescribed(categories: seq<seq<IdeButton>>) {
    forall c, i :: 0 <= c < |categories| && 0 <= i < |categories[c]| ==> categories[c][i].description.Some?
  }

  /** Every button up to and including button `i` of category `c`, in page order, has a description. */
  predicate DescribedThrough(categories: seq<seq<IdeButton>>, c: int, i: int)
    requires 0 <= c < |categories|
  {
    && (forall d, j :: 0 <= d < c && 0 <= j < |categories[d]| ==> categories[d][j].description.Some?)
    && (forall j :: 0 <= j <= i && j < |categories[c]| ==> categories[c][j].description.Some?)
  }

  /** One display flag per button of each category. */
  predicate Shaped(visible: seq<seq<bool>>, categories: seq<seq<IdeButton>>) {
    |visible| == |categories| && forall c :: 0 <= c < |categories| ==> |visible[c]| == |categories[c]|
  }

  /** What `handleSearch` as written leaves on a page whose buttons were displayed as `before`
      and whose categories as `shownBefore`: each button up to the first one without a
      description gets its match, the buttons from there on keep their display, and the
      categories are only updated when no read failed. */
  predicate SearchedAsWritten(categories: seq<seq<IdeButton>>, query: string, before: seq<seq<bool>>,
                              shownBefore: seq<bool>, visible: seq<seq<bool>>, shown: seq<bool>, error: Option<string>) {
    && Shaped(before, categories)
    && Shaped(visible, categories)
    && (forall c, i :: 0 <= c < |categories| && 0 <= i < |categories[c]| ==>
          visible[c][i] == if DescribedThrough(categories, c, i) then Matches(categories[c][i], query) else before[c][i])
    && (error.None? <==> AllDescribed(categories))
    && (error.Some? ==> error == Some(MissingDescriptionError) && shown == shownBefore)
    && (error.None? ==> |shown| == |categories|)
    && (error.None? ==> forall c :: 0 <= c < |categories| ==> (shown[c] <==> SomeMatch(categories[c], query)))
  }

  /** One category's buttons in the button loop of `handleSearch` as written: `stop` is the
      position of the first button without a description, where the loop throws. */
  method SearchCategoryAsWritten(buttons: seq<IdeButton>, query: string, before: seq<bool>)
    returns (row: seq<bool>, stop: Option<nat>)
    requires |before| == |buttons|
    ensures |row| == |buttons|
    ensures stop.Some? ==> stop.value < |buttons| && buttons[stop.value].description.None?
    ensures forall j :: 0 <= j < |buttons| && (stop.None? || j < stop.value) ==> buttons[j].description.Some?
    ensures forall j :: 0 <= j < |buttons| ==>
      row[j] == if stop.None? || j < stop.value then Matches(buttons[j], query) else before[j]
  {
    row := before;
    var i := 0;
    while i < |buttons|
      invariant 0 <= i <= |buttons| && |row| == |buttons|
      invariant forall j :: 0 <= j < i ==> buttons[j].description.Some?
      invariant forall j :: 0 <= j < |buttons| ==> row[j] == if j < i then Matches(buttons[j], query) else before[j]
    {
      if buttons[i].description.None? {
        return row, Some(i);
      }
      row := row[i := Matches(buttons[i], query)];
      i := i + 1;
    }
    stop := None;
  }

  /** A button that comes after one without a description is not reached. */
  lemma NotReached(categories: seq<seq<IdeButton>>, c: int, s: int, d: int, i: int)
    requires 0 <= c < |categories| && 0 <= s < |categories[c]| && categories[c][s].description.None?
    requires 0 <= d < |categories| && 0 <= i < |categories[d]| && (c < d || (c == d && s <= i))
    ensures !DescribedThrough(categories, d, i)
  {
  }

  /** The category loop of `handleSearch`: a category is shown when one of its buttons is displayed. */
  method ShowCategories(visible: seq<seq<bool>>) returns (shown: seq<bool>)
    ensures |shown| == |visible|
    ensures forall c :: 0 <= c < |visible| ==> (shown[c] <==> exists i :: 0 <= i < |visible[c]| && visible[c][i])
  {
    shown := [];
    var c := 0;
    while c < |visible|
      invariant 0 <= c <= |visible| && |shown| == c
      invariant forall d :: 0 <= d < c ==> (shown[d] <==> exists i :: 0 <= i < |visible[d]| && visible[d][i])
    {
      var s := AnyVisible(visible[c]);
      shown := shown + [s];
      c := c + 1;
    }
  }

  /** `handleSearch` (popup.js) as written. The button loop reads every button's description
      element; on the first button without one (a favourite's) it throws, so the buttons from
      there on keep their display and the category loop does not run. */
  method HandleSearchAsWritten(categories: seq<seq<IdeButton>>, query: string, before: seq<seq<bool>>, shownBefore: seq<bool>)
    returns (visible: seq<seq<bool>>, shown: seq<bool>, error: Option<string>)
    requires Shaped(before, categories)
    ensures SearchedAsWritten(categories, query, before, shownBefore, visible, shown, error)
  {
    visible := before;
    var c := 0;
    while c < |categories|
      invariant 0 <= c <= |categories| && Shaped(visible, categories)
      invariant forall d, j :: 0 <= d < c && 0 <= j < |categories[d]| ==> categories[d][j].description.Some?
      invariant forall d, i :: 0 <= d < |categories| && 0 <= i < |categories[d]| ==>
        visible[d][i] == if d < c then Matches(categories[d][i], query) else before[d][i]
    {
      var row, stop := SearchCategoryAsWritten(categories[c], query, before[c]);
      visible := visible[c := row];
      if stop.Some? {
        forall d, i | 0 <= d < |categories| && 0 <= i < |categories[d]|
          ensures visible[d][i] == if DescribedThrough(categories, d, i) then Matches(categories[d][i], query) else before[d][i]
        {
          if c < d || (c == d && stop.value <= i) {
            NotReached(categories, c, stop.value, d, i);
          }
        }
        assert !AllDescribed(categories) by {
          assert categories[c][stop.value].description.None?;
        }
        return visible, shownBefore, Some(MissingDescriptionError);
      }
      c := c + 1;
    }
    shown := ShowCategories(visible);
    error := None;
  }

  /** Without favourites on the page the search as written does what is intended. */
  lemma DescribedSearchAsIntended(categories: seq<seq<IdeButton>>, query: string, before: seq<seq<bool>>,
                                  shownBefore: seq<bool>, visible: seq<seq<bool>>, shown: seq<bool>, error: Option<string>)
    requires SearchedAsWritten(categories, query, before, shownBefore, visible, shown, error)
    requires AllDescribed(categories)
    ensures error.None? && |shown| == |categories|
    ensures forall c :: 0 <= c < |categories| ==> VisibleAs(visible[c], categories[c], query)
    ensures forall c :: 0 <= c < |categories| ==> (shown[c] <==> SomeMatch(categories[c], query))
  {
    forall c, i | 0 <= c < |categories| && 0 <= i < |categories[c]| ensures visible[c][i] == Matches(categories[c][i], query) {
      assert DescribedThrough(categories, c, i);
    }
  }

  /** When the first button of the page is a favourite's, the search as written changes
      nothing on the page and fails. */
  lemma FavoriteFirstFreezesSearch(categories: seq<seq<IdeButton>>, query: string, before: seq<seq<bool>>,
                                   shownBefore: seq<bool>, visible: seq<seq<bool>>, shown: seq<bool>, error: Option<string>)
    requires SearchedAsWritten(categories, query, before, shownBefore, visible, shown, error)
    requires |categories| > 0 && |categories[0]| > 0 && categories[0][0].description.None?
    ensures visible == before && shown == shownBefore && error == Some(MissingDescriptionError)
  {
    forall c | 0 <= c < |categories| ensures visible[c] == before[c] {
      forall i | 0 <= i < |categories[c]| ensures visible[c][i] == before[c][i] {
        NotReached(categories, 0, 0, c, i);
      }
    }
    assert !AllDescribed(categories);
  }

  /** The discrepancy on a concrete page: one favourite "Go", and the query "xyz". The intended
      search hides the button, as it does not match; the search as written leaves it, and its
      category, displayed. */
  lemma FavoriteStaysVisible(visible: seq<seq<bool>>, shown: seq<bool>, error: Option<string>)
    requires SearchedAsWritten([[IdeButton("Go", None, [])]], "xyz", [[true]], [true], visible, shown, error)
    ensures !Matches(IdeButton("Go", None, []), "xyz")
    ensures visible == [[true]] && shown == [true] && error.Some?
  {
    assert |Lower("xyz")| > |Lower("Go")|;
    FavoriteFirstFreezesSearch([[IdeButton("Go", None, [])]], "xyz", [[true]], [true], visible, shown, error);
  }

  // ---------------------------------------------------------------------------
  // Keyboard shortcuts

  predicate IsDigit(c: char) {
    '0' <= c <= '9'
  }

  /** The value of one decimal digit. */
  function DigitValue(c: char): nat
    requires IsDigit(c)
  {
    c as int - '0' as int
  }

  /** The value of a string of decimal digits. */
  function DigitsValue(s: string): nat
    requires forall i :: 0 <= i < |s| ==> IsDigit(s[i])
    decreases |s|
  {
    if s == [] then 0 else DigitsValue(s[..|s| - 1]) * 10 + DigitValue(s[|s| - 1])
  }

  /** A key name made only of digits, the keys for which `!isNaN(key)` holds and `parseInt(key)` reads them all. */
  predicate IsNumberKey(key: string) {
    |key| > 0 && forall i :: 0 <= i < |key| ==> IsDigit(key[i])
  }

  /** The quick-launch slot a key press selects (popup.js, `handleKeyboardShortcut`):
      Alt held, Ctrl not held, and the key a number from 1 to 9. */
  function QuickLaunchIndex(key: string, alt: bool, ctrl: bool): (r: Option<nat>)
    ensures r.Some? ==> alt && !ctrl && IsNumberKey(key) && 1 <= r.value <= 9
    ensures r.Some? ==> r.value == DigitsValue(key)
    ensures alt && !ctrl && IsNumberKey(key) && 1 <= DigitsValue(key) <= 9 ==> r.Some?
  {
    if alt && !ctrl && IsNumberKey(key) && 1 <= DigitsValue(key) <= 9 then Some(DigitsValue(key)) else None
  }

  /** Alt with one of the keys `1` to `9` launches that slot; `0` launches nothing. */
  lemma QuickLaunchDigits(d: char)
    requires IsDigit(d)
    ensures QuickLaunchIndex([d], true, false) == if d == '0' then None else Some(DigitValue(d))
  {
    assert [d][..0] == [];
    assert DigitsValue([d]) == DigitValue(d);
  }

  /** What a key press does in the popup. */
  datatype KeyAction = FocusSearch | ShowHelp | QuickLaunch(slot: nat)

  /** `handleKeyboardShortcut` (popup.js): the actions one key press triggers, in the order the
      handler checks them. */
  function KeyActions(key: string, alt: bool, ctrl: bool): (r: seq<KeyAction>)
    ensures FocusSearch in r <==> key == "/" && !ctrl && !alt
    ensures ShowHelp in r <==> key == "?" && !ctrl && !alt
    ensures forall n: nat :: QuickLaunch(n) in r <==> QuickLaunchIndex(key, alt, ctrl) == Some(n)
  {
    (if key == "/" && !ctrl && !alt then [FocusSearch] else [])
    + (if key == "?" && !ctrl && !alt then [ShowHelp] else [])
    + (match QuickLaunchIndex(key, alt, ctrl) case Some(n) => [QuickLaunch(n)] case None => [])
  }

  /** A key press triggers at most one action. */
  lemma AtMostOneAction(key: string, alt: bool, ctrl: bool)
    ensures |KeyActions(key, alt, ctrl)| <= 1
  {
    if QuickLaunchIndex(key, alt, ctrl).Some? {
      assert IsDigit(key[0]);
    }
  }

  // ---------------------------------------------------------------------------
  // The popup's state

  /** The popup's module-level `state`, reduced to the fields its handlers update. Each
      handler may change only the field its `modifies` clause names. */
  class PopupState {
    var theme: string
    var gridView: bool
    var compactMode: bool
    var favorites: seq<Favorite>
    var customIdes: seq<CustomIde>
    var expandedCategories: Option<map<string, bool>>

    /** The initial `state` literal. */
    constructor ()
      ensures theme == "light" && !gridView && !compactMode
      ensures favorites == [] && customIdes == [] && expandedCategories == None
    {
      theme := "light";
      gridView := false;
      compactMode := false;
      favorites := [];
      customIdes := [];
      expandedCategories := None;
    }

    /** `toggleTheme`. */
    method ToggleTheme()
      modifies this`theme
      ensures theme == NextTheme(old(theme))
    {
      theme := if theme == "light" then "dark" else "light";
    }

    /** `toggleView`. */
    method ToggleView()
      modifies this`gridView
      ensures gridView == !old(gridView)
    {
      gridView := !gridView;
    }

    /** `toggleCompactMode`. */
    method ToggleCompactMode()
      modifies this`compactMode
      ensures compactMode == !old(compactMode)
    {
      compactMode := !compactMode;
    }

    /** `toggleFavorite`: `isFavorite` is whether the button's star was filled. A favourite
        loses every entry with its URL; any other button is appended as `{ name, url }`. */
    method ToggleFavorite(url: string, name: string, isFavorite: bool)
      modifies this`favorites
      ensures isFavorite ==> favorites == Without(old(favorites), FavoriteUrl, url)
      ensures !isFavorite ==> favorites == old(favorites) + [Favorite(name, url)]
    {
      if isFavorite {
        favorites := Without(favorites, FavoriteUrl, url);
      } else {
        favorites := favorites + [Favorite(name, url)];
      }
    }

    /** `toggleCategory`: `wasExpanded` is whether the category's content was expanded. The
        new state is recorded under the category's id, creating the map when absent. */
    method ToggleCategory(categoryId: string, wasExpanded: bool) returns (isExpanded: bool)
      modifies this`expandedCategories
      ensures isExpanded == !wasExpanded
      ensures expandedCategories == Some(old(expandedCategories).GetOr(map[])[categoryId := isExpanded])
    {
      isExpanded := !wasExpanded;
      var expanded := expandedCategories.GetOr(map[]);
      expandedCategories := Some(expanded[categoryId := isExpanded]);
    }

    /** The custom-IDE dialog's save handler: nothing happens unless both the name and the
        URL are filled in; otherwise one entry is appended. */
    method SaveCustomIde(name: string, url: string, tagsInput: string, description: string)
      modifies this`customIdes
      ensures name == "" || url == "" ==> customIdes == old(customIdes)
      ensures name != "" && url != "" ==>
        customIdes == old(customIdes) + [CustomIde(name, url, Tags(tagsInput), description)]
    {
      if name == "" || url == "" {
        return;
      }
      customIdes := customIdes + [CustomIde(name, url, Tags(tagsInput), description)];
    }
  }

  /** Starring a button that was not a favourite and then unstarring it restores the list. */
  lemma FavoriteToggleTwice(favorites: seq<Favorite>, name: string, url: string)
    requires forall f :: f in favorites ==> f.url != url
    ensures Without(favorites + [Favorite(name, url)], FavoriteUrl, url) == favorites
  {
    AppendThenWithout(favorites, Favorite(name, url), FavoriteUrl);
  }
}
