/** The options page (options.js): the defaults it shows for absent settings and its
    read-modify-write updates of `chrome.storage.local`. */
module Options {
  import opened Wrappers
  import opened Lists
  import opened Storage

  // ---------------------------------------------------------------------------
  // Defaults

  /** `getDefaultShortcuts()`: the five default bindings, in the object's key order. */
  function DefaultShortcuts(): (s: seq<Shortcut>)
    ensures |s| == 5
    ensures forall i, j :: 0 <= i < j < |s| ==> s[i].action != s[j].action
  {
    [ Shortcut("search", "/"),
      Shortcut("help", "?"),
      Shortcut("vscode", "alt+1"),
      Shortcut("github", "alt+2"),
      Shortcut("codesandbox", "alt+3") ]
  }

  /** The key combination bound to `action`, if any. */
  function KeysFor(shortcuts: seq<Shortcut>, action: string): (r: Option<string>)
    ensures r.Some? <==> exists i :: 0 <= i < |shortcuts| && shortcuts[i].action == action
    ensures r.Some? ==> exists i :: 0 <= i < |shortcuts| && shortcuts[i] == Shortcut(action, r.value)
    decreases |shortcuts|
  {
    if shortcuts == [] then None
    else if shortcuts[0].action == action then Some(shortcuts[0].keys)
    else
      var r := KeysFor(shortcuts[1..], action);
      assert forall i :: 1 <= i < |shortcuts| ==> shortcuts[i] == shortcuts[1..][i - 1];
      r
  }

  /** The default bindings: `/` focuses the search, `?` opens the help, and Alt+1 to Alt+3
      open VS Code, GitHub and CodeSandbox. */
  lemma DefaultBindings()
    ensures KeysFor(DefaultShortcuts(), "search") == Some("/")
    ensures KeysFor(DefaultShortcuts(), "help") == Some("?")
    ensures KeysFor(DefaultShortcuts(), "vscode") == Some("alt+1")
    ensures KeysFor(DefaultShortcuts(), "github") == Some("alt+2")
    ensures KeysFor(DefaultShortcuts(), "codesandbox") == Some("alt+3")
  {
  }

  /** `value || fallback` for a stored string: an absent or empty value falls back. */
  function OrDefault(value: Option<string>, fallback: string): (r: string)
    ensures value.Some? && value.value != "" ==> r == value.value
    ensures value.None? || value.value == "" ==> r == fallback
  {
    if value.Some? && value.value != "" then value.value else fallback
  }

  /** What `loadSettings` shows. */
  datatype SettingsView = SettingsView(
    theme: string,
    colorScheme: string,
    gridView: bool,
    compactMode: bool,
    customIdes: seq<CustomIde>,
    shortcuts: seq<Shortcut>,
    history: seq<HistoryEntry>)

  /** `loadSettings` (options.js): each stored value, or its default when the key is absent
      (for the two strings, also when it is empty). */
  function LoadSettings(data: LocalData): (v: SettingsView)
    ensures v.theme != "" && v.colorScheme != ""
    ensures data.theme.None? ==> v.theme == "system"
    ensures data.colorScheme.None? ==> v.colorScheme == "blue"
    ensures data.gridView.None? ==> !v.gridView
    ensures data.compactMode.None? ==> !v.compactMode
    ensures data.customIdes.None? ==> v.customIdes == []
    ensures data.shortcuts.None? ==> v.shortcuts == DefaultShortcuts()
    ensures data.history.None? ==> v.history == []
  {
    SettingsView(
      OrDefault(data.theme, "system"),
      OrDefault(data.colorScheme, "blue"),
      data.gridView.GetOr(false),
      data.compactMode.GetOr(false),
      data.customIdes.GetOr([]),
      data.shortcuts.GetOr(DefaultShortcuts()),
      data.history.GetOr([]))
  }

  /** A stored value that is present (and, for a string, non-empty) is shown as stored. */
  lemma LoadShowsStored(data: LocalData)
    ensures data.theme.Some? && data.theme.value != "" ==> LoadSettings(data).theme == data.theme.value
    ensures data.colorScheme.Some? && data.colorScheme.value != "" ==>
      LoadSettings(data).colorScheme == data.colorScheme.value
    ensures data.gridView.Some? ==> LoadSettings(data).gridView == data.gridView.value
    ensures data.compactMode.Some? ==> LoadSettings(data).compactMode == data.compactMode.value
    ensures data.customIdes.Some? ==> LoadSettings(data).customIdes == data.customIdes.value
    ensures data.shortcuts.Some? ==> LoadSettings(data).shortcuts == data.shortcuts.value
    ensures data.history.Some? ==> LoadSettings(data).history == data.history.value
  {
  }

  /** After `resetSettings` clears the area, the page shows every default. */
  lemma LoadAfterClear()
    ensures LoadSettings(NoSettings()) == SettingsView("system", "blue", false, false, [], DefaultShortcuts(), [])
  {
  }

  /** Resetting the shortcuts shows the same bindings as having none stored. */
  lemma ResetShortcutsShowsDefaults(data: LocalData)
    ensures LoadSettings(data.(shortcuts := Some(DefaultShortcuts()))).shortcuts
         == LoadSettings(data.(shortcuts := None)).shortcuts
  {
  }

  // ---------------------------------------------------------------------------
  // Updates of the stored settings

  /** The `TypeError` `removeCustomIde` raises when no list is stored. */
  const MissingListError := "TypeError: Cannot read properties of undefined (reading 'filter')"

  /** `addCustomIde` (options.js): with a name and a URL, append one entry to the stored
      list (an absent list counting as empty); otherwise touch nothing. */
  method AddCustomIde(store: LocalArea, name: string, url: string, tagsInput: string, description: string,
                      getFault: Option<string>, setFault: Option<string>)
    returns (o: Outcome<string>)
    modifies store
    ensures name == "" || url == "" ==> o == Pass && store.data == old(store.data)
    ensures name != "" && url != "" && getFault.Some? ==>
      o == Fail(getFault.value) && store.data == old(store.data)
    ensures name != "" && url != "" && getFault.None? && setFault.Some? ==>
      o == Fail(setFault.value) && store.data == old(store.data)
    ensures name != "" && url != "" && getFault.None? && setFault.None? ==>
      && o == Pass
      && store.data == old(store.data).(customIdes := Some(
           old(store.data.customIdes).GetOr([]) + [CustomIde(name, url, Tags(tagsInput), description)]))
  {
    if name == "" || url == "" {
      return Pass;
    }
    if getFault.Some? {
      return Fail(getFault.value);
    }
    var customIdes := store.data.customIdes.GetOr([]);
    customIdes := customIdes + [CustomIde(name, url, Tags(tagsInput), description)];
    if setFault.Some? {
      return Fail(setFault.value);
    }
    store.data := store.data.(customIdes := Some(customIdes));
    o := Pass;
  }

  /** `removeCustomIde` (options.js): store the entries whose URL differs from `url`. With no
      list stored the call throws, as the source has no fallback there. */
  method RemoveCustomIde(store: LocalArea, url: string, getFault: Option<string>, setFault: Option<string>)
    returns (o: Outcome<string>)
    modifies store
    ensures getFault.Some? ==> o == Fail(getFault.value) && store.data == old(store.data)
    ensures getFault.None? && old(store.data.customIdes).None? ==>
      o == Fail(MissingListError) && store.data == old(store.data)
    ensures getFault.None? && old(store.data.customIdes).Some? && setFault.Some? ==>
      o == Fail(setFault.value) && store.data == old(store.data)
    ensures getFault.None? && old(store.data.customIdes).Some? && setFault.None? ==>
      && o == Pass
      && store.data == old(store.data).(customIdes := Some(Without(old(store.data.customIdes).value, IdeUrl, url)))
  {
    if getFault.Some? {
      return Fail(getFault.value);
    }
    if store.data.customIdes.None? {
      return Fail(MissingListError);
    }
    var customIdes := Without(store.data.customIdes.value, IdeUrl, url);
    if setFault.Some? {
      return Fail(setFault.value);
    }
    store.data := store.data.(customIdes := Some(customIdes));
    o := Pass;
  }

  /** `clearHistory` (options.js). */
  method ClearHistory(store: LocalArea, setFault: Option<string>) returns (o: Outcome<string>)
    modifies store
    ensures setFault.Some? ==> o == Fail(setFault.value) && store.data == old(store.data)
    ensures setFault.None? ==> o == Pass && store.data == old(store.data).(history := Some([]))
  {
    if setFault.Some? {
      return Fail(setFault.value);
    }
    store.data := store.data.(history := Some([]));
    o := Pass;
  }

  /** `resetShortcuts` (options.js). The stored bindings afterwards do not depend on what was
      stored before, so a second reset changes nothing. */
  method ResetShortcuts(store: LocalArea, setFault: Option<string>) returns (o: Outcome<string>)
    modifies store
    ensures setFault.Some? ==> o == Fail(setFault.value) && store.data == old(store.data)
    ensures setFault.None? ==> o == Pass && store.data == old(store.data).(shortcuts := Some(DefaultShortcuts()))
  {
    if setFault.Some? {
      return Fail(setFault.value);
    }
    var defaults := DefaultShortcuts();
    store.data := store.data.(shortcuts := Some(defaults));
    o := Pass;
  }

  /** `resetSettings` (options.js): once the user confirms, every stored key is removed. */
  method ResetSettings(store: LocalArea, confirmed: bool, clearFault: Option<string>) returns (o: Outcome<string>)
    modifies store
    ensures !confirmed ==> o == Pass && store.data == old(store.data)
    ensures confirmed && clearFault.Some? ==> o == Fail(clearFault.value) && store.data == old(store.data)
    ensures confirmed && clearFault.None? ==> o == Pass && store.data == NoSettings()
  {
    if !confirmed {
      return Pass;
    }
    if clearFault.Some? {
      return Fail(clearFault.value);
    }
    store.data := NoSettings();
    o := Pass;
  }

  /** Removing the URL of an entry just added, when no other entry had that URL, restores the list. */
  lemma RemoveUndoesAdd(ides: seq<CustomIde>, name: string, url: string, tagsInput: string, description: string)
    requires forall ide :: ide in ides ==> ide.url != url
    ensures Without(ides + [CustomIde(name, url, Tags(tagsInput), description)], IdeUrl, url) == ides
  {
    AppendThenWithout(ides, CustomIde(name, url, Tags(tagsInput), description), IdeUrl);
  }
}
