# Online IDE Opener, modelled in Dafny

This project models the core bookkeeping of the Online IDE Opener browser extension and proves properties about it. The model covers three pages of the extension.

- **Background worker** (`background.js`):
  - The worker keeps saved workspaces (a tab's title, URL and favicon, stamped with `created` and `lastModified`) in an insertion-ordered `Map`.
  - It synchronises that map with the `workspaces` key of `chrome.storage.sync`. Conflicts are resolved last-write-wins on `lastModified`.
  - It saves the current tab as a new workspace and trims the launch history to its last 100 entries.
  - It suggests online IDEs for GitHub and GitLab pages.
  - It merges per-tab performance reports and raises an alert when a report exceeds a threshold.
- **Popup** (`popup.js`):
  - Toggles for the theme, grid view and compact mode.
  - Starring and unstarring favourites, and recording expanded categories.
  - The search filter over IDE buttons and the categories that hold them.
  - Keyboard shortcuts, including Alt+1…9 quick launch.
  - The dialog that adds a custom IDE.
- **Options page** (`options.js`):
  - The defaults shown for settings that are not stored.
  - Read-modify-write updates of `chrome.storage.local`: adding and removing custom IDEs, clearing the history, and resetting the shortcuts or all settings.

## Modelling conventions

- JavaScript's `Map` is `OrderedMaps.OrderedMap`, a key order plus a map. `set` on a key that is already present keeps that key's position.
- Each store area is a class. `Storage.LocalArea` holds one `Option` per key of `chrome.storage.local`, where `None` means the key is absent. `Storage.SyncArea` holds the `workspaces` key of `chrome.storage.sync`.
- Any `get`, `set` or `clear` may reject. An operation receives that rejection as a fault message parameter (`Option<string>`) and reports it as `Outcome.Fail` or `SyncResult(false, error)`.
- `generateId()` and `Date.now()` are parameters.
- Notifications the worker raises are appended to a log field, `Background.Worker.notifications`.
- Each handler's `modifies` clause names only the fields it assigns, so every other field is unchanged by construction.
- Both the worker state and the popup state are classes whose methods update fields in place. The computations behind them are functions, and the properties are lemmas about those functions.

## Model

| member | source | states |
|---|---|---|
| Workspaces.MergeWorkspaces | background.js:180-192 | The loop's result equals `Merged(local, remote)`, the last-write-wins fold of `[...local, ...remote]` into an insertion-ordered map, read back as a list. |
| Workspaces.MergedIds | background.js:181-191 | The merged list holds exactly one record per distinct id of local ∪ remote: ids are unique, the id set is the inputs' id set, and the length is the number of distinct ids. |
| Workspaces.MergedFromInputs | background.js:184-189 | Every merged record is one of the input records, unmodified. |
| Workspaces.MergedOrder | background.js:181-191 | Merged records come in the order in which their ids first appear in local then remote. A replaced record keeps its first position. |
| Workspaces.MergedLatest | background.js:184-189 | Each merged record is a latest record for its id (no record with that id has a larger `lastModified`), the earliest such record on a tie. |
| Workspaces.FindMerged | background.js:184-191 | Looking an input id up in the merged list finds its latest input record. |
| Workspaces.RemoteWinsOnlyIfNewer | background.js:184-187 | With one local and one remote version of an id, the remote version wins iff its `lastModified` is strictly greater. A tie keeps the local version. |
| Workspaces.SoleRecordKept | background.js:184-189 | No loss: a record that is the only one carrying its id is in the merged list unchanged. |
| Workspaces.MergeScenario | tests/background.test.js:44-58 | For that test's input, the merge has 3 records, and id "2" keeps the local version with `lastModified` 200. |
| Workspaces.IndexValues | background.js:170 | Rebuilding `new Map(ws.map(w => [w.id, w]))` from a list without repeated ids and reading its values back gives the list. |
| Workspaces.MergeEmptyRemote | background.js:161-164 | With nothing stored remotely, a local list without repeated ids is written back as it is. |
| Workspaces.MergeIdempotent | background.js:180-192 | Merging the local list into an already merged result changes nothing: `Merged(x, Merged(x, y)) == Merged(x, y)`. |
| Workspaces.MergeSelf | background.js:180-192 | A list without repeated ids merged with itself comes back unchanged. |
| Workspaces.MergeDisjointCommutes | background.js:180-192 | When local and remote share no id, swapping them gives the same records, each exactly once; only the order can differ. |
| Workspaces.Index | background.js:170 | The rebuilt map stores every record under its own id, with each id listed once. |
| Background.Worker.constructor | background.js:4-10 | The worker starts with no workspaces, no performance data and no notifications. |
| Background.Worker.SyncWorkspaces | background.js:157-177 | A failing `get` or `set` returns `{success: false, error}` and leaves both the map and the store as they were. On success, an absent remote key counts as `[]`, the store receives the merge of the map's values with the remote list, the map is rebuilt from that list, and the result is `{success: true}`. |
| Background.SyncedStateMatchesStore | background.js:167-170 | After a successful sync, the map's values are exactly the list written to the store. |
| Background.SecondSyncIsStable | background.js:157-177 | A second sync against the list the first one stored writes the same list again. |
| Background.SyncWithoutRemote | background.js:159-167 | With nothing stored remotely, a successful sync writes the worker's records back unchanged and in their order. |
| Background.Worker.SaveWorkspace | background.js:195-217 | The record `{id, title, url, favicon, created: now, lastModified: now}` is in the map after the call whether or not the sync succeeds. When the sync fails, the map is the old map with that one entry added. When it succeeds, the store holds the merge including the record. One "Workspace Saved" notification names the tab title. |
| Background.SavedSurvivesSync | background.js:205-208 | A record saved under an id that neither side knew is still in the map after the sync that follows. |
| Background.CleanupHistory | background.js:372-381 | A failing `get` changes nothing. A history of at most 100 entries (an absent one counting as empty) is not written. A longer one is replaced by its last 100 entries, unless the write fails. |
| Background.LastEntries | background.js:377-378 | `slice(-n)` keeps a suffix of the history, exactly `n` long when the history was longer, otherwise the whole history. |
| Background.LastEntriesIdempotent | background.js:372-381 | Cleaning an already cleaned history keeps it as it is. |
| Background.FindCompatibleIdes | background.js:285-304 | There are `2·isGitHub + isGitLab` suggestions. For GitHub they are GitHub.dev (the first `github.com` in the URL replaced by `github.dev`) and Gitpod (`https://gitpod.io/#` + url), in that order. The GitLab Web IDE (`url + "/-/ide/"`) comes last. |
| Background.GitHubDevUrl | background.js:291 | For `https://github.com/<path>` the GitHub.dev suggestion is `https://github.dev/<path>`. |
| Background.MergePerf | background.js:307-312 | Merging a report into a tab's record: every figure the report carries overrides the old one, every other figure is kept, and the timestamp is the call time. |
| Background.MergePerfIdempotent | background.js:307-312 | Merging the same report twice at the same time gives the record of the first merge. |
| Background.PerformanceIssues | background.js:323-338 | "High load time" appears iff the load time is > 5000, "High memory usage" iff memory > 100·1024·1024, and "Many network requests" iff requests > 100. Nothing else appears, and the issues are in that order. |
| Background.PerformanceAlert | background.js:340-346 | The alert is titled "Performance Alert"; for a single issue the message is "Issues detected: " followed by that issue. |
| Background.AllIssuesAlert | background.js:340-346 | The alert for all three issues reads "Issues detected: High load time, High memory usage, Many network requests". |
| Background.CollectIssues | background.js:323-338 | The array built by the three `push`es is the issue list above. |
| Background.Worker.CheckPerformanceIssues | background.js:319-348 | A tab without a record, or with no issue, raises nothing. Otherwise exactly one "Performance Alert" notification lists the issues joined by ", ". |
| Background.Worker.ProcessPerformanceData | background.js:307-316 | The tab's record becomes the merge of the old record (if any) with the report, stamped with the call time, and an alert is raised iff the merged record has an issue. |
| Background.PerformanceScenario | tests/background.test.js:62-77 | A report of load time 6000, memory 150 MiB and 120 requests exceeds all three thresholds, whatever was stored before, and the alert lists all three in check order. |
| Popup.PopupState.constructor | popup.js:2-30 | The popup starts in the light theme, in list view, not compact, with no favourites, no custom IDEs and no recorded category state. |
| Popup.NextTheme | popup.js:115 | The next theme is "dark" iff the current one is "light", and "light" iff it is anything else. |
| Popup.NextThemeFlips | popup.js:114-118 | Toggling always changes the theme, and toggling twice from light or dark returns to it. |
| Popup.PopupState.ToggleTheme | popup.js:114-118 | `state.theme` becomes the next theme. No other field changes. |
| Popup.PopupState.ToggleView | popup.js:128-132 | `state.gridView` is negated. No other field changes. |
| Popup.PopupState.ToggleCompactMode | popup.js:135-139 | `state.compactMode` is negated. No other field changes. |
| Popup.PopupState.ToggleFavorite | popup.js:225-242 | Unstarring removes every favourite with the button's URL and keeps the rest in order. Starring appends exactly `{name, url}`. |
| Lists.Without | popup.js:233 | The filter keeps only entries whose key differs from the given one, and keeps every such entry. |
| Lists.WithoutCounts | popup.js:233 | Every entry whose key differs is kept exactly as often as it occurs, and every other entry is dropped. |
| Lists.WithoutAppend | popup.js:233 | Filtering a concatenation filters each part, so kept entries keep their relative order. |
| Lists.WithoutIdempotent | popup.js:233 | Filtering a second time removes nothing more. |
| Popup.FavoriteToggleTwice | popup.js:232-237 | Starring a button that was not a favourite and then unstarring it restores the list. |
| Popup.PopupState.ToggleCategory | popup.js:172-191 | The new expanded value is the negation of the old one. It is recorded under the category id, the map is created when absent, and every other key is kept. |
| Popup.Matches | popup.js:152-158 | The search rule: the lower-cased query occurs in the lower-cased name, description or some tag. A button without a description is matched on its name and tags. |
| Popup.EmptyQueryMatches | popup.js:148-158 | An empty query matches every button. |
| Popup.MatchIgnoresCase | popup.js:148-158 | Lower-casing the query does not change which buttons match. |
| Popup.NarrowingHides | popup.js:148-158 | With lower-casing done character by character, a button that matches a query matches every prefix of it, so typing more can only hide buttons. |
| Popup.ButtonVisibility | popup.js:151-161 | In the intended search, each button is visible iff it matches the query. |
| Popup.AnyVisible | popup.js:165-166 | The result is true iff some button is visible. |
| Popup.HandleSearch | popup.js:147-169 | The intended search, with a missing description read as absent: every button is visible iff it matches, and every category is shown iff at least one of its buttons matches. |
| Popup.SearchCategoryAsWritten | popup.js:151-161 | The button loop as written over one category: the buttons before the first one without a description get their match, and the loop stops at that button. |
| Popup.ShowCategories | popup.js:164-168 | A category is shown iff at least one of its buttons is displayed. |
| Popup.HandleSearchAsWritten | popup.js:147-169 | The search as written: buttons up to the first one without a description get their match, later buttons keep their display, and the categories are updated only when every button had a description. Otherwise the search fails with the `TypeError`. |
| Popup.DescribedSearchAsIntended | popup.js:147-169 | When every button has a description, the search as written gives the intended result. |
| Popup.FavoriteFirstFreezesSearch | popup.js:149-153 | When the first button on the page is a favourite's, the search as written changes nothing and fails. |
| Popup.FavoriteStaysVisible | popup.js:257-270 | On a page with one favourite "Go", the query "xyz" does not match it, yet the search as written leaves it and its category displayed. |
| Popup.EmptyQueryShowsAll | popup.js:164-168 | With an empty query every non-empty category is shown. |
| Popup.QuickLaunchIndex | popup.js:103-105 | A slot is chosen iff Alt is held, Ctrl is not, and the key is a number from 1 to 9. The slot is that number. |
| Popup.QuickLaunchDigits | popup.js:103-105 | Alt with digit key d launches slot d for 1…9, and nothing for 0. |
| Popup.KeyActions | popup.js:89-111 | "/" without Ctrl or Alt focuses the search, "?" without Ctrl or Alt opens the help, and the quick-launch rule above opens a slot. |
| Popup.AtMostOneAction | popup.js:89-111 | A key press triggers at most one of those actions. |
| Popup.PopupState.SaveCustomIde | popup.js:408-420 | Nothing changes unless both the name and the URL are non-empty. Otherwise exactly one entry is appended, whose tags are the trimmed comma-separated pieces of the input. |
| Storage.Tags | options.js:71 | One tag per comma-separated piece (commas + 1 of them), each the piece with surrounding whitespace removed. |
| Text.Split | options.js:71 | `split(',')` gives one more piece than there are commas, no piece holds a comma, and joining the pieces with commas gives the input back. |
| Text.Trim | options.js:71 | The result is the input with its leading and trailing whitespace removed, and its ends are not whitespace. |
| Options.DefaultShortcuts | options.js:125-133 | Five default bindings with distinct actions. |
| Options.DefaultBindings | options.js:125-133 | search is "/", help is "?", and vscode, github and codesandbox are "alt+1" to "alt+3". |
| Options.LoadSettings | options.js:19-42 | An absent theme shows "system" and an absent colour scheme shows "blue". Absent flags show false, absent lists show empty, and absent shortcuts show the defaults. |
| Options.LoadShowsStored | options.js:19-42 | A stored value (for the two strings, a non-empty one) is shown as stored. |
| Options.LoadAfterClear | options.js:231-236 | After every key is cleared, the page shows every default. |
| Options.ResetShortcutsShowsDefaults | options.js:154-158 | After a reset, the page shows the same bindings as with no shortcuts stored. |
| Options.AddCustomIde | options.js:68-84 | An empty name or URL leaves the store untouched. Otherwise, unless a store call fails, exactly one `{name, url, tags, description}` is appended to the stored list (absent counts as `[]`), and nothing else changes. |
| Options.RemoveCustomIde | options.js:117-122 | The stored list becomes exactly the previous entries whose URL differs, in order. With no list stored the call fails and nothing is written. |
| Options.RemoveUndoesAdd | options.js:68-122 | Removing the URL of an entry just added, when no other entry had it, restores the list. |
| Options.ClearHistory | options.js:179-182 | The stored history becomes empty and nothing else changes, unless the write fails. |
| Options.ResetShortcuts | options.js:154-158 | The stored shortcuts become the defaults, regardless of what was stored, so a second reset changes nothing. |
| Options.ResetSettings | options.js:231-236 | Without confirmation nothing changes. Once confirmed, every key is removed unless the clear fails. |

## Findings

| source | as written | input that shows it | evidently intended | confidence | as-written member | corrected member |
|---|---|---|---|---|---|---|
| popup.js:147-169 | `handleSearch` reads `.ide-description` of every `.ide-button`. Favourite buttons (popup.js:257-270) have no description element, so the read throws. The buttons after that one keep their display, and the category loop never runs. | one starred favourite "Go" on the page, query "xyz" | every button is displayed iff it matches, with favourites matched on name and tags, and every category is shown iff one of its buttons matches | high, not executed | Popup.HandleSearchAsWritten, Popup.FavoriteStaysVisible | Popup.HandleSearch |

## Left out

- Browser platform calls are not modelled:
  - context menus, alarms, tabs, badges and runtime messaging;
  - `openOptionsPage`;
  - the notification API itself, of which only the title and message of each notification are kept, in a log.
- `checkIDEStatus`, `checkIDEStatuses` and `checkForUpdates` (background.js:123-154, 351-369) are left out. They are network probes plus a version-string comparison.
- `generateId` and `Date.now()` (background.js:384-386) become the parameters `freshId` and `now`.
- Background.Worker.SaveWorkspace requires that `freshId` is new to the worker and to the synchronised list. The source relies on a time-and-random identifier for this and does not check it.
- `shareSession` and `startCollaboration` (background.js:235-264) are left out; they are clipboard writes and a stub.
- The `ADD_TO_HISTORY` handler (background.js:96-98) calls `addToHistory`, which is not defined anywhere in background.js, so no operation adds history entries.
- Concurrency: every handler is one atomic step, so interleaving of concurrent syncs at `await` points is not modelled.
- DOM rendering and event wiring are left out, and each handler receives the values it reads from the page as parameters. This covers:
  - rendering the IDE lists, favourites and custom IDEs;
  - dialogs and `applyTheme`;
  - `confirm` and `alert`;
  - export and import of settings.
- The popup's `saveSettings` and `loadSettings` persistence is not modelled. The popup handlers update `state` only.
- content.js is not part of this model. It is page injection and performance sampling.
- Popup.QuickLaunchIndex treats only keys made of decimal digits as numbers. Keys such as `" 3"` or `"1.5"`, which `isNaN`/`parseInt` also accept, select no slot in the model.
- Popup.Matches: lower-casing is ASCII only, character by character. `toLowerCase` also folds non-ASCII letters and is context-sensitive: a Greek capital sigma lowers to "ς" at the end of a word and to "σ" elsewhere.
- Popup.NarrowingHides: holds for the model's per-character lower-casing only. With the final-sigma rule, "ΑΣΑ" lowers to "ασα" but its prefix "ΑΣ" lowers to "ας", so a button named "ασα" matches the longer query and not its prefix.
- Popup.HandleSearch: the page is taken to be a list of categories in page order, with every button inside exactly one category.
- Workspaces.Merged: every record is assumed to carry a numeric `lastModified`. In the source, a record whose `lastModified` is missing or not a number compares false both ways at background.js:186. Such a record is never replaced once stored, and never replaces anything.
- Text.ReplaceFirst replaces the first literal occurrence. The special `$` patterns of `String.prototype.replace` do not arise, because the replacement is the constant `github.dev`.
- Performance figures are reals, and a figure that is `undefined` (absent) compares false. Non-numeric figures are not modelled. A report field explicitly set to `undefined` is treated as absent rather than overriding.
- Workspace records keep `id`, `title`, `url`, `favicon`, `created` and `lastModified`. Any extra fields a synchronised record might carry are not modelled.
