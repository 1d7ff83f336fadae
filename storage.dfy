/** The records the extension keeps in `chrome.storage`, and the two storage areas.
    A key that is absent from an area is `None`; every `get` and `set` may reject,
    which the operations that use an area receive as a fault message. */
module Storage {
  import opened Wrappers
  import opened Text
  import opened Workspaces

  /** A user-defined IDE entry (`{ name, url, tags, description }`). */
  datatype CustomIde = CustomIde(name: string, url: string, tags: seq<string>, description: string)

  /** The key both pages use to remove a custom IDE. */
  function IdeUrl(ide: CustomIde): string {
    ide.url
  }

  /** A keyboard shortcut row: the action and its key combination. */
  datatype Shortcut = Shortcut(action: string, keys: string)

  /** An entry of the launch history. */
  datatype HistoryEntry = HistoryEntry(id: string, url: string, timestamp: int)

  /** `pieces.map(t => t.trim())`. */
  function TrimAll(pieces: seq<string>): (tags: seq<string>)
    ensures |tags| == |pieces|
    ensures forall i :: 0 <= i < |tags| ==> tags[i] == Trim(pieces[i])
    decreases |pieces|
  {
    if pieces == [] then [] else [Trim(pieces[0])] + TrimAll(pieces[1..])
  }

  /** `input.split(',').map(t => t.trim())`: one tag per comma-separated piece, each the
      piece with its surrounding whitespace cut away. */
  function Tags(input: string): (tags: seq<string>)
    ensures |tags| == Occurrences(input, ',') + 1
    ensures forall i :: 0 <= i < |tags| ==> tags[i] == Trim(Split(input, ',')[i])
  {
    TrimAll(Split(input, ','))
  }

  /** The settings kept in `chrome.storage.local`, one optional field per key. */
  datatype LocalData = LocalData(
    theme: Option<string>,
    colorScheme: Option<string>,
    gridView: Option<bool>,
    compactMode: Option<bool>,
    customIdes: Option<seq<CustomIde>>,
    shortcuts: Option<seq<Shortcut>>,
    history: Option<seq<HistoryEntry>>)

  /** An area holding no key at all, as after `chrome.storage.local.clear()`. */
  function NoSettings(): (d: LocalData)
    ensures d.theme.None? && d.colorScheme.None? && d.gridView.None? && d.compactMode.None?
    ensures d.customIdes.None? && d.shortcuts.None? && d.history.None?
  {
    LocalData(None, None, None, None, None, None, None)
  }

  /** `chrome.storage.local`. */
  class LocalArea {
    var data: LocalData

    constructor (d: LocalData)
      ensures data == d
    {
      data := d;
    }
  }

  /** `chrome.storage.sync`, of which the extension uses the `workspaces` key. */
  class SyncArea {
    var workspaces: Option<seq<Workspace>>

    constructor (ws: Option<seq<Workspace>>)
      ensures workspaces == ws
    {
      workspaces := ws;
    }
  }
}
