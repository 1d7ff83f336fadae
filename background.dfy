/** The background service worker (background.js): its in-memory state, workspace
    saving and synchronisation against `chrome.storage.sync`, history cleanup, the
    IDE suggestions for a repository page, and the performance alerts. */
module Background {
  import opened Wrappers
  import opened Text
  import opened OrderedMaps
  import opened Workspaces
  import opened Storage

  /** A `chrome.notifications.create` call, reduced to its title and message. */
  datatype Notification = Notification(title: string, message: string)

  /** The value `syncWorkspaces` resolves to: `{ success }` or `{ success: false, error }`. */
  datatype SyncResult = SyncResult(success: bool, error: Option<string>)

  /** The parts of a browser tab the worker reads. */
  datatype Tab = Tab(id: int, title: string, url: string, favIconUrl: Option<string>)

  /** What a content script reports about a page: its URL and which code host it is on. */
  datatype PageData = PageData(url: string, isGitHub: bool, isGitLab: bool)

  /** An IDE that can open the current page. */
  datatype CompatibleIde = CompatibleIde(name: string, url: string)

  /** The performance figures kept per tab; a figure the page never reported is `None`. */
  datatype PerfRecord = PerfRecord(
    loadTime: Option<real>,
    memoryUsage: Option<real>,
    cpuUsage: Option<real>,
    networkRequests: Option<real>,
    timestamp: Option<int>)

  const LoadTimeLimit: real := 5000.0
  const MemoryLimit: real := (100 * 1024 * 1024) as real
  const RequestLimit: real := 100.0
  const HistoryLimit: nat := 100

  // ---------------------------------------------------------------------------
  // History cleanup

  /** `h.slice(-n)`: the kept entries are a suffix of the history, exactly `n` long when the
      history was longer and the whole history otherwise. */
  function LastEntries<T>(h: seq<T>, n: nat): (r: seq<T>)
    ensures |r| == if |h| > n then n else |h|
    ensures h == h[..|h| - |r|] + r
  {
    if |h| > n then h[|h| - n..] else h
  }

  /** Cleaning up an already cleaned history keeps it as it is. */
  lemma LastEntriesIdempotent<T>(h: seq<T>, n: nat)
    ensures LastEntries(LastEntries(h, n), n) == LastEntries(h, n)
  {
  }

  /** `cleanupHistory` (background.js): when the stored history holds more than 100 entries,
      only the most recent 100 are written back. */
  method CleanupHistory(local: LocalArea, getFault: Option<string>, setFault: Option<string>)
    returns (o: Outcome<string>)
    modifies local
    ensures getFault.Some? ==> o == Fail(getFault.value) && local.data == old(local.data)
    ensures getFault.None? && |old(local.data.history).GetOr([])| <= HistoryLimit ==>
      o == Pass && local.data == old(local.data)
    ensures getFault.None? && |old(local.data.history).GetOr([])| > HistoryLimit ==>
      if setFault.Some? then o == Fail(setFault.value) && local.data == old(local.data)
      else o == Pass && local.data == old(local.data).(history := Some(LastEntries(old(local.data.history).GetOr([]), HistoryLimit)))
    ensures getFault.None? && setFault.None? && old(local.data.history).Some? ==>
      local.data.history == Some(LastEntries(old(local.data.history).value, HistoryLimit))
  {
    if getFault.Some? {
      return Fail(getFault.value);
    }
    var history := local.data.history.GetOr([]);
    if |history| > HistoryLimit {
      var newHistory := history[|history| - HistoryLimit..];
      if setFault.Some? {
        return Fail(setFault.value);
      }
      local.data := local.data.(history := Some(newHistory));
    }
    o := Pass;
  }

  // ---------------------------------------------------------------------------
  // Compatible IDEs

  /** `findCompatibleIdes` (background.js): two entries for a GitHub page, one for a
      GitLab page, in that order. */
  method FindCompatibleIdes(data: PageData) returns (ides: seq<CompatibleIde>)
    ensures |ides| == (if data.isGitHub then 2 else 0) + (if data.isGitLab then 1 else 0)
    ensures data.isGitHub ==>
      && ides[0] == CompatibleIde("GitHub.dev", ReplaceFirst(data.url, "github.com", "github.dev"))
      && ides[1] == CompatibleIde("Gitpod", "https://gitpod.io/#" + data.url)
    ensures data.isGitLab ==> ides[|ides| - 1] == CompatibleIde("GitLab Web IDE", data.url + "/-/ide/")
  {
    ides := [];
    if data.isGitHub {
      ides := ides + [
        CompatibleIde("GitHub.dev", ReplaceFirst(data.url, "github.com", "github.dev")),
        CompatibleIde("Gitpod", "https://gitpod.io/#" + data.url)];
    }
    if data.isGitLab {
      ides := ides + [CompatibleIde("GitLab Web IDE", data.url + "/-/ide/")];
    }
  }

  /** On a repository page `https://github.com/<path>` the GitHub.dev suggestion is
      `https://github.dev/<path>`: the first `github.com` is the host. */
  lemma GitHubDevUrl(path: string)
    ensures ReplaceFirst("https://github.com/" + path, "github.com", "github.dev") == "https://github.dev/" + path
  {
    var url := "https://github.com/" + path;
    assert OccursAt(url, "github.com", 8) by {
      assert url[8..18] == "github.com";
    }
    forall j | 0 <= j < 8 ensures !OccursAt(url, "github.com", j) {
      assert url[j] != 'g';
    }
    assert url[..8] + "github.dev" + url[18..] == "https://github.dev/" + path;
  }

  // ---------------------------------------------------------------------------
  // Performance alerts

  /** `{ ...prev, ...data, timestamp: now }` with `undefined` figures standing for absent ones:
      a figure the new report carries replaces the old one, any other figure is kept. */
  function MergePerf(prev: Option<PerfRecord>, data: PerfRecord, now: int): (r: PerfRecord)
    ensures r.timestamp == Some(now)
    ensures data.loadTime.Some? ==> r.loadTime == data.loadTime
    ensures data.memoryUsage.Some? ==> r.memoryUsage == data.memoryUsage
    ensures data.cpuUsage.Some? ==> r.cpuUsage == data.cpuUsage
    ensures data.networkRequests.Some? ==> r.networkRequests == data.networkRequests
    ensures prev.Some? && data.loadTime.None? ==> r.loadTime == prev.value.loadTime
    ensures prev.Some? && data.memoryUsage.None? ==> r.memoryUsage == prev.value.memoryUsage
    ensures prev.Some? && data.cpuUsage.None? ==> r.cpuUsage == prev.value.cpuUsage
    ensures prev.Some? && data.networkRequests.None? ==> r.networkRequests == prev.value.networkRequests
    ensures prev.None? ==> r == data.(timestamp := Some(now))
  {
    match prev
    case None => data.(timestamp := Some(now))
    case Some(p) =>
      PerfRecord(
        if data.loadTime.Some? then data.loadTime else p.loadTime,
        if data.memoryUsage.Some? then data.memoryUsage else p.memoryUsage,
        if data.cpuUsage.Some? then data.cpuUsage else p.cpuUsage,
        if data.networkRequests.Some? then data.networkRequests else p.networkRequests,
        Some(now))
  }

  /** Reporting the same figures twice at the same time leaves the record as after the first report. */
  lemma MergePerfIdempotent(prev: Option<PerfRecord>, data: PerfRecord, now: int)
    ensures MergePerf(Some(MergePerf(prev, data, now)), data, now) == MergePerf(prev, data, now)
  {
  }

  /** `x > limit` where an `undefined` figure compares false. */
  predicate Above(x: Option<real>, limit: real) {
    x.Some? && x.value > limit
  }

  const HighLoadTime := "High load time"
  const HighMemory := "High memory usage"
  const ManyRequests := "Many network requests"

  /** The position of an issue in the order the checks run. */
  function Rank(issue: string): int {
    if issue == HighLoadTime then 0 else if issue == HighMemory then 1 else 2
  }

  /** The issues `checkPerformanceIssues` reports for a record: each one exactly when its
      threshold is exceeded, in the order the checks run. */
  function PerformanceIssues(data: PerfRecord): (issues: seq<string>)
    ensures HighLoadTime in issues <==> Above(data.loadTime, LoadTimeLimit)
    ensures HighMemory in issues <==> Above(data.memoryUsage, MemoryLimit)
    ensures ManyRequests in issues <==> Above(data.networkRequests, RequestLimit)
    ensures forall x :: x in issues ==> x == HighLoadTime || x == HighMemory || x == ManyRequests
    ensures forall i, j :: 0 <= i < j < |issues| ==> Rank(issues[i]) < Rank(issues[j])
  {
    (if Above(data.loadTime, LoadTimeLimit) then [HighLoadTime] else [])
    + (if Above(data.memoryUsage, MemoryLimit) then [HighMemory] else [])
    + (if Above(data.networkRequests, RequestLimit) then [ManyRequests] else [])
  }

  /** The issue list built by `checkPerformanceIssues` with its three `push`es. */
  method CollectIssues(data: PerfRecord) returns (issues: seq<string>)
    ensures issues == PerformanceIssues(data)
  {
    issues := [];
    if Above(data.loadTime, LoadTimeLimit) {
      issues := issues + [HighLoadTime];
    }
    if Above(data.memoryUsage, MemoryLimit) {
      issues := issues + [HighMemory];
    }
    if Above(data.networkRequests, RequestLimit) {
      issues := issues + [ManyRequests];
    }
  }

  /** The notification raised for a non-empty issue list. */
  function PerformanceAlert(issues: seq<string>): (a: Notification)
    ensures a.title == "Performance Alert"
    ensures |issues| == 1 ==> a.message == "Issues detected: " + issues[0]
  {
    Notification("Performance Alert", "Issues detected: " + Join(issues, ", "))
  }

  /** The alert for all three issues lists them in check order, separated by ", ". */
  lemma AllIssuesAlert()
    ensures PerformanceAlert([HighLoadTime, HighMemory, ManyRequests])
         == Notification("Performance Alert", "Issues detected: " + HighLoadTime + ", " + HighMemory + ", " + ManyRequests)
  {
    var issues := [HighLoadTime, HighMemory, ManyRequests];
    assert issues[1..] == [HighMemory, ManyRequests] && issues[1..][1..] == [ManyRequests];
    assert Join([ManyRequests], ", ") == ManyRequests;
    assert Join([HighMemory, ManyRequests], ", ") == HighMemory + ", " + ManyRequests;
    assert Join(issues, ", ") == HighLoadTime + ", " + HighMemory + ", " + ManyRequests;
  }

  /** The report of tests/background.test.js, "should detect performance issues":
      load time 6000, memory 150 MiB and 120 requests exceed all three thresholds, and the
      alert lists all three. */
  lemma PerformanceScenario(prev: Option<PerfRecord>, now: int)
    ensures var r := MergePerf(prev, PerfRecord(Some(6000.0), Some((150 * 1024 * 1024) as real), None, Some(120.0), None), now);
      && PerformanceIssues(r) == [HighLoadTime, HighMemory, ManyRequests]
      && PerformanceAlert(PerformanceIssues(r))
         == Notification("Performance Alert", "Issues detected: " + HighLoadTime + ", " + HighMemory + ", " + ManyRequests)
  {
    AllIssuesAlert();
  }

  // ---------------------------------------------------------------------------
  // The worker

  /** The worker's module-level `state`, reduced to the parts the modelled handlers use,
      plus the notifications it has raised. */
  class Worker {
    var workspaces: WorkspaceMap
    var performanceData: map<int, PerfRecord>
    var notifications: seq<Notification>

    /** `state.workspaces` stores every record under its own id. */
    ghost predicate Valid()
      reads this
    {
      workspaces.Valid() && Keyed(workspaces)
    }

    constructor ()
      ensures Valid() && workspaces == Empty() && performanceData == map[] && notifications == []
    {
      workspaces := Empty();
      performanceData := map[];
      notifications := [];
    }

    /** `syncWorkspaces` (background.js): merge the in-memory records with the stored ones,
        write the result back, and only then replace the in-memory map. */
    method SyncWorkspaces(sync: SyncArea, getFault: Option<string>, setFault: Option<string>)
      returns (r: SyncResult)
      requires Valid()
      modifies this`workspaces, sync`workspaces
      ensures Valid()
      ensures getFault.Some? ==>
        r == SyncResult(false, getFault) && workspaces == old(workspaces) && sync.workspaces == old(sync.workspaces)
      ensures getFault.None? && setFault.Some? ==>
        r == SyncResult(false, setFault) && workspaces == old(workspaces) && sync.workspaces == old(sync.workspaces)
      ensures getFault.None? && setFault.None? ==>
        && r == SyncResult(true, None)
        && sync.workspaces == Some(Merged(old(workspaces).Values(), old(sync.workspaces).GetOr([])))
        && workspaces == Index(sync.workspaces.value)
    {
      if getFault.Some? {
        return SyncResult(false, getFault);
      }
      var local := workspaces.Values();
      var remote := sync.workspaces.GetOr([]);
      var merged := MergeWorkspaces(local, remote);
      if setFault.Some? {
        return SyncResult(false, setFault);
      }
      sync.workspaces := Some(merged);
      workspaces := Index(merged);
      r := SyncResult(true, None);
    }

    /** `saveWorkspace` (background.js): store a new record for the tab under a fresh id,
        synchronise, and announce it. `freshId` and `now` stand for `generateId()` and
        `Date.now()`; the id is new to the worker and to the synchronised list. */
    method SaveWorkspace(tab: Tab, freshId: string, now: int, sync: SyncArea,
                         getFault: Option<string>, setFault: Option<string>)
      requires Valid() && freshId !in workspaces.entries
      requires sync.workspaces.Some? ==> freshId !in Ids(sync.workspaces.value)
      modifies this`workspaces, this`notifications, sync`workspaces
      ensures Valid()
      ensures workspaces.Get(freshId) == Some(Workspace(freshId, tab.title, tab.url, tab.favIconUrl, now, now))
      ensures notifications == old(notifications) + [Notification("Workspace Saved", "\"" + tab.title + "\" has been saved")]
      ensures getFault.Some? || setFault.Some? ==>
        && workspaces == old(workspaces).Set(freshId, Workspace(freshId, tab.title, tab.url, tab.favIconUrl, now, now))
        && sync.workspaces == old(sync.workspaces)
      ensures getFault.None? && setFault.None? ==>
        && sync.workspaces == Some(Merged(
             old(workspaces).Set(freshId, Workspace(freshId, tab.title, tab.url, tab.favIconUrl, now, now)).Values(),
             old(sync.workspaces).GetOr([])))
        && workspaces == Index(sync.workspaces.value)
    {
      var w := Workspace(freshId, tab.title, tab.url, tab.favIconUrl, now, now);
      ghost var remote := sync.workspaces.GetOr([]);
      workspaces := workspaces.Set(w.id, w);
      var r := SyncWorkspaces(sync, getFault, setFault);
      if getFault.None? && setFault.None? {
        SavedSurvivesSync(old(workspaces), remote, w);
      }
      notifications := notifications + [Notification("Workspace Saved", "\"" + w.title + "\" has been saved")];
    }

    /** `checkPerformanceIssues` (background.js): alert when the tab's record exceeds a threshold. */
    method CheckPerformanceIssues(tabId: int)
      modifies this`notifications
      ensures tabId !in performanceData || PerformanceIssues(performanceData[tabId]) == [] ==>
        notifications == old(notifications)
      ensures tabId in performanceData && PerformanceIssues(performanceData[tabId]) != [] ==>
        notifications == old(notifications) + [PerformanceAlert(PerformanceIssues(performanceData[tabId]))]
    {
      if tabId !in performanceData {
        return;
      }
      var issues := CollectIssues(performanceData[tabId]);
      if |issues| > 0 {
        notifications := notifications + [PerformanceAlert(issues)];
      }
    }

    /** `processPerformanceData` (background.js): merge the report into the tab's record,
        stamp it, and check it. */
    method ProcessPerformanceData(data: PerfRecord, tabId: int, now: int)
      modifies this`performanceData, this`notifications
      ensures performanceData == old(performanceData)[tabId := MergePerf(
        if tabId in old(performanceData) then Some(old(performanceData)[tabId]) else None, data, now)]
      ensures PerformanceIssues(performanceData[tabId]) == [] ==> notifications == old(notifications)
      ensures PerformanceIssues(performanceData[tabId]) != [] ==>
        notifications == old(notifications) + [PerformanceAlert(PerformanceIssues(performanceData[tabId]))]
    {
      var prev := if tabId in performanceData then Some(performanceData[tabId]) else None;
      performanceData := performanceData[tabId := MergePerf(prev, data, now)];
      CheckPerformanceIssues(tabId);
    }
  }

  // ---------------------------------------------------------------------------
  // What a synchronisation leaves behind

  /** After a successful sync, reading the in-memory map back gives exactly the list that
      was written to the synchronised store. */
  lemma SyncedStateMatchesStore(local: seq<Workspace>, remote: seq<Workspace>)
    ensures Index(Merged(local, remote)).Values() == Merged(local, remote)
  {
    MergedIds(local, remote);
    IndexValues(Merged(local, remote));
  }

  /** A second sync against the list the first one stored writes the same list again. */
  lemma SecondSyncIsStable(local: seq<Workspace>, remote: seq<Workspace>)
    ensures var stored := Merged(local, remote);
      Merged(Index(stored).Values(), stored) == stored
  {
    var stored := Merged(local, remote);
    SyncedStateMatchesStore(local, remote);
    MergedIds(local, remote);
    MergeSelf(stored);
  }

  /** With nothing stored under `workspaces`, a successful sync writes the worker's records
      back as they are, in their order. */
  lemma SyncWithoutRemote(m: WorkspaceMap)
    requires m.Valid() && Keyed(m)
    ensures Merged(m.Values(), []) == m.Values()
  {
    ValuesIds(m);
    MergeEmptyRemote(m.Values());
  }

  /** The values of a keyed map that holds `w` under its id contain `w` and no other record
      with that id. */
  lemma ValuesHold(m: WorkspaceMap, w: Workspace)
    requires m.Valid() && Keyed(m) && w.id in m.entries && m.entries[w.id] == w
    ensures w in m.Values()
    ensures forall v :: v in m.Values() && v.id == w.id ==> v == w
  {
    var vs := m.Values();
    var i :| 0 <= i < |m.keys| && m.keys[i] == w.id;
    assert vs[i] == w;
    forall v | v in vs && v.id == w.id ensures v == w {
      var j :| 0 <= j < |vs| && vs[j] == v;
      assert m.keys[j] in m.entries;
    }
  }

  /** A record found in a list without repeated ids is what indexing the list stores under its id. */
  lemma IndexHoldsMember(ws: seq<Workspace>, w: Workspace)
    requires UniqueIds(ws) && w in ws
    ensures Index(ws).Get(w.id) == Some(w)
  {
    IndexKeys(ws);
    var i :| 0 <= i < |ws| && ws[i] == w;
  }

  /** A record saved under an id that neither side knew is in the in-memory map after the sync. */
  lemma SavedSurvivesSync(m: WorkspaceMap, remote: seq<Workspace>, w: Workspace)
    requires m.Valid() && Keyed(m) && w.id !in m.entries && w.id !in Ids(remote)
    ensures Index(Merged(m.Set(w.id, w).Values(), remote)).Get(w.id) == Some(w)
  {
    var local := m.Set(w.id, w).Values();
    ValuesHold(m.Set(w.id, w), w);
    assert forall v :: v in remote ==> v.id != w.id;
    SoleRecordKept(local, remote, w);
    MergedIds(local, remote);
    IndexHoldsMember(Merged(local, remote), w);
  }
}
