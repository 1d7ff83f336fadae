/** Workspace records and their last-write-wins reconciliation (`mergeWorkspaces`,
    background.js). A merge walks the local list and then the remote list, storing each
    record in a JavaScript `Map` under its id unless the record already stored there is
    at least as recent; the result is the map's values in insertion order. */
module Workspaces {
  import opened Wrappers
  import opened OrderedMaps

  /** A saved IDE session bookmark. `created` and `lastModified` are wall-clock milliseconds. */
  datatype Workspace = Workspace(
    id: string,
    title: string,
    url: string,
    favicon: Option<string>,
    created: int,
    lastModified: int)

  /** The shape of `state.workspaces` and of the map built inside a merge. */
  type WorkspaceMap = OrderedMap<string, Workspace>

  /** Every record is stored under its own id. */
  ghost predicate Keyed(m: WorkspaceMap) {
    forall k :: k in m.entries ==> m.entries[k].id == k
  }

  /** The ids found in a list of records. */
  ghost function Ids(xs: seq<Workspace>): set<string> {
    set w | w in xs :: w.id
  }

  /** No two records of the list share an id. */
  ghost predicate UniqueIds(xs: seq<Workspace>) {
    forall i, j :: 0 <= i < j < |xs| ==> xs[i].id != xs[j].id
  }

  /** `p` is the position where `id` first appears in `xs`. */
  ghost predicate IsFirstIndex(xs: seq<Workspace>, id: string, p: int) {
    0 <= p < |xs| && xs[p].id == id && forall j :: 0 <= j < p ==> xs[j].id != id
  }

  /** The position where `id` first appears in `xs`. */
  ghost function FirstIndex(xs: seq<Workspace>, id: string): (p: nat)
    requires id in Ids(xs)
    ensures IsFirstIndex(xs, id, p)
    decreases |xs|
  {
    if xs[0].id == id then 0
    else
      assert id in Ids(xs[1..]) by {
        var w :| w in xs && w.id == id;
        assert w in xs[1..];
      }
      1 + FirstIndex(xs[1..], id)
  }

  /** `xs[k]` is the record a last-write-wins merge keeps for `id`: no record for `id`
      is more recent, and every record for `id` before it is strictly older. */
  ghost predicate IsLatest(xs: seq<Workspace>, id: string, k: int) {
    && 0 <= k < |xs| && xs[k].id == id
    && (forall j :: 0 <= j < |xs| && xs[j].id == id ==> xs[j].lastModified <= xs[k].lastModified)
    && (forall j :: 0 <= j < k && xs[j].id == id ==> xs[j].lastModified < xs[k].lastModified)
  }

  /** `merged.find(w => w.id === id)`. */
  function Find(ws: seq<Workspace>, id: string): (r: Option<Workspace>)
    ensures r.Some? ==> r.value in ws && r.value.id == id
    ensures r.None? ==> id !in Ids(ws)
    decreases |ws|
  {
    if ws == [] then None
    else if ws[0].id == id then Some(ws[0])
    else
      IdsCons(ws);
      Find(ws[1..], id)
  }

  /** One iteration of the merge loop: `w` is stored unless the record already held for
      its id has a `lastModified` that is not strictly smaller. */
  function Absorb(m: WorkspaceMap, w: Workspace): (r: WorkspaceMap)
    requires m.Valid() && Keyed(m)
    ensures r.Valid() && Keyed(r)
  {
    if w.id !in m.entries || m.entries[w.id].lastModified < w.lastModified then m.Set(w.id, w) else m
  }

  /** The merge loop run over `xs`, starting from the map `m`. */
  function FoldFrom(m: WorkspaceMap, xs: seq<Workspace>): (r: WorkspaceMap)
    requires m.Valid() && Keyed(m)
    ensures r.Valid() && Keyed(r)
    decreases |xs|
  {
    if xs == [] then m else Absorb(FoldFrom(m, xs[..|xs| - 1]), xs[|xs| - 1])
  }

  /** The merge loop run over `xs`, starting from an empty map. */
  function Fold(xs: seq<Workspace>): (r: WorkspaceMap)
    ensures r.Valid() && Keyed(r)
  {
    FoldFrom(Empty(), xs)
  }

  /** `mergeWorkspaces(local, remote)`, as a value. */
  function Merged(local: seq<Workspace>, remote: seq<Workspace>): seq<Workspace> {
    Fold(local + remote).Values()
  }

  /** `mergeWorkspaces` (background.js): the loop over `[...local, ...remote]` that fills a `Map`. */
  method MergeWorkspaces(local: seq<Workspace>, remote: seq<Workspace>) returns (merged: seq<Workspace>)
    ensures merged == Merged(local, remote)
  {
    var all := local + remote;
    var m: WorkspaceMap := Empty();
    for i := 0 to |all|
      invariant m == Fold(all[..i])
    {
      var w := all[i];
      FoldPrefix(all, i);
      var existing := m.Get(w.id);
      if existing.None? || existing.value.lastModified < w.lastModified {
        m := m.Set(w.id, w);
      }
    }
    assert all[..|all|] == all;
    merged := m.Values();
  }

  // ---------------------------------------------------------------------------
  // What the merge loop computes

  lemma IdsCons(ws: seq<Workspace>)
    requires ws != []
    ensures Ids(ws) == {ws[0].id} + Ids(ws[1..])
  {
    assert ws == [ws[0]] + ws[1..];
    assert forall v :: v in ws <==> v == ws[0] || v in ws[1..];
  }

  lemma FoldPrefix(xs: seq<Workspace>, i: nat)
    requires i < |xs|
    ensures Fold(xs[..i + 1]) == Absorb(Fold(xs[..i]), xs[i])
  {
    assert xs[..i + 1][..i] == xs[..i];
  }

  /** The merge loop extended by one record is one more `Absorb`. */
  lemma FoldSnoc(ys: seq<Workspace>, w: Workspace)
    ensures Fold(ys + [w]) == Absorb(Fold(ys), w)
  {
    assert (ys + [w])[..|ys|] == ys;
  }

  lemma IdsSnoc(ys: seq<Workspace>, w: Workspace)
    ensures Ids(ys + [w]) == Ids(ys) + {w.id}
  {
    assert forall v :: v in ys + [w] <==> v in ys || v == w;
  }

  lemma AbsorbNew(m: WorkspaceMap, w: Workspace)
    requires m.Valid() && Keyed(m) && w.id !in m.entries
    ensures Absorb(m, w).keys == m.keys + [w.id]
    ensures Absorb(m, w).entries.Keys == m.entries.Keys + {w.id}
  {
  }

  lemma AbsorbOld(m: WorkspaceMap, w: Workspace)
    requires m.Valid() && Keyed(m) && w.id in m.entries
    ensures Absorb(m, w).keys == m.keys
    ensures Absorb(m, w).entries.Keys == m.entries.Keys
  {
  }

  lemma CardAdd(s: set<string>, x: string)
    ensures |s + {x}| == if x in s then |s| else |s| + 1
  {
    if x in s {
      assert s + {x} == s;
    }
  }

  lemma AbsorbKeys(m: WorkspaceMap, ys: seq<Workspace>, w: Workspace)
    requires m.Valid() && Keyed(m) && m.entries.Keys == Ids(ys) && |m.keys| == |Ids(ys)|
    ensures Absorb(m, w).entries.Keys == Ids(ys + [w])
    ensures |Absorb(m, w).keys| == |Ids(ys + [w])|
  {
    IdsSnoc(ys, w);
    CardAdd(Ids(ys), w.id);
    if w.id !in m.entries {
      AbsorbNew(m, w);
    } else {
      AbsorbOld(m, w);
    }
  }

  /** The merged map holds exactly the ids of the input, each once. */
  lemma {:induction false} FoldKeys(xs: seq<Workspace>)
    ensures Fold(xs).entries.Keys == Ids(xs)
    ensures |Fold(xs).keys| == |Ids(xs)|
    decreases |xs|
  {
    if xs == [] {
      assert Ids(xs) == {};
    } else {
      var ys, w := xs[..|xs| - 1], xs[|xs| - 1];
      assert xs == ys + [w];
      FoldKeys(ys);
      FoldSnoc(ys, w);
      AbsorbKeys(Fold(ys), ys, w);
    }
  }

  lemma FirstIndexPrefix(ys: seq<Workspace>, w: Workspace, id: string)
    requires id in Ids(ys)
    ensures id in Ids(ys + [w]) && FirstIndex(ys + [w], id) == FirstIndex(ys, id)
  {
    IdsSnoc(ys, w);
    var p, q := FirstIndex(ys + [w], id), FirstIndex(ys, id);
    assert IsFirstIndex(ys + [w], id, q);
  }

  /** `keys` are ids of `xs`, listed in the order of their first appearance there. */
  ghost predicate InFirstAppearanceOrder(keys: seq<string>, xs: seq<Workspace>) {
    && (forall i :: 0 <= i < |keys| ==> keys[i] in Ids(xs))
    && (forall i, j :: 0 <= i < j < |keys| ==> FirstIndex(xs, keys[i]) < FirstIndex(xs, keys[j]))
  }

  /** Every record of `m` is the latest record of `xs` for its id. */
  ghost predicate HoldsLatest(m: WorkspaceMap, xs: seq<Workspace>) {
    forall id :: id in m.entries ==> exists k :: IsLatest(xs, id, k) && m.entries[id] == xs[k]
  }

  lemma OrderExtend(keys: seq<string>, ys: seq<Workspace>, w: Workspace)
    requires InFirstAppearanceOrder(keys, ys)
    ensures InFirstAppearanceOrder(keys, ys + [w])
    ensures forall i :: 0 <= i < |keys| ==> FirstIndex(ys + [w], keys[i]) < |ys|
  {
    forall i | 0 <= i < |keys| ensures keys[i] in Ids(ys + [w]) && FirstIndex(ys + [w], keys[i]) == FirstIndex(ys, keys[i]) {
      FirstIndexPrefix(ys, w, keys[i]);
    }
  }

  lemma OrderSnoc(keys: seq<string>, xs: seq<Workspace>, id: string)
    requires InFirstAppearanceOrder(keys, xs) && id in Ids(xs)
    requires forall i :: 0 <= i < |keys| ==> FirstIndex(xs, keys[i]) < FirstIndex(xs, id)
    ensures InFirstAppearanceOrder(keys + [id], xs)
  {
    var ks := keys + [id];
    assert forall i :: 0 <= i < |keys| ==> ks[i] == keys[i];
  }

  lemma AbsorbOrder(m: WorkspaceMap, ys: seq<Workspace>, w: Workspace)
    requires m.Valid() && Keyed(m) && m.entries.Keys == Ids(ys)
    requires InFirstAppearanceOrder(m.keys, ys)
    ensures InFirstAppearanceOrder(Absorb(m, w).keys, ys + [w])
  {
    var xs := ys + [w];
    OrderExtend(m.keys, ys, w);
    if w.id !in m.entries {
      AbsorbNew(m, w);
      IdsSnoc(ys, w);
      assert FirstIndex(xs, w.id) == |ys| by {
        assert IsFirstIndex(xs, w.id, |ys|);
      }
      OrderSnoc(m.keys, xs, w.id);
    } else {
      AbsorbOld(m, w);
    }
  }

  /** The merged map lists the ids in the order of their first appearance in the input. */
  lemma {:induction false} FoldOrder(xs: seq<Workspace>)
    ensures InFirstAppearanceOrder(Fold(xs).keys, xs)
    decreases |xs|
  {
    if xs != [] {
      var ys, w := xs[..|xs| - 1], xs[|xs| - 1];
      assert xs == ys + [w];
      FoldOrder(ys);
      FoldKeys(ys);
      FoldSnoc(ys, w);
      AbsorbOrder(Fold(ys), ys, w);
    }
  }

  lemma LatestSnocNew(ys: seq<Workspace>, w: Workspace)
    requires forall j :: 0 <= j < |ys| && ys[j].id == w.id ==> ys[j].lastModified < w.lastModified
    ensures IsLatest(ys + [w], w.id, |ys|)
  {
  }

  lemma LatestSnocKeep(ys: seq<Workspace>, w: Workspace, id: string, k: int)
    requires IsLatest(ys, id, k)
    requires w.id == id ==> w.lastModified <= ys[k].lastModified
    ensures IsLatest(ys + [w], id, k)
  {
    var xs := ys + [w];
    assert forall j :: 0 <= j < |ys| ==> xs[j] == ys[j];
  }

  /** A record that `Absorb` stores is the latest of the extended input for its id. */
  lemma StoredIsLatest(m: WorkspaceMap, ys: seq<Workspace>, w: Workspace)
    requires m.Valid() && Keyed(m) && m.entries.Keys == Ids(ys)
    requires HoldsLatest(m, ys)
    requires w.id !in m.entries || m.entries[w.id].lastModified < w.lastModified
    ensures IsLatest(ys + [w], w.id, |ys|)
  {
    if w.id !in m.entries {
      assert forall j :: 0 <= j < |ys| ==> ys[j] in ys;
    } else {
      var k :| IsLatest(ys, w.id, k) && m.entries[w.id] == ys[k];
    }
    LatestSnocNew(ys, w);
  }

  /** A record that `Absorb` leaves in place is still the latest for its id. */
  lemma KeptIsLatest(m: WorkspaceMap, ys: seq<Workspace>, w: Workspace, id: string) returns (k: int)
    requires m.Valid() && Keyed(m) && HoldsLatest(m, ys) && id in m.entries
    requires id == w.id ==> w.lastModified <= m.entries[id].lastModified
    ensures IsLatest(ys + [w], id, k) && m.entries[id] == (ys + [w])[k]
  {
    k :| IsLatest(ys, id, k) && m.entries[id] == ys[k];
    LatestSnocKeep(ys, w, id, k);
  }

  lemma AbsorbLatest(m: WorkspaceMap, ys: seq<Workspace>, w: Workspace)
    requires m.Valid() && Keyed(m) && m.entries.Keys == Ids(ys)
    requires HoldsLatest(m, ys)
    ensures HoldsLatest(Absorb(m, w), ys + [w])
  {
    var xs, a := ys + [w], Absorb(m, w);
    if w.id !in m.entries || m.entries[w.id].lastModified < w.lastModified {
      StoredIsLatest(m, ys, w);
      assert a == m.Set(w.id, w);
      forall id | id in a.entries
        ensures exists k :: IsLatest(xs, id, k) && a.entries[id] == xs[k]
      {
        if id == w.id {
          assert a.entries[id] == xs[|ys|];
        } else {
          var k := KeptIsLatest(m, ys, w, id);
          assert a.entries[id] == m.entries[id];
        }
      }
    } else {
      assert a == m;
      forall id | id in a.entries
        ensures exists k :: IsLatest(xs, id, k) && a.entries[id] == xs[k]
      {
        var k := KeptIsLatest(m, ys, w, id);
      }
    }
  }

  /** Each record the merge keeps is the most recent one for its id, the first of them on a tie. */
  lemma {:induction false} FoldLatest(xs: seq<Workspace>)
    ensures HoldsLatest(Fold(xs), xs)
    decreases |xs|
  {
    if xs != [] {
      var ys, w := xs[..|xs| - 1], xs[|xs| - 1];
      assert xs == ys + [w];
      FoldLatest(ys);
      FoldKeys(ys);
      FoldSnoc(ys, w);
      AbsorbLatest(Fold(ys), ys, w);
    }
  }

  /** Only one position can be the latest record for an id. */
  lemma LatestUnique(xs: seq<Workspace>, id: string, k1: int, k2: int)
    requires IsLatest(xs, id, k1) && IsLatest(xs, id, k2)
    ensures k1 == k2
  {
  }

  // ---------------------------------------------------------------------------
  // Properties of mergeWorkspaces

  /** The values of a keyed map carry distinct ids, exactly the map's keys. */
  lemma ValuesIds(m: WorkspaceMap)
    requires m.Valid() && Keyed(m)
    ensures UniqueIds(m.Values())
    ensures Ids(m.Values()) == m.entries.Keys
  {
    var r := m.Values();
    forall i, j | 0 <= i < j < |r| ensures r[i].id != r[j].id {
      assert r[i].id == m.keys[i] && r[j].id == m.keys[j];
    }
    forall id | id in m.entries ensures id in Ids(r) {
      var i :| 0 <= i < |m.keys| && m.keys[i] == id;
      assert r[i] in r;
    }
  }

  /** One record per distinct id of the input, and nothing else. */
  lemma MergedIds(local: seq<Workspace>, remote: seq<Workspace>)
    ensures UniqueIds(Merged(local, remote))
    ensures Ids(Merged(local, remote)) == Ids(local + remote)
    ensures |Merged(local, remote)| == |Ids(local + remote)|
  {
    FoldKeys(local + remote);
    ValuesIds(Fold(local + remote));
  }

  lemma HeldFromInput(m: WorkspaceMap, xs: seq<Workspace>)
    requires HoldsLatest(m, xs)
    ensures forall id :: id in m.entries ==> m.entries[id] in xs
  {
    forall id | id in m.entries ensures m.entries[id] in xs {
      var k :| IsLatest(xs, id, k) && m.entries[id] == xs[k];
    }
  }

  lemma ValuesIn(m: WorkspaceMap)
    requires m.Valid()
    ensures forall w :: w in m.Values() ==> exists id :: id in m.entries && m.entries[id] == w
  {
    forall w | w in m.Values() ensures exists id :: id in m.entries && m.entries[id] == w {
      var i :| 0 <= i < |m.keys| && m.Values()[i] == w;
      assert m.keys[i] in m.entries;
    }
  }

  /** Every merged record is one of the input records, unmodified. */
  lemma MergedFromInputs(local: seq<Workspace>, remote: seq<Workspace>)
    ensures forall w :: w in Merged(local, remote) ==> w in local || w in remote
  {
    var xs := local + remote;
    FoldLatest(xs);
    HeldFromInput(Fold(xs), xs);
    ValuesIn(Fold(xs));
  }

  /** The merged records come in the order in which their ids first appear in
      `[...local, ...remote]`: a record whose id was seen first keeps its place even when
      a later, newer record replaces it. */
  lemma MergedOrder(local: seq<Workspace>, remote: seq<Workspace>)
    ensures Ids(Merged(local, remote)) == Ids(local + remote)
    ensures forall i, j :: 0 <= i < j < |Merged(local, remote)| ==>
      FirstIndex(local + remote, Merged(local, remote)[i].id) < FirstIndex(local + remote, Merged(local, remote)[j].id)
  {
    MergedIds(local, remote);
    FoldOrder(local + remote);
  }

  /** Each merged record is the most recent record for its id, the earliest of them on a tie. */
  lemma MergedLatest(local: seq<Workspace>, remote: seq<Workspace>)
    ensures forall i :: 0 <= i < |Merged(local, remote)| ==>
      exists k :: IsLatest(local + remote, Merged(local, remote)[i].id, k) && Merged(local, remote)[i] == (local + remote)[k]
  {
    var m, r := Fold(local + remote), Merged(local, remote);
    FoldLatest(local + remote);
    forall i | 0 <= i < |r|
      ensures exists k :: IsLatest(local + remote, r[i].id, k) && r[i] == (local + remote)[k]
    {
      assert r[i] == m.entries[m.keys[i]] && m.keys[i] in m.entries;
    }
  }

  /** In a list without repeated ids, `find` returns the record holding the id. */
  lemma FindUnique(ws: seq<Workspace>, i: int)
    requires UniqueIds(ws) && 0 <= i < |ws|
    ensures Find(ws, ws[i].id) == Some(ws[i])
    decreases |ws|
  {
    if i > 0 {
      assert ws[1..][i - 1] == ws[i];
      FindUnique(ws[1..], i - 1);
    }
  }

  /** The merged record for `id`, located through the characterisation of the merge. */
  lemma FindMerged(local: seq<Workspace>, remote: seq<Workspace>, id: string) returns (k: int)
    requires id in Ids(local + remote)
    ensures IsLatest(local + remote, id, k)
    ensures Find(Merged(local, remote), id) == Some((local + remote)[k])
  {
    var r := Merged(local, remote);
    MergedIds(local, remote);
    MergedLatest(local, remote);
    var i :| 0 <= i < |r| && r[i].id == id;
    k :| IsLatest(local + remote, r[i].id, k) && r[i] == (local + remote)[k];
    FindUnique(r, i);
  }

  /** Conflict resolution: when local and remote each hold one version of an id, the remote
      version replaces the local one only if its `lastModified` is strictly greater; on a
      tie the local version is kept. */
  lemma RemoteWinsOnlyIfNewer(local: seq<Workspace>, remote: seq<Workspace>, l: Workspace, r: Workspace)
    requires l in local && r in remote && l.id == r.id
    requires forall w :: w in local && w.id == l.id ==> w == l
    requires forall w :: w in remote && w.id == r.id ==> w == r
    ensures Find(Merged(local, remote), l.id) == Some(if l.lastModified < r.lastModified then r else l)
  {
    var xs := local + remote;
    assert l in xs;
    var k := FindMerged(local, remote, l.id);
    var a :| 0 <= a < |local| && local[a] == l;
    var b :| 0 <= b < |remote| && remote[b] == r;
    assert xs[a] == l && xs[|local| + b] == r;
    assert xs[k] == l || xs[k] == r by {
      if k < |local| { assert xs[k] in local; } else { assert xs[k] == remote[k - |local|]; }
    }
  }

  /** No loss: a record that is the only one with its id in either list is merged unchanged. */
  lemma SoleRecordKept(local: seq<Workspace>, remote: seq<Workspace>, w: Workspace)
    requires w in local || w in remote
    requires forall v :: (v in local || v in remote) && v.id == w.id ==> v == w
    ensures Find(Merged(local, remote), w.id) == Some(w)
  {
    var xs := local + remote;
    assert w in xs;
    var k := FindMerged(local, remote, w.id);
    assert xs[k] in local || xs[k] in remote by {
      if k < |local| { assert xs[k] in local; } else { assert xs[k] == remote[k - |local|]; }
    }
  }

  /** The input of tests/background.test.js, "should merge workspaces without duplicates":
      local ids "1" and "2" (at 100 and 200), remote ids "2" and "3" (at 100 and 300). */
  ghost predicate ScenarioInput(local: seq<Workspace>, remote: seq<Workspace>) {
    && |local| == 2 && |remote| == 2
    && local[0].id == "1" && local[1].id == "2" && remote[0].id == "2" && remote[1].id == "3"
    && local[0].lastModified == 100 && local[1].lastModified == 200
    && remote[0].lastModified == 100 && remote[1].lastModified == 300
  }

  lemma IdsPair(ws: seq<Workspace>)
    requires |ws| == 2
    ensures Ids(ws) == {ws[0].id, ws[1].id}
  {
    assert forall v :: v in ws <==> v == ws[0] || v == ws[1];
  }

  lemma IdsAppend(a: seq<Workspace>, b: seq<Workspace>)
    ensures Ids(a + b) == Ids(a) + Ids(b)
  {
    assert forall v :: v in a + b <==> v in a || v in b;
  }

  lemma ScenarioCount(local: seq<Workspace>, remote: seq<Workspace>)
    requires ScenarioInput(local, remote)
    ensures |Merged(local, remote)| == 3
  {
    FoldKeys(local + remote);
    IdsAppend(local, remote);
    IdsPair(local);
    IdsPair(remote);
    var a, b, c := local[0].id, local[1].id, remote[1].id;
    assert remote[0].id == b;
    assert a[0] != b[0] && b[0] != c[0] && a[0] != c[0];
    CardThree(a, b, c);
  }

  lemma CardThree(a: string, b: string, c: string)
    requires a != b && b != c && a != c
    ensures |{a, b} + {b, c}| == 3
  {
    assert {a, b} + {b, c} == {a, b} + {c};
    assert |{a, b}| == 2;
  }

  lemma ScenarioWinner(local: seq<Workspace>, remote: seq<Workspace>)
    requires ScenarioInput(local, remote)
    ensures Find(Merged(local, remote), "2") == Some(local[1])
  {
    assert "1" != "2" && "3" != "2";
    assert forall w :: w in local && w.id == "2" ==> w == local[1];
    assert forall w :: w in remote && w.id == "2" ==> w == remote[0];
    RemoteWinsOnlyIfNewer(local, remote, local[1], remote[0]);
  }

  /** The scenario of tests/background.test.js: three records come out, and id "2" keeps
      its local version, the more recent one (`lastModified` 200). */
  lemma MergeScenario(local: seq<Workspace>, remote: seq<Workspace>)
    requires ScenarioInput(local, remote)
    ensures |Merged(local, remote)| == 3
    ensures Find(Merged(local, remote), "2") == Some(local[1]) && local[1].lastModified == 200
  {
    ScenarioCount(local, remote);
    ScenarioWinner(local, remote);
  }

  // ---------------------------------------------------------------------------
  // Rebuilding the in-memory index from a merged list

  /** `new Map(ws.map(w => [w.id, w]))`: each record stored under its id, a later record
      with the same id replacing an earlier one in place. */
  function Index(ws: seq<Workspace>): (m: WorkspaceMap)
    ensures m.Valid() && Keyed(m)
    decreases |ws|
  {
    if ws == [] then Empty() else Index(ws[..|ws| - 1]).Set(ws[|ws| - 1].id, ws[|ws| - 1])
  }

  /** `m` stores the records of `ws` under their ids, in list order. */
  ghost predicate IndexedAs(m: WorkspaceMap, ws: seq<Workspace>) {
    && |m.keys| == |ws|
    && forall i :: 0 <= i < |ws| ==> m.keys[i] == ws[i].id && ws[i].id in m.entries && m.entries[ws[i].id] == ws[i]
  }

  /** Splitting the last record off a list without repeated ids. */
  lemma UniqueSnoc(ys: seq<Workspace>, w: Workspace)
    requires UniqueIds(ys + [w])
    ensures UniqueIds(ys)
    ensures forall i :: 0 <= i < |ys| ==> ys[i].id != w.id
  {
    var xs := ys + [w];
    assert forall i :: 0 <= i < |ys| ==> xs[i] == ys[i];
    assert xs[|ys|] == w;
  }

  lemma IndexedFresh(m: WorkspaceMap, ys: seq<Workspace>, id: string)
    requires m.Valid() && IndexedAs(m, ys)
    requires forall i :: 0 <= i < |ys| ==> ys[i].id != id
    ensures id !in m.entries
  {
    assert forall i :: 0 <= i < |ys| ==> m.keys[i] != id;
  }

  lemma IndexStep(m: WorkspaceMap, ys: seq<Workspace>, w: Workspace)
    requires m.Valid() && IndexedAs(m, ys)
    requires forall i :: 0 <= i < |ys| ==> ys[i].id != w.id
    ensures IndexedAs(m.Set(w.id, w), ys + [w])
  {
    IndexedFresh(m, ys, w.id);
    var n, xs := m.Set(w.id, w), ys + [w];
    assert n.keys == m.keys + [w.id];
    forall i | 0 <= i < |xs| ensures n.keys[i] == xs[i].id && xs[i].id in n.entries && n.entries[xs[i].id] == xs[i] {
      if i < |ys| {
        assert n.keys[i] == m.keys[i] && xs[i] == ys[i];
      }
    }
  }

  /** Indexing a list without repeated ids keeps every record, in list order. */
  lemma {:induction false} IndexKeys(ws: seq<Workspace>)
    requires UniqueIds(ws)
    ensures IndexedAs(Index(ws), ws)
    decreases |ws|
  {
    if ws != [] {
      var ys, w := ws[..|ws| - 1], ws[|ws| - 1];
      assert ws == ys + [w];
      UniqueSnoc(ys, w);
      IndexKeys(ys);
      IndexStep(Index(ys), ys, w);
    }
  }

  /** Indexing a list without repeated ids and reading the values back gives the list. */
  lemma IndexValues(ws: seq<Workspace>)
    requires UniqueIds(ws)
    ensures Index(ws).Values() == ws
  {
    IndexKeys(ws);
  }

  /** A list without repeated ids is merged exactly as it is indexed. */
  lemma {:induction false} FoldUnique(ws: seq<Workspace>)
    requires UniqueIds(ws)
    ensures Fold(ws) == Index(ws)
    decreases |ws|
  {
    if ws != [] {
      var ys, w := ws[..|ws| - 1], ws[|ws| - 1];
      assert ws == ys + [w];
      UniqueSnoc(ys, w);
      FoldUnique(ys);
      FoldSnoc(ys, w);
      IndexKeys(ys);
      IndexedFresh(Index(ys), ys, w.id);
    }
  }

  /** Merging with an empty remote list returns the local list when its ids are distinct. */
  lemma MergeEmptyRemote(local: seq<Workspace>)
    requires UniqueIds(local)
    ensures Merged(local, []) == local
  {
    assert local + [] == local;
    FoldUnique(local);
    IndexValues(local);
  }

  // ---------------------------------------------------------------------------
  // Idempotence: merge(X, merge(X, Y)) == merge(X, Y)

  lemma {:induction false} FoldFromAppend(m: WorkspaceMap, a: seq<Workspace>, b: seq<Workspace>)
    requires m.Valid() && Keyed(m)
    ensures FoldFrom(m, a + b) == FoldFrom(FoldFrom(m, a), b)
    decreases |b|
  {
    if b == [] {
      assert a + b == a;
    } else {
      var c, w := b[..|b| - 1], b[|b| - 1];
      assert (a + b)[..|a + b| - 1] == a + c;
      FoldFromAppend(m, a, c);
    }
  }

  /** `f` is what the merge loop can reach from `m`: it extends `m`'s key order, and each
      record of `m` is either still there or replaced by a strictly more recent one. */
  ghost predicate Below(m: WorkspaceMap, f: WorkspaceMap) {
    && m.Valid() && Keyed(m) && f.Valid() && Keyed(f)
    && |m.keys| <= |f.keys| && f.keys[..|m.keys|] == m.keys
    && forall k :: k in m.entries ==> m.entries[k] == f.entries[k] || m.entries[k].lastModified < f.entries[k].lastModified
  }

  lemma AbsorbBelow(g: WorkspaceMap, w: Workspace)
    requires g.Valid() && Keyed(g)
    ensures Below(g, Absorb(g, w))
  {
    var a := Absorb(g, w);
    if w.id !in g.entries {
      AbsorbNew(g, w);
      assert a.keys[..|g.keys|] == g.keys;
    } else {
      AbsorbOld(g, w);
      assert a.keys[..|g.keys|] == g.keys;
    }
  }

  lemma BelowKeys(m: WorkspaceMap, g: WorkspaceMap)
    requires Below(m, g)
    ensures m.entries.Keys <= g.entries.Keys
  {
    forall k | k in m.entries ensures k in g.entries {
      var i :| 0 <= i < |m.keys| && m.keys[i] == k;
      assert g.keys[..|m.keys|][i] == g.keys[i];
    }
  }

  lemma BelowTrans(m: WorkspaceMap, g: WorkspaceMap, h: WorkspaceMap)
    requires Below(m, g) && Below(g, h)
    ensures Below(m, h)
  {
    assert h.keys[..|m.keys|] == h.keys[..|g.keys|][..|m.keys|];
    BelowKeys(m, g);
    forall k | k in m.entries
      ensures m.entries[k] == h.entries[k] || m.entries[k].lastModified < h.entries[k].lastModified
    {
      var x, y, z := m.entries[k], g.entries[k], h.entries[k];
      assert x == y || x.lastModified < y.lastModified;
      assert y == z || y.lastModified < z.lastModified;
    }
  }

  lemma {:induction false} FoldFromBelow(m: WorkspaceMap, b: seq<Workspace>)
    requires m.Valid() && Keyed(m)
    ensures Below(m, FoldFrom(m, b))
    decreases |b|
  {
    if b == [] {
      assert m.keys[..|m.keys|] == m.keys;
    } else {
      var c := b[..|b| - 1];
      FoldFromBelow(m, c);
      AbsorbBelow(FoldFrom(m, c), b[|b| - 1]);
      BelowTrans(m, FoldFrom(m, c), FoldFrom(m, b));
    }
  }

  /** `g` is the state of the merge loop after replaying the first `i` values of `f` onto
      `m`: the first `i` positions hold `f`'s records, the rest still `m`'s. */
  ghost predicate Replayed(g: WorkspaceMap, m: WorkspaceMap, f: WorkspaceMap, i: nat)
    requires Below(m, f) && i <= |f.keys|
  {
    && g.Valid() && Keyed(g)
    && g.keys == (if i <= |m.keys| then m.keys else f.keys[..i])
    && forall j :: 0 <= j < |g.keys| ==>
         g.entries[g.keys[j]] == if j < i then f.entries[f.keys[j]] else m.entries[m.keys[j]]
  }

  lemma ReplayStepOld(g: WorkspaceMap, m: WorkspaceMap, f: WorkspaceMap, i: nat)
    requires Below(m, f) && i < |m.keys| && Replayed(g, m, f, i)
    ensures Replayed(Absorb(g, f.Values()[i]), m, f, i + 1)
  {
    var id := f.keys[i];
    var v := f.entries[id];
    assert f.Values()[i] == v;
    assert id == m.keys[i] by {
      assert f.keys[..|m.keys|][i] == f.keys[i];
    }
    assert g.entries[id] == m.entries[id];
    var a := Absorb(g, v);
    assert a.keys == g.keys;
    forall j | 0 <= j < |a.keys|
      ensures a.entries[a.keys[j]] == if j < i + 1 then f.entries[f.keys[j]] else m.entries[m.keys[j]]
    {
      if j != i {
        assert a.keys[j] != id;
      }
    }
  }

  /** Absorbing the record `f` holds under its next key extends a map that agrees with `f`
      on a prefix of its keys to the next longer prefix. */
  lemma AbsorbNextKey(g: WorkspaceMap, f: WorkspaceMap, i: nat)
    requires g.Valid() && Keyed(g) && f.Valid() && Keyed(f) && i < |f.keys|
    requires g.keys == f.keys[..i]
    requires forall j :: 0 <= j < i ==> g.entries[g.keys[j]] == f.entries[f.keys[j]]
    ensures var a := Absorb(g, f.entries[f.keys[i]]);
      && a.keys == f.keys[..i + 1]
      && forall j :: 0 <= j < i + 1 ==> a.entries[a.keys[j]] == f.entries[f.keys[j]]
  {
    var id := f.keys[i];
    var v := f.entries[id];
    assert v.id == id;
    assert id !in g.entries by {
      assert id !in f.keys[..i];
    }
    AbsorbNew(g, v);
    var a := Absorb(g, v);
    assert a.entries == g.entries[id := v];
    assert a.keys == f.keys[..i + 1] by {
      assert f.keys[..i + 1] == f.keys[..i] + [id];
    }
    forall j | 0 <= j < i + 1 ensures a.entries[a.keys[j]] == f.entries[f.keys[j]] {
      if j < i {
        assert a.keys[j] == g.keys[j] != id;
      }
    }
  }

  lemma ReplayStepNew(g: WorkspaceMap, m: WorkspaceMap, f: WorkspaceMap, i: nat)
    requires Below(m, f) && |m.keys| <= i < |f.keys| && Replayed(g, m, f, i)
    ensures Replayed(Absorb(g, f.Values()[i]), m, f, i + 1)
  {
    assert f.Values()[i] == f.entries[f.keys[i]];
    assert g.keys == f.keys[..i];
    assert forall j :: 0 <= j < i ==> g.entries[g.keys[j]] == f.entries[f.keys[j]];
    AbsorbNextKey(g, f, i);
  }

  lemma FoldFromSnoc(m: WorkspaceMap, ys: seq<Workspace>, w: Workspace)
    requires m.Valid() && Keyed(m)
    ensures FoldFrom(m, ys + [w]) == Absorb(FoldFrom(m, ys), w)
  {
    assert (ys + [w])[..|ys|] == ys;
  }

  lemma ReplayStep(g: WorkspaceMap, m: WorkspaceMap, f: WorkspaceMap, i: nat)
    requires Below(m, f) && i < |f.keys| && Replayed(g, m, f, i)
    ensures Replayed(Absorb(g, f.Values()[i]), m, f, i + 1)
  {
    if i < |m.keys| {
      ReplayStepOld(g, m, f, i);
    } else {
      ReplayStepNew(g, m, f, i);
    }
  }

  lemma FoldFromPrefix(m: WorkspaceMap, vs: seq<Workspace>, i: nat)
    requires m.Valid() && Keyed(m) && 0 < i <= |vs|
    ensures FoldFrom(m, vs[..i]) == Absorb(FoldFrom(m, vs[..i - 1]), vs[i - 1])
  {
    assert vs[..i][..i - 1] == vs[..i - 1];
  }

  lemma {:induction false} ReplayFold(m: WorkspaceMap, f: WorkspaceMap, i: nat)
    requires Below(m, f) && i <= |f.keys|
    ensures Replayed(FoldFrom(m, f.Values()[..i]), m, f, i)
    decreases i
  {
    var vs := f.Values();
    if i == 0 {
      assert vs[..0] == [];
    } else {
      ReplayFold(m, f, i - 1);
      var g := FoldFrom(m, vs[..i - 1]);
      assert Replayed(g, m, f, i - 1);
      ReplayStep(g, m, f, i - 1);
      FoldFromPrefix(m, vs, i);
    }
  }

  /** A fully replayed map is `f` itself. */
  lemma ReplayedFull(g: WorkspaceMap, m: WorkspaceMap, f: WorkspaceMap)
    requires Below(m, f) && Replayed(g, m, f, |f.keys|)
    ensures g == f
  {
    var n := |f.keys|;
    assert g.keys == f.keys by {
      assert f.keys[..n] == f.keys;
    }
    forall k | k in g.entries ensures k in f.entries && g.entries[k] == f.entries[k] {
      var j :| 0 <= j < n && g.keys[j] == k;
    }
    forall k | k in f.entries ensures k in g.entries {
      var j :| 0 <= j < n && f.keys[j] == k;
    }
    assert g.entries == f.entries;
  }

  /** Replaying all of `f`'s values onto a map it extends gives back `f`. */
  lemma ReplayAll(m: WorkspaceMap, f: WorkspaceMap)
    requires Below(m, f)
    ensures FoldFrom(m, f.Values()) == f
  {
    var vs, n := f.Values(), |f.keys|;
    ReplayFold(m, f, n);
    assert vs[..n] == vs;
    ReplayedFull(FoldFrom(m, vs), m, f);
  }

  /** Re-merging the local list into an already merged list changes nothing. */
  lemma MergeIdempotent(x: seq<Workspace>, y: seq<Workspace>)
    ensures Merged(x, Merged(x, y)) == Merged(x, y)
  {
    var a, f := Fold(x), Fold(x + y);
    FoldFromAppend(Empty(), x, y);
    FoldFromBelow(a, y);
    FoldFromAppend(Empty(), x, f.Values());
    ReplayAll(a, f);
  }

  /** A list without repeated ids merged with itself comes back unchanged: a second
      synchronisation against the list the first one stored is a no-op. */
  lemma MergeSelf(ws: seq<Workspace>)
    requires UniqueIds(ws)
    ensures Merged(ws, ws) == ws
  {
    MergeEmptyRemote(ws);
    MergeIdempotent(ws, []);
  }

  // ---------------------------------------------------------------------------
  // Commutativity on disjoint ids

  /** The latest record for an id that the right part does not carry lies in the left part. */
  lemma LatestInLeft(xs: seq<Workspace>, ys: seq<Workspace>, id: string, k: int)
    requires IsLatest(xs + ys, id, k) && id !in Ids(ys)
    ensures k < |xs| && IsLatest(xs, id, k)
  {
    forall j | 0 <= j < |xs| ensures xs[j] == (xs + ys)[j] {
    }
  }

  /** The latest record for an id that the left part does not carry lies in the right part. */
  lemma LatestInRight(xs: seq<Workspace>, ys: seq<Workspace>, id: string, k: int)
    requires IsLatest(xs + ys, id, k) && id !in Ids(xs)
    ensures k >= |xs| && IsLatest(ys, id, k - |xs|)
  {
    forall j | 0 <= j < |ys| ensures ys[j] == (xs + ys)[|xs| + j] {
    }
  }

  /** With no id in both lists, the latest record for an id is the same record whichever
      list comes first. */
  lemma SwappedLatestSame(x: seq<Workspace>, y: seq<Workspace>, id: string, k: int, k2: int)
    requires Ids(x) !! Ids(y)
    requires IsLatest(x + y, id, k) && IsLatest(y + x, id, k2)
    ensures (x + y)[k] == (y + x)[k2]
  {
    if id in Ids(x) {
      LatestInLeft(x, y, id, k);
      LatestInRight(y, x, id, k2);
      LatestUnique(x, id, k, k2 - |y|);
      assert (y + x)[k2] == x[k2 - |y|];
    } else {
      LatestInRight(x, y, id, k);
      LatestInLeft(y, x, id, k2);
      LatestUnique(y, id, k - |x|, k2);
      assert (x + y)[k] == y[k - |x|];
    }
  }

  /** A record merged from `x` and `y` is also merged from `y` and `x` when no id is in both. */
  lemma MergedInSwapped(x: seq<Workspace>, y: seq<Workspace>, w: Workspace)
    requires Ids(x) !! Ids(y)
    requires w in Merged(x, y)
    ensures w in Merged(y, x)
  {
    var r := Merged(x, y);
    MergedLatest(x, y);
    var i :| 0 <= i < |r| && r[i] == w;
    var k :| IsLatest(x + y, w.id, k) && w == (x + y)[k];
    assert w.id in Ids(y + x) by {
      IdsAppend(x, y);
      IdsAppend(y, x);
      assert (x + y)[k] in x + y;
    }
    var k2 := FindMerged(y, x, w.id);
    SwappedLatestSame(x, y, w.id, k, k2);
  }

  /** In a list without repeated ids every record occurs once. */
  lemma {:induction false} UniqueOnce(ws: seq<Workspace>)
    requires UniqueIds(ws)
    ensures forall w :: multiset(ws)[w] == if w in ws then 1 else 0
    decreases |ws|
  {
    if ws != [] {
      assert ws == [ws[0]] + ws[1..];
      assert ws[0] !in ws[1..];
      UniqueOnce(ws[1..]);
    }
  }

  /** Two lists without repeated ids that hold the same records hold each equally often. */
  lemma SameRecordsSameCounts(a: seq<Workspace>, b: seq<Workspace>)
    requires UniqueIds(a) && UniqueIds(b)
    requires forall w :: w in a <==> w in b
    ensures multiset(a) == multiset(b)
  {
    UniqueOnce(a);
    UniqueOnce(b);
  }

  /** Merging lists that share no id does not depend on which one is local: both orders
      hold the same records, each once, so they differ at most in order. */
  lemma MergeDisjointCommutes(x: seq<Workspace>, y: seq<Workspace>)
    requires Ids(x) !! Ids(y)
    ensures forall w :: w in Merged(x, y) <==> w in Merged(y, x)
    ensures multiset(Merged(x, y)) == multiset(Merged(y, x))
  {
    forall w | w in Merged(x, y) ensures w in Merged(y, x) {
      MergedInSwapped(x, y, w);
    }
    forall w | w in Merged(y, x) ensures w in Merged(x, y) {
      MergedInSwapped(y, x, w);
    }
    MergedIds(x, y);
    MergedIds(y, x);
    SameRecordsSameCounts(Merged(x, y), Merged(y, x));
  }
}
