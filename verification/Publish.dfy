/**
 Release publication: a retained build is published first, then the rolling alias `latest` advances.
 Runs are serialized, and a run can end after any single change it made to the remote.
 */
module Publish {
  import opened Outcomes

  type Tag = string
  type Name = string

  const LATEST: Tag := "latest"
  const SUMS: Name := "SHA256SUMS"
  const PROVENANCE: Name := "PROVENANCE"

  /** The `build_number` field of a provenance file: absent, not a number, or a number. */
  datatype Build = NoBuild | BadBuild | BuildNo(n: nat)

  /** How file contents are read: digests, the manifest as a table, the provenance file. */
  datatype Reader = Reader(digest: string -> string, sums: string -> map<Name, string>, build: string -> Build)

  datatype Release = Release(draft: bool, target: string, assets: map<Name, string>)

  /** What a tag of the repository points at. */
  datatype Ref = Commit(sha: string) | Annotated(sha: string)

  datatype Remote = Remote(releases: map<Tag, Release>, refs: map<Tag, Ref>)

  /** What a run publishes: its assets and its identity. */
  datatype Publisher = Publisher(assets: map<Name, string>, tag: Tag, sha: string, number: nat)

  /** The assets are exactly those the manifest among them lists, with the digests it lists. */
  predicate Complete(assets: map<Name, string>, rd: Reader) {
    && SUMS in assets
    && var sums := rd.sums(assets[SUMS]);
    && sums.Keys == assets.Keys - {SUMS}
    && forall n | n in sums :: rd.digest(assets[n]) == sums[n]
  }

  /** What the constructor checks before anything is touched. A retained tag is never `latest`. */
  predicate Accepted(p: Publisher, rd: Reader) {
    && p.tag != LATEST && p.number > 0
    && SUMS in p.assets && PROVENANCE in p.assets && rd.build(p.assets[PROVENANCE]) == BuildNo(p.number)
    && Complete(p.assets, rd)
  }

  // ----- safety

  /** The build number that `latest` shows, when it can be read; a file without one counts as 0. */
  function LatestBuild(r: Remote, rd: Reader): Option<nat> {
    if LATEST !in r.releases || PROVENANCE !in r.releases[LATEST].assets then None
    else
      match rd.build(r.releases[LATEST].assets[PROVENANCE])
      case NoBuild => Some(0)
      case BuildNo(n) => Some(n)
      case BadBuild => None
  }

  /** A state of the remote and the highest build number `latest` has shown up to it. */
  datatype Snap = Snap(remote: Remote, high: nat)

  ghost predicate SnapOk(s: Snap, rd: Reader) {
    var b := LatestBuild(s.remote, rd);
    (b.Some? ==> b.value == s.high) && (LATEST !in s.remote.releases ==> s.high == 0)
  }

  function Published(r: Remote, t: Tag): bool {
    t in r.releases && !r.releases[t].draft
  }

  function ManifestOf(r: Remote, t: Tag): Option<string> {
    if t in r.releases && SUMS in r.releases[t].assets then Some(r.releases[t].assets[SUMS]) else None
  }

  /** What every single change of the remote obeys. */
  ghost predicate SafeStep(a: Snap, b: Snap, rd: Reader) {
    // a published retained release is never modified
    && (forall t | t != LATEST && Published(a.remote, t) ::
          t in b.remote.releases && b.remote.releases[t] == a.remote.releases[t])
    // one is published only with exactly the assets its manifest lists
    && (forall t | t != LATEST && Published(b.remote, t) && !Published(a.remote, t) ::
          Complete(b.remote.releases[t].assets, rd))
    // the number `latest` shows never goes down
    && a.high <= b.high && SnapOk(b, rd)
    // a manifest arrives at `latest` last: everything it lists is there and nothing else
    && (ManifestOf(b.remote, LATEST).Some? && ManifestOf(b.remote, LATEST) != ManifestOf(a.remote, LATEST) ==>
          Complete(b.remote.releases[LATEST].assets, rd))
  }

  ghost predicate SafeHistory(h: seq<Snap>, rd: Reader) {
    && h != [] && (forall i :: 0 <= i < |h| ==> SnapOk(h[i], rd))
    && forall i :: 0 < i < |h| ==> SafeStep(h[i - 1], h[i], rd)
  }

  /** Once published, a retained release is the same in every later state. */
  lemma {:induction false} PublishedForever(h: seq<Snap>, rd: Reader, t: Tag, i: nat, j: nat)
    requires SafeHistory(h, rd) && i <= j < |h| && t != LATEST && Published(h[i].remote, t)
    ensures t in h[j].remote.releases && h[j].remote.releases[t] == h[i].remote.releases[t]
    decreases j
  {
    hide Complete, SnapOk;
    if i < j {
      PublishedForever(h, rd, t, i, j - 1);
      assert SafeStep(h[j - 1], h[j], rd);
    }
  }

  /** A retained release that was published along the way holds exactly the files its manifest lists. */
  lemma {:induction false} PublishedComplete(h: seq<Snap>, rd: Reader, t: Tag, j: nat)
    requires SafeHistory(h, rd) && j < |h| && t != LATEST
    requires Published(h[j].remote, t) && !Published(h[0].remote, t)
    ensures Complete(h[j].remote.releases[t].assets, rd)
  {
    hide Complete, SnapOk;
    assert SafeStep(h[j - 1], h[j], rd);
    if Published(h[j - 1].remote, t) {
      PublishedComplete(h, rd, t, j - 1);
    }
  }

  lemma {:induction false} HighGrows(h: seq<Snap>, rd: Reader, i: nat, j: nat)
    requires SafeHistory(h, rd) && i <= j < |h|
    ensures h[i].high <= h[j].high
    decreases j
  {
    hide Complete, SnapOk;
    if i < j {
      HighGrows(h, rd, i, j - 1);
      assert SafeStep(h[j - 1], h[j], rd);
    }
  }

  /** The build number that `latest` shows never decreases, whatever happened between the two readings. */
  lemma BuildNeverDrops(h: seq<Snap>, rd: Reader, i: nat, j: nat)
    requires SafeHistory(h, rd) && i <= j < |h|
    requires LatestBuild(h[i].remote, rd).Some? && LatestBuild(h[j].remote, rd).Some?
    ensures LatestBuild(h[i].remote, rd).value <= LatestBuild(h[j].remote, rd).value
  {
    hide SafeStep, LatestBuild;
    HighGrows(h, rd, i, j);
  }

  /** A manifest of `latest` has been there from the start, or it arrived in one change, at which all the files
      it lists were there and no other, and has stayed since. */
  lemma {:induction false} ManifestArrived(h: seq<Snap>, rd: Reader, j: nat) returns (k: nat)
    requires SafeHistory(h, rd) && j < |h| && ManifestOf(h[j].remote, LATEST).Some?
    ensures k <= j
    ensures forall i :: k <= i <= j ==> ManifestOf(h[i].remote, LATEST) == ManifestOf(h[j].remote, LATEST)
    ensures k > 0 ==> LATEST in h[k].remote.releases && Complete(h[k].remote.releases[LATEST].assets, rd)
    ensures k > 0 ==> ManifestOf(h[k - 1].remote, LATEST) != ManifestOf(h[k].remote, LATEST)
  {
    hide Complete, SnapOk;
    k := j;
    if j > 0 {
      assert SafeStep(h[j - 1], h[j], rd);
      if ManifestOf(h[j - 1].remote, LATEST) == ManifestOf(h[j].remote, LATEST) {
        k := ManifestArrived(h, rd, j - 1);
      }
    }
  }

  // ----- which changes are safe

  function NextHigh(r: Remote, high: nat, rd: Reader): nat {
    var b := LatestBuild(r, rd);
    if b.Some? && b.value > high then b.value else high
  }

  ghost predicate Safely(s: Snap, next: Remote, rd: Reader) {
    SafeStep(s, Snap(next, NextHigh(next, s.high, rd)), rd)
  }

  function With(r: Remote, t: Tag, release: Release): Remote {
    r.(releases := r.releases[t := release])
  }

  /** A draft outside `latest` may become anything; it may be published once it is complete. */
  lemma DraftSafe(s: Snap, t: Tag, release: Release, refs: map<Tag, Ref>, rd: Reader)
    requires SnapOk(s, rd) && t != LATEST && t in s.remote.releases && s.remote.releases[t].draft
    requires release.draft || Complete(release.assets, rd)
    ensures var n := With(s.remote, t, release).(refs := refs);
            NextHigh(n, s.high, rd) == s.high && Safely(s, n, rd)
  {
    hide Complete;
  }

  function Draft(target: string): Release {
    Release(true, target, map[])
  }

  lemma CreateSafe(s: Snap, t: Tag, target: string, rd: Reader)
    requires SnapOk(s, rd) && t !in s.remote.releases
    ensures var n := With(s.remote, t, Draft(target));
            NextHigh(n, s.high, rd) == s.high && Safely(s, n, rd)
  {
    hide Complete;
  }

  /** The assets of `latest` may lose files. Provenance may only arrive with a build no lower than any before,
      and a manifest only when it completes the set. */
  ghost predicate LatestEdit(was: map<Name, string>, now: map<Name, string>, high: nat, rd: Reader) {
    && (PROVENANCE in now ==>
          || (PROVENANCE in was && was[PROVENANCE] == now[PROVENANCE])
          || (rd.build(now[PROVENANCE]).BuildNo? && rd.build(now[PROVENANCE]).n >= high))
    && (SUMS in now ==> (SUMS in was && was[SUMS] == now[SUMS]) || Complete(now, rd))
  }

  lemma LatestSafe(s: Snap, release: Release, refs: map<Tag, Ref>, rd: Reader)
    requires SnapOk(s, rd) && LATEST in s.remote.releases
    requires LatestEdit(s.remote.releases[LATEST].assets, release.assets, s.high, rd)
    ensures Safely(s, With(s.remote, LATEST, release).(refs := refs), rd)
  {
    hide Complete;
  }

  // ----- the remote

  class GitHub {
    const rd: Reader
    var remote: Remote
    /** How many more changes succeed before the run is cut off. */
    var budget: nat
    ghost var history: seq<Snap>

    constructor (rd: Reader, remote: Remote)
      ensures this.rd == rd && this.remote == remote && Safe() && |history| == 1
    {
      this.rd, this.remote, budget := rd, remote, 0;
      var b := LatestBuild(remote, rd);
      history := [Snap(remote, if b.Some? then b.value else 0)];
    }

    /** The remote is where its history ends, and the history is safe. */
    ghost predicate Safe()
      reads this
    {
      history != [] && SafeHistory(history, rd) && Last().remote == remote && SnapOk(Last(), rd)
    }

    ghost function Last(): Snap
      requires history != []
      reads this
    {
      history[|history| - 1]
    }

    /** One change of the remote, unless the run is cut off before it. */
    method Commit(next: Remote) returns (ok: bool)
      requires Safe() && Safely(Last(), next, rd)
      modifies this
      ensures Safe() && old(history) <= history
      ensures ok ==> remote == next && Last().high == NextHigh(next, old(Last().high), rd) && budget == old(budget) - 1
      ensures !ok ==> remote == old(remote) && history == old(history) && budget == old(budget) == 0
    {
      hide SafeStep, SnapOk, NextHigh;
      if budget == 0 {
        return false;
      }
      ghost var s := Snap(next, NextHigh(next, Last().high, rd));
      ghost var h := history;
      assert SnapOk(s, rd) by { StepEndsOk(Last(), s, rd); }
      budget, remote := budget - 1, next;
      history := history + [s];
      assert forall i :: 0 <= i < |h| ==> history[i] == h[i];
      return true;
    }
  }

  lemma StepEndsOk(a: Snap, b: Snap, rd: Reader)
    requires SafeStep(a, b, rd)
    ensures SnapOk(b, rd)
  {
  }

  // ----- the publisher's steps

  /** Only the assets of one release differ. */
  ghost predicate OnlyAssets(a: Remote, b: Remote, t: Tag) {
    t in a.releases && t in b.releases && b == With(a, t, a.releases[t].(assets := b.releases[t].assets))
  }

  /** A release whose assets the publisher may change. */
  ghost predicate Open(r: Remote, t: Tag) {
    t in r.releases && (t == LATEST || r.releases[t].draft)
  }

  /** One more change of the same release's assets. */
  lemma Chained(a: Remote, b: Remote, c: Remote, t: Tag)
    requires OnlyAssets(a, b, t) && OnlyAssets(b, c, t)
    ensures OnlyAssets(a, c, t) && t in c.releases && (Open(b, t) ==> Open(c, t))
  {
  }

  lemma Unchanged(a: Remote, t: Tag)
    requires t in a.releases
    ensures OnlyAssets(a, a, t)
  {
    assert a.releases[t := a.releases[t]] == a.releases;
  }

  /** What may be put into `latest`. */
  ghost predicate Puttable(was: map<Name, string>, name: Name, content: string, high: nat, rd: Reader) {
    && (name == PROVENANCE ==> rd.build(content).BuildNo? && rd.build(content).n >= high)
    && (name == SUMS ==> Complete(was[SUMS := content], rd))
  }

  /** Gives a release other assets, in one change. */
  method SetAssets(hub: GitHub, t: Tag, assets: map<Name, string>) returns (ok: bool)
    requires hub.Safe() && Open(hub.remote, t)
    requires t == LATEST ==> LatestEdit(hub.remote.releases[t].assets, assets, hub.Last().high, hub.rd)
    modifies hub
    ensures hub.Safe() && old(hub.history) <= hub.history
    ensures OnlyAssets(old(hub.remote), hub.remote, t)
    ensures hub.remote.releases[t].assets == if ok then assets else old(hub.remote.releases[t].assets)
    ensures hub.Last().high == if ok then NextHigh(hub.remote, old(hub.Last().high), hub.rd) else old(hub.Last().high)
    ensures ok <==> old(hub.budget) > 0
    ensures hub.budget == if ok then old(hub.budget) - 1 else 0
    ensures !ok ==> hub.remote == old(hub.remote)
  {
    hide SafeStep, LatestBuild, NextHigh, Complete, LatestEdit;
    var release := hub.remote.releases[t].(assets := assets);
    var next := With(hub.remote, t, release);
    assert next == next.(refs := hub.remote.refs);
    if t == LATEST {
      LatestSafe(hub.Last(), release, hub.remote.refs, hub.rd);
    } else {
      DraftSafe(hub.Last(), t, release, hub.remote.refs, hub.rd);
    }
    ok := hub.Commit(next);
  }

  /** Deletes one asset. */
  method Delete(hub: GitHub, t: Tag, name: Name) returns (ok: bool)
    requires hub.Safe() && Open(hub.remote, t)
    modifies hub
    ensures hub.Safe() && old(hub.history) <= hub.history && hub.Last().high == old(hub.Last().high)
    ensures OnlyAssets(old(hub.remote), hub.remote, t)
    ensures hub.remote.releases[t].assets == old(hub.remote.releases[t].assets) - if ok then {name} else {}
    ensures ok <==> old(hub.budget) > 0
    ensures hub.budget == if ok then old(hub.budget) - 1 else 0
    ensures !ok ==> hub.remote == old(hub.remote)
  {
    hide Complete;
    ok := SetAssets(hub, t, hub.remote.releases[t].assets - {name});
  }

  /** How many changes an upload takes: one to put the file, one more to delete what has its name. */
  function UploadCost(was: map<Name, string>, name: Name): nat {
    if name in was then 2 else 1
  }

  /** How many changes the uploads of these files take, the manifest left out. */
  function Cost(was: map<Name, string>, names: seq<Name>): nat {
    if names == [] then 0
    else
      var n := names[|names| - 1];
      Cost(was, names[..|names| - 1]) + if n == SUMS then 0 else UploadCost(was, n)
  }

  lemma CostNext(was: map<Name, string>, names: seq<Name>, i: nat)
    requires i < |names|
    ensures Cost(was, names[..i + 1])
            == Cost(was, names[..i]) + if names[i] == SUMS then 0 else UploadCost(was, names[i])
  {
    assert names[..i + 1][..i] == names[..i];
  }

  lemma {:induction false} CostGrows(was: map<Name, string>, names: seq<Name>, i: nat, j: nat)
    requires i <= j <= |names|
    ensures Cost(was, names[..i]) <= Cost(was, names[..j])
    decreases j
  {
    if i < j {
      hide UploadCost;
      CostNext(was, names, j - 1);
      CostGrows(was, names, i, j - 1);
    }
  }

  /** Each file once. */
  ghost predicate IsOrder(order: seq<Name>, assets: map<Name, string>) {
    && (forall n :: n in order <==> n in assets)
    && (forall i, j :: 0 <= i < j < |order| ==> order[i] != order[j])
  }

  /** Where a name stands in the order. */
  function IndexOf(names: seq<Name>, name: Name): (k: nat)
    requires name in names
    ensures k < |names| && names[k] == name
  {
    if names[0] == name then 0 else 1 + IndexOf(names[1..], name)
  }

  /** Uploads one file, replacing the asset of that name: the old one is deleted first. */
  method Upload(hub: GitHub, t: Tag, name: Name, content: string) returns (ok: bool)
    requires hub.Safe() && Open(hub.remote, t)
    requires t == LATEST ==> Puttable(hub.remote.releases[t].assets, name, content, hub.Last().high, hub.rd)
    modifies hub
    ensures hub.Safe() && old(hub.history) <= hub.history
    ensures OnlyAssets(old(hub.remote), hub.remote, t)
    ensures ok ==> hub.remote.releases[t].assets == old(hub.remote.releases[t].assets)[name := content]
    ensures hub.Last().high == if ok && t == LATEST && name == PROVENANCE then hub.rd.build(content).n
                               else old(hub.Last().high)
    ensures ok <==> old(hub.budget) >= UploadCost(old(hub.remote.releases[t].assets), name)
    ensures hub.budget == if ok then old(hub.budget) - UploadCost(old(hub.remote.releases[t].assets), name) else 0
    ensures !ok ==> hub.remote.releases[t].assets
                    == old(hub.remote.releases[t].assets) - if old(hub.budget) == 1 then {name} else {}
  {
    hide Complete, SafeStep;
    ghost var was := hub.remote.releases[t].assets;
    if name in hub.remote.releases[t].assets {
      ok := Delete(hub, t, name);
      if !ok {
        return;
      }
    }
    var assets := hub.remote.releases[t].assets;
    assert assets[name := content] == was[name := content];
    ok := SetAssets(hub, t, assets[name := content]);
  }

  /** The named files, without the manifest. */
  ghost function DataOf(assets: map<Name, string>, names: seq<Name>): map<Name, string> {
    map n | n in names && n in assets && n != SUMS :: assets[n]
  }

  lemma DataNext(assets: map<Name, string>, names: seq<Name>, i: nat)
    requires i < |names| && names[i] in assets
    ensures DataOf(assets, names[..i + 1])
            == if names[i] == SUMS then DataOf(assets, names[..i])
               else DataOf(assets, names[..i])[names[i] := assets[names[i]]]
  {
    assert names[..i + 1] == names[..i] + [names[i]];
  }

  lemma DataNone(assets: map<Name, string>, names: seq<Name>)
    ensures DataOf(assets, names[..0]) == map[]
  {
  }

  lemma DataAll(assets: map<Name, string>, names: seq<Name>)
    requires forall n :: n in names <==> n in assets
    ensures names[..|names|] == names && DataOf(assets, names) == assets - {SUMS}
  {
  }

  lemma UploadedAll(was: map<Name, string>, p: Publisher, order: seq<Name>)
    requires forall n :: n in order <==> n in p.assets
    ensures was + DataOf(p.assets, order) == Uploaded(was, p)
  {
    DataAll(p.assets, order);
  }

  lemma AddOne(was: map<Name, string>, more: map<Name, string>, n: Name, content: string)
    ensures (was + more)[n := content] == was + more[n := content]
  {
  }

  /** The assets once every file of the run but the manifest is uploaded. */
  function Uploaded(was: map<Name, string>, p: Publisher): map<Name, string> {
    was + (p.assets - {SUMS})
  }

  /** The assets without the foreign ones. */
  function Cleaned(was: map<Name, string>, p: Publisher): map<Name, string> {
    was - (was.Keys - p.assets.Keys)
  }

  /** How many foreign ones there are. */
  function Foreign(was: map<Name, string>, p: Publisher): nat {
    |was.Keys - p.assets.Keys|
  }

  /** Both have the same files among those of the run. */
  ghost predicate SameOwn(was: map<Name, string>, now: map<Name, string>, p: Publisher) {
    forall n | n in p.assets :: (n in now <==> n in was) && (n in was ==> now[n] == was[n])
  }

  /** Whichever comes first, the run's files are all there is in the end. */
  lemma BothOrders(was: map<Name, string>, p: Publisher)
    requires SUMS in p.assets
    ensures Cleaned(Uploaded(was, p)[SUMS := p.assets[SUMS]], p) == p.assets
    ensures Cleaned(Uploaded(was, p), p)[SUMS := p.assets[SUMS]] == p.assets
    ensures Foreign(Uploaded(was, p), p) == Foreign(was, p)
    ensures Foreign(Uploaded(was, p)[SUMS := p.assets[SUMS]], p) == Foreign(was, p)
    ensures SUMS in Uploaded(was, p) <==> SUMS in was
    ensures SUMS in Cleaned(Uploaded(was, p), p) <==> SUMS in was
  {
    hide Cleaned, Foreign, Uploaded;
    CleanedLast(was, p);
    CleanedFirst(was, p);
    SameForeign(was, p);
  }

  lemma CleanedLast(was: map<Name, string>, p: Publisher)
    requires SUMS in p.assets
    ensures Cleaned(Uploaded(was, p)[SUMS := p.assets[SUMS]], p) == p.assets
  {
  }

  lemma CleanedFirst(was: map<Name, string>, p: Publisher)
    requires SUMS in p.assets
    ensures Cleaned(Uploaded(was, p), p)[SUMS := p.assets[SUMS]] == p.assets
    ensures SUMS in Cleaned(Uploaded(was, p), p) <==> SUMS in was
  {
  }

  lemma SameForeign(was: map<Name, string>, p: Publisher)
    requires SUMS in p.assets
    ensures Foreign(Uploaded(was, p), p) == Foreign(was, p)
    ensures Foreign(Uploaded(was, p)[SUMS := p.assets[SUMS]], p) == Foreign(was, p)
    ensures SUMS in Uploaded(was, p) <==> SUMS in was
  {
    assert Uploaded(was, p).Keys - p.assets.Keys == was.Keys - p.assets.Keys;
    assert Uploaded(was, p)[SUMS := p.assets[SUMS]].Keys - p.assets.Keys == was.Keys - p.assets.Keys;
  }

  /** How many changes it takes to make the assets exactly the run's. */
  function FillCost(was: map<Name, string>, p: Publisher, order: seq<Name>): nat {
    Cost(was, order) + UploadCost(was, SUMS) + Foreign(was, p)
  }

  lemma ManifestCost(was: map<Name, string>, now: map<Name, string>)
    requires SUMS in was <==> SUMS in now
    ensures UploadCost(was, SUMS) == UploadCost(now, SUMS)
  {
  }

  /** The number of changes after which the provenance file is deleted and not yet put. */
  function ProvenanceCut(was: map<Name, string>, order: seq<Name>): nat
    requires PROVENANCE in order
  {
    Cost(was, order[..IndexOf(order, PROVENANCE)]) + 1
  }

  /** A cut with `left` changes to go when the file at `i` is due leaves the provenance file deleted exactly when
      that file is it and one change is left. */
  lemma CutHits(was: map<Name, string>, order: seq<Name>, i: nat, cut: nat)
    requires PROVENANCE in order && PROVENANCE in was && i < |order| && order[i] != SUMS
    requires forall i, j :: 0 <= i < j < |order| ==> order[i] != order[j]
    requires Cost(was, order[..i]) <= cut < Cost(was, order[..i]) + UploadCost(was, order[i])
    ensures cut == ProvenanceCut(was, order) <==> order[i] == PROVENANCE && cut == Cost(was, order[..i]) + 1
  {
    hide Cost;
    var k := IndexOf(order, PROVENANCE);
    CostNext(was, order, i);
    CostNext(was, order, k);
    if i < k {
      CostGrows(was, order, i + 1, k);
    } else if k < i {
      CostGrows(was, order, k + 1, i);
    }
  }

  lemma CostTotal(was: map<Name, string>, order: seq<Name>, i: nat)
    requires i < |order| && order[i] != SUMS
    ensures Cost(was, order[..i]) + UploadCost(was, order[i]) <= Cost(was, order)
  {
    hide Cost, UploadCost;
    CostNext(was, order, i);
    CostGrows(was, order, i + 1, |order|);
    assert order[..|order|] == order;
  }

  /** Uploads every file but the manifest. */
  method UploadData(hub: GitHub, t: Tag, p: Publisher, order: seq<Name>) returns (ok: bool)
    requires hub.Safe() && Open(hub.remote, t) && Accepted(p, hub.rd)
    requires IsOrder(order, p.assets)
    requires hub.Last().high <= p.number || t != LATEST
    modifies hub
    ensures hub.Safe() && old(hub.history) <= hub.history
    ensures OnlyAssets(old(hub.remote), hub.remote, t)
    ensures hub.Last().high == old(hub.Last().high) || (t == LATEST && hub.Last().high == p.number)
    ensures var was, now := old(hub.remote.releases[t].assets), hub.remote.releases[t].assets;
            && (ok ==> now == Uploaded(was, p))
            && (ok <==> old(hub.budget) >= Cost(was, order))
            && hub.budget == (if ok then old(hub.budget) - Cost(was, order) else 0)
            && (!ok ==> CutShort(was, now, p, order, old(hub.budget)))
    ensures ok && t == LATEST ==> hub.Last().high == p.number
  {
    hide Complete, SafeHistory, DataOf, Cost, UploadCost, CutShort, Uploaded;
    Unchanged(hub.remote, t);
    ok := true;
    ghost var was, cut := hub.remote.releases[t].assets, hub.budget;
    ghost var done := false;
    hide Open, OnlyAssets;
    assert was + DataOf(p.assets, order[..0]) == was by { DataNone(p.assets, order); }
    assert Cost(was, order[..0]) == 0 by { CostNone(was, order); }
    for i := 0 to |order|
      invariant hub.Safe() && old(hub.history) <= hub.history
      invariant OnlyAssets(old(hub.remote), hub.remote, t) && t in hub.remote.releases && Open(hub.remote, t)
      invariant hub.Last().high == (if done && t == LATEST then p.number else old(hub.Last().high))
      invariant hub.remote.releases[t].assets == was + DataOf(p.assets, order[..i])
      invariant PROVENANCE in order[..i] ==> done
      invariant hub.budget + Cost(was, order[..i]) == cut
    {
      var n := order[i];
      DataNext(p.assets, order, i);
      CostNext(was, order, i);
      if n != SUMS {
        SameCost(was, p.assets, order, i);
        ghost var before := hub.remote;
        ok := Upload(hub, t, n, p.assets[n]);
        Chained(old(hub.remote), before, hub.remote, t);
        if !ok {
          CostTotal(was, order, i);
          CutShortAt(was, hub.remote.releases[t].assets, p, order, i, cut);
          return;
        }
        done := done || n == PROVENANCE;
        AddOne(was, DataOf(p.assets, order[..i]), n, p.assets[n]);
      }
    }
    DataAll(p.assets, order);
    UploadedAll(was, p, order);
  }

  /** What uploads that were cut off leave: the manifest as it was, and the provenance file, the old one or the
      new one, unless the cut came right after its deletion. */
  ghost predicate CutShort(was: map<Name, string>, now: map<Name, string>, p: Publisher, order: seq<Name>, cut: nat)
    requires PROVENANCE in order && PROVENANCE in p.assets
  {
    && (SUMS in now <==> SUMS in was)
    && (PROVENANCE in now ==>
          now[PROVENANCE] == p.assets[PROVENANCE] || (PROVENANCE in was && now[PROVENANCE] == was[PROVENANCE]))
    && (PROVENANCE in was ==> (PROVENANCE !in now <==> cut == ProvenanceCut(was, order)))
  }

  lemma CutShortAt(was: map<Name, string>, now: map<Name, string>, p: Publisher, order: seq<Name>, i: nat, cut: nat)
    requires IsOrder(order, p.assets) && PROVENANCE in p.assets && i < |order| && order[i] != SUMS
    requires Cost(was, order[..i]) <= cut < Cost(was, order[..i]) + UploadCost(was, order[i])
    requires now == (was + DataOf(p.assets, order[..i]))
                    - if cut == Cost(was, order[..i]) + 1 then {order[i]} else {}
    ensures CutShort(was, now, p, order, cut)
  {
    hide Cost, UploadCost, ProvenanceCut;
    if PROVENANCE in was {
      CutHits(was, order, i, cut);
    }
  }

  lemma CostNone(was: map<Name, string>, order: seq<Name>)
    ensures Cost(was, order[..0]) == 0
  {
  }

  /** A file has the same cost when its turn comes: those before it have other names. */
  lemma SameCost(was: map<Name, string>, assets: map<Name, string>, order: seq<Name>, i: nat)
    requires i < |order| && forall i, j :: 0 <= i < j < |order| ==> order[i] != order[j]
    ensures UploadCost(was + DataOf(assets, order[..i]), order[i]) == UploadCost(was, order[i])
  {
  }

  /** The assets without the foreign ones, of which those in `left` are still there. */
  ghost function Pruned(was: map<Name, string>, p: Publisher, left: set<Name>): map<Name, string> {
    was - (was.Keys - p.assets.Keys - left)
  }

  lemma PruneOne(was: map<Name, string>, p: Publisher, left: set<Name>, n: Name)
    requires left <= was.Keys - p.assets.Keys && n in left
    ensures Pruned(was, p, left) - {n} == Pruned(was, p, left - {n}) && |left - {n}| == |left| - 1
  {
  }

  lemma PruneEnds(was: map<Name, string>, p: Publisher, left: set<Name>)
    requires left <= was.Keys - p.assets.Keys
    ensures Pruned(was, p, was.Keys - p.assets.Keys) == was
    ensures left == {} ==> Pruned(was, p, left) == Cleaned(was, p)
    ensures SameOwn(was, Pruned(was, p, left), p)
  {
  }

  /** Deletes the assets that are not the publisher's. */
  method Prune(hub: GitHub, t: Tag, p: Publisher) returns (ok: bool)
    requires hub.Safe() && Open(hub.remote, t)
    modifies hub
    ensures hub.Safe() && old(hub.history) <= hub.history && hub.Last().high == old(hub.Last().high)
    ensures OnlyAssets(old(hub.remote), hub.remote, t)
    ensures var was, now := old(hub.remote.releases[t].assets), hub.remote.releases[t].assets;
            && (ok ==> now == Cleaned(was, p))
            && (ok <==> old(hub.budget) >= Foreign(was, p))
            && hub.budget == (if ok then old(hub.budget) - Foreign(was, p) else 0)
            && SameOwn(was, now, p)
  {
    hide Complete, SafeHistory, SafeStep, SnapOk, LatestBuild, NextHigh, Pruned, Cleaned, SameOwn;
    ghost var was := hub.remote.releases[t].assets;
    Unchanged(hub.remote, t);
    hide Open, OnlyAssets;
    var foreign := hub.remote.releases[t].assets.Keys - p.assets.Keys;
    PruneEnds(was, p, foreign);
    while exists n :: n in foreign
      invariant hub.Safe() && old(hub.history) <= hub.history && hub.Last().high == old(hub.Last().high)
      invariant OnlyAssets(old(hub.remote), hub.remote, t) && t in hub.remote.releases && Open(hub.remote, t)
      invariant foreign <= was.Keys - p.assets.Keys
      invariant hub.remote.releases[t].assets == Pruned(was, p, foreign)
      invariant hub.budget + Foreign(was, p) == old(hub.budget) + |foreign|
      decreases foreign
    {
      var n :| n in foreign;
      PruneOne(was, p, foreign, n);
      ghost var before := hub.remote;
      ok := Delete(hub, t, n);
      Chained(old(hub.remote), before, hub.remote, t);
      if !ok {
        PruneEnds(was, p, foreign);
        return;
      }
      foreign := foreign - {n};
    }
    assert foreign == {};
    PruneEnds(was, p, foreign);
    ok := true;
  }

  /** Every release but `t`, and every ref but that of `t`, is as it was. */
  ghost predicate OnlyTag(a: Remote, b: Remote, t: Tag) {
    && (forall u | u != t :: (u in a.releases <==> u in b.releases) && (u in a.refs <==> u in b.refs))
    && (forall u | u != t && u in a.releases :: a.releases[u] == b.releases[u])
    && (forall u | u != t && u in a.refs :: a.refs[u] == b.refs[u])
  }

  /** The release a draft may be resumed for, or none yet. */
  ghost predicate Resumable(r: Remote, p: Publisher) {
    && (p.tag in r.refs ==> r.refs[p.tag] == Commit(p.sha))
    && (p.tag in r.releases ==> r.releases[p.tag].draft && r.releases[p.tag].target == p.sha)
  }

  /** The retained release of this run is out, from this very commit. */
  ghost predicate IsOut(r: Remote, p: Publisher) {
    && p.tag in r.releases && !r.releases[p.tag].draft
    && SUMS in r.releases[p.tag].assets && SUMS in p.assets
    && r.releases[p.tag].assets[SUMS] == p.assets[SUMS]
    && r.releases[p.tag].assets.Keys == p.assets.Keys
    && p.tag in r.refs && r.refs[p.tag] == Commit(p.sha)
  }

  /** Makes a draft hold exactly the run's files, its manifest last. */
  method Fill(hub: GitHub, p: Publisher, order: seq<Name>) returns (ok: bool)
    requires hub.Safe() && Accepted(p, hub.rd)
    requires IsOrder(order, p.assets)
    requires p.tag in hub.remote.releases && hub.remote.releases[p.tag].draft
    modifies hub
    ensures hub.Safe() && old(hub.history) <= hub.history && hub.Last().high == old(hub.Last().high)
    ensures OnlyAssets(old(hub.remote), hub.remote, p.tag)
    ensures ok ==> hub.remote.releases[p.tag].assets == p.assets
    ensures var cost := FillCost(old(hub.remote.releases[p.tag].assets), p, order);
            (ok <==> old(hub.budget) >= cost) && hub.budget == if ok then old(hub.budget) - cost else 0
  {
    hide Complete, SafeHistory, SafeStep, SnapOk, LatestBuild, NextHigh, Cost, UploadCost, CutShort, Uploaded, Cleaned,
         Foreign, SameOwn;
    ghost var was := hub.remote.releases[p.tag].assets;
    BothOrders(was, p);
    ok := UploadData(hub, p.tag, p, order);
    if ok {
      ManifestCost(was, hub.remote.releases[p.tag].assets);
      ok := Upload(hub, p.tag, SUMS, p.assets[SUMS]);
    }
    if ok {
      ok := Prune(hub, p.tag, p);
    }
  }

  /** Creates an empty draft. */
  method Create(hub: GitHub, t: Tag, target: string) returns (ok: bool)
    requires hub.Safe() && t !in hub.remote.releases
    modifies hub
    ensures hub.Safe() && old(hub.history) <= hub.history && hub.Last().high == old(hub.Last().high)
    ensures hub.remote == if ok then With(old(hub.remote), t, Draft(target)) else old(hub.remote)
    ensures hub.budget == if ok then old(hub.budget) - 1 else old(hub.budget)
    ensures ok <==> old(hub.budget) > 0
  {
    hide SafeHistory, SafeStep, SnapOk, LatestBuild, NextHigh;
    CreateSafe(hub.Last(), t, target, hub.rd);
    ok := hub.Commit(With(hub.remote, t, Draft(target)));
  }

  /** Takes a draft that holds the run's files out of draft; a missing tag is created at the draft's target. */
  method Finish(hub: GitHub, p: Publisher) returns (ok: bool)
    requires hub.Safe() && Accepted(p, hub.rd) && Resumable(hub.remote, p)
    requires p.tag in hub.remote.releases && hub.remote.releases[p.tag].assets == p.assets
    modifies hub
    ensures hub.Safe() && old(hub.history) <= hub.history && hub.Last().high == old(hub.Last().high)
    ensures OnlyTag(old(hub.remote), hub.remote, p.tag)
    ensures ok ==> IsOut(hub.remote, p) && hub.remote.releases[p.tag].assets == p.assets
    ensures !ok ==> hub.remote == old(hub.remote)
    ensures (ok <==> old(hub.budget) > 0) && hub.budget == if ok then old(hub.budget) - 1 else 0
  {
    hide Complete, SafeHistory, SafeStep, SnapOk, LatestBuild, NextHigh;
    var release := hub.remote.releases[p.tag].(draft := false);
    var refs := if p.tag in hub.remote.refs then hub.remote.refs else hub.remote.refs[p.tag := Commit(release.target)];
    DraftSafe(hub.Last(), p.tag, release, refs, hub.rd);
    ok := hub.Commit(With(hub.remote, p.tag, release).(refs := refs));
  }

  /** Fills the run's draft, looks at it again and takes it out. */
  method Renew(hub: GitHub, p: Publisher, order: seq<Name>) returns (ok: bool)
    requires hub.Safe() && Accepted(p, hub.rd) && Resumable(hub.remote, p) && p.tag in hub.remote.releases
    requires IsOrder(order, p.assets)
    modifies hub
    ensures hub.Safe() && old(hub.history) <= hub.history && hub.Last().high == old(hub.Last().high)
    ensures OnlyTag(old(hub.remote), hub.remote, p.tag)
    ensures ok ==> IsOut(hub.remote, p) && hub.remote.releases[p.tag].assets == p.assets
    ensures !ok ==> Resumable(hub.remote, p)
    ensures var cost := FillCost(old(hub.remote.releases[p.tag].assets), p, order) + 1;
            (ok <==> old(hub.budget) >= cost) && hub.budget == if ok then old(hub.budget) - cost else 0
  {
    hide Complete, SafeHistory, SafeStep, SnapOk, LatestBuild, NextHigh, IsOrder, IsOut, FillCost;
    ok := Fill(hub, p, order);
    if ok {
      var assets := hub.remote.releases[p.tag].assets;
      ok := assets.Keys == p.assets.Keys && SUMS in assets && assets[SUMS] == p.assets[SUMS];
    }
    if ok {
      ok := Finish(hub, p);
    }
  }

  /** How many changes it takes to publish a retained release that can be resumed or begun. */
  function RetainedCost(r: Remote, p: Publisher, order: seq<Name>): nat {
    (if p.tag in r.releases then FillCost(r.releases[p.tag].assets, p, order) else 1 + FillCost(map[], p, order)) + 1
  }

  method Retained(hub: GitHub, p: Publisher, order: seq<Name>) returns (ok: bool)
    requires hub.Safe() && Accepted(p, hub.rd)
    requires IsOrder(order, p.assets)
    modifies hub
    ensures hub.Safe() && old(hub.history) <= hub.history && hub.Last().high == old(hub.Last().high)
    ensures OnlyTag(old(hub.remote), hub.remote, p.tag)
    ensures ok ==> IsOut(hub.remote, p)
    ensures ok && !old(IsOut(hub.remote, p)) ==>
              old(Resumable(hub.remote, p)) && hub.remote.releases[p.tag].assets == p.assets
    ensures old(!Resumable(hub.remote, p)) ==> hub.remote == old(hub.remote) && (ok <==> old(IsOut(hub.remote, p)))
    ensures old(!Resumable(hub.remote, p)) ==> hub.budget == old(hub.budget)
    ensures old(Resumable(hub.remote, p)) ==>
              var cost := RetainedCost(old(hub.remote), p, order);
              && (ok <==> old(hub.budget) >= cost) && hub.budget == (if ok then old(hub.budget) - cost else 0)
              && (!ok ==> Resumable(hub.remote, p))
  {
    hide Complete, SafeHistory, SafeStep, SnapOk, LatestBuild, NextHigh, IsOrder, FillCost;
    if p.tag in hub.remote.refs && hub.remote.refs[p.tag] != Commit(p.sha) {
      return false;
    }
    if p.tag in hub.remote.releases && !hub.remote.releases[p.tag].draft {
      var assets := hub.remote.releases[p.tag].assets;
      ok := SUMS in assets && assets[SUMS] == p.assets[SUMS] && assets.Keys == p.assets.Keys;
      ok := ok && p.tag in hub.remote.refs;
      return;
    }
    if p.tag in hub.remote.releases {
      if hub.remote.releases[p.tag].target != p.sha {
        return false;
      }
    } else {
      ok := Create(hub, p.tag, p.sha);
      if !ok {
        return;
      }
    }
    ok := Renew(hub, p, order);
  }

  /** `latest` cannot be advanced: a file that a run reads before it writes is missing, or it shows no number. */
  predicate Stuck(r: Remote, p: Publisher, rd: Reader) {
    && LATEST in r.releases
    && var b := LatestBuild(r, rd);
    b.None? || (b.value <= p.number && SUMS !in r.releases[LATEST].assets)
  }

  /** A run needs both files of `latest` before it changes it, and a readable build number. */
  predicate Readable(assets: map<Name, string>, rd: Reader) {
    SUMS in assets && PROVENANCE in assets && !rd.build(assets[PROVENANCE]).BadBuild?
  }

  /** `latest` is there and no run will ever change it again. */
  predicate Jammed(r: Remote, rd: Reader) {
    LATEST in r.releases && !Readable(r.releases[LATEST].assets, rd)
  }

  predicate Newer(r: Remote, p: Publisher, rd: Reader) {
    var b := LatestBuild(r, rd);
    b.Some? && b.value > p.number
  }

  /** `latest` is this run's build, all of it. */
  ghost predicate IsLatest(r: Remote, p: Publisher) {
    && LATEST in r.releases && r.releases[LATEST] == Release(false, p.sha, p.assets)
    && LATEST in r.refs && r.refs[LATEST] == Commit(p.sha)
  }

  /** Changes what `latest` is and where tags point, but none of its files. */
  method Move(hub: GitHub, release: Release, refs: map<Tag, Ref>) returns (ok: bool)
    requires hub.Safe() && LATEST in hub.remote.releases && release.assets == hub.remote.releases[LATEST].assets
    modifies hub
    ensures hub.Safe() && old(hub.history) <= hub.history
    ensures hub.remote == if ok then With(old(hub.remote), LATEST, release).(refs := refs) else old(hub.remote)
    ensures ok <==> old(hub.budget) > 0
    ensures hub.budget == if ok then old(hub.budget) - 1 else 0
    ensures !ok ==> hub.remote == old(hub.remote)
  {
    hide Complete, SafeHistory, SafeStep, SnapOk, LatestBuild, NextHigh;
    LatestSafe(hub.Last(), release, refs, hub.rd);
    ok := hub.Commit(With(hub.remote, LATEST, release).(refs := refs));
  }

  /** The number of changes after which the manifest is deleted and not yet put: all other files are in, and the
      foreign ones are gone. */
  function ManifestCut(was: map<Name, string>, p: Publisher, order: seq<Name>): nat {
    Cost(was, order) + Foreign(was, p) + 1
  }

  /** Makes `latest` hold exactly the run's files: the manifest goes in when all the others are there and no
      foreign one is. Cut off, it leaves a readable `latest` unreadable exactly at two moments, and an empty one
      until the manifest is in. */
  method Refill(hub: GitHub, p: Publisher, order: seq<Name>) returns (ok: bool)
    requires hub.Safe() && Accepted(p, hub.rd) && LATEST in hub.remote.releases && hub.Last().high <= p.number
    requires IsOrder(order, p.assets)
    modifies hub
    ensures hub.Safe() && old(hub.history) <= hub.history
    ensures OnlyAssets(old(hub.remote), hub.remote, LATEST)
    ensures ok ==> hub.remote.releases[LATEST].assets == p.assets
    ensures var cost := FillCost(old(hub.remote.releases[LATEST].assets), p, order);
            (ok <==> old(hub.budget) >= cost) && hub.budget == if ok then old(hub.budget) - cost else 0
    ensures var was, now := old(hub.remote.releases[LATEST].assets), hub.remote.releases[LATEST].assets;
            var cut := old(hub.budget);
            && (Readable(was, hub.rd) ==>
                  (!Readable(now, hub.rd) <==> cut == ProvenanceCut(was, order) || cut == ManifestCut(was, p, order)))
            && (was == map[] ==> (!Readable(now, hub.rd) <==> cut <= Cost(was, order)))
  {
    hide Complete, SafeHistory, SafeStep, SnapOk, LatestBuild, NextHigh, Cost, ProvenanceCut, Uploaded, Cleaned,
         Foreign, SameOwn, CutShort, Readable, UploadCost;
    ghost var was, cut := hub.remote.releases[LATEST].assets, hub.budget;
    CutsApart(was, p, order, hub.rd);
    BothOrders(was, p);
    ok := UploadData(hub, LATEST, p, order);
    if !ok {
      CutInUploads(was, hub.remote.releases[LATEST].assets, p, order, cut, hub.rd);
      return;
    }
    ok := Prune(hub, LATEST, p);
    if !ok {
      CutInPrune(was, hub.remote.releases[LATEST].assets, p, hub.rd);
      return;
    }
    CutAtManifest(was, p, hub.rd);
    ManifestCost(was, hub.remote.releases[LATEST].assets);
    ok := Upload(hub, LATEST, SUMS, p.assets[SUMS]);
  }

  lemma CutInUploads(was: map<Name, string>, now: map<Name, string>, p: Publisher, order: seq<Name>, cut: nat,
                     rd: Reader)
    requires Accepted(p, rd) && PROVENANCE in order && CutShort(was, now, p, order, cut)
    ensures Readable(was, rd) ==> (!Readable(now, rd) <==> cut == ProvenanceCut(was, order))
    ensures was == map[] ==> !Readable(now, rd)
  {
    hide Complete, ProvenanceCut;
  }

  lemma CutInPrune(was: map<Name, string>, now: map<Name, string>, p: Publisher, rd: Reader)
    requires Accepted(p, rd) && SameOwn(Uploaded(was, p), now, p)
    ensures Readable(was, rd) ==> Readable(now, rd)
    ensures was == map[] ==> !Readable(now, rd)
  {
    hide Complete;
    assert PROVENANCE in Uploaded(was, p) && Uploaded(was, p)[PROVENANCE] == p.assets[PROVENANCE];
    assert SUMS in Uploaded(was, p) <==> SUMS in was;
  }

  /** Before the manifest is replaced, while it is, and after. */
  lemma CutAtManifest(was: map<Name, string>, p: Publisher, rd: Reader)
    requires Accepted(p, rd)
    ensures var mid := Cleaned(Uploaded(was, p), p);
            && (Readable(was, rd) ==> SUMS in mid && Readable(mid, rd))
            && !Readable(mid - {SUMS}, rd) && Readable(p.assets, rd)
            && (was == map[] ==> SUMS !in mid && !Readable(mid, rd))
            && mid - {} == mid && UploadCost(mid, SUMS) == (if SUMS in mid then 2 else 1)
  {
    hide Complete;
    var mid := Cleaned(Uploaded(was, p), p);
    assert PROVENANCE in mid && mid[PROVENANCE] == p.assets[PROVENANCE];
    assert SUMS in mid <==> SUMS in was;
  }

  /** The provenance file is deleted before all the uploads are done. */
  lemma CutsApart(was: map<Name, string>, p: Publisher, order: seq<Name>, rd: Reader)
    requires PROVENANCE in order
    ensures Readable(was, rd) ==> ProvenanceCut(was, order) < Cost(was, order)
    ensures was == map[] ==> Foreign(was, p) == 0
  {
    hide Cost;
    CostTotal(was, order, IndexOf(order, PROVENANCE));
  }

  /** How many changes it takes to refill `latest` and to move it: its tag is moved if there is one. */
  function AdvanceCost(r: Remote, was: map<Name, string>, p: Publisher, order: seq<Name>): nat {
    FillCost(was, p, order) + (if LATEST in r.refs then 1 else 0) + 1
  }

  /** Refills `latest`, then moves its tag and its release. */
  method Advance(hub: GitHub, p: Publisher, order: seq<Name>) returns (ok: bool)
    requires hub.Safe() && Accepted(p, hub.rd) && LATEST in hub.remote.releases && hub.Last().high <= p.number
    requires IsOrder(order, p.assets)
    modifies hub
    ensures hub.Safe() && old(hub.history) <= hub.history
    ensures OnlyTag(old(hub.remote), hub.remote, LATEST) && LATEST in hub.remote.releases
    ensures ok ==> IsLatest(hub.remote, p)
    ensures var cost := AdvanceCost(old(hub.remote), old(hub.remote.releases[LATEST].assets), p, order);
            (ok <==> old(hub.budget) >= cost) && hub.budget == if ok then old(hub.budget) - cost else 0
    ensures var was, now := old(hub.remote.releases[LATEST].assets), hub.remote.releases[LATEST].assets;
            var cut := old(hub.budget);
            && (Readable(was, hub.rd) ==>
                  (!Readable(now, hub.rd) <==> cut == ProvenanceCut(was, order) || cut == ManifestCut(was, p, order)))
            && (was == map[] ==> (!Readable(now, hub.rd) <==> cut <= Cost(was, order)))
  {
    hide Accepted, SafeHistory, SafeStep, SnapOk, LatestBuild, NextHigh, Cost, ProvenanceCut, ManifestCut, Readable,
         FillCost;
    ok := Refill(hub, p, order);
    if ok && LATEST in hub.remote.refs {
      ok := Move(hub, hub.remote.releases[LATEST], hub.remote.refs[LATEST := Commit(p.sha)]);
    }
    if ok {
      var refs := if LATEST in hub.remote.refs then hub.remote.refs else hub.remote.refs[LATEST := Commit(p.sha)];
      ok := Move(hub, hub.remote.releases[LATEST].(draft := false, target := p.sha), refs);
    }
  }

  predicate Refused(r: Remote, gate: string -> bool) {
    LATEST in r.releases && SUMS in r.releases[LATEST].assets && !gate(r.releases[LATEST].assets[SUMS])
  }

  /** The numbers of changes after which a run that is cut off leaves a jammed `latest`, for one that it would
      advance. Without a `latest`: from its creation until its manifest is in. Otherwise: right after the deletion
      of the provenance file, and right after that of the manifest. */
  predicate Jams(r: Remote, p: Publisher, order: seq<Name>, cut: nat)
    requires PROVENANCE in order
  {
    if LATEST !in r.releases then 1 <= cut <= 1 + Cost(map[], order)
    else
      var was := r.releases[LATEST].assets;
      cut == ProvenanceCut(was, order) || cut == ManifestCut(was, p, order)
  }

  /** How many changes it takes to make `latest` this run's. */
  function RollingCost(r: Remote, p: Publisher, order: seq<Name>): nat {
    if LATEST in r.releases then AdvanceCost(r, r.releases[LATEST].assets, p, order)
    else 1 + AdvanceCost(r, map[], p, order)
  }

  /** `gate` is the check of the new build against the manifest that `latest` has. */
  method Rolling(hub: GitHub, p: Publisher, order: seq<Name>, gate: string -> bool) returns (ok: bool)
    requires hub.Safe() && Accepted(p, hub.rd)
    requires IsOrder(order, p.assets)
    modifies hub
    ensures hub.Safe() && old(hub.history) <= hub.history
    ensures OnlyTag(old(hub.remote), hub.remote, LATEST)
    ensures ok ==> if old(Newer(hub.remote, p, hub.rd)) then hub.remote == old(hub.remote) else IsLatest(hub.remote, p)
    ensures old(Stuck(hub.remote, p, hub.rd)) ==> !ok && hub.remote == old(hub.remote)
    ensures old(!Newer(hub.remote, p, hub.rd) && !Jammed(hub.remote, hub.rd) && !Refused(hub.remote, gate)) ==>
              (ok <==> old(hub.budget) >= RollingCost(old(hub.remote), p, order))
    ensures old(Newer(hub.remote, p, hub.rd)) ==> ok && hub.remote == old(hub.remote)
    ensures old(Refused(hub.remote, gate) && !Newer(hub.remote, p, hub.rd)) ==> !ok && hub.remote == old(hub.remote)
    // jammed once, jammed for good; and exactly which cut jams it
    ensures old(Jammed(hub.remote, hub.rd)) ==> hub.remote == old(hub.remote)
    ensures old(!Jammed(hub.remote, hub.rd) && !Newer(hub.remote, p, hub.rd) && !Refused(hub.remote, gate)) ==>
              (Jammed(hub.remote, hub.rd) <==> Jams(old(hub.remote), p, order, old(hub.budget)))
  {
    hide Complete, SafeHistory, SafeStep, NextHigh, Cost, ProvenanceCut, ManifestCut, FillCost;
    if LATEST in hub.remote.releases {
      if Newer(hub.remote, p, hub.rd) {
        return true;
      }
      if Stuck(hub.remote, p, hub.rd) || Refused(hub.remote, gate) {
        return false;
      }
    } else {
      ok := Create(hub, LATEST, p.sha);
      if !ok {
        return;
      }
    }
    ok := Advance(hub, p, order);
  }

  // ----- runs

  /** One run of the workflow: `cut` is how many of its changes succeed before it is cut off. */
  datatype Job = Job(p: Publisher, order: seq<Name>, rolling: bool, gate: string -> bool, cut: nat)

  /** The files are taken in some order, each of them. */
  ghost predicate Ordered(job: Job) {
    IsOrder(job.order, job.p.assets)
  }

  /** How many changes the whole run takes. */
  ghost function JobCost(r: Remote, job: Job, rd: Reader): nat {
    (if IsOut(r, job.p) then 0 else RetainedCost(r, job.p, job.order))
    + (if job.rolling && !Newer(r, job.p, rd) then RollingCost(r, job.p, job.order) else 0)
  }

  /** The run succeeds: its files pass the checks, its retained release is out or can be finished, `latest`, if it is
      asked for and not newer, can be read and passes the version check, and the run is not cut off too early. */
  ghost predicate Succeeds(r: Remote, job: Job, rd: Reader) {
    && Accepted(job.p, rd) && (IsOut(r, job.p) || Resumable(r, job.p))
    && (job.rolling && !Newer(r, job.p, rd) ==> !Jammed(r, rd) && !Refused(r, job.gate))
    && job.cut >= JobCost(r, job, rd)
  }

  /** What a run that succeeds has achieved: the retained release is out, and `latest`, if it was asked for, is this
      build, unless it showed a newer one. */
  ghost predicate Achieved(r: Remote, now: Remote, job: Job, rd: Reader) {
    && IsOut(now, job.p)
    && (job.rolling ==> if Newer(r, job.p, rd) then Newer(now, job.p, rd) else IsLatest(now, job.p))
  }

  /** Every release and ref but those of `t` and `u` is as it was. */
  ghost predicate OnlyTwo(a: Remote, b: Remote, t: Tag, u: Tag) {
    && (forall v | v != t && v != u :: (v in a.releases <==> v in b.releases) && (v in a.refs <==> v in b.refs))
    && (forall v | v != t && v != u && v in a.releases :: a.releases[v] == b.releases[v])
    && (forall v | v != t && v != u && v in a.refs :: a.refs[v] == b.refs[v])
  }

  /** A change of another release alone leaves everything about `latest` as it was. */
  lemma SameLatest(a: Remote, b: Remote, job: Job, rd: Reader)
    requires OnlyTag(a, b, job.p.tag) && job.p.tag != LATEST
    ensures Newer(b, job.p, rd) == Newer(a, job.p, rd) && Jammed(b, rd) == Jammed(a, rd)
    ensures Refused(b, job.gate) == Refused(a, job.gate)
    ensures RollingCost(b, job.p, job.order) == RollingCost(a, job.p, job.order)
    ensures LATEST in a.releases ==> LATEST in b.releases && b.releases[LATEST] == a.releases[LATEST]
  {
    hide FillCost, Readable;
  }

  lemma StillOut(a: Remote, b: Remote, p: Publisher)
    requires OnlyTag(a, b, LATEST) && p.tag != LATEST && IsOut(a, p)
    ensures IsOut(b, p)
  {
  }

  lemma TwoSteps(a: Remote, b: Remote, c: Remote, t: Tag, u: Tag)
    requires OnlyTag(a, b, t) && OnlyTag(b, c, u)
    ensures OnlyTwo(a, c, t, u)
  {
  }

  lemma OneStep(a: Remote, b: Remote, t: Tag, u: Tag)
    requires OnlyTag(a, b, t)
    ensures OnlyTwo(a, b, t, u)
  {
  }

  /** One run. `done` is whether it came to its end without an error. */
  method Run(hub: GitHub, job: Job) returns (done: bool)
    requires hub.Safe() && Ordered(job)
    modifies hub
    ensures hub.Safe() && old(hub.history) <= hub.history
    ensures done <==> Succeeds(old(hub.remote), job, hub.rd)
    ensures done ==> Achieved(old(hub.remote), hub.remote, job, hub.rd)
    ensures !job.rolling ==> OnlyTag(old(hub.remote), hub.remote, job.p.tag)
    ensures OnlyTwo(old(hub.remote), hub.remote, job.p.tag, LATEST)
    ensures old(Jammed(hub.remote, hub.rd)) ==>
              LATEST in hub.remote.releases && hub.remote.releases[LATEST] == old(hub.remote.releases[LATEST])
    ensures !Accepted(job.p, hub.rd) ==> hub.remote == old(hub.remote)
  {
    hide Complete, SafeHistory, SnapOk, LatestBuild, Jams, RetainedCost, RollingCost, Newer, Jammed, Refused, OnlyTwo,
         IsLatest;
    ghost var r := hub.remote;
    JammedThere(r, hub.rd);
    OneStep(r, r, job.p.tag, LATEST);
    if !Accepted(job.p, hub.rd) {
      return false;
    }
    hub.budget := job.cut;
    done := Retained(hub, job.p, job.order);
    ghost var mid := hub.remote;
    SameLatest(r, mid, job, hub.rd);
    OneStep(r, mid, job.p.tag, LATEST);
    OutOrDraft(r, job.p);
    if done && job.rolling {
      hide IsOut, Resumable;
      done := Rolling(hub, job.p, job.order, job.gate);
      TwoSteps(r, mid, hub.remote, job.p.tag, LATEST);
      StillOut(mid, hub.remote, job.p);
      StuckIsJammed(mid, job.p, hub.rd);
    }
  }

  lemma JammedThere(r: Remote, rd: Reader)
    ensures Jammed(r, rd) ==> LATEST in r.releases
  {
  }

  lemma OutOrDraft(r: Remote, p: Publisher)
    ensures !(IsOut(r, p) && Resumable(r, p))
  {
  }

  /** For a run that is not too old, `latest` is stuck exactly when it is jammed. */
  lemma StuckIsJammed(r: Remote, p: Publisher, rd: Reader)
    ensures !Newer(r, p, rd) ==> (Stuck(r, p, rd) <==> Jammed(r, rd))
  {
  }

  /** Between the two moments of the history the run succeeded, if and only if it had to, and then achieved what it
      should. */
  ghost predicate RanAs(h: seq<Snap>, rd: Reader, job: Job, done: bool, a: nat, b: nat) {
    && a <= b < |h|
    && (done <==> Succeeds(h[a].remote, job, rd)) && (done ==> Achieved(h[a].remote, h[b].remote, job, rd))
  }

  /** The runs so far, one after the other, from the moment `first` to the last one of the history. */
  ghost predicate RanAll(h: seq<Snap>, rd: Reader, jobs: seq<Job>, done: seq<bool>, marks: seq<nat>, first: int) {
    && |done| <= |jobs| && |marks| == |done| + 1 && marks[0] == first && marks[|done|] == |h| - 1
    && forall k, l | 0 <= k < |done| && l == k + 1 :: RanAs(h, rd, jobs[k], done[k], marks[k], marks[l])
  }

  /** One more run, which went from the end of `h` to the end of `h'`. */
  lemma RanOne(h: seq<Snap>, h': seq<Snap>, rd: Reader, jobs: seq<Job>, done: seq<bool>, marks: seq<nat>, first: int,
               ok: bool)
    requires h != [] && h <= h' && RanAll(h, rd, jobs, done, marks, first) && |done| < |jobs|
    requires ok <==> Succeeds(h[|h| - 1].remote, jobs[|done|], rd)
    requires ok ==> Achieved(h[|h| - 1].remote, h'[|h'| - 1].remote, jobs[|done|], rd)
    ensures RanAll(h', rd, jobs, done + [ok], marks + [|h'| - 1], first)
  {
    hide Succeeds, Achieved;
    var (done', marks') := (done + [ok], marks + [|h'| - 1]);
    forall k, l | 0 <= k < |done'| && l == k + 1 ensures RanAs(h', rd, jobs[k], done'[k], marks'[k], marks'[l]) {
      if k < |done| {
        assert RanAs(h, rd, jobs[k], done[k], marks[k], marks[l]);
        assert h'[marks[k]] == h[marks[k]] && h'[marks[l]] == h[marks[l]];
      } else {
        assert h'[|h| - 1] == h[|h| - 1];
      }
    }
  }

  /** Any series of runs, each cut off wherever it may be. `marks` are the moments in the history before, between and
      after the runs; each run did what `Run` promises between its two moments. */
  method RunAll(hub: GitHub, jobs: seq<Job>) returns (done: seq<bool>, ghost marks: seq<nat>)
    requires hub.Safe() && forall i | 0 <= i < |jobs| :: Ordered(jobs[i])
    modifies hub
    ensures hub.Safe() && old(hub.history) <= hub.history
    ensures old(Jammed(hub.remote, hub.rd)) ==>
              LATEST in hub.remote.releases && hub.remote.releases[LATEST] == old(hub.remote.releases[LATEST])
    ensures |done| == |jobs| && RanAll(hub.history, hub.rd, jobs, done, marks, |old(hub.history)| - 1)
  {
    hide Complete, SafeHistory, SnapOk, LatestBuild, Succeeds, Achieved, RanAll, Ordered;
    done, marks := [], [|hub.history| - 1];
    RanNone(hub.history, hub.rd, jobs);
    for i := 0 to |jobs|
      invariant hub.Safe() && old(hub.history) <= hub.history
      invariant old(Jammed(hub.remote, hub.rd)) ==>
                  LATEST in hub.remote.releases && hub.remote.releases[LATEST] == old(hub.remote.releases[LATEST])
      invariant |done| == i && RanAll(hub.history, hub.rd, jobs, done, marks, |old(hub.history)| - 1)
    {
      ghost var h := hub.history;
      var ok := Run(hub, jobs[i]);
      RanOne(h, hub.history, hub.rd, jobs, done, marks, |old(hub.history)| - 1, ok);
      done, marks := done + [ok], marks + [|hub.history| - 1];
    }
  }

  lemma RanNone(h: seq<Snap>, rd: Reader, jobs: seq<Job>)
    requires h != []
    ensures RanAll(h, rd, jobs, [], [|h| - 1], |h| - 1)
  {
  }

  /** What a series keeps, and what it has come to. */
  method Series(hub: GitHub, jobs: seq<Job>) returns (done: seq<bool>, ghost marks: seq<nat>)
    requires hub.Safe() && forall i | 0 <= i < |jobs| :: Ordered(jobs[i])
    modifies hub
    ensures hub.Safe() && old(hub.history) <= hub.history
    ensures forall t | t != LATEST && Published(old(hub.remote), t) ::
              t in hub.remote.releases && hub.remote.releases[t] == old(hub.remote).releases[t]
    ensures forall t | t != LATEST && Published(hub.remote, t) && !Published(old(hub.history[0].remote), t) ::
              Complete(hub.remote.releases[t].assets, hub.rd)
    ensures var was, now := LatestBuild(old(hub.remote), hub.rd), LatestBuild(hub.remote, hub.rd);
            was.Some? && now.Some? ==> was.value <= now.value
    ensures old(Jammed(hub.remote, hub.rd)) ==>
              LATEST in hub.remote.releases && hub.remote.releases[LATEST] == old(hub.remote).releases[LATEST]
    ensures |done| == |jobs| && RanAll(hub.history, hub.rd, jobs, done, marks, |old(hub.history)| - 1)
    ensures jobs != [] && done[|jobs| - 1] ==>
              var last := jobs[|jobs| - 1];
              && IsOut(hub.remote, last.p)
              && (last.rolling ==> IsLatest(hub.remote, last.p) || Newer(hub.remote, last.p, hub.rd))
  {
    hide Complete, SafeHistory, SnapOk, LatestBuild, Succeeds, Achieved, IsOut, IsLatest, Newer, Jammed;
    done, marks := RunAll(hub, jobs);
    ghost var h, i, j := hub.history, |old(hub.history)| - 1, |hub.history| - 1;
    LastAchieved(h, hub.rd, jobs, done, marks, i);
    hide RanAll;
    assert h[i] == old(hub.history)[i] && h[0] == old(hub.history)[0];
    forall t | t != LATEST && Published(old(hub.remote), t)
      ensures t in hub.remote.releases && hub.remote.releases[t] == old(hub.remote).releases[t]
    {
      PublishedForever(h, hub.rd, t, i, j);
    }
    forall t | t != LATEST && Published(hub.remote, t) && !Published(h[0].remote, t)
      ensures Complete(hub.remote.releases[t].assets, hub.rd)
    {
      PublishedComplete(h, hub.rd, t, j);
    }
    if LatestBuild(h[i].remote, hub.rd).Some? && LatestBuild(h[j].remote, hub.rd).Some? {
      BuildNeverDrops(h, hub.rd, i, j);
    }
  }

  lemma LastAchieved(h: seq<Snap>, rd: Reader, jobs: seq<Job>, done: seq<bool>, marks: seq<nat>, first: int)
    requires h != [] && RanAll(h, rd, jobs, done, marks, first) && |done| == |jobs|
    ensures jobs != [] && done[|jobs| - 1] ==>
              var (last, now) := (jobs[|jobs| - 1], h[|h| - 1].remote);
              IsOut(now, last.p) && (last.rolling ==> IsLatest(now, last.p) || Newer(now, last.p, rd))
  {
    hide IsOut, IsLatest, Newer, Succeeds;
    if jobs != [] {
      var n := |jobs| - 1;
      assert RanAs(h, rd, jobs[n], done[n], marks[n], marks[n + 1]);
    }
  }

  /** What decides about a `latest` that shows build `n` (0 when it shows none): a greater number than the run's
      preserves it; otherwise the version check on its manifest decides. */
  lemma AdvanceDecides(r: Remote, job: Job, rd: Reader, n: nat)
    requires LATEST in r.releases
    requires var a := r.releases[LATEST].assets;
             && SUMS in a && PROVENANCE in a
             && (rd.build(a[PROVENANCE]) == BuildNo(n) || (rd.build(a[PROVENANCE]).NoBuild? && n == 0))
    requires Accepted(job.p, rd) && (IsOut(r, job.p) || Resumable(r, job.p)) && job.cut >= JobCost(r, job, rd)
    ensures Newer(r, job.p, rd) <==> n > job.p.number
    ensures job.rolling ==>
              (Succeeds(r, job, rd) <==> n > job.p.number || job.gate(r.releases[LATEST].assets[SUMS]))
    ensures !job.rolling ==> Succeeds(r, job, rd)
  {
    hide JobCost, Accepted, IsOut, Resumable;
  }

  lemma {:induction false} FreshCost(order: seq<Name>)
    ensures Cost(map[], order) <= |order|
  {
    if order != [] {
      FreshCost(order[..|order| - 1]);
    }
  }

  lemma FreshFill(p: Publisher, order: seq<Name>)
    ensures FillCost(map[], p, order) <= |order| + 1
  {
    hide Cost;
    FreshCost(order);
    var none: map<Name, string> := map[];
    assert none.Keys - p.assets.Keys == {};
  }

  /** The first run on an empty remote succeeds, with as many changes as two uploads of its files and six more. */
  lemma FirstRunSucceeds(r: Remote, job: Job, rd: Reader)
    requires r == Remote(map[], map[]) && Accepted(job.p, rd) && job.cut >= 2 * |job.order| + 6
    ensures Succeeds(r, job, rd)
  {
    hide Accepted, FillCost;
    FreshFill(job.p, job.order);
    assert RetainedCost(r, job.p, job.order) <= |job.order| + 3;
    assert RollingCost(r, job.p, job.order) <= |job.order| + 3;
    hide RetainedCost, RollingCost;
  }

  // ----- what the first check lets through

  /** A directory of files with a manifest of exactly their digests and a provenance file with the build number
      passes. */
  lemma SignedIsAccepted(files: map<Name, string>, manifest: string, tag: Tag, sha: string, number: nat, rd: Reader)
    requires SUMS !in files && PROVENANCE in files && tag != LATEST && number > 0
    requires rd.build(files[PROVENANCE]) == BuildNo(number)
    requires rd.sums(manifest) == map n | n in files :: rd.digest(files[n])
    ensures Accepted(Publisher(files[SUMS := manifest], tag, sha, number), rd)
  {
    var p := Publisher(files[SUMS := manifest], tag, sha, number);
    assert p.assets.Keys - {SUMS} == files.Keys;
  }

  /** Any one file with other contents, missing or added is refused, as long as the digests differ. */
  lemma TamperedIsRefused(p: Publisher, name: Name, content: string, rd: Reader)
    requires Accepted(p, rd) && name != SUMS
    ensures name in p.assets && rd.digest(content) != rd.digest(p.assets[name]) ==>
              !Accepted(p.(assets := p.assets[name := content]), rd)
    ensures name in p.assets ==> !Accepted(p.(assets := p.assets - {name}), rd)
    ensures name !in p.assets ==> !Accepted(p.(assets := p.assets[name := content]), rd)
  {
    var sums := rd.sums(p.assets[SUMS]);
    var (changed, less) := (p.assets[name := content], p.assets - {name});
    assert changed[SUMS] == p.assets[SUMS] && less[SUMS] == p.assets[SUMS];
    assert name in sums <==> name in p.assets;
    assert name in changed.Keys - {SUMS} && name !in less.Keys - {SUMS};
    if name in p.assets && rd.digest(content) != rd.digest(p.assets[name]) {
      assert rd.digest(changed[name]) != sums[name];
    }
  }
}
