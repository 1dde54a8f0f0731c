/**
 * Every call does only what is allowed: what is learnt is so whatever reads fail, and what
 * could not be learnt has a cause among the reads of the call.
 */
module RedfishSteps {
  import opened Prelude
  import opened RedfishSite
  import opened RedfishState
  import opened RedfishCalls

  // ---- the snapshot

  ghost predicate IsPass(site: Site, paths: seq<string>, p: Pass) {
    && |p.trace| == |paths|
    && (forall i :: 0 <= i < |paths| ==>
          p.trace[i].kind == ComponentRead && p.trace[i].path == paths[i] && Truthful(site, p.trace[i]))
    && p.sources == Paths(p.trace, true) && p.failed == Paths(p.trace, false)
    && |p.members| == |p.sources|
    && (forall i :: 0 <= i < |p.members| ==> site.components(p.sources[i]) == Body(p.members[i]))
  }

  lemma {:induction false} PathsAppend(a: seq<Read>, b: seq<Read>, answered: bool)
    ensures Paths(a + b, answered) == Paths(a, answered) + Paths(b, answered)
  {
    if b == [] {
      assert a + b == a;
    } else {
      assert Init(a + b) == a + Init(b);
      PathsAppend(a, Init(b), answered);
    }
  }

  lemma PassOfOne(site: Site, fails: Failures, n: nat, path: string)
    ensures IsPass(site, [path], ReadMember(site, fails, n, path))
  {
    var p := ReadMember(site, fails, n, path);
    assert Init(p.trace) == [];
  }

  lemma PassesJoin(site: Site, a: seq<string>, p: Pass, b: seq<string>, q: Pass)
    requires IsPass(site, a, p) && IsPass(site, b, q)
    ensures IsPass(site, a + b, Joined(p, q))
  {
    PathsAppend(p.trace, q.trace, true);
    PathsAppend(p.trace, q.trace, false);
  }

  lemma {:induction false} ReadMembersIsPass(site: Site, fails: Failures, n: nat, paths: seq<string>)
    ensures IsPass(site, paths, ReadMembers(site, fails, n, paths))
    decreases paths
  {
    if paths != [] {
      PassOfOne(site, fails, n, paths[0]);
      ReadMembersIsPass(site, fails, n + 1, paths[1..]);
      PassesJoin(site, [paths[0]], ReadMember(site, fails, n, paths[0]), paths[1..], ReadMembers(site, fails, n + 1, paths[1..]));
      assert paths == [paths[0]] + paths[1..];
    }
  }

  lemma RefreshRefreshes(site: Site, fails: Failures, n: nat, a: Snapshot)
    requires |a.members| == |a.sources|
    ensures Refreshed(site, a, Refresh(site, fails, n, a).value, Refresh(site, fails, n, a).trace)
  {
    ReadMembersIsPass(site, fails, n, a.failed);
  }

  lemma SnapSnaps(site: Site, fails: Failures, n: nat, a: Option<Snapshot>)
    requires a.Some? ==> |a.value.members| == |a.value.sources|
    ensures Snapped(site, a, Snap(site, fails, n, a).value, Snap(site, fails, n, a).trace)
  {
    if a.Some? {
      RefreshRefreshes(site, fails, n, a.value);
    } else if Reply(fails, n, Listing(site)).Ok? {
      var start := Snapshot([], [], ListedPaths(site));
      RefreshRefreshes(site, fails, n + 1, start);
      assert Snap(site, fails, n, a).trace[1..] == Refresh(site, fails, n + 1, start).trace;
    }
  }

  // ---- one entry

  /** What going through the adapters of a slot's collection establishes. */
  ghost predicate SlotTold(site: Site, refs: seq<string>, slot: int, f: SlotScan) {
    && (forall r :: r in f.trace ==> r.kind == AdapterRead && r.path in refs && Truthful(site, r))
    && (f.found.Some? ==>
          exists ref :: ref in refs && site.adapters(ref).Body? && InSlot(site.adapters(ref).value, slot)
                     && f.found.value == site.adapters(ref).value.(selfURI := ref))
    && (f.found.None? && !f.unreadable ==> NothingFailed(f.trace))
    && (f.unreadable && f.found.None? ==>
          ScanSlot(site, refs, slot) == Unknown || exists r :: r in f.trace && r.code == Unreachable)
    && (NothingFailed(f.trace) ==>
          ScanSlot(site, refs, slot) == if f.found.Some? then IsAdapter(f.found.value)
                                        else if f.unreadable then Unknown else NotAdapter)
  }

  lemma {:induction false} FindInSlotFindings(site: Site, fails: Failures, n: nat, refs: seq<string>, slot: int)
    ensures SlotTold(site, refs, slot, FindInSlot(site, fails, n, refs, slot))
    decreases refs
  {
    if refs != [] {
      FindInSlotFindings(site, fails, n + 1, refs[1..], slot);
      var f, rest := FindInSlot(site, fails, n, refs, slot), FindInSlot(site, fails, n + 1, refs[1..], slot);
      assert refs[0] in refs && forall x :: x in refs[1..] ==> x in refs;
      assert f.trace[0] in f.trace;
      if f.trace == [f.trace[0]] + rest.trace {
        assert forall r :: r in rest.trace ==> r in f.trace;
      }
    }
  }

  /** Each outcome of a resolution is so, or has its cause; without transient failures it is the reference one. */
  ghost predicate TargetTold(site: Site, c: Component, r: Reading<Resolution>) {
    && SearchReads(site, r.trace)
    && (r.value.IsAdapter? ==> MayResolve(site, c, r.value.adapter))
    && (r.value.NotAdapter? ==> Resolve(site, c) == NotAdapter)
    && (r.value.Unknown? ==> TargetObstructed(site, c, r.trace))
    && (NothingFailed(r.trace) ==> r.value == Resolve(site, c))
  }

  lemma ResolveTargetTells(site: Site, fails: Failures, n: nat, c: Component)
    ensures TargetTold(site, c, ResolveTarget(site, fails, n, c))
  {
    var r := ResolveTarget(site, fails, n, c);
    assert r.trace[0] in r.trace;
    if site.slotOf(c.id).Slot? && |r.trace| > 1 {
      assert r.trace[1] in r.trace;
      if Reply(fails, n + 1, site.collections(site.dir(c.targetURI))).Ok? {
        SlotTells(site, fails, n, c);
      }
    }
  }

  lemma SlotTells(site: Site, fails: Failures, n: nat, c: Component)
    requires var direct := Reply(fails, n, site.adapters(c.targetURI)); !(direct.Ok? && direct.value.ports != "")
    requires site.slotOf(c.id).Slot? && Reply(fails, n + 1, site.collections(site.dir(c.targetURI))).Ok?
    ensures TargetTold(site, c, ResolveTarget(site, fails, n, c))
  {
    var direct := Reply(fails, n, site.adapters(c.targetURI));
    var refs, slot := site.collections(site.dir(c.targetURI)).value, site.slotOf(c.id).ordinal;
    var scan := FindInSlot(site, fails, n + 2, refs, slot);
    FindInSlotFindings(site, fails, n + 2, refs, slot);
    SlotOutcome(site, c, direct, scan);
  }

  lemma SlotOutcome(site: Site, c: Component, direct: Result<Adapter, Code>, scan: SlotScan)
    requires site.slotOf(c.id).Slot? && site.collections(site.dir(c.targetURI)).Body?
    requires direct == Err(Unreachable) || direct == Reply(_ => false, 0, site.adapters(c.targetURI))
    requires direct.Ok? ==> direct.value.ports == ""
    requires SlotTold(site, site.collections(site.dir(c.targetURI)).value, site.slotOf(c.id).ordinal, scan)
    ensures
      TargetTold(site, c, Reading(
        if scan.found.Some? then IsAdapter(scan.found.value)
        else if scan.unreadable || direct == Err(Unreachable) then Unknown else NotAdapter,
        [Read(AdapterRead, c.targetURI, CodeOf(direct))] + [Read(CollectionRead, site.dir(c.targetURI), Answered)] + scan.trace))
  {
    var first := Read(AdapterRead, c.targetURI, CodeOf(direct));
    var second := Read(CollectionRead, site.dir(c.targetURI), Answered);
    var trace := [first] + [second] + scan.trace;
    assert forall r :: r in trace <==> r == first || r == second || r in scan.trace;
    assert first in trace;
    if scan.found.Some? {
      SlotFoundMayResolve(site, c, scan.found.value);
    }
  }

  lemma SlotFoundMayResolve(site: Site, c: Component, a: Adapter)
    requires site.slotOf(c.id).Slot? && site.collections(site.dir(c.targetURI)).Body?
    requires exists ref :: ref in site.collections(site.dir(c.targetURI)).value && site.adapters(ref).Body?
                        && InSlot(site.adapters(ref).value, site.slotOf(c.id).ordinal)
                        && a == site.adapters(ref).value.(selfURI := ref)
    ensures MayResolve(site, c, a)
  {
    var ref :| ref in site.collections(site.dir(c.targetURI)).value && site.adapters(ref).Body?
      && InSlot(site.adapters(ref).value, site.slotOf(c.id).ordinal) && a == site.adapters(ref).value.(selfURI := ref);
    assert SlotCandidate(site, c, ref);
  }

  /** What reading ports establishes, from the MACs gathered before. */
  ghost predicate PortsTold(site: Site, refs: seq<string>, gathered: seq<string>, mac: string, p: PortsRead) {
    && (forall r :: r in p.trace ==> r.kind == PortRead && r.path in refs && Truthful(site, r))
    && (p.hit != "" ==> site.equalFold(p.hit, mac)
                        && (p.hit in gathered || exists ref :: ref in refs && Lists(site, ref, p.hit)))
    && (p.hit == "" ==> MatchMAC(site, p.macs, mac) == "")
    && (p.hit == "" && !p.unreadable ==>
          NothingFailed(p.trace) && AllMACs(site, refs).Some? && p.macs == gathered + AllMACs(site, refs).value)
    && (NothingFailed(p.trace) ==>
          ScanPorts(site, refs, gathered, mac)
          == if p.hit != "" then Hit(p.hit) else if p.unreadable then Unreadable else NoHit)
  }

  lemma {:induction false} ReadPortsTells(site: Site, fails: Failures, n: nat, refs: seq<string>, gathered: seq<string>, mac: string)
    requires MatchMAC(site, gathered, mac) == ""
    ensures PortsTold(site, refs, gathered, mac, ReadPorts(site, fails, n, refs, gathered, mac))
    decreases refs
  {
    if refs == [] {
      assert gathered + [] == gathered;
    } else {
      var port := Reply(fails, n, site.portMACs(refs[0]));
      var read := Read(PortRead, refs[0], CodeOf(port));
      if port.Err? {
        ReadPortsTells(site, fails, n + 1, refs[1..], gathered, mac);
        PortFailed(site, refs, gathered, mac, read, ReadPorts(site, fails, n + 1, refs[1..], gathered, mac));
      } else {
        var macs := gathered + Trimmed(site, port.value);
        MatchMACSound(site, macs, mac);
        if MatchMAC(site, macs, mac) != "" {
          PortMatches(site, refs, gathered, mac, read);
        } else {
          ReadPortsTells(site, fails, n + 1, refs[1..], macs, mac);
          PortPasses(site, refs, gathered, mac, read, ReadPorts(site, fails, n + 1, refs[1..], macs, mac));
        }
      }
    }
  }

  lemma PortFailed(site: Site, refs: seq<string>, gathered: seq<string>, mac: string, read: Read, rest: PortsRead)
    requires refs != [] && PortsTold(site, refs[1..], gathered, mac, rest)
    requires read.kind == PortRead && read.path == refs[0] && Truthful(site, read) && read.code != Answered
    ensures PortsTold(site, refs, gathered, mac, PortsRead(rest.hit, rest.macs, true, [read] + rest.trace))
  {
    var p := PortsRead(rest.hit, rest.macs, true, [read] + rest.trace);
    assert read in p.trace && forall r :: r in rest.trace ==> r in p.trace;
    assert forall x :: x in refs[1..] ==> x in refs;
  }

  lemma PortMatches(site: Site, refs: seq<string>, gathered: seq<string>, mac: string, read: Read)
    requires refs != [] && site.portMACs(refs[0]).Body?
    requires read == Read(PortRead, refs[0], Answered)
    requires MatchMAC(site, gathered + Trimmed(site, site.portMACs(refs[0]).value), mac) != ""
    ensures var macs := gathered + Trimmed(site, site.portMACs(refs[0]).value);
            PortsTold(site, refs, gathered, mac, PortsRead(MatchMAC(site, macs, mac), macs, false, [read]))
  {
    var here := Trimmed(site, site.portMACs(refs[0]).value);
    MatchMACSound(site, gathered + here, mac);
    var m := MatchMAC(site, gathered + here, mac);
    assert m in here ==> refs[0] in refs && Lists(site, refs[0], m);
  }

  lemma PortPasses(site: Site, refs: seq<string>, gathered: seq<string>, mac: string, read: Read, rest: PortsRead)
    requires refs != [] && site.portMACs(refs[0]).Body?
    requires read == Read(PortRead, refs[0], Answered)
    requires MatchMAC(site, gathered + Trimmed(site, site.portMACs(refs[0]).value), mac) == ""
    requires PortsTold(site, refs[1..], gathered + Trimmed(site, site.portMACs(refs[0]).value), mac, rest)
    ensures PortsTold(site, refs, gathered, mac, PortsRead(rest.hit, rest.macs, rest.unreadable, [read] + rest.trace))
  {
    var here := Trimmed(site, site.portMACs(refs[0]).value);
    var p := PortsRead(rest.hit, rest.macs, rest.unreadable, [read] + rest.trace);
    assert forall r :: r in rest.trace ==> r in p.trace;
    assert forall x :: x in refs[1..] ==> x in refs;
    assert refs[0] in refs && (rest.hit in here ==> Lists(site, refs[0], rest.hit));
    if AllMACs(site, refs[1..]).Some? {
      ConcatAssociative(gathered, here, AllMACs(site, refs[1..]).value);
    }
  }

  // ---- an adapter and a target with their caches

  lemma {:induction false} AllMACsAreListed(site: Site, refs: seq<string>, m: string)
    requires AllMACs(site, refs).Some? && m in AllMACs(site, refs).value
    ensures exists ref :: ref in refs && Lists(site, ref, m)
  {
    if m in Trimmed(site, site.portMACs(refs[0]).value) {
      assert Lists(site, refs[0], m);
    } else {
      AllMACsAreListed(site, refs[1..], m);
    }
  }

  lemma CachedMatchIsCarried(site: Site, ports: string, mac: string)
    requires ports != "" && AdapterMACs(site, ports).Some?
    ensures var m := MatchMAC(site, AdapterMACs(site, ports).value, mac);
            m != "" ==> Carries(site, ports, mac, m)
  {
    var macs := AdapterMACs(site, ports).value;
    MatchMACSound(site, macs, mac);
    if MatchMAC(site, macs, mac) != "" {
      AllMACsAreListed(site, site.collections(ports).value, MatchMAC(site, macs, mac));
    }
  }

  /** What looking for a MAC on an adapter establishes, and what it may remember. */
  ghost predicate PortsSearched(site: Site, s: State, ports: string, mac: string, e: Effect<Scan>) {
    && SearchReads(site, e.trace)
    && e.state == s.(portMACs := e.state.portMACs) && Grew(s.portMACs, e.state.portMACs) && PortsTrue(site, e.state.portMACs)
    && (e.value.Hit? ==> Carries(site, ports, mac, e.value.spelled))
    && (e.value.NoHit? && ports != "" ==>
          ports in e.state.portMACs && MatchMAC(site, e.state.portMACs[ports], mac) == "")
    && (e.value.Unreadable? ==> PortsObstructed(site, ports, mac, e.trace))
    && (NothingFailed(e.trace) ==> e.value == PortScan(site, ports, mac))
  }

  lemma AdapterMACSearches(site: Site, fails: Failures, n: nat, s: State, ports: string, mac: string)
    requires PortsTrue(site, s.portMACs)
    ensures PortsSearched(site, s, ports, mac, AdapterMAC(site, fails, n, s, ports, mac))
  {
    if ports != "" {
      if ports in s.portMACs {
        CachedScanAgrees(site, ports, mac);
        CachedMatchIsCarried(site, ports, mac);
      } else {
        ReadAdapterMACSearches(site, fails, n, s, ports, mac);
      }
    }
  }

  lemma ReadAdapterMACSearches(site: Site, fails: Failures, n: nat, s: State, ports: string, mac: string)
    requires PortsTrue(site, s.portMACs) && ports != "" && ports !in s.portMACs
    ensures PortsSearched(site, s, ports, mac, ReadAdapterMAC(site, fails, n, s, ports, mac))
  {
    var list := Reply(fails, n, site.collections(ports));
    var first := Read(CollectionRead, ports, CodeOf(list));
    var e := ReadAdapterMAC(site, fails, n, s, ports, mac);
    if list.Err? {
      assert e.trace == [first] && first in e.trace;
    } else {
      ReadPortsTells(site, fails, n + 1, list.value, [], mac);
      var scan := ReadPorts(site, fails, n + 1, list.value, [], mac);
      WholeScan(site, ports, mac, first, scan);
      if scan.hit == "" && !scan.unreadable {
        assert PortsTrue(site, s.portMACs[ports := scan.macs]);
      }
    }
  }

  /** All ports behind `ports` were gone through, starting with nothing. */
  lemma WholeScan(site: Site, ports: string, mac: string, first: Read, scan: PortsRead)
    requires ports != "" && site.collections(ports).Body? && PortsTold(site, site.collections(ports).value, [], mac, scan)
    requires first == Read(CollectionRead, ports, Answered)
    ensures SearchReads(site, [first] + scan.trace)
    ensures scan.hit != "" ==> Carries(site, ports, mac, scan.hit)
    ensures scan.hit == "" ==> MatchMAC(site, scan.macs, mac) == ""
    ensures scan.hit == "" && !scan.unreadable ==> AdapterMACs(site, ports) == Some(scan.macs)
    ensures scan.hit == "" && scan.unreadable ==> PortsObstructed(site, ports, mac, [first] + scan.trace)
    ensures NothingFailed([first] + scan.trace) ==>
              PortScan(site, ports, mac) == if scan.hit != "" then Hit(scan.hit) else if scan.unreadable then Unreadable else NoHit
  {
    var trace := [first] + scan.trace;
    assert forall r :: r in scan.trace ==> r in trace;
    var all := AllMACs(site, site.collections(ports).value);
    if all.Some? { assert [] + all.value == all.value; }
  }

  /** What seeking the adapter of a component establishes, and what it may remember. */
  ghost predicate TargetSought(site: Site, s: State, c: Component, e: Effect<Resolution>) {
    && SearchReads(site, e.trace)
    && e.state == s.(targets := e.state.targets) && Grew(s.targets, e.state.targets)
    && (forall id :: id in e.state.targets && id !in s.targets ==>
          id == c.id && c.id != "" && TargetTrue(site, c, e.state.targets[id]))
    && (e.value.IsAdapter? ==> UsedAdapter(site, e.state, c, e.value.adapter) && e.value.adapter.ports != "")
    && (e.value.NotAdapter? ==> if c.id != "" then c.id in e.state.targets && e.state.targets[c.id].None?
                                else Resolve(site, c) == NotAdapter)
    && (e.value.Unknown? ==> TargetObstructed(site, c, e.trace))
    && (c.id in s.targets ==>
          e.trace == [] && e.state == s && e.value == if s.targets[c.id].None? then NotAdapter else IsAdapter(s.targets[c.id].value))
  }

  lemma TargetAdapterSeeks(site: Site, fails: Failures, n: nat, s: State, c: Component)
    requires CachesTrue(site, s)
    ensures TargetSought(site, s, c, TargetAdapter(site, fails, n, s, c))
  {
    if c.id in s.targets {
      var d :| d in s.integrity.value.members && d.id == c.id && Searched(d) && TargetTrue(site, d, s.targets[c.id]);
    } else {
      ResolveTargetTells(site, fails, n, c);
    }
  }

  /** What trying one entry establishes. */
  ghost predicate Tried(site: Site, s: State, c: Component, mac: string, e: Effect<Attempt>) {
    && SearchReads(site, e.trace)
    && OnlyCachesGrew(s, e.state) && CachesTrue(site, e.state)
    && (match e.value
        case Matched(a, spelled) => UsedAdapter(site, e.state, c, a) && Carries(site, a.ports, mac, spelled)
        case Passed => Settled(site, e.state, c, mac)
        case Blocked => Obstructed(site, e.state, c, mac, e.trace))
    && (Decided(s, c) ==> e.trace == [] && e.state == s && FromCache(site, s, c, mac, e.value))
  }

  ghost predicate FromCache(site: Site, s: State, c: Component, mac: string, r: Attempt)
    requires Decided(s, c)
  {
    var m := CachedMAC(site, s, c, mac);
    r == if m == "" then Passed else Matched(s.targets[c.id].value, m)
  }

  lemma SoughtKeepsTruth(site: Site, s: State, c: Component, e: Effect<Resolution>)
    requires CachesTrue(site, s) && TargetSought(site, s, c, e)
    requires Searched(c) && s.integrity.Some? && c in s.integrity.value.members
    ensures CachesTrue(site, e.state)
  {
    forall id | id in e.state.targets
      ensures TargetEntryTrue(site, s.integrity.value.members, id, e.state.targets[id])
    {
      assert id in s.targets ==> TargetEntryTrue(site, s.integrity.value.members, id, s.targets[id]);
    }
  }

  lemma TryEntryTries(site: Site, fails: Failures, n: nat, s: State, c: Component, mac: string)
    requires CachesTrue(site, s) && Searched(c) && s.integrity.Some? && c in s.integrity.value.members
    ensures Tried(site, s, c, mac, TryEntry(site, fails, n, s, c, mac))
  {
    hide TargetAdapter, AdapterMAC, CachesTrue, PortsSearched, TargetSought, Tried;
    var t := TargetAdapter(site, fails, n, s, c);
    TargetAdapterSeeks(site, fails, n, s, c);
    SoughtKeepsTruth(site, s, c, t);
    if t.value.IsAdapter? {
      var m := AdapterMAC(site, fails, n + |t.trace|, t.state, t.value.adapter.ports, mac);
      AdapterMACFromCaches(site, fails, n + |t.trace|, t.state, t.value.adapter.ports, mac);
      EntryOnAdapter(site, s, c, mac, t, m);
    } else {
      EntryWithoutAdapter(site, s, c, mac, t);
    }
  }

  lemma AdapterMACFromCaches(site: Site, fails: Failures, n: nat, s: State, ports: string, mac: string)
    requires CachesTrue(site, s)
    ensures PortsSearched(site, s, ports, mac, AdapterMAC(site, fails, n, s, ports, mac))
    ensures ports in s.portMACs ==>
              AdapterMAC(site, fails, n, s, ports, mac) == Effect(ScanOf(MatchMAC(site, s.portMACs[ports], mac)), s, [])
  {
    hide PortsSearched, ReadAdapterMAC;
    AdapterMACSearches(site, fails, n, s, ports, mac);
  }

  lemma EntryWithoutAdapter(site: Site, s: State, c: Component, mac: string, t: Effect<Resolution>)
    requires TargetSought(site, s, c, t) && !t.value.IsAdapter? && CachesTrue(site, t.state)
    ensures Tried(site, s, c, mac, Effect(if t.value == Unknown then Blocked else Passed, t.state, t.trace))
  {
  }

  lemma EntryOnAdapter(site: Site, s: State, c: Component, mac: string, t: Effect<Resolution>, m: Effect<Scan>)
    requires TargetSought(site, s, c, t) && t.value.IsAdapter? && CachesTrue(site, t.state)
    requires PortsSearched(site, t.state, t.value.adapter.ports, mac, m)
    requires t.value.adapter.ports in t.state.portMACs ==>
               m == Effect(ScanOf(MatchMAC(site, t.state.portMACs[t.value.adapter.ports], mac)), t.state, [])
    ensures Tried(site, s, c, mac, Effect(AttemptOf(t.value.adapter, m.value), m.state, t.trace + m.trace))
  {
    var a := t.value.adapter;
    assert UsedAdapter(site, m.state, c, a);
    if m.value.Unreadable? {
      assert Obstructed(site, m.state, c, mac, m.trace);
      ObstructedLater(site, m.state, c, mac, t.trace, m.trace);
    }
  }

  // ---- the search

  /** A search is its first entry followed, unless that matched, by the rest. */
  function Continued(c: Component, e: Effect<Attempt>, rest: Effect<Outcome>): Effect<Outcome> {
    if e.value.Matched? then Effect(Found(c, e.value.adapter, e.value.spelled), e.state, e.trace)
    else Effect(rest.value, rest.state, e.trace + rest.trace)
  }

  lemma SkippedAdvances(site: Site, a: State, order: seq<Component>, i: nat, mac: string, s: State, unreadable: bool, t: seq<Read>)
    requires a.integrity.Some? && i < |order| && order == SearchOrder(a.integrity.value.members) && !Searched(order[i])
    requires Searching(site, a, order, i, mac, s, unreadable, t)
    ensures Searching(site, a, order, i + 1, mac, s, unreadable, t)
  {
    SearchOneMore(site, a, order, i, mac, s, unreadable, t, s, false, []);
    assert t + [] == t;
  }

  /** What trying an entry establishes ends the search with a match or takes it one entry further. */
  lemma TriedAdvances(site: Site, a: State, order: seq<Component>, i: nat, mac: string, s: State, unreadable: bool,
                      t: seq<Read>, e: Effect<Attempt>)
    requires a.integrity.Some? && i < |order| && order == SearchOrder(a.integrity.value.members) && Searched(order[i])
    requires Searching(site, a, order, i, mac, s, unreadable, t) && SearchReads(site, t)
    requires Tried(site, s, order[i], mac, e)
    ensures SearchReads(site, t + e.trace)
    ensures if e.value.Matched?
            then SearchedFor(site, a, mac, e.state, Found(order[i], e.value.adapter, e.value.spelled), t + e.trace)
            else Searching(site, a, order, i + 1, mac, e.state, unreadable || e.value.Blocked?, t + e.trace)
  {
    SearchOrderKeepsAll(a.integrity.value.members);
    if e.value.Matched? {
      SearchHits(site, a, order, i, mac, s, unreadable, t, e.state, e.trace, e.value.adapter, e.value.spelled);
    } else {
      SearchOneMore(site, a, order, i, mac, s, unreadable, t, e.state, e.value.Blocked?, e.trace);
    }
  }

  lemma EntryTried(site: Site, fails: Failures, n: nat, a: State, order: seq<Component>, i: nat, mac: string, s: State,
                   unreadable: bool, t: seq<Read>)
    requires a.integrity.Some? && i < |order| && order == SearchOrder(a.integrity.value.members) && Searched(order[i])
    requires Searching(site, a, order, i, mac, s, unreadable, t)
    ensures Tried(site, s, order[i], mac, TryEntry(site, fails, n, s, order[i], mac))
  {
    SearchOrderKeepsAll(a.integrity.value.members);
    TryEntryTries(site, fails, n, s, order[i], mac);
  }

  lemma SearchUnfolds(site: Site, fails: Failures, n: nat, s: State, order: seq<Component>, mac: string, unreadable: bool)
    ensures Search(site, fails, n, s, order, mac, unreadable)
         == if order == [] then Effect(Miss(unreadable), s, [])
            else if !Searched(order[0]) then Search(site, fails, n, s, order[1..], mac, unreadable)
            else var e := TryEntry(site, fails, n, s, order[0], mac);
                 Continued(order[0], e, Search(site, fails, n + |e.trace|, e.state, order[1..], mac,
                                               unreadable || e.value.Blocked?))
  {
    hide TryEntry;
  }

  lemma ContinuedSearches(site: Site, a: State, order: seq<Component>, i: nat, mac: string, s: State, unreadable: bool,
                          t: seq<Read>, e: Effect<Attempt>, rest: Effect<Outcome>)
    requires a.integrity.Some? && i < |order| && order == SearchOrder(a.integrity.value.members) && Searched(order[i])
    requires Searching(site, a, order, i, mac, s, unreadable, t) && SearchReads(site, t)
    requires Tried(site, s, order[i], mac, e)
    requires !e.value.Matched? ==> SearchedFor(site, a, mac, rest.state, rest.value, (t + e.trace) + rest.trace)
    ensures var all := Continued(order[i], e, rest); SearchedFor(site, a, mac, all.state, all.value, t + all.trace)
  {
    TriedAdvances(site, a, order, i, mac, s, unreadable, t, e);
    ConcatAssociative(t, e.trace, rest.trace);
  }

  /** From entry `i` on: whatever the rest of the search gives is a legitimate outcome. */
  lemma {:induction false} SearchSearches(site: Site, fails: Failures, n: nat, a: State, order: seq<Component>, i: nat,
                                          mac: string, s: State, unreadable: bool, t: seq<Read>)
      returns (all: Effect<Outcome>)
    requires a.integrity.Some? && i <= |order| && order == SearchOrder(a.integrity.value.members)
    requires Searching(site, a, order, i, mac, s, unreadable, t) && SearchReads(site, t)
    ensures all == Search(site, fails, n, s, order[i..], mac, unreadable)
    ensures SearchedFor(site, a, mac, all.state, all.value, t + all.trace)
    decreases |order| - i
  {
    hide Searching, SearchedFor, Tried, TryEntry;
    if i == |order| {
      assert t + [] == t;
      SearchEnds(site, a, order, mac, s, unreadable, t);
      all := Effect(Miss(unreadable), s, []);
    } else {
      assert order[i..][1..] == order[i + 1..];
      if !Searched(order[i]) {
        SkippedAdvances(site, a, order, i, mac, s, unreadable, t);
        all := SearchSearches(site, fails, n, a, order, i + 1, mac, s, unreadable, t);
      } else {
        var e := TryEntry(site, fails, n, s, order[i], mac);
        EntryTried(site, fails, n, a, order, i, mac, s, unreadable, t);
        all := SearchContinues(site, fails, n, a, order, i, mac, s, unreadable, t, e);
      }
    }
  }

  lemma {:induction false} SearchContinues(site: Site, fails: Failures, n: nat, a: State, order: seq<Component>, i: nat,
                                           mac: string, s: State, unreadable: bool, t: seq<Read>, e: Effect<Attempt>)
      returns (all: Effect<Outcome>)
    requires a.integrity.Some? && i < |order| && order == SearchOrder(a.integrity.value.members) && Searched(order[i])
    requires Searching(site, a, order, i, mac, s, unreadable, t) && SearchReads(site, t)
    requires Tried(site, s, order[i], mac, e)
    ensures all == Continued(order[i], e, Search(site, fails, n + |e.trace|, e.state, order[i + 1..], mac,
                                                 unreadable || e.value.Blocked?))
    ensures SearchedFor(site, a, mac, all.state, all.value, t + all.trace)
    decreases |order| - i, 0
  {
    hide Searching, SearchedFor, Tried, Search;
    var rest := Effect(Miss(unreadable), s, []);
    if !e.value.Matched? {
      TriedAdvances(site, a, order, i, mac, s, unreadable, t, e);
      rest := SearchSearches(site, fails, n + |e.trace|, a, order, i + 1, mac, e.state, unreadable || e.value.Blocked?,
                             t + e.trace);
    }
    all := Continued(order[i], e, rest);
    ContinuedSearches(site, a, order, i, mac, s, unreadable, t, e, rest);
  }

  // ---- calls and runs

  lemma LookupIsAllowed(site: Site, fails: Failures, n: nat, a: State, mac: string)
    requires Inv(site, a)
    ensures var d := DoLookup(site, fails, n, a, mac); Allowed(site, a, d.call, d.state)
  {
    hide Snap, Search, Snapped, SearchedFor, SnapshotTrue, CachesTrue;
    var snap := Snap(site, fails, n, a.integrity);
    InvCounts(site, a);
    SnapSnaps(site, fails, n, a.integrity);
    if snap.value.Some? {
      var e := RefreshedSearches(site, fails, n + |snap.trace|, a, snap, mac);
      LookupOnSnapshot(site, a, snap, mac, e);
    } else {
      assert a.integrity.None? by { SnapKeeps(site, fails, n, a.integrity); }
    }
  }

  lemma InvCounts(site: Site, a: State)
    requires Inv(site, a)
    ensures a.integrity.Some? ==> |a.integrity.value.members| == |a.integrity.value.sources|
  {
  }

  lemma SnapKeeps(site: Site, fails: Failures, n: nat, a: Option<Snapshot>)
    ensures a.Some? ==> Snap(site, fails, n, a).value.Some?
  {
  }

  lemma RefreshedSearches(site: Site, fails: Failures, n: nat, a: State, snap: Reading<Option<Snapshot>>, mac: string)
      returns (e: Effect<Outcome>)
    requires Inv(site, a) && Snapped(site, a.integrity, snap.value, snap.trace) && snap.value.Some?
    ensures e == Search(site, fails, n, a.(integrity := snap.value), SearchOrder(snap.value.value.members), mac,
                        snap.value.value.failed != [])
    ensures SearchedFor(site, a.(integrity := snap.value), mac, e.state, e.value, e.trace)
  {
    hide Search, SearchedFor, Searching;
    var now, order := a.(integrity := snap.value), SearchOrder(snap.value.value.members);
    SnappedKeepsTruth(site, a.integrity, snap.value, snap.trace);
    TargetEntriesSurvive(site, a, now);
    SearchStart(site, now, order, mac);
    e := SearchSearches(site, fails, n, now, order, 0, mac, now, snap.value.value.failed != [], []);
    assert order[0..] == order && [] + e.trace == e.trace;
  }

  lemma LookupOnSnapshot(site: Site, a: State, snap: Reading<Option<Snapshot>>, mac: string, e: Effect<Outcome>)
    requires snap.value.Some? && Snapped(site, a.integrity, snap.value, snap.trace)
    requires SearchedFor(site, a.(integrity := snap.value), mac, e.state, e.value, e.trace)
    ensures Allowed(site, a, Lookup(mac, e.value, snap.trace, e.trace), e.state)
  {
    hide Snapped;
    assert e.state.integrity == snap.value;
  }

  lemma ManagerPathSeeks(site: Site, fails: Failures, n: nat, known: string)
    requires ManagerTrue(site, known)
    ensures var r := ManagerPath(site, fails, n, known);
            && ManagerSought(site, known, r.value.Some?, r.trace)
            && (r.value.Some? ==> r.value == ManagerOf(site))
            && (NothingFailed(r.trace) ==> r.value == ManagerOf(site))
  {
    var r := ManagerPath(site, fails, n, known);
    assert r.trace != [] ==> r.trace[0] in r.trace;
  }

  lemma QuoteIsAllowed(site: Site, fails: Failures, n: nat, a: State)
    requires Inv(site, a)
    ensures var d := DoQuote(site, fails, n, a); Allowed(site, a, d.call, d.state)
  {
    hide Snap, Snapped, ManagerSought;
    var path := ManagerPath(site, fails, n, a.manager);
    ManagerPathSeeks(site, fails, n, a.manager);
    if path.value.Some? {
      var snap := Snap(site, fails, n + |path.trace|, a.integrity);
      SnapSnaps(site, fails, n + |path.trace|, a.integrity);
      QuoteOnSnapshot(site, a, path, snap);
    }
  }

  lemma QuoteOnSnapshot(site: Site, a: State, path: Reading<Option<string>>, snap: Reading<Option<Snapshot>>)
    requires path.value.Some? && path.value == ManagerOf(site) && ManagerSought(site, a.manager, true, path.trace)
    requires Snapped(site, a.integrity, snap.value, snap.trace)
    ensures var b := a.(manager := path.value.value, integrity := if snap.value.Some? then snap.value else a.integrity);
            var out := if snap.value.Some? then QuoteAnswer(snap.value.value, path.value.value) else QuoteListFailed;
            Allowed(site, a, Quote(out, snap.trace, path.trace), b)
  {
  }

  /** In every run each state satisfies the invariant, and each call does what is allowed. */
  lemma {:induction false} RunInv(site: Site, fails: Failures, states: seq<State>, calls: seq<Call>, i: nat)
    requires IsRun(site, fails, states, calls) && i < |states|
    ensures Inv(site, states[i])
    ensures i < |calls| ==> Allowed(site, states[i], calls[i], states[i + 1])
    ensures i < |calls| ==> Advances(states[i].integrity, states[i + 1].integrity) && Inv(site, states[i + 1])
  {
    if i > 0 {
      RunInv(site, fails, states, calls, i - 1);
    }
    if i < |calls| {
      StepKeepsInv(site, fails, |AllReads(calls[..i])|, states[i], calls[i], states[i + 1]);
    }
  }

  lemma StepKeepsInv(site: Site, fails: Failures, n: nat, a: State, call: Call, b: State)
    requires Inv(site, a) && Step(site, fails, n, a, call, b)
    ensures Allowed(site, a, call, b) && Inv(site, b) && Advances(a.integrity, b.integrity)
  {
    match call
    case Lookup(mac, _, _, _) =>
      LookupIsAllowed(site, fails, n, a, mac);
      AllowedKeepsInv(site, a, call, b);
    case Quote(_, _, _) =>
      QuoteIsAllowed(site, fails, n, a);
      AllowedKeepsInv(site, a, call, b);
  }

  /** A client made on a BMC, and each further call on it, go on living a run. */
  lemma RunGrows(site: Site, fails: Failures, states: seq<State>, calls: seq<Call>, call: Call, b: State)
    requires IsRun(site, fails, states, calls) && Step(site, fails, |AllReads(calls)|, Last(states), call, b)
    ensures IsRun(site, fails, states + [b], calls + [call]) && AllReads(calls + [call]) == AllReads(calls) + Reads(call)
  {
    hide Step;
    var more := calls + [call];
    assert Init(more) == calls;
    forall i | 0 <= i < |more|
      ensures Step(site, fails, |AllReads(more[..i])|, (states + [b])[i], more[i], (states + [b])[i + 1])
    {
      if i == |calls| { assert more[..i] == calls; } else { assert more[..i] == calls[..i]; }
    }
  }
}
