/**
 * How far the promise of a clean miss goes: exactly on which BMCs a client can be made to
 * miss a MAC without a word, by failing the right reads.
 */
module RedfishLimits {
  import opened Prelude
  import opened RedfishSite
  import opened RedfishState
  import opened RedfishCalls
  import opened RedfishSteps
  import opened RedfishTheorems

  // ---- only the failures among the reads of a call matter

  /** Whether the `j`-th read from `n` on fails. */
  predicate FailsAt(f: Failures, n: nat, j: nat) {
    f(n + j)
  }

  /** The same reads fail, from `n` on and from `m` on, for `k` reads. */
  ghost predicate Agree(f: Failures, n: nat, g: Failures, m: nat, k: nat) {
    forall j: nat :: j < k ==> FailsAt(f, n, j) == FailsAt(g, m, j)
  }

  lemma AgreeShifted(f: Failures, n: nat, g: Failures, m: nat, k: nat, d: nat)
    requires Agree(f, n, g, m, d + k)
    ensures Agree(f, n, g, m, d) && Agree(f, n + d, g, m + d, k)
  {
    var n', m' := n + d, m + d;
    forall j: nat | j < k
      ensures FailsAt(f, n', j) == FailsAt(g, m', j)
    {
      assert FailsAt(f, n, d + j) == FailsAt(g, m, d + j);
    }
  }

  lemma ReplyLocal<T>(f: Failures, n: nat, g: Failures, m: nat, k: nat, c: Content<T>)
    requires k > 0 && Agree(f, n, g, m, k)
    ensures Reply(f, n, c) == Reply(g, m, c)
  {
    assert FailsAt(f, n, 0) == FailsAt(g, m, 0);
  }

  lemma {:induction false} FindInSlotLocal(site: Site, f: Failures, n: nat, g: Failures, m: nat, refs: seq<string>, slot: int)
    requires Agree(f, n, g, m, |FindInSlot(site, g, m, refs, slot).trace|)
    ensures FindInSlot(site, f, n, refs, slot) == FindInSlot(site, g, m, refs, slot)
    decreases refs
  {
    if refs != [] {
      var scan, rest := FindInSlot(site, g, m, refs, slot), FindInSlot(site, g, m + 1, refs[1..], slot);
      ReplyLocal(f, n, g, m, |scan.trace|, site.adapters(refs[0]));
      if |scan.trace| == 1 + |rest.trace| {
        AgreeShifted(f, n, g, m, |rest.trace|, 1);
        FindInSlotLocal(site, f, n + 1, g, m + 1, refs[1..], slot);
      }
    }
  }

  lemma ResolveTargetLocal(site: Site, f: Failures, n: nat, g: Failures, m: nat, c: Component)
    requires Agree(f, n, g, m, |ResolveTarget(site, g, m, c).trace|)
    ensures ResolveTarget(site, f, n, c) == ResolveTarget(site, g, m, c)
  {
    var r := ResolveTarget(site, g, m, c);
    ReplyLocal(f, n, g, m, |r.trace|, site.adapters(c.targetURI));
    if |r.trace| > 1 {
      AgreeShifted(f, n, g, m, |r.trace| - 1, 1);
      ReplyLocal(f, n + 1, g, m + 1, |r.trace| - 1, site.collections(site.dir(c.targetURI)));
      if site.slotOf(c.id).Slot? && Reply(g, m + 1, site.collections(site.dir(c.targetURI))).Ok? {
        AgreeShifted(f, n, g, m, |r.trace| - 2, 2);
        FindInSlotLocal(site, f, n + 2, g, m + 2, site.collections(site.dir(c.targetURI)).value, site.slotOf(c.id).ordinal);
      }
    }
  }

  lemma {:induction false} ReadPortsLocal(site: Site, f: Failures, n: nat, g: Failures, m: nat, refs: seq<string>,
                                          gathered: seq<string>, mac: string)
    requires Agree(f, n, g, m, |ReadPorts(site, g, m, refs, gathered, mac).trace|)
    ensures ReadPorts(site, f, n, refs, gathered, mac) == ReadPorts(site, g, m, refs, gathered, mac)
    decreases refs
  {
    if refs != [] {
      var p := ReadPorts(site, g, m, refs, gathered, mac);
      var port := Reply(g, m, site.portMACs(refs[0]));
      ReplyLocal(f, n, g, m, |p.trace|, site.portMACs(refs[0]));
      AgreeShifted(f, n, g, m, |p.trace| - 1, 1);
      var macs := if port.Ok? then gathered + Trimmed(site, port.value) else gathered;
      if port.Err? || MatchMAC(site, macs, mac) == "" {
        ReadPortsLocal(site, f, n + 1, g, m + 1, refs[1..], macs, mac);
      }
    }
  }

  lemma AdapterMACLocal(site: Site, f: Failures, n: nat, g: Failures, m: nat, s: State, ports: string, mac: string)
    requires Agree(f, n, g, m, |AdapterMAC(site, g, m, s, ports, mac).trace|)
    ensures AdapterMAC(site, f, n, s, ports, mac) == AdapterMAC(site, g, m, s, ports, mac)
  {
    if ports != "" && ports !in s.portMACs {
      var e := AdapterMAC(site, g, m, s, ports, mac);
      ReplyLocal(f, n, g, m, |e.trace|, site.collections(ports));
      if Reply(g, m, site.collections(ports)).Ok? {
        AgreeShifted(f, n, g, m, |e.trace| - 1, 1);
        ReadPortsLocal(site, f, n + 1, g, m + 1, site.collections(ports).value, [], mac);
      }
    }
  }

  lemma TryEntryLocal(site: Site, f: Failures, n: nat, g: Failures, m: nat, s: State, c: Component, mac: string)
    requires Agree(f, n, g, m, |TryEntry(site, g, m, s, c, mac).trace|)
    ensures TryEntry(site, f, n, s, c, mac) == TryEntry(site, g, m, s, c, mac)
  {
    hide ResolveTarget, AdapterMAC;
    var e, t := TryEntry(site, g, m, s, c, mac), TargetAdapter(site, g, m, s, c);
    AgreeShifted(f, n, g, m, |e.trace| - |t.trace|, |t.trace|);
    if c.id !in s.targets {
      ResolveTargetLocal(site, f, n, g, m, c);
    }
    if t.value.IsAdapter? {
      AdapterMACLocal(site, f, n + |t.trace|, g, m + |t.trace|, t.state, t.value.adapter.ports, mac);
    }
  }

  lemma {:induction false} SearchLocal(site: Site, f: Failures, n: nat, g: Failures, m: nat, s: State, order: seq<Component>,
                                       mac: string, unreadable: bool)
    requires Agree(f, n, g, m, |Search(site, g, m, s, order, mac, unreadable).trace|)
    ensures Search(site, f, n, s, order, mac, unreadable) == Search(site, g, m, s, order, mac, unreadable)
    decreases order
  {
    hide Search, TryEntry, Agree;
    SearchUnfolds(site, f, n, s, order, mac, unreadable);
    SearchUnfolds(site, g, m, s, order, mac, unreadable);
    if order == [] {
    } else if !Searched(order[0]) {
      SearchLocal(site, f, n, g, m, s, order[1..], mac, unreadable);
    } else {
      var all, e := Search(site, g, m, s, order, mac, unreadable), TryEntry(site, g, m, s, order[0], mac);
      AgreeShifted(f, n, g, m, |all.trace| - |e.trace|, |e.trace|);
      TryEntryLocal(site, f, n, g, m, s, order[0], mac);
      if !e.value.Matched? {
        SearchLocal(site, f, n + |e.trace|, g, m + |e.trace|, e.state, order[1..], mac, unreadable || e.value.Blocked?);
      }
    }
  }

  // ---- reads that do not fail

  ghost predicate QuietFrom(f: Failures, n: nat) {
    forall j: nat :: j >= n ==> !f(j)
  }

  lemma {:induction false} FindInSlotQuiet(site: Site, f: Failures, n: nat, refs: seq<string>, slot: int)
    requires QuietFrom(f, n)
    ensures NothingFailed(FindInSlot(site, f, n, refs, slot).trace)
    decreases refs
  {
    if refs != [] {
      FindInSlotQuiet(site, f, n + 1, refs[1..], slot);
    }
  }

  lemma ResolveTargetQuiet(site: Site, f: Failures, n: nat, c: Component)
    requires QuietFrom(f, n)
    ensures NothingFailed(ResolveTarget(site, f, n, c).trace)
  {
    if site.slotOf(c.id).Slot? && site.collections(site.dir(c.targetURI)).Body? {
      FindInSlotQuiet(site, f, n + 2, site.collections(site.dir(c.targetURI)).value, site.slotOf(c.id).ordinal);
    }
  }

  lemma {:induction false} ReadPortsQuiet(site: Site, f: Failures, n: nat, refs: seq<string>, gathered: seq<string>, mac: string)
    requires QuietFrom(f, n)
    ensures NothingFailed(ReadPorts(site, f, n, refs, gathered, mac).trace)
    decreases refs
  {
    if refs != [] {
      var port := Reply(f, n, site.portMACs(refs[0]));
      ReadPortsQuiet(site, f, n + 1, refs[1..], if port.Ok? then gathered + Trimmed(site, port.value) else gathered, mac);
    }
  }

  lemma AdapterMACQuiet(site: Site, f: Failures, n: nat, s: State, ports: string, mac: string)
    requires QuietFrom(f, n)
    ensures NothingFailed(AdapterMAC(site, f, n, s, ports, mac).trace)
  {
    if site.collections(ports).Body? {
      ReadPortsQuiet(site, f, n + 1, site.collections(ports).value, [], mac);
    }
  }

  // ---- making one entry pass

  /** The ports of an adapter are all readable, and none lists the MAC. */
  ghost predicate Dodges(site: Site, a: Adapter, mac: string) {
    a.ports != "" && AdapterMACs(site, a.ports).Some? && MatchMAC(site, AdapterMACs(site, a.ports).value, mac) == ""
  }

  /** The entry is no adapter, or can be resolved, when some reads fail, to one that does not list the MAC. */
  ghost predicate Dodgeable(site: Site, c: Component, mac: string) {
    Resolve(site, c) == NotAdapter || exists a :: MayResolve(site, c, a) && Dodges(site, a, mac)
  }

  /** What is remembered lets every entry pass. */
  ghost predicate Dodging(site: Site, s: State, mac: string) {
    PortsTrue(site, s.portMACs) && forall id :: id in s.targets && s.targets[id].Some? ==> Dodges(site, s.targets[id].value, mac)
  }

  const NEVER: Failures := n => false

  /** The target fails and so does everything in its collection before entry `k`. */
  function FailUpTo(k: nat): Failures {
    (j: nat) => j == 0 || 2 <= j < 2 + k
  }

  lemma {:induction false} SlotReached(site: Site, f: Failures, n: nat, refs: seq<string>, slot: int, k: nat)
    requires k < |refs| && site.adapters(refs[k]).Body? && InSlot(site.adapters(refs[k]).value, slot)
    requires (forall j: nat :: n <= j < n + k ==> f(j)) && !f(n + k)
    ensures var scan := FindInSlot(site, f, n, refs, slot);
            scan.found == Some(site.adapters(refs[k]).value.(selfURI := refs[k])) && |scan.trace| == k + 1
    decreases k
  {
    if k > 0 {
      assert f(n) && refs[1..][k - 1] == refs[k];
      SlotReached(site, f, n + 1, refs[1..], slot, k - 1);
    }
  }

  /** Some failures make an entry that can be dodged resolve to nothing, or to an adapter without the MAC. */
  lemma TargetDodges(site: Site, c: Component, mac: string) returns (f: Failures)
    requires Dodgeable(site, c, mac)
    ensures var r := ResolveTarget(site, f, 0, c);
            && (r.value == NotAdapter || (r.value.IsAdapter? && Dodges(site, r.value.adapter, mac)))
            && QuietFrom(f, |r.trace|)
  {
    if Resolve(site, c) == NotAdapter {
      f := NEVER;
      ResolveTargetQuiet(site, f, 0, c);
      ResolveTargetTells(site, f, 0, c);
    } else {
      var a :| MayResolve(site, c, a) && Dodges(site, a, mac);
      if DirectCandidate(site, c) && a == site.adapters(c.targetURI).value.(selfURI := c.targetURI) {
        f := NEVER;
      } else {
        var ref :| SlotCandidate(site, c, ref) && a == site.adapters(ref).value.(selfURI := ref);
        var refs := site.collections(site.dir(c.targetURI)).value;
        var k :| 0 <= k < |refs| && refs[k] == ref;
        f := FailUpTo(k);
        SlotReached(site, f, 2, refs, site.slotOf(c.id).ordinal, k);
      }
    }
  }

  lemma PortsDodge(site: Site, f: Failures, n: nat, s: State, a: Adapter, mac: string)
    requires Dodging(site, s, mac) && Dodges(site, a, mac) && QuietFrom(f, n)
    ensures var e := AdapterMAC(site, f, n, s, a.ports, mac);
            e.value == NoHit && e.state.targets == s.targets && PortsTrue(site, e.state.portMACs)
  {
    AdapterMACQuiet(site, f, n, s, a.ports, mac);
    AdapterMACSearches(site, f, n, s, a.ports, mac);
    CachedScanAgrees(site, a.ports, mac);
  }

  lemma EntryDodges(site: Site, s: State, c: Component, mac: string) returns (f: Failures)
    requires Dodging(site, s, mac) && Dodgeable(site, c, mac)
    ensures var e := TryEntry(site, f, 0, s, c, mac); e.value == Passed && Dodging(site, e.state, mac)
  {
    hide ResolveTarget, AdapterMAC;
    f := NEVER;
    if c.id !in s.targets {
      f := TargetDodges(site, c, mac);
    }
    var t := TargetAdapter(site, f, 0, s, c);
    if t.value.IsAdapter? {
      PortsDodge(site, f, |t.trace|, t.state, t.value.adapter, mac);
    }
  }

  /** The failures of one stretch of reads, then those of another. */
  function Then(f: Failures, k: nat, g: Failures): Failures {
    (j: nat) => if j < k then f(j) else g(j - k)
  }

  lemma {:induction false} SearchDodges(site: Site, s: State, order: seq<Component>, mac: string) returns (f: Failures)
    requires Dodging(site, s, mac) && forall c :: c in order && Searched(c) ==> Dodgeable(site, c, mac)
    ensures Search(site, f, 0, s, order, mac, false).value == Miss(false)
    decreases order
  {
    hide TryEntry, Dodging, Dodgeable;
    if order == [] {
      f := NEVER;
    } else {
      assert forall c :: c in order[1..] ==> c in order;
      if !Searched(order[0]) {
        f := SearchDodges(site, s, order[1..], mac);
      } else {
        var first := EntryDodges(site, s, order[0], mac);
        var e := TryEntry(site, first, 0, s, order[0], mac);
        var rest := SearchDodges(site, e.state, order[1..], mac);
        f := Then(first, |e.trace|, rest);
        TryEntryLocal(site, f, 0, first, 0, s, order[0], mac);
        SearchLocal(site, f, |e.trace|, rest, 0, e.state, order[1..], mac, false);
      }
    }
  }

  // ---- making one call miss

  /** Every listed member is served, and every entry that is searched can be dodged. */
  ghost predicate CanMissCleanly(site: Site, mac: string) {
    && Listing(site).Body?
    && (forall p :: p in ListedPaths(site) ==> site.components(p).Body?)
    && (forall c :: Listed(site, c) && Searched(c) ==> Dodgeable(site, c, mac))
  }

  lemma {:induction false} AllServed(site: Site, f: Failures, n: nat, paths: seq<string>)
    requires forall p :: p in paths ==> site.components(p).Body?
    requires forall j: nat :: n <= j < n + |paths| ==> !f(j)
    ensures ReadMembers(site, f, n, paths).failed == [] && |ReadMembers(site, f, n, paths).trace| == |paths|
    decreases paths
  {
    if paths != [] {
      AllServed(site, f, n + 1, paths[1..]);
    }
  }

  lemma SnapshotServed(site: Site, f: Failures)
    requires Listing(site).Body? && forall p :: p in ListedPaths(site) ==> site.components(p).Body?
    requires forall j: nat :: j < 1 + |ListedPaths(site)| ==> !f(j)
    ensures var snap := Snap(site, f, 0, None);
            && snap.value.Some? && snap.value.value.failed == [] && |snap.trace| == 1 + |ListedPaths(site)|
            && forall c :: c in snap.value.value.members ==> Listed(site, c)
  {
    var snap := Snap(site, f, 0, None);
    AllServed(site, f, 1, ListedPaths(site));
    SnapSnaps(site, f, 0, None);
    SnappedKeepsTruth(site, None, snap.value, snap.trace);
    forall c | c in snap.value.value.members ensures Listed(site, c) {
      MembersAreListed(site, snap.value.value, c);
    }
  }

  lemma LookupDodges(site: Site, mac: string) returns (f: Failures)
    requires CanMissCleanly(site, mac)
    ensures DoLookup(site, f, 0, INITIAL, mac).call.outcome == Miss(false)
  {
    hide Snap, Search, Dodgeable;
    var k := 1 + |ListedPaths(site)|;
    SnapshotServed(site, NEVER);
    var snap := Snap(site, NEVER, 0, None);
    var now := INITIAL.(integrity := snap.value);
    var order := SearchOrder(snap.value.value.members);
    SearchOrderKeepsAll(snap.value.value.members);
    var rest := SearchDodges(site, now, order, mac);
    f := Then(NEVER, k, rest);
    SnapshotServed(site, f);
    SnapshotLocal(site, f, k);
    SearchLocal(site, f, k, rest, 0, now, order, mac, false);
  }

  lemma {:induction false} ReadMembersLocal(site: Site, f: Failures, n: nat, g: Failures, m: nat, paths: seq<string>)
    requires Agree(f, n, g, m, |paths|)
    ensures ReadMembers(site, f, n, paths) == ReadMembers(site, g, m, paths)
    decreases paths
  {
    if paths != [] {
      ReplyLocal(f, n, g, m, |paths|, site.components(paths[0]));
      AgreeShifted(f, n, g, m, |paths| - 1, 1);
      ReadMembersLocal(site, f, n + 1, g, m + 1, paths[1..]);
    }
  }

  lemma SnapshotLocal(site: Site, f: Failures, k: nat)
    requires k == 1 + |ListedPaths(site)| && forall j: nat :: j < k ==> !f(j)
    ensures Snap(site, f, 0, None) == Snap(site, NEVER, 0, None)
  {
    ReplyLocal(f, 0, NEVER, 0, k, Listing(site));
    AgreeShifted(f, 0, NEVER, 0, k - 1, 1);
    ReadMembersLocal(site, f, 1, NEVER, 1, ListedPaths(site));
  }

  // ---- exactly when

  ghost predicate MissesCleanly(call: Call, mac: string) {
    call.Lookup? && call.mac == mac && call.outcome == Miss(false)
  }

  /** In some life of some client on this BMC, some lookup of the MAC misses without a word. */
  ghost predicate CleanMissHappens(site: Site, mac: string) {
    exists fails: Failures, states, calls, i: nat ::
      IsRun(site, fails, states, calls) && i < |calls| && MissesCleanly(calls[i], mac)
  }

  lemma CleanMissMeansDodged(site: Site, fails: Failures, states: seq<State>, calls: seq<Call>, i: nat, mac: string)
    requires DistinctIds(site) && IsRun(site, fails, states, calls) && i < |calls| && MissesCleanly(calls[i], mac)
    ensures CanMissCleanly(site, mac)
  {
    RunInv(site, fails, states, calls, i);
    var s := states[i + 1];
    var snap := s.integrity.value;
    forall p | p in ListedPaths(site)
      ensures site.components(p).Body?
    {
      assert p in multiset(ListedPaths(site));
      var k :| 0 <= k < |snap.sources| && snap.sources[k] == p;
    }
    forall c | Listed(site, c) && Searched(c)
      ensures Dodgeable(site, c, mac)
    {
      ListedAreMembers(site, snap, c);
      SettledIsDodgeable(site, s, c, mac);
    }
  }

  lemma SettledIsDodgeable(site: Site, s: State, c: Component, mac: string)
    requires DistinctIds(site) && Inv(site, s) && s.integrity.Some? && c in s.integrity.value.members && Searched(c)
    requires Settled(site, s, c, mac)
    ensures Dodgeable(site, c, mac)
  {
    if c.id != "" {
      TargetIsOwn(site, s, c);
      if s.targets[c.id].Some? { assert Dodges(site, s.targets[c.id].value, mac); }
    } else if Resolve(site, c) != NotAdapter {
      var a :| MayResolve(site, c, a) && AdapterMACs(site, a.ports).Some?
        && MatchMAC(site, AdapterMACs(site, a.ports).value, mac) == "";
      assert Dodges(site, a, mac);
    }
  }

  /**
   * A client can be made to miss a MAC cleanly exactly when every listed member is served
   * and every searched entry can be dodged, that is, is no adapter or can come to be
   * resolved to an adapter whose ports are all readable and do not list the MAC.
   */
  lemma CleanMissHappensExactly(site: Site, mac: string)
    requires DistinctIds(site)
    ensures CleanMissHappens(site, mac) <==> CanMissCleanly(site, mac)
  {
    hide CanMissCleanly, DoLookup;
    if CleanMissHappens(site, mac) {
      var fails: Failures, states, calls, i: nat :|
        IsRun(site, fails, states, calls) && i < |calls| && MissesCleanly(calls[i], mac);
      CleanMissMeansDodged(site, fails, states, calls, i, mac);
    }
    if CanMissCleanly(site, mac) {
      var f := LookupDodges(site, mac);
      var d := DoLookup(site, f, 0, INITIAL, mac);
      OneCallIsARun(site, f, mac);
      assert MissesCleanly([d.call][0], mac);
    }
  }

  lemma OneCallIsARun(site: Site, fails: Failures, mac: string)
    ensures var d := DoLookup(site, fails, 0, INITIAL, mac);
            IsRun(site, fails, [INITIAL, d.state], [d.call]) && d.call.Lookup? && d.call.mac == mac
  {
    hide Snap, Search;
    var d := DoLookup(site, fails, 0, INITIAL, mac);
    assert [d.call][..0] == [];
  }

  /**
   * So the promise of a clean miss holds for a MAC, over every run, exactly when the MAC
   * is absent, or some member is not served, or some searched entry cannot be dodged.
   */
  lemma CleanMissesAreTrueExactly(site: Site, mac: string)
    requires DistinctIds(site)
    ensures (forall fails: Failures, states, calls, i: nat ::
               IsRun(site, fails, states, calls) && i < |calls| && MissesCleanly(calls[i], mac) ==> !Present(site, mac))
            <==> !Present(site, mac) || !CanMissCleanly(site, mac)
  {
    CleanMissHappensExactly(site, mac);
  }

  /** Where slot and target URI agree, no present MAC can be dodged on every entry. */
  lemma AgreementKeepsThePromise(site: Site, mac: string)
    requires Consistent(site) && Present(site, mac)
    ensures !CanMissCleanly(site, mac)
  {
    var c :| Listed(site, c) && Reports(site, c, mac);
    if Dodgeable(site, c, mac) {
      var a :| MayResolve(site, c, a) && Dodges(site, a, mac);
      ResolutionAgrees(site, c, a);
      CachedScanAgrees(site, a.ports, mac);
    }
  }
}
