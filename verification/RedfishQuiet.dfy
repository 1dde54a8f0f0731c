/** Calls and runs during which no read fails: then the client answers exactly as the BMC's content says. */
module RedfishQuiet {
  import opened Prelude
  import opened RedfishSite
  import opened RedfishRaw
  import opened RedfishState
  import opened RedfishCalls
  import opened RedfishSteps
  import opened RedfishTheorems

  // ---- lookups over a run without failures

  /** Every remembered target is the one the failure-free resolution gives. */
  ghost predicate TargetsExact(site: Site, targets: map<string, Option<Adapter>>) {
    && "" !in targets
    && forall c :: Listed(site, c) && Searched(c) && c.id in targets ==>
         Resolve(site, c) != Unknown && targets[c.id] == AsTarget(Resolve(site, c))
  }

  lemma QuietTarget(site: Site, fails: Failures, n: nat, s: State, c: Component)
    requires DistinctIds(site) && TargetsExact(site, s.targets) && Listed(site, c) && Searched(c)
    requires NothingFailed(TargetAdapter(site, fails, n, s, c).trace)
    ensures var e := TargetAdapter(site, fails, n, s, c);
            e.value == Resolve(site, c) && TargetsExact(site, e.state.targets) && e.state.portMACs == s.portMACs
  {
    hide ResolveTarget;
    if c.id !in s.targets {
      ResolveTargetTells(site, fails, n, c);
    }
  }

  lemma QuietEntry(site: Site, fails: Failures, n: nat, s: State, c: Component, mac: string)
    requires DistinctIds(site) && TargetsExact(site, s.targets) && PortsTrue(site, s.portMACs)
    requires Listed(site, c) && Searched(c) && NothingFailed(TryEntry(site, fails, n, s, c, mac).trace)
    ensures var e := TryEntry(site, fails, n, s, c, mac);
            && (e.value.Matched? <==> Reports(site, c, mac))
            && TargetsExact(site, e.state.targets) && PortsTrue(site, e.state.portMACs)
  {
    hide TargetAdapter, AdapterMAC;
    var e, t := TryEntry(site, fails, n, s, c, mac), TargetAdapter(site, fails, n, s, c);
    assert forall r :: r in t.trace ==> r in e.trace;
    QuietTarget(site, fails, n, s, c);
    if t.value.IsAdapter? {
      var m := AdapterMAC(site, fails, n + |t.trace|, t.state, t.value.adapter.ports, mac);
      assert forall r :: r in m.trace ==> r in e.trace;
      AdapterMACSearches(site, fails, n + |t.trace|, t.state, t.value.adapter.ports, mac);
    }
  }

  lemma BothQuiet(a: seq<Read>, b: seq<Read>)
    ensures NothingFailed(a + b) <==> NothingFailed(a) && NothingFailed(b)
  {
    assert forall r :: r in a + b <==> r in a || r in b;
  }

  ghost predicate SomeReports(site: Site, order: seq<Component>, mac: string) {
    exists c :: c in order && Reports(site, c, mac)
  }

  lemma SomeReportsFirst(site: Site, order: seq<Component>, mac: string)
    requires order != []
    ensures SomeReports(site, order, mac) <==> Reports(site, order[0], mac) || SomeReports(site, order[1..], mac)
  {
    hide Reports;
    assert forall d :: d in order <==> d == order[0] || d in order[1..];
  }

  lemma {:induction false} QuietSearch(site: Site, fails: Failures, n: nat, s: State, order: seq<Component>, mac: string,
                                       unreadable: bool)
    requires DistinctIds(site) && TargetsExact(site, s.targets) && PortsTrue(site, s.portMACs)
    requires forall c :: c in order ==> Listed(site, c)
    requires NothingFailed(Search(site, fails, n, s, order, mac, unreadable).trace)
    ensures var e := Search(site, fails, n, s, order, mac, unreadable);
            && (e.value.Found? <==> SomeReports(site, order, mac))
            && TargetsExact(site, e.state.targets) && PortsTrue(site, e.state.portMACs)
    decreases order
  {
    SearchUnfolds(site, fails, n, s, order, mac, unreadable);
    if order == [] {
      assert !SomeReports(site, order, mac);
    } else {
      hide Search, TryEntry, TargetsExact, PortsTrue, Reports, SomeReports, NothingFailed, DistinctIds, Listed;
      var c := order[0];
      SomeReportsFirst(site, order, mac);
      if !Searched(c) {
        QuietSearch(site, fails, n, s, order[1..], mac, unreadable);
        NotSearchedNotReported(site, c, mac);
      } else {
        var e := TryEntry(site, fails, n, s, c, mac);
        if e.value.Matched? {
          QuietEntry(site, fails, n, s, c, mac);
        } else {
          var more := unreadable || e.value.Blocked?;
          BothQuiet(e.trace, Search(site, fails, n + |e.trace|, e.state, order[1..], mac, more).trace);
          QuietEntry(site, fails, n, s, c, mac);
          QuietSearch(site, fails, n + |e.trace|, e.state, order[1..], mac, more);
        }
      }
    }
  }

  lemma NotSearchedNotReported(site: Site, c: Component, mac: string)
    requires !Searched(c)
    ensures !Reports(site, c, mac)
  {
  }

  /** A lookup without failures from exact caches: exact again, and so is the answer. */
  lemma QuietLookup(site: Site, fails: Failures, n: nat, a: State, mac: string)
    requires DistinctIds(site) && Inv(site, a) && TargetsExact(site, a.targets)
    requires NothingFailed(Reads(DoLookup(site, fails, n, a, mac).call))
    ensures var d := DoLookup(site, fails, n, a, mac);
            (d.call.outcome.Found? <==> Present(site, mac)) && TargetsExact(site, d.state.targets)
  {
    hide Snap, Search, TargetsExact, Reports;
    var d, snap := DoLookup(site, fails, n, a, mac), Snap(site, fails, n, a.integrity);
    assert forall r :: r in snap.trace ==> r in Reads(d.call);
    InvCounts(site, a);
    SnapSnaps(site, fails, n, a.integrity);
    if snap.value.Some? {
      var now := snap.value.value;
      SnappedKeepsTruth(site, a.integrity, snap.value, snap.trace);
      QuietSnapshotIsListing(site, a.integrity, now, snap.trace);
      SearchOrderKeepsAll(now.members);
      var e := Search(site, fails, n + |snap.trace|, a.(integrity := snap.value), SearchOrder(now.members), mac, now.failed != []);
      assert forall r :: r in e.trace ==> r in Reads(d.call);
      QuietSearch(site, fails, n + |snap.trace|, a.(integrity := snap.value), SearchOrder(now.members), mac, now.failed != []);
    } else {
      NothingListed(site, a.integrity, snap.trace, mac);
    }
  }

  lemma QuietSnapshotIsListing(site: Site, a: Option<Snapshot>, b: Snapshot, trace: seq<Read>)
    requires a.Some? ==> SnapshotTrue(site, a.value)
    requires Snapped(site, a, Some(b), trace) && NothingFailed(trace)
    ensures forall c :: c in b.members <==> Listed(site, c)
  {
    SnappedKeepsTruth(site, a, Some(b), trace);
    forall c
      ensures c in b.members <==> Listed(site, c)
    {
      if c in b.members { MembersAreListed(site, b, c); }
      if Listed(site, c) { QuietSnapshotIsWhole(site, a, b, trace, c); }
    }
  }

  lemma NothingListed(site: Site, a: Option<Snapshot>, trace: seq<Read>, mac: string)
    requires Snapped(site, a, None, trace) && NothingFailed(trace)
    ensures !Present(site, mac)
  {
    assert trace[0] in trace;
  }

  lemma {:induction false} QuietTargets(site: Site, fails: Failures, states: seq<State>, calls: seq<Call>, i: nat)
    requires DistinctIds(site) && IsRun(site, fails, states, calls) && i < |states| && NothingFailed(AllReads(calls[..i]))
    ensures TargetsExact(site, states[i].targets)
  {
    if i > 0 {
      var call, n := calls[i - 1], |AllReads(calls[..i - 1])|;
      assert Init(calls[..i]) == calls[..i - 1];
      assert forall r :: r in AllReads(calls[..i - 1]) || r in Reads(call) ==> r in AllReads(calls[..i]);
      QuietTargets(site, fails, states, calls, i - 1);
      RunInv(site, fails, states, calls, i - 1);
      hide TargetsExact, Allowed, DoLookup;
      if call.Lookup? { QuietLookup(site, fails, n, states[i - 1], call.mac); }
    }
  }

  /**
   * Over a run in which no read ever failed every lookup is exact, for any BMC whose ids
   * are distinct: whether slot and target URI agree only matters once a read fails.
   */
  lemma QuietRunIsExact(site: Site, fails: Failures, states: seq<State>, calls: seq<Call>, i: nat)
    requires DistinctIds(site) && IsRun(site, fails, states, calls) && i < |calls| && calls[i].Lookup?
    requires NothingFailed(AllReads(calls[..i + 1]))
    ensures calls[i].outcome.Found? <==> Present(site, calls[i].mac)
  {
    hide TargetsExact, Allowed, DoLookup;
    assert Init(calls[..i + 1]) == calls[..i];
    assert forall r :: r in AllReads(calls[..i]) || r in Reads(calls[i]) ==> r in AllReads(calls[..i + 1]);
    QuietTargets(site, fails, states, calls, i);
    RunInv(site, fails, states, calls, i);
    QuietLookup(site, fails, |AllReads(calls[..i])|, states[i], calls[i].mac);
  }

  // ---- the BMC's own quote

  lemma QuietPendingIsUnserved(site: Site, a: Option<Snapshot>, b: Snapshot, trace: seq<Read>)
    requires a.Some? ==> SnapshotTrue(site, a.value)
    requires Snapped(site, a, Some(b), trace) && NothingFailed(trace)
    ensures b.failed != [] <==> exists p :: p in ListedPaths(site) && !site.components(p).Body?
  {
    SnappedKeepsTruth(site, a, Some(b), trace);
    if b.failed != [] {
      var p := b.failed[0];
      PendingIsListed(site, b, p);
      var reading := if a.Some? then trace else trace[1..];
      assert b.failed == Paths(reading, false);
      if site.components(p).Body? { UnansweredAreAbsent(site, reading, site.components(p).value); }
    }
    if p :| p in ListedPaths(site) && !site.components(p).Body? {
      assert p in multiset(ListedPaths(site));
      if p in b.sources {
        var i :| 0 <= i < |b.sources| && b.sources[i] == p;
      } else {
        assert p in multiset(b.failed);
      }
    }
  }

  /**
   * What the content of the BMC says about its own quote; `listed` when the collection is
   * already known. The manager is the one member of its collection.
   */
  ghost predicate QuoteIsExact(site: Site, listed: bool, out: QuoteOutcome) {
    match site.collections("/redfish/v1/Managers")
    case NotFound => out == ManagerFailed
    case Undecodable => out == ManagerFailed
    case Body(managers) =>
      if |managers| != 1 then out == ManagerFailed
      else if !listed && !site.collections("/redfish/v1/ComponentIntegrity").Body? then out == QuoteListFailed
      else if exists member :: member in ListedPaths(site) && QuotesFor(site, member, managers[0]) then
        out.Action? && exists member :: member in ListedPaths(site) && QuotesFor(site, member, managers[0])
                                     && site.components(member).value.tpmAction == out.target
      else if exists member :: member in ListedPaths(site) && !site.components(member).Body? then out == MembersUnreadable
      else out == NoSupport
  }

  lemma QuotedByMember(site: Site, manager: string)
    ensures (exists c :: Listed(site, c) && Quotes(c, TrimSlashes(manager)))
            <==> exists member :: member in ListedPaths(site) && QuotesFor(site, member, manager)
    ensures forall c :: Listed(site, c) && Quotes(c, TrimSlashes(manager)) ==>
              exists member :: member in ListedPaths(site) && QuotesFor(site, member, manager)
                            && site.components(member).value.tpmAction == c.tpmAction
  {
    forall member | member in ListedPaths(site) && site.components(member).Body?
      ensures QuotesFor(site, member, manager) <==> Quotes(site.components(member).value, TrimSlashes(manager))
      ensures Listed(site, site.components(member).value)
    {
      QuotesForIsQuotes(site, member, manager);
    }
    forall c | Listed(site, c) && Quotes(c, TrimSlashes(manager))
      ensures exists member :: member in ListedPaths(site) && QuotesFor(site, member, manager)
                            && site.components(member).value.tpmAction == c.tpmAction
    {
      var member :| member in ListedPaths(site) && site.components(member) == Body(c);
      assert QuotesFor(site, member, manager);
    }
  }

  lemma QuietAnswerIsExact(site: Site, a: Option<Snapshot>, b: Snapshot, trace: seq<Read>)
    requires a.Some? ==> SnapshotTrue(site, a.value)
    requires Snapped(site, a, Some(b), trace) && NothingFailed(trace) && ManagerOf(site).Some?
    ensures QuoteIsExact(site, a.Some?, QuoteAnswer(b, ManagerOf(site).value))
  {
    hide QuotesFor, SnapshotTrue, Refreshed;
    FirstQuoteFinds(b.members, ManagerOf(site).value);
    QuietSnapshotIsListing(site, a, b, trace);
    QuietPendingIsUnserved(site, a, b, trace);
    QuotedByMember(site, site.collections(MANAGERS_PATH).value[0]);
    if a.None? { assert trace[0] in trace; }
  }

  /** A request for the quote during which nothing fails gives the answer the BMC's content determines. */
  lemma QuietQuoteIsExact(site: Site, fails: Failures, states: seq<State>, calls: seq<Call>, i: nat)
    requires IsRun(site, fails, states, calls) && i < |calls| && calls[i].Quote? && NothingFailed(Reads(calls[i]))
    ensures QuoteIsExact(site, states[i].integrity.Some?, calls[i].quoted)
  {
    hide DoQuote;
    RunInv(site, fails, states, calls, i);
    var call, a, b := calls[i], states[i], states[i + 1];
    assert forall r :: r in call.listing || r in call.search ==> r in Reads(call);
    if call.quoted == ManagerFailed {
      assert ManagerSought(site, a.manager, false, call.search) && call.search != [] ==> call.search[0] in call.search;
    } else if b.integrity.Some? {
      QuietAnswerIsExact(site, a.integrity, b.integrity.value, call.listing);
    } else {
      assert call.listing[0] in call.listing;
    }
  }

  /** The manager is given up only for a cause: it is not to be had, or its read failed in this very call. */
  lemma ManagerFailureHasACause(site: Site, fails: Failures, states: seq<State>, calls: seq<Call>, i: nat)
    requires IsRun(site, fails, states, calls) && i < |calls| && calls[i] == Quote(ManagerFailed, calls[i].listing, calls[i].search)
    ensures states[i].manager == "" && |calls[i].search| == 1
    ensures ManagerOf(site).None? || fails(|AllReads(calls[..i])|)
  {
    hide Snap;
    RunInv(site, fails, states, calls, i);
  }
}
