/** What a caller may conclude from the answers of one client, over every run. */
module RedfishTheorems {
  import opened Prelude
  import opened RedfishSite
  import opened RedfishRaw
  import opened RedfishState
  import opened RedfishCalls
  import opened RedfishSteps

  /** Every component that is searched has an id, and so can be remembered. */
  ghost predicate IdsNonEmpty(site: Site) {
    forall c :: Listed(site, c) && Searched(c) ==> c.id != ""
  }

  // ---- one entry of the snapshot

  lemma TargetIsOwn(site: Site, s: State, c: Component)
    requires DistinctIds(site) && Inv(site, s) && s.integrity.Some? && c in s.integrity.value.members && Searched(c)
    requires c.id in s.targets
    ensures TargetTrue(site, c, s.targets[c.id])
  {
    var members := s.integrity.value.members;
    var d :| d in members && d.id == c.id && Searched(d) && TargetTrue(site, d, s.targets[c.id]);
    MembersAreListed(site, s.integrity.value, c);
    MembersAreListed(site, s.integrity.value, d);
  }

  lemma UsedAdapterIsReference(site: Site, s: State, c: Component, a: Adapter)
    requires Consistent(site) && Inv(site, s) && s.integrity.Some? && c in s.integrity.value.members && Searched(c)
    requires UsedAdapter(site, s, c, a)
    ensures Resolve(site, c).IsAdapter? && Resolve(site, c).adapter.ports == a.ports
  {
    MembersAreListed(site, s.integrity.value, c);
    if c.id != "" { TargetIsOwn(site, s, c); }
    ResolutionAgrees(site, c, a);
  }

  /** The caches give an entry exactly the failure-free answer. */
  lemma DecidedIsReference(site: Site, s: State, c: Component, mac: string)
    requires Consistent(site) && Inv(site, s) && s.integrity.Some? && c in s.integrity.value.members && Searched(c)
    requires c.id != "" && Decided(s, c)
    ensures CachedMAC(site, s, c, mac) != "" <==> Reports(site, c, mac)
  {
    TargetIsOwn(site, s, c);
    match s.targets[c.id]
    case None =>
    case Some(a) =>
      UsedAdapterIsReference(site, s, c, a);
      CachedScanAgrees(site, a.ports, mac);
  }

  lemma SettledMeansSilent(site: Site, s: State, c: Component, mac: string)
    requires Consistent(site) && Inv(site, s) && s.integrity.Some? && c in s.integrity.value.members && Searched(c)
    requires Settled(site, s, c, mac)
    ensures !Reports(site, c, mac)
  {
    if c.id != "" {
      DecidedIsReference(site, s, c, mac);
    } else if Resolve(site, c) != NotAdapter {
      var a :| MayResolve(site, c, a) && AdapterMACs(site, a.ports).Some?
        && MatchMAC(site, AdapterMACs(site, a.ports).value, mac) == "";
      UsedAdapterIsReference(site, s, c, a);
      if a.ports != "" { CachedScanAgrees(site, a.ports, mac); }
    }
  }

  /** Without a transient failure, an entry that was passed over does not report the MAC. */
  lemma QuietlyPassedOverMeansSilent(site: Site, s: State, c: Component, mac: string, trace: seq<Read>)
    requires Consistent(site) && Inv(site, s) && s.integrity.Some? && c in s.integrity.value.members && Searched(c)
    requires PassedOver(site, s, c, mac, trace) && NothingFailed(trace)
    ensures !Reports(site, c, mac)
  {
    if Settled(site, s, c, mac) {
      SettledMeansSilent(site, s, c, mac);
    } else if Resolve(site, c) != Unknown {
      var a :| UsedAdapter(site, s, c, a) && PortsObstructed(site, a.ports, mac, trace);
      UsedAdapterIsReference(site, s, c, a);
    }
  }

  // ---- one call

  lemma UsedMayResolve(site: Site, s: State, c: Component, a: Adapter)
    requires DistinctIds(site) && Inv(site, s) && s.integrity.Some? && c in s.integrity.value.members && Searched(c)
    requires UsedAdapter(site, s, c, a)
    ensures MayResolve(site, c, a)
  {
    if c.id != "" { TargetIsOwn(site, s, c); }
  }

  /**
   * A match is on the BMC: the entry is a listed SPDM device, the adapter is as the BMC
   * serves it, the entry's target or in its slot, and the spelling is that of one of its
   * ports. This needs no agreement of slot and URI.
   */
  lemma FoundIsOnBmc(site: Site, fails: Failures, states: seq<State>, calls: seq<Call>, i: nat)
    requires DistinctIds(site) && IsRun(site, fails, states, calls) && i < |calls|
    requires calls[i].Lookup? && calls[i].outcome.Found?
    ensures var Found(c, a, spelled) := calls[i].outcome;
            exists member, at, port, k: nat ::
              && OnBmc(site, calls[i].mac, member, at, port, k)
              && site.components(member) == Body(c) && a == site.adapters(at).value.(selfURI := at)
              && spelled == site.trim(site.portMACs(port).value[k])
  {
    RunInv(site, fails, states, calls, i);
    var Found(c, a, spelled) := calls[i].outcome;
    MembersAreListed(site, states[i + 1].integrity.value, c);
    var member :| member in ListedPaths(site) && site.components(member) == Body(c);
    UsedMayResolve(site, states[i + 1], c, a);
    var at, port, k := CarriedIsOnBmc(site, member, c, a, calls[i].mac, spelled);
  }

  /** A hit is real: the entry's own adapter carries the MAC, in the spelling returned. */
  lemma FoundIsReal(site: Site, fails: Failures, states: seq<State>, calls: seq<Call>, i: nat)
    requires Consistent(site) && IsRun(site, fails, states, calls) && i < |calls|
    requires calls[i].Lookup? && calls[i].outcome.Found?
    ensures var Found(c, a, spelled) := calls[i].outcome;
            && Listed(site, c) && Reports(site, c, calls[i].mac)
            && Resolve(site, c).adapter.ports == a.ports && Carries(site, a.ports, calls[i].mac, spelled)
    ensures Present(site, calls[i].mac)
  {
    RunInv(site, fails, states, calls, i);
    var Found(c, a, spelled) := calls[i].outcome;
    var s := states[i + 1];
    MembersAreListed(site, s.integrity.value, c);
    UsedAdapterIsReference(site, s, c, a);
    CarriedIsHit(site, a.ports, calls[i].mac, spelled);
  }

  /**
   * A miss that does not say "some were unreadable" is definitive: in the whole
   * collection no SPDM entry resolves to an adapter carrying the MAC, whatever reads
   * failed before or during the call.
   */
  lemma CleanMissIsTrue(site: Site, fails: Failures, states: seq<State>, calls: seq<Call>, i: nat)
    requires Consistent(site) && IsRun(site, fails, states, calls) && i < |calls|
    requires calls[i].Lookup? && calls[i].outcome == Miss(false)
    ensures !Present(site, calls[i].mac)
    ensures forall member, at, port, k :: !OnBmc(site, calls[i].mac, member, at, port, k)
  {
    RunInv(site, fails, states, calls, i);
    var s := states[i + 1];
    forall c | Listed(site, c) && Searched(c)
      ensures !Reports(site, c, calls[i].mac)
    {
      ListedAreMembers(site, s.integrity.value, c);
      SettledMeansSilent(site, s, c, calls[i].mac);
    }
    PresentIsOnBmc(site, calls[i].mac);
  }

  /** The members still pending after a refresh without transient failures are ones the BMC never serves. */
  lemma {:induction false} UnansweredAreAbsent(site: Site, trace: seq<Read>, c: Component)
    requires NothingFailed(trace)
    requires forall r :: r in trace ==> r.kind == ComponentRead && Truthful(site, r)
    ensures forall p :: p in Paths(trace, false) ==> site.components(p) != Body(c)
  {
    if trace != [] {
      UnansweredAreAbsent(site, Init(trace), c);
    }
  }

  lemma QuietSnapshotIsWhole(site: Site, a: Option<Snapshot>, b: Snapshot, trace: seq<Read>, c: Component)
    requires a.Some? ==> SnapshotTrue(site, a.value)
    requires Snapped(site, a, Some(b), trace) && NothingFailed(trace) && Listed(site, c)
    ensures c in b.members
  {
    SnappedKeepsTruth(site, a, Some(b), trace);
    UnansweredAreAbsent(site, if a.Some? then trace else trace[1..], c);
    ListedAreMembers(site, b, c);
  }

  /**
   * A call during which nothing fails transiently answers exactly as the failure-free,
   * uncached search does, whatever earlier calls left in the caches.
   */
  lemma QuietLookupIsExact(site: Site, fails: Failures, states: seq<State>, calls: seq<Call>, i: nat)
    requires Consistent(site) && IsRun(site, fails, states, calls) && i < |calls|
    requires calls[i].Lookup? && NothingFailed(calls[i].listing) && NothingFailed(calls[i].search)
    ensures calls[i].outcome.Found? <==> Present(site, calls[i].mac)
    ensures calls[i].outcome.Found? <==>
              exists member, at, port, k :: OnBmc(site, calls[i].mac, member, at, port, k)
  {
    PresentIsOnBmc(site, calls[i].mac);
    var mac, s := calls[i].mac, states[i + 1];
    RunInv(site, fails, states, calls, i);
    if calls[i].outcome.Found? {
      FoundIsReal(site, fails, states, calls, i);
    } else if calls[i].outcome.Miss? {
      forall c | Listed(site, c) && Searched(c)
        ensures !Reports(site, c, mac)
      {
        QuietSnapshotIsWhole(site, states[i].integrity, s.integrity.value, calls[i].listing, c);
        QuietlyPassedOverMeansSilent(site, s, c, mac, calls[i].search);
      }
    } else {
      assert calls[i].listing[0] in calls[i].listing;
    }
  }

  /** A listed component could not be read so far, or not followed to an answer in this very call. */
  ghost predicate Excused(site: Site, s: State, c: Component, mac: string, trace: seq<Read>)
    requires s.integrity.Some?
  {
    || (exists p :: p in s.integrity.value.failed && site.components(p) == Body(c))
    || Obstructed(site, s, c, mac, trace)
  }

  /**
   * An entry without measurements is returned only if every measured one that reports the
   * MAC is still pending, or was obstructed in this very call.
   */
  lemma BareHitMeansNoMeasuredOne(site: Site, fails: Failures, states: seq<State>, calls: seq<Call>, i: nat, m: Component)
    requires Consistent(site) && IsRun(site, fails, states, calls) && i < |calls|
    requires calls[i].Lookup? && calls[i].outcome.Found? && !Measured(calls[i].outcome.component)
    requires Listed(site, m) && Measured(m) && Reports(site, m, calls[i].mac)
    ensures states[i + 1].integrity.Some? && Excused(site, states[i + 1], m, calls[i].mac, calls[i].search)
  {
    RunInv(site, fails, states, calls, i);
    var s, out, mac := states[i + 1], calls[i].outcome, calls[i].mac;
    var snap := s.integrity.value;
    if forall p :: p in snap.failed ==> site.components(p) != Body(m) {
      ListedAreMembers(site, snap, m);
      var k :| ComesFirst(site, s, SearchOrder(snap.members), k, out.component, mac, calls[i].search);
      var j := MeasuredComeFirst(snap.members, k, m);
      if Settled(site, s, m, mac) { SettledMeansSilent(site, s, m, mac); }
    }
  }

  /** Likewise no entry before the one returned, in the order of the search, both reports the MAC and was not obstructed. */
  lemma HitIsTheFirst(site: Site, fails: Failures, states: seq<State>, calls: seq<Call>, i: nat)
    requires Consistent(site) && IsRun(site, fails, states, calls) && i < |calls|
    requires calls[i].Lookup? && calls[i].outcome.Found?
    ensures states[i + 1].integrity.Some?
    ensures var order := SearchOrder(states[i + 1].integrity.value.members);
            exists k :: 0 <= k < |order| && order[k] == calls[i].outcome.component
                     && forall j :: 0 <= j < k && Reports(site, order[j], calls[i].mac) ==>
                          Obstructed(site, states[i + 1], order[j], calls[i].mac, calls[i].search)
  {
    RunInv(site, fails, states, calls, i);
    var s, mac := states[i + 1], calls[i].mac;
    var order := SearchOrder(s.integrity.value.members);
    SearchOrderKeepsAll(s.integrity.value.members);
    var k: nat :| ComesFirst(site, s, order, k, calls[i].outcome.component, mac, calls[i].search);
    forall j | 0 <= j < k && Reports(site, order[j], mac)
      ensures Obstructed(site, s, order[j], mac, calls[i].search)
    {
      if Settled(site, s, order[j], mac) { SettledMeansSilent(site, s, order[j], mac); }
    }
  }

  /** The BMC never serves something the search for `mac` needs. */
  ghost predicate NeverServed(site: Site, mac: string) {
    || (exists p :: p in ListedPaths(site) && !site.components(p).Body?)
    || (exists c :: Listed(site, c) && Searched(c) && Resolve(site, c) == Unknown)
    || (exists c :: Listed(site, c) && Searched(c) && Resolve(site, c).IsAdapter?
                 && PortScan(site, Resolve(site, c).adapter.ports, mac) == Unreadable)
  }

  lemma PendingIsListed(site: Site, snap: Snapshot, p: string)
    requires SnapshotTrue(site, snap) && p in snap.failed
    ensures p in ListedPaths(site)
  {
    assert p in multiset(snap.failed);
    assert p in multiset(ListedPaths(site));
  }

  lemma QuietlyPendingIsNeverServed(site: Site, a: Option<Snapshot>, b: Snapshot, trace: seq<Read>, mac: string)
    requires a.Some? ==> SnapshotTrue(site, a.value)
    requires Snapped(site, a, Some(b), trace) && NothingFailed(trace) && b.failed != []
    ensures NeverServed(site, mac)
  {
    SnappedKeepsTruth(site, a, Some(b), trace);
    var p := b.failed[0];
    PendingIsListed(site, b, p);
    var reading := if a.Some? then trace else trace[1..];
    assert b.failed == Paths(reading, false);
    if site.components(p).Body? {
      UnansweredAreAbsent(site, reading, site.components(p).value);
    }
  }

  lemma QuietlyObstructedIsNeverServed(site: Site, s: State, c: Component, mac: string, trace: seq<Read>)
    requires Consistent(site) && Inv(site, s) && s.integrity.Some? && c in s.integrity.value.members && Searched(c)
    requires Obstructed(site, s, c, mac, trace) && NothingFailed(trace)
    ensures NeverServed(site, mac)
  {
    MembersAreListed(site, s.integrity.value, c);
    if Resolve(site, c) != Unknown {
      var a :| UsedAdapter(site, s, c, a) && PortsObstructed(site, a.ports, mac, trace);
      UsedAdapterIsReference(site, s, c, a);
    }
  }

  /** "Some were unreadable" always has a cause: a transient failure in this very call, or something never served. */
  lemma UnreadableMissHasACause(site: Site, fails: Failures, states: seq<State>, calls: seq<Call>, i: nat)
    requires Consistent(site) && IsRun(site, fails, states, calls) && i < |calls|
    requires calls[i].Lookup? && calls[i].outcome == Miss(true)
    requires NothingFailed(calls[i].listing) && NothingFailed(calls[i].search)
    ensures NeverServed(site, calls[i].mac)
  {
    RunInv(site, fails, states, calls, i);
    var snap := states[i + 1].integrity.value;
    if snap.failed != [] {
      QuietlyPendingIsNeverServed(site, states[i].integrity, snap, calls[i].listing, calls[i].mac);
    } else {
      var c :| c in snap.members && Searched(c)
        && Obstructed(site, states[i + 1], c, calls[i].mac, calls[i].search);
      QuietlyObstructedIsNeverServed(site, states[i + 1], c, calls[i].mac, calls[i].search);
    }
  }

  // ---- after a clean miss

  lemma CleanMissCompletes(site: Site, fails: Failures, states: seq<State>, calls: seq<Call>, i: nat)
    requires IdsNonEmpty(site) && IsRun(site, fails, states, calls) && i < |calls|
    requires calls[i].Lookup? && calls[i].outcome == Miss(false)
    ensures Complete(states[i + 1])
  {
    RunInv(site, fails, states, calls, i);
    var s := states[i + 1];
    forall c | c in s.integrity.value.members && Searched(c)
      ensures Decided(s, c)
    {
      MembersAreListed(site, s.integrity.value, c);
    }
  }

  lemma CompleteStays(site: Site, a: State, call: Call, b: State)
    requires Complete(a) && Allowed(site, a, call, b)
    requires SnapshotTrue(site, a.integrity.value)
    ensures Complete(b) && call.listing == []
    ensures call.Lookup? ==>
              call.search == [] && call.outcome ==
                CachedAnswer(site, a, SearchOrder(a.integrity.value.members), call.mac)
  {
    if !(call.Quote? && call.quoted == ManagerFailed) {
      assert b.integrity.value == a.integrity.value;
      assert a.(integrity := b.integrity) == a;
    }
  }

  lemma CompleteOneStep(site: Site, fails: Failures, states: seq<State>, calls: seq<Call>, i: nat)
    requires IsRun(site, fails, states, calls) && i < |calls| && Complete(states[i])
    ensures Complete(states[i + 1])
  {
    RunInv(site, fails, states, calls, i);
    CompleteStays(site, states[i], calls[i], states[i + 1]);
  }

  lemma {:induction false} CompleteFromThenOn(site: Site, fails: Failures, states: seq<State>, calls: seq<Call>, i: nat, j: nat)
    requires IsRun(site, fails, states, calls) && i <= j < |states| && Complete(states[i])
    ensures Complete(states[j])
  {
    if i < j {
      CompleteFromThenOn(site, fails, states, calls, i, j - 1);
      CompleteOneStep(site, fails, states, calls, j - 1);
    }
  }

  lemma {:induction false} CachedAnswerIsExact(site: Site, s: State, order: seq<Component>, mac: string)
    requires Consistent(site) && IdsNonEmpty(site) && Inv(site, s) && s.integrity.Some?
    requires forall c :: c in order ==> c in s.integrity.value.members
    requires forall c :: c in order && Searched(c) ==> Decided(s, c)
    ensures var out := CachedAnswer(site, s, order, mac);
            if exists c :: c in order && Reports(site, c, mac) then out.Found? else out == Miss(false)
  {
    if order != [] {
      MembersAreListed(site, s.integrity.value, order[0]);
      if Searched(order[0]) {
        DecidedIsReference(site, s, order[0], mac);
      }
      CachedAnswerIsExact(site, s, order[1..], mac);
      assert forall c :: c in order <==> c == order[0] || c in order[1..];
    }
  }

  /**
   * After one clean miss every later lookup, for any MAC, issues no request at all and
   * finds a match exactly when the failure-free uncached search of the whole BMC would;
   * a later miss is never "some were unreadable".
   */
  lemma AfterCleanMiss(site: Site, fails: Failures, states: seq<State>, calls: seq<Call>, i: nat, j: nat)
    requires Consistent(site) && IdsNonEmpty(site) && IsRun(site, fails, states, calls) && i < j < |calls|
    requires calls[i].Lookup? && calls[i].outcome == Miss(false)
    requires calls[j].Lookup?
    ensures calls[j].listing == [] && calls[j].search == []
    ensures if Present(site, calls[j].mac) then calls[j].outcome.Found? else calls[j].outcome == Miss(false)
    ensures calls[j].outcome.Found? <==>
              exists member, at, port, k :: OnBmc(site, calls[j].mac, member, at, port, k)
  {
    PresentIsOnBmc(site, calls[j].mac);
    CleanMissCompletes(site, fails, states, calls, i);
    CompleteFromThenOn(site, fails, states, calls, i + 1, j);
    RunInv(site, fails, states, calls, j);
    var s := states[j];
    CompleteStays(site, s, calls[j], states[j + 1]);
    SearchOrderKeepsAll(s.integrity.value.members);
    CachedAnswerIsExact(site, s, SearchOrder(s.integrity.value.members), calls[j].mac);
    forall c | Listed(site, c) ensures c in s.integrity.value.members {
      ListedAreMembers(site, s.integrity.value, c);
    }
    forall c | c in s.integrity.value.members ensures Listed(site, c) {
      MembersAreListed(site, s.integrity.value, c);
    }
  }

  // ---- the snapshot over a run

  /** The component paths answered in a trace, in order. */
  function AnsweredMembers(trace: seq<Read>): seq<string> {
    if trace == [] then []
    else
      AnsweredMembers(Init(trace))
      + (if Last(trace).kind == ComponentRead && Last(trace).code == Answered then [Last(trace).path] else [])
  }

  lemma {:induction false} AnsweredMembersAppend(a: seq<Read>, b: seq<Read>)
    ensures AnsweredMembers(a + b) == AnsweredMembers(a) + AnsweredMembers(b)
  {
    if b == [] {
      assert a + b == a;
    } else {
      assert Init(a + b) == a + Init(b);
      AnsweredMembersAppend(a, Init(b));
    }
  }

  lemma {:induction false} AnsweredMembersOf(trace: seq<Read>)
    ensures (forall r :: r in trace ==> r.kind == ComponentRead) ==> AnsweredMembers(trace) == Paths(trace, true)
    ensures (forall r :: r in trace ==> r.kind != ComponentRead) ==> AnsweredMembers(trace) == []
  {
    if trace != [] {
      AnsweredMembersOf(Init(trace));
    }
  }

  lemma SnappedReads(site: Site, a: Option<Snapshot>, b: Option<Snapshot>, trace: seq<Read>)
    requires Snapped(site, a, b, trace)
    ensures (if b.Some? then b.value.sources else [])
         == (if a.Some? then a.value.sources else []) + AnsweredMembers(trace)
  {
    if a.Some? {
      AnsweredMembersOf(trace);
    } else {
      assert trace == [trace[0]] + trace[1..];
      AnsweredMembersAppend([trace[0]], trace[1..]);
      AnsweredMembersOf([trace[0]]);
      AnsweredMembersOf(trace[1..]);
    }
  }

  function Sources(s: State): seq<string> {
    if s.integrity.Some? then s.integrity.value.sources else []
  }

  lemma LookupReads(site: Site, a: State, call: Call, b: State)
    requires Allowed(site, a, call, b) && call.Lookup?
    ensures Snapped(site, a.integrity, b.integrity, call.listing)
    ensures forall r :: r in call.search ==> r.kind != ComponentRead
  {
    hide Snapped;
    if b.integrity.Some? {
      assert SearchReads(site, call.search);
    }
  }

  lemma QuoteReads(site: Site, a: State, call: Call, b: State)
    requires Allowed(site, a, call, b) && call.Quote?
    ensures if call.quoted == ManagerFailed then b == a && call.listing == []
            else Snapped(site, a.integrity, b.integrity, call.listing)
    ensures forall r :: r in call.search ==> r.kind != ComponentRead
  {
    hide Snapped;
  }

  lemma StepReads(site: Site, a: State, call: Call, b: State)
    requires Allowed(site, a, call, b)
    ensures Sources(b) == Sources(a) + AnsweredMembers(Reads(call))
  {
    hide Allowed, Snapped;
    AnsweredMembersOf(call.search);
    if call.Lookup? {
      LookupReads(site, a, call, b);
      SnappedReads(site, a.integrity, b.integrity, call.listing);
      AnsweredMembersAppend(call.listing, call.search);
      assert AnsweredMembers(call.listing) + [] == AnsweredMembers(call.listing);
    } else {
      QuoteReads(site, a, call, b);
      if call.quoted != ManagerFailed { SnappedReads(site, a.integrity, b.integrity, call.listing); }
      AnsweredMembersAppend(call.search, call.listing);
      assert [] + AnsweredMembers(call.listing) == AnsweredMembers(call.listing);
    }
  }

  /**
   * Over a whole run the members read so far are exactly the successful member reads, one
   * each and in order; with the pending ones they are a permutation of the listing, so no
   * member is read successfully more often than it is listed.
   */
  lemma {:induction false} MembersAreReadOnce(site: Site, fails: Failures, states: seq<State>, calls: seq<Call>, n: nat)
    requires IsRun(site, fails, states, calls) && n <= |calls|
    ensures Sources(states[n]) == AnsweredMembers(AllReads(calls[..n]))
    ensures states[n].integrity.Some? ==>
              multiset(AnsweredMembers(AllReads(calls[..n]))) + multiset(states[n].integrity.value.failed)
              == multiset(ListedPaths(site))
  {
    hide Allowed, Step, CachesTrue;
    if n > 0 {
      MembersAreReadOnce(site, fails, states, calls, n - 1);
      RunInv(site, fails, states, calls, n - 1);
      assert Init(calls[..n]) == calls[..n - 1];
      StepReads(site, states[n - 1], calls[n - 1], states[n]);
      AnsweredMembersAppend(AllReads(calls[..n - 1]), Reads(calls[n - 1]));
      ConcatAssociative(Sources(states[n - 1]), [], AnsweredMembers(Reads(calls[n - 1])));
    }
  }

  lemma AdvanceOneStep(site: Site, fails: Failures, states: seq<State>, calls: seq<Call>, i: nat)
    requires IsRun(site, fails, states, calls) && i < |calls|
    ensures Advances(states[i].integrity, states[i + 1].integrity)
  {
    RunInv(site, fails, states, calls, i);
  }

  lemma {:induction false} PendingAdvances(site: Site, fails: Failures, states: seq<State>, calls: seq<Call>, i: nat, j: nat)
    requires IsRun(site, fails, states, calls) && i <= j < |states|
    ensures Advances(states[i].integrity, states[j].integrity)
  {
    if i == j {
      AdvancesReflexive(states[i].integrity);
    } else {
      PendingAdvances(site, fails, states, calls, i, j - 1);
      AdvanceOneStep(site, fails, states, calls, j - 1);
      AdvancesTransitive(states[i].integrity, states[j - 1].integrity, states[j].integrity);
    }
  }

  /** A snapshot is never dropped, its members stay, and the pending list is a sub-sequence of what it was and never longer. */
  lemma PendingOnlyShrinks(site: Site, fails: Failures, states: seq<State>, calls: seq<Call>, i: nat, j: nat)
    requires IsRun(site, fails, states, calls) && i <= j < |states| && states[i].integrity.Some?
    ensures states[j].integrity.Some?
    ensures var a, b := states[i].integrity.value, states[j].integrity.value;
            a.members <= b.members && Subsequence(b.failed, a.failed) && |b.failed| <= |a.failed|
  {
    PendingAdvances(site, fails, states, calls, i, j);
    SubsequenceLength(states[j].integrity.value.failed, states[i].integrity.value.failed);
  }

  // ---- the BMC's own quote

  lemma {:induction false} FirstQuoteFinds(members: seq<Component>, manager: string)
    ensures var t := FirstQuote(members, manager);
            if exists c :: c in members && Quotes(c, manager)
            then exists c :: c in members && Quotes(c, manager) && c.tpmAction == t
            else t == ""
  {
    if members != [] {
      FirstQuoteFinds(members[1..], manager);
      assert forall c :: c in members <==> c == members[0] || c in members[1..];
    }
  }

  /**
   * "No quote support" is said only when no TPM member of the whole collection has an
   * action and targets the BMC's manager, trailing slashes aside; an action returned is
   * that of such a member. The manager is the one member of its collection.
   */
  lemma QuoteAnswerIsTrue(site: Site, fails: Failures, states: seq<State>, calls: seq<Call>, i: nat)
    requires IsRun(site, fails, states, calls) && i < |calls| && calls[i].Quote?
    ensures calls[i].quoted == NoSupport ==>
              && site.collections("/redfish/v1/ComponentIntegrity").Body?
              && exists manager :: site.collections("/redfish/v1/Managers") == Body([manager])
                   && forall member :: member in site.collections("/redfish/v1/ComponentIntegrity").value ==>
                        !QuotesFor(site, member, manager)
    ensures calls[i].quoted.Action? ==>
              && site.collections("/redfish/v1/ComponentIntegrity").Body?
              && exists manager, member :: site.collections("/redfish/v1/Managers") == Body([manager])
                   && member in site.collections("/redfish/v1/ComponentIntegrity").value
                   && QuotesFor(site, member, manager)
                   && site.components(member).value.tpmAction == calls[i].quoted.target
  {
    RunInv(site, fails, states, calls, i);
    if calls[i].quoted == NoSupport || calls[i].quoted.Action? {
      AnswerOnSnapshot(site, states[i + 1].integrity.value, calls[i].quoted);
    }
  }

  lemma AnswerOnSnapshot(site: Site, snap: Snapshot, out: QuoteOutcome)
    requires SnapshotTrue(site, snap) && ManagerOf(site).Some? && out == QuoteAnswer(snap, ManagerOf(site).value)
    ensures exists manager :: site.collections(MANAGERS_PATH) == Body([manager]) && ManagerOf(site) == Some(TrimSlashes(manager))
                 && (out == NoSupport ==> forall member :: member in ListedPaths(site) ==> !QuotesFor(site, member, manager))
                 && (out.Action? ==> exists member :: member in ListedPaths(site) && QuotesFor(site, member, manager)
                                                    && site.components(member).value.tpmAction == out.target)
  {
    var managers := site.collections(MANAGERS_PATH).value;
    var manager := managers[0];
    assert managers == [manager];
    FirstQuoteFinds(snap.members, ManagerOf(site).value);
    if out == NoSupport {
      forall member | member in ListedPaths(site)
        ensures !QuotesFor(site, member, manager)
      {
        if site.components(member).Body? {
          QuotesForIsQuotes(site, member, manager);
          ListedAreMembers(site, snap, site.components(member).value);
        }
      }
    } else if out.Action? {
      var c :| c in snap.members && Quotes(c, ManagerOf(site).value) && c.tpmAction == out.target;
      MembersAreListed(site, snap, c);
      var member :| member in ListedPaths(site) && site.components(member) == Body(c);
      QuotesForIsQuotes(site, member, manager);
    }
  }

  /** The member is a TPM that targets the manager, trailing slashes aside, and has an action. */
  ghost predicate QuotesFor(site: Site, member: string, manager: string) {
    && site.components(member).Body?
    && site.components(member).value.kind == "TPM"
    && site.components(member).value.tpmAction != ""
    && SameButSlashes(site.components(member).value.targetURI, manager)
  }

  lemma QuotesForIsQuotes(site: Site, member: string, manager: string)
    requires site.components(member).Body?
    ensures QuotesFor(site, member, manager) <==> Quotes(site.components(member).value, TrimSlashes(manager))
  {
    TrimSlashesEqual(site.components(member).value.targetURI, manager);
  }

  // ---- the port cache

  /**
   * A remembered port list is, entry by entry and in order, what all the ports list,
   * trimmed; and answering from it gives what the failure-free port-by-port search would:
   * the first entry that is the MAC up to case.
   */
  lemma PortCacheIsExact(site: Site, fails: Failures, states: seq<State>, calls: seq<Call>, i: nat, ports: string, mac: string)
    requires FoldLaw(site) && IsRun(site, fails, states, calls) && i < |states| && ports in states[i].portMACs
    ensures site.collections(ports).Body? && ListsPorts(site, site.collections(ports).value, states[i].portMACs[ports])
    ensures var macs := states[i].portMACs[ports];
            match PortScan(site, ports, mac)
            case Hit(m) => m != "" && exists j :: 0 <= j < |macs| && macs[j] == m && site.equalFold(m, mac)
                                                && forall l :: 0 <= l < j ==> !site.equalFold(macs[l], mac)
            case NoHit => forall j :: 0 <= j < |macs| && macs[j] != "" ==> !site.equalFold(macs[j], mac)
            case Unreadable => false
  {
    RunInv(site, fails, states, calls, i);
    CachedScanAgrees(site, ports, mac);
    AllMACsLists(site, site.collections(ports).value);
    MatchIsTheFirst(site, states[i].portMACs[ports], mac);
  }
}
