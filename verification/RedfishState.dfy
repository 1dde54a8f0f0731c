/**
 * One client's state as a value, the invariant that ties it to the BMC's content, and
 * what a single call may do to it however reads fail.
 */
module RedfishState {
  import opened Prelude
  import opened RedfishSite

  // ---- reads

  datatype Kind = CollectionRead | ComponentRead | AdapterRead | PortRead

  /** Unreachable is the transient failure; the other three are lasting facts. */
  datatype Code = Answered | Missing | Garbled | Unreachable

  datatype Read = Read(kind: Kind, path: string, code: Code)

  function LastingCode<T>(c: Content<T>): Code {
    match c
    case Body(_) => Answered
    case NotFound => Missing
    case Undecodable => Garbled
  }

  ghost predicate Truthful(site: Site, r: Read) {
    r.code != Unreachable ==>
      r.code == match r.kind
                case CollectionRead => LastingCode(site.collections(r.path))
                case ComponentRead => LastingCode(site.components(r.path))
                case AdapterRead => LastingCode(site.adapters(r.path))
                case PortRead => LastingCode(site.portMACs(r.path))
  }

  /** The reads a search makes of its own: never a member of the collection. */
  ghost predicate SearchReads(site: Site, trace: seq<Read>) {
    forall i :: 0 <= i < |trace| ==> trace[i].kind != ComponentRead && Truthful(site, trace[i])
  }

  ghost predicate NothingFailed(trace: seq<Read>) {
    forall r :: r in trace ==> r.code != Unreachable
  }

  // ---- state

  /** `sources[i]` is the path `members[i]` was read from. */
  datatype Snapshot = Snapshot(members: seq<Component>, sources: seq<string>, failed: seq<string>)

  datatype State = State(
    manager: string,
    integrity: Option<Snapshot>,
    targets: map<string, Option<Adapter>>,
    portMACs: map<string, seq<string>>)

  const INITIAL := State("", None, map[], map[])

  ghost predicate SnapshotTrue(site: Site, snap: Snapshot) {
    && Listing(site).Body?
    && |snap.members| == |snap.sources|
    && (forall i :: 0 <= i < |snap.members| ==> site.components(snap.sources[i]) == Body(snap.members[i]))
    && multiset(snap.sources) + multiset(snap.failed) == multiset(ListedPaths(site))
    && Subsequence(snap.failed, ListedPaths(site))
  }

  /** What a remembered target says of a component is so, whatever fails later. */
  ghost predicate TargetTrue(site: Site, c: Component, t: Option<Adapter>) {
    match t
    case Some(a) => MayResolve(site, c, a)
    case None => Resolve(site, c) == NotAdapter
  }

  ghost predicate TargetEntryTrue(site: Site, members: seq<Component>, id: string, t: Option<Adapter>) {
    id != "" && exists c :: c in members && c.id == id && Searched(c) && TargetTrue(site, c, t)
  }

  ghost predicate TargetsTrue(site: Site, integrity: Option<Snapshot>, targets: map<string, Option<Adapter>>) {
    forall id :: id in targets ==>
      integrity.Some? && TargetEntryTrue(site, integrity.value.members, id, targets[id])
  }

  ghost predicate PortsTrue(site: Site, portMACs: map<string, seq<string>>) {
    forall p :: p in portMACs ==> p != "" && AdapterMACs(site, p) == Some(portMACs[p])
  }

  ghost predicate CachesTrue(site: Site, s: State) {
    TargetsTrue(site, s.integrity, s.targets) && PortsTrue(site, s.portMACs)
  }

  ghost predicate ManagerTrue(site: Site, manager: string) {
    manager == "" || ManagerOf(site) == Some(manager)
  }

  /** The only member of the manager collection, without a trailing slash. */
  function ManagerOf(site: Site): Option<string> {
    match site.collections(MANAGERS_PATH)
    case Body(ms) => if |ms| == 1 then Some(TrimSlashes(ms[0])) else None
    case _ => None
  }

  ghost predicate Inv(site: Site, s: State) {
    && ManagerTrue(site, s.manager)
    && (s.integrity.Some? ==> SnapshotTrue(site, s.integrity.value))
    && CachesTrue(site, s)
  }

  // ---- refreshing the snapshot

  /** The paths of `reads` that were answered (or were not), in order. */
  function Paths(trace: seq<Read>, answered: bool): seq<string> {
    if trace == [] then []
    else
      Paths(Init(trace), answered)
      + (if (Last(trace).code == Answered) == answered then [Last(trace).path] else [])
  }

  /** One pass over the pending members: what is answered moves to the members, the rest stays pending. */
  ghost predicate Refreshed(site: Site, a: Snapshot, b: Snapshot, trace: seq<Read>) {
    && |trace| == |a.failed|
    && (forall i :: 0 <= i < |trace| ==>
          trace[i].kind == ComponentRead && trace[i].path == a.failed[i] && Truthful(site, trace[i]))
    && b.sources == a.sources + Paths(trace, true)
    && b.failed == Paths(trace, false)
    && a.members <= b.members
    && |b.members| == |b.sources|
    && (forall i :: |a.members| <= i < |b.members| ==> site.components(b.sources[i]) == Body(b.members[i]))
  }

  /** `componentIntegrities`: None when the collection could not be listed, which is not remembered. */
  ghost predicate Snapped(site: Site, a: Option<Snapshot>, b: Option<Snapshot>, trace: seq<Read>) {
    if a.Some? then
      b.Some? && Refreshed(site, a.value, b.value, trace)
    else
      && trace != []
      && trace[0].kind == CollectionRead && trace[0].path == COMPONENT_INTEGRITY_PATH
      && Truthful(site, trace[0])
      && (trace[0].code == Answered <==> b.Some?)
      && (b.Some? ==>
            Listing(site).Body? && Refreshed(site, Snapshot([], [], ListedPaths(site)), b.value, trace[1..]))
      && (b.None? ==> |trace| == 1)
  }

  // ---- one lookup

  datatype Outcome =
    | Found(component: Component, adapter: Adapter, spelled: string)
    | Miss(unreadable: bool)
    | ListFailed

  predicate Measured(c: Component) {
    |c.measurements| > 0
  }

  function Keep(members: seq<Component>, measured: bool): seq<Component> {
    if members == [] then []
    else Keep(Init(members), measured) + (if Measured(Last(members)) == measured then [Last(members)] else [])
  }

  /** The order of the search: entries with measurements first. */
  function SearchOrder(members: seq<Component>): seq<Component> {
    Keep(members, true) + Keep(members, false)
  }

  lemma {:induction false} KeepKeeps(members: seq<Component>, measured: bool, c: Component)
    ensures c in Keep(members, measured) <==> c in members && Measured(c) == measured
  {
    if members != [] {
      KeepKeeps(Init(members), measured, c);
      assert members == Init(members) + [Last(members)];
    }
  }

  lemma SearchOrderKeepsAll(members: seq<Component>)
    ensures forall c :: c in SearchOrder(members) <==> c in members
  {
    forall c
      ensures c in SearchOrder(members) <==> c in members
    {
      KeepKeeps(members, true, c);
      KeepKeeps(members, false, c);
    }
  }

  /** The caches decide what `c` reports, without a read. */
  predicate Decided(s: State, c: Component) {
    && c.id in s.targets
    && (s.targets[c.id].Some? ==> s.targets[c.id].value.ports in s.portMACs)
  }

  function CachedMAC(site: Site, s: State, c: Component, mac: string): string {
    if Decided(s, c) && s.targets[c.id].Some? then
      MatchMAC(site, s.portMACs[s.targets[c.id].value.ports], mac)
    else ""
  }

  /** Every searched member is decided and none is pending: no later search needs the BMC. */
  predicate Complete(s: State) {
    && s.integrity.Some?
    && s.integrity.value.failed == []
    && forall c :: c in s.integrity.value.members && Searched(c) ==> Decided(s, c)
  }

  /** The answer a search of the caches alone gives. */
  function CachedAnswer(site: Site, s: State, order: seq<Component>, mac: string): Outcome {
    if order == [] then Miss(false)
    else if Searched(order[0]) && CachedMAC(site, s, order[0], mac) != "" then
      Found(order[0], s.targets[order[0].id].value, CachedMAC(site, s, order[0], mac))
    else CachedAnswer(site, s, order[1..], mac)
  }

  /** The adapter the search used for `c`. */
  ghost predicate UsedAdapter(site: Site, s: State, c: Component, a: Adapter) {
    if c.id != "" then c.id in s.targets && s.targets[c.id] == Some(a) else MayResolve(site, c, a)
  }

  /** `c` was read to the end without a match. */
  ghost predicate Settled(site: Site, s: State, c: Component, mac: string) {
    if c.id != "" then
      Decided(s, c) && CachedMAC(site, s, c, mac) == ""
    else
      || Resolve(site, c) == NotAdapter
      || exists a :: MayResolve(site, c, a) && AdapterMACs(site, a.ports).Some?
                  && MatchMAC(site, AdapterMACs(site, a.ports).value, mac) == ""
  }

  ghost predicate ConcernsTarget(site: Site, c: Component, r: Read) {
    || (r.kind == AdapterRead && r.path == c.targetURI)
    || (r.kind == CollectionRead && r.path == site.dir(c.targetURI))
    || (r.kind == AdapterRead && site.collections(site.dir(c.targetURI)).Body?
        && r.path in site.collections(site.dir(c.targetURI)).value)
  }

  ghost predicate ConcernsPorts(site: Site, ports: string, r: Read) {
    || (r.kind == CollectionRead && r.path == ports)
    || (r.kind == PortRead && site.collections(ports).Body? && r.path in site.collections(ports).value)
  }

  ghost predicate TargetObstructed(site: Site, c: Component, trace: seq<Read>) {
    || Resolve(site, c) == Unknown
    || exists r :: r in trace && r.code == Unreachable && ConcernsTarget(site, c, r)
  }

  ghost predicate PortsObstructed(site: Site, ports: string, mac: string, trace: seq<Read>) {
    || PortScan(site, ports, mac) == Unreadable
    || exists r :: r in trace && r.code == Unreachable && ConcernsPorts(site, ports, r)
  }

  /** `c` could not be followed to an answer: a read it needs failed in this call, or never succeeds. */
  ghost predicate Obstructed(site: Site, s: State, c: Component, mac: string, trace: seq<Read>) {
    || TargetObstructed(site, c, trace)
    || exists a :: UsedAdapter(site, s, c, a) && PortsObstructed(site, a.ports, mac, trace)
  }

  ghost predicate PassedOver(site: Site, s: State, c: Component, mac: string, trace: seq<Read>) {
    Settled(site, s, c, mac) || Obstructed(site, s, c, mac, trace)
  }

  ghost predicate Grew<K, V>(a: map<K, V>, b: map<K, V>) {
    a.Keys <= b.Keys && forall k :: k in a ==> a[k] == b[k]
  }

  ghost predicate OnlyCachesGrew(a: State, b: State) {
    b.manager == a.manager && b.integrity == a.integrity && Grew(a.targets, b.targets) && Grew(a.portMACs, b.portMACs)
  }

  /** The search proper: from the refreshed state `a` to `b`. */
  ghost predicate SearchedFor(site: Site, a: State, mac: string, b: State, out: Outcome, trace: seq<Read>)
    requires a.integrity.Some?
  {
    var members := a.integrity.value.members;
    && OnlyCachesGrew(a, b)
    && CachesTrue(site, b)
    && SearchReads(site, trace)
    && (Complete(a) ==> trace == [] && b == a && out == CachedAnswer(site, a, SearchOrder(members), mac))
    && match out
       case ListFailed => false
       case Miss(unreadable) =>
         && (forall c :: c in members && Searched(c) ==> PassedOver(site, b, c, mac, trace))
         && (!unreadable ==>
               && a.integrity.value.failed == []
               && forall c :: c in members && Searched(c) ==> Settled(site, b, c, mac))
         && (unreadable ==>
               || a.integrity.value.failed != []
               || exists c :: c in members && Searched(c) && Obstructed(site, b, c, mac, trace))
       case Found(c, adapter, spelled) =>
         && c in members && Searched(c)
         && UsedAdapter(site, b, c, adapter)
         && Carries(site, adapter.ports, mac, spelled)
         && exists k :: ComesFirst(site, b, SearchOrder(members), k, c, mac, trace)
  }

  /** `c` is entry `k` of the order, and every searched entry before it was passed over. */
  ghost predicate ComesFirst(site: Site, s: State, order: seq<Component>, k: nat, c: Component, mac: string, trace: seq<Read>) {
    && k < |order| && order[k] == c
    && forall j :: 0 <= j < k && Searched(order[j]) ==> PassedOver(site, s, order[j], mac, trace)
  }

  /** Measured entries precede every other in the search order. */
  lemma MeasuredComeFirst(members: seq<Component>, k: nat, m: Component) returns (j: nat)
    requires k < |SearchOrder(members)| && !Measured(SearchOrder(members)[k]) && m in members && Measured(m)
    ensures j < k && SearchOrder(members)[j] == m
  {
    KeepKeeps(members, true, SearchOrder(members)[k]);
    KeepKeeps(members, true, m);
    j :| 0 <= j < |Keep(members, true)| && Keep(members, true)[j] == m;
  }

  // ---- the search, one entry at a time

  /** What is known once the first `i` entries of the search order were tried. */
  ghost predicate Searching(site: Site, a: State, order: seq<Component>, i: nat, mac: string,
                            s: State, unreadable: bool, trace: seq<Read>)
    requires a.integrity.Some? && i <= |order| && order == SearchOrder(a.integrity.value.members)
  {
    && OnlyCachesGrew(a, s)
    && CachesTrue(site, s)
    && (forall k :: 0 <= k < i && Searched(order[k]) ==> PassedOver(site, s, order[k], mac, trace))
    && (!unreadable ==>
          && a.integrity.value.failed == []
          && forall k :: 0 <= k < i && Searched(order[k]) ==> Settled(site, s, order[k], mac))
    && (unreadable ==>
          || a.integrity.value.failed != []
          || exists k :: 0 <= k < i && Searched(order[k]) && Obstructed(site, s, order[k], mac, trace))
    && (Complete(a) ==>
          && trace == [] && s == a && !unreadable
          && CachedAnswer(site, a, order, mac) == CachedAnswer(site, a, order[i..], mac))
  }

  lemma SettledStays(site: Site, a: State, b: State, c: Component, mac: string)
    requires OnlyCachesGrew(a, b) && Settled(site, a, c, mac)
    ensures Settled(site, b, c, mac)
  {
  }

  lemma ObstructedStays(site: Site, a: State, b: State, c: Component, mac: string, t: seq<Read>, more: seq<Read>)
    requires OnlyCachesGrew(a, b) && Obstructed(site, a, c, mac, t)
    ensures Obstructed(site, b, c, mac, t + more)
  {
  }

  lemma SearchStart(site: Site, a: State, order: seq<Component>, mac: string)
    requires a.integrity.Some? && order == SearchOrder(a.integrity.value.members) && CachesTrue(site, a)
    ensures Searching(site, a, order, 0, mac, a, a.integrity.value.failed != [], [])
  {
  }

  /** One more entry: `next` says what trying it established. */
  lemma SearchOneMore(site: Site, a: State, order: seq<Component>, i: nat, mac: string,
                      s: State, unreadable: bool, t: seq<Read>, b: State, blocked: bool, more: seq<Read>)
    requires a.integrity.Some? && i < |order| && order == SearchOrder(a.integrity.value.members)
    requires Searching(site, a, order, i, mac, s, unreadable, t)
    requires OnlyCachesGrew(s, b) && CachesTrue(site, b)
    requires Searched(order[i]) ==> if blocked then Obstructed(site, b, order[i], mac, more)
                                    else Settled(site, b, order[i], mac)
    requires !Searched(order[i]) ==> !blocked
    requires Complete(a) ==>
               more == [] && b == s && !blocked && (Searched(order[i]) ==> CachedMAC(site, a, order[i], mac) == "")
    ensures Searching(site, a, order, i + 1, mac, b, unreadable || blocked, t + more)
  {
    forall k | 0 <= k < i && Searched(order[k])
      ensures Settled(site, s, order[k], mac) ==> Settled(site, b, order[k], mac)
      ensures Obstructed(site, s, order[k], mac, t) ==> Obstructed(site, b, order[k], mac, t + more)
    {
      if Settled(site, s, order[k], mac) { SettledStays(site, s, b, order[k], mac); }
      if Obstructed(site, s, order[k], mac, t) { ObstructedStays(site, s, b, order[k], mac, t, more); }
    }
    if blocked {
      ObstructedLater(site, b, order[i], mac, t, more);
    }
    assert order[i..][1..] == order[i + 1..];
  }

  lemma ObstructedLater(site: Site, s: State, c: Component, mac: string, t: seq<Read>, more: seq<Read>)
    requires Obstructed(site, s, c, mac, more)
    ensures Obstructed(site, s, c, mac, t + more)
  {
  }

  lemma SearchEnds(site: Site, a: State, order: seq<Component>, mac: string, b: State, unreadable: bool, t: seq<Read>)
    requires a.integrity.Some? && order == SearchOrder(a.integrity.value.members) && SearchReads(site, t)
    requires Searching(site, a, order, |order|, mac, b, unreadable, t)
    ensures SearchedFor(site, a, mac, b, Miss(unreadable), t)
  {
    assert order[|order|..] == [];
    SearchOrderKeepsAll(a.integrity.value.members);
  }

  lemma SearchHits(site: Site, a: State, order: seq<Component>, i: nat, mac: string, s: State, unreadable: bool,
                   t: seq<Read>, b: State, more: seq<Read>, adapter: Adapter, spelled: string)
    requires a.integrity.Some? && i < |order| && order == SearchOrder(a.integrity.value.members)
    requires Searching(site, a, order, i, mac, s, unreadable, t) && SearchReads(site, t + more)
    requires OnlyCachesGrew(s, b) && CachesTrue(site, b)
    requires Searched(order[i]) && UsedAdapter(site, b, order[i], adapter) && Carries(site, adapter.ports, mac, spelled)
    requires Complete(a) ==> more == [] && b == s && spelled == CachedMAC(site, a, order[i], mac)
                             && a.targets[order[i].id] == Some(adapter)
    ensures SearchedFor(site, a, mac, b, Found(order[i], adapter, spelled), t + more)
  {
    SearchOrderKeepsAll(a.integrity.value.members);
    forall j | 0 <= j < i && Searched(order[j])
      ensures PassedOver(site, b, order[j], mac, t + more)
    {
      if Settled(site, s, order[j], mac) { SettledStays(site, s, b, order[j], mac); }
      else { ObstructedStays(site, s, b, order[j], mac, t, more); }
    }
    assert ComesFirst(site, b, order, i, order[i], mac, t + more);
  }

  // ---- one request for the BMC's own quote

  datatype QuoteOutcome = Action(target: string) | NoSupport | MembersUnreadable | ManagerFailed | QuoteListFailed

  predicate Quotes(c: Component, manager: string) {
    c.kind == "TPM" && TrimSlashes(c.targetURI) == manager && c.tpmAction != ""
  }

  function FirstQuote(members: seq<Component>, manager: string): string {
    if members == [] then ""
    else if Quotes(members[0], manager) then members[0].tpmAction
    else FirstQuote(members[1..], manager)
  }

  function QuoteAnswer(snap: Snapshot, manager: string): QuoteOutcome {
    var t := FirstQuote(snap.members, manager);
    if t != "" then Action(t)
    else if snap.failed != [] then MembersUnreadable
    else NoSupport
  }

  // ---- calls

  /** `listing` are the reads of the snapshot, `search` those made for this call alone. */
  datatype Call =
    | Lookup(mac: string, outcome: Outcome, listing: seq<Read>, search: seq<Read>)
    | Quote(quoted: QuoteOutcome, listing: seq<Read>, search: seq<Read>)

  /** The reads of a call in the order they were made: a quote resolves its manager first. */
  function Reads(call: Call): seq<Read> {
    match call
    case Lookup(_, _, listing, search) => listing + search
    case Quote(_, listing, search) => search + listing
  }

  /** What a call can establish and change. */
  ghost predicate Allowed(site: Site, a: State, call: Call, b: State) {
    match call
    case Lookup(mac, out, listing, search) =>
      && Snapped(site, a.integrity, b.integrity, listing)
      && if b.integrity.None? then b == a && out == ListFailed && search == []
         else SearchedFor(site, a.(integrity := b.integrity), mac, b, out, search)
    case Quote(out, listing, search) =>
      && ManagerSought(site, a.manager, out != ManagerFailed, search)
      && if out == ManagerFailed then b == a && listing == []
         else
           && ManagerOf(site).Some?
           && b.manager == ManagerOf(site).value
           && b.targets == a.targets && b.portMACs == a.portMACs
           && Snapped(site, a.integrity, b.integrity, listing)
           && if b.integrity.None? then out == QuoteListFailed
              else out == QuoteAnswer(b.integrity.value, b.manager)
  }

  /** The manager is read only while it is not known, and not found only for a cause. */
  ghost predicate ManagerSought(site: Site, known: string, found: bool, trace: seq<Read>) {
    && (forall r :: r in trace ==> r.kind == CollectionRead && r.path == MANAGERS_PATH && Truthful(site, r))
    && (known != "" ==> found && trace == [])
    && (known == "" ==> |trace| == 1)
    && (!found ==> ManagerOf(site).None? || trace[0].code == Unreachable)
  }

  // ---- what a refresh keeps

  lemma {:induction false} PathsPartition(trace: seq<Read>, pending: seq<string>)
    requires |trace| == |pending| && forall i :: 0 <= i < |trace| ==> trace[i].path == pending[i]
    ensures multiset(Paths(trace, true)) + multiset(Paths(trace, false)) == multiset(pending)
  {
    if trace != [] {
      PathsPartition(Init(trace), Init(pending));
      assert pending == Init(pending) + [Last(pending)];
      OneMoreOfTwo(Paths(Init(trace), true), Paths(Init(trace), false), Init(pending), Last(pending));
      assert forall a: seq<string> :: a + [] == a;
    }
  }

  lemma OneMoreOfTwo(a: seq<string>, b: seq<string>, whole: seq<string>, x: string)
    requires multiset(a) + multiset(b) == multiset(whole)
    ensures multiset(a + [x]) + multiset(b) == multiset(whole + [x])
    ensures multiset(a) + multiset(b + [x]) == multiset(whole + [x])
  {
  }

  lemma {:induction false} UnansweredStayInOrder(trace: seq<Read>, pending: seq<string>)
    requires |trace| == |pending| && forall i :: 0 <= i < |trace| ==> trace[i].path == pending[i]
    ensures Subsequence(Paths(trace, false), pending)
  {
    if trace != [] {
      var kept := Paths(Init(trace), false);
      UnansweredStayInOrder(Init(trace), Init(pending));
      assert pending == Init(pending) + [Last(pending)];
      if Last(trace).code == Answered {
        SubsequenceSkip(kept, Init(pending), Last(pending));
        assert kept + [] == kept;
      } else {
        SubsequenceKeep(kept, Init(pending), Last(pending));
      }
    }
  }

  lemma RefreshKeepsTruth(site: Site, a: Snapshot, b: Snapshot, trace: seq<Read>)
    requires SnapshotTrue(site, a) && Refreshed(site, a, b, trace)
    ensures SnapshotTrue(site, b)
    ensures Subsequence(b.failed, a.failed)
  {
    PathsPartition(trace, a.failed);
    UnansweredStayInOrder(trace, a.failed);
    SubsequenceTransitive(b.failed, a.failed, ListedPaths(site));
    assert multiset(b.sources) == multiset(a.sources) + multiset(Paths(trace, true));
  }

  lemma FreshSnapshotTrue(site: Site)
    requires Listing(site).Body?
    ensures SnapshotTrue(site, Snapshot([], [], ListedPaths(site)))
  {
    SubsequenceReflexive(ListedPaths(site));
  }

  lemma {:induction false} SubsequenceReflexive<T(!new)>(s: seq<T>)
    ensures Subsequence(s, s)
  {
    if s != [] {
      SubsequenceReflexive(Init(s));
    }
  }

  lemma SnappedKeepsTruth(site: Site, a: Option<Snapshot>, b: Option<Snapshot>, trace: seq<Read>)
    requires a.Some? ==> SnapshotTrue(site, a.value)
    requires Snapped(site, a, b, trace)
    ensures b.Some? ==> SnapshotTrue(site, b.value)
    ensures Advances(a, b)
  {
    if a.Some? {
      RefreshKeepsTruth(site, a.value, b.value, trace);
    } else if b.Some? {
      FreshSnapshotTrue(site);
      RefreshKeepsTruth(site, Snapshot([], [], ListedPaths(site)), b.value, trace[1..]);
    }
  }

  lemma MembersAreListed(site: Site, snap: Snapshot, c: Component)
    requires SnapshotTrue(site, snap)
    requires c in snap.members
    ensures Listed(site, c)
  {
    var i :| 0 <= i < |snap.members| && snap.members[i] == c;
    assert snap.sources[i] in multiset(snap.sources);
    assert snap.sources[i] in multiset(ListedPaths(site));
  }

  lemma ListedAreMembers(site: Site, snap: Snapshot, c: Component)
    requires SnapshotTrue(site, snap) && Listed(site, c)
    requires forall p :: p in snap.failed ==> site.components(p) != Body(c)
    ensures c in snap.members
  {
    var p :| p in ListedPaths(site) && site.components(p) == Body(c);
    assert p in multiset(ListedPaths(site));
    assert p in snap.sources;
    var i :| 0 <= i < |snap.sources| && snap.sources[i] == p;
    assert snap.members[i] == c;
  }

  // ---- the invariant

  lemma TargetEntriesSurvive(site: Site, a: State, b: State)
    requires CachesTrue(site, a) && b.targets == a.targets && b.portMACs == a.portMACs
    requires a.integrity.Some? ==> b.integrity.Some? && a.integrity.value.members <= b.integrity.value.members
    ensures CachesTrue(site, b)
  {
  }

  /** The snapshot only ever gains members, and what is pending only ever loses some. */
  ghost predicate Advances(a: Option<Snapshot>, b: Option<Snapshot>) {
    a.Some? ==> b.Some? && a.value.members <= b.value.members && Subsequence(b.value.failed, a.value.failed)
  }

  lemma AdvancesReflexive(a: Option<Snapshot>)
    ensures Advances(a, a)
  {
    if a.Some? { SubsequenceReflexive(a.value.failed); }
  }

  lemma AdvancesTransitive(a: Option<Snapshot>, b: Option<Snapshot>, c: Option<Snapshot>)
    requires Advances(a, b) && Advances(b, c)
    ensures Advances(a, c)
  {
    if a.Some? { SubsequenceTransitive(c.value.failed, b.value.failed, a.value.failed); }
  }

  lemma AllowedKeepsInv(site: Site, a: State, call: Call, b: State)
    requires Inv(site, a) && Allowed(site, a, call, b)
    ensures Inv(site, b)
    ensures Advances(a.integrity, b.integrity)
  {
    if call.Quote? && call.quoted == ManagerFailed {
      AdvancesReflexive(a.integrity);
    } else {
      SnappedKeepsTruth(site, a.integrity, b.integrity, call.listing);
      if call.Quote? {
        TargetEntriesSurvive(site, a, b);
      }
    }
  }
}
