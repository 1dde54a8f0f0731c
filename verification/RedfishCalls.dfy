/**
 * What the client does, as functions of its state and of which reads fail: every result,
 * every change of the caches and every read in order. Reads are numbered over the life of
 * a BMC, and `n` is always the number of the next one.
 */
module RedfishCalls {
  import opened Prelude
  import opened RedfishSite
  import opened RedfishState

  /** The adversary: which reads fail transiently. */
  type Failures = nat -> bool

  /** A value with the reads it took; an effect also says what the state became. */
  datatype Reading<T> = Reading(value: T, trace: seq<Read>)
  datatype Effect<T> = Effect(value: T, state: State, trace: seq<Read>)

  /** Read `n`: a transient failure, or the lasting fact about its path. */
  function Reply<T>(fails: Failures, n: nat, c: Content<T>): Result<T, Code> {
    if fails(n) then Err(Unreachable)
    else
      match c
      case Body(v) => Ok(v)
      case NotFound => Err(Missing)
      case Undecodable => Err(Garbled)
  }

  function CodeOf<T>(r: Result<T, Code>): Code {
    match r
    case Ok(_) => Answered
    case Err(e) => e
  }

  // ---- the snapshot

  datatype Pass = Pass(members: seq<Component>, sources: seq<string>, failed: seq<string>, trace: seq<Read>)

  function Joined(p: Pass, q: Pass): Pass {
    Pass(p.members + q.members, p.sources + q.sources, p.failed + q.failed, p.trace + q.trace)
  }

  function ReadMember(site: Site, fails: Failures, n: nat, path: string): Pass {
    var reply := Reply(fails, n, site.components(path));
    var trace := [Read(ComponentRead, path, CodeOf(reply))];
    if reply.Ok? then Pass([reply.value], [path], [], trace) else Pass([], [], [path], trace)
  }

  function ReadMembers(site: Site, fails: Failures, n: nat, paths: seq<string>): Pass
    decreases paths
  {
    if paths == [] then Pass([], [], [], [])
    else Joined(ReadMember(site, fails, n, paths[0]), ReadMembers(site, fails, n + 1, paths[1..]))
  }

  function Refresh(site: Site, fails: Failures, n: nat, a: Snapshot): Reading<Snapshot> {
    var p := ReadMembers(site, fails, n, a.failed);
    Reading(Snapshot(a.members + p.members, a.sources + p.sources, p.failed), p.trace)
  }

  /** `componentIntegrities`; None when the collection cannot be listed. */
  function Snap(site: Site, fails: Failures, n: nat, a: Option<Snapshot>): Reading<Option<Snapshot>> {
    if a.Some? then
      var r := Refresh(site, fails, n, a.value);
      Reading(Some(r.value), r.trace)
    else
      var list := Reply(fails, n, Listing(site));
      var first := [Read(CollectionRead, COMPONENT_INTEGRITY_PATH, CodeOf(list))];
      match list
      case Err(_) => Reading(None, first)
      case Ok(paths) =>
        var r := Refresh(site, fails, n + 1, Snapshot([], [], paths));
        Reading(Some(r.value), first + r.trace)
  }

  // ---- one entry

  datatype SlotScan = SlotScan(found: Option<Adapter>, unreadable: bool, trace: seq<Read>)

  function FindInSlot(site: Site, fails: Failures, n: nat, refs: seq<string>, slot: int): SlotScan
    decreases refs
  {
    if refs == [] then SlotScan(None, false, [])
    else
      var candidate := Reply(fails, n, site.adapters(refs[0]));
      var read := Read(AdapterRead, refs[0], CodeOf(candidate));
      if candidate.Ok? && InSlot(candidate.value, slot) then
        SlotScan(Some(candidate.value.(selfURI := refs[0])), false, [read])
      else
        var rest := FindInSlot(site, fails, n + 1, refs[1..], slot);
        SlotScan(rest.found, candidate.Err? || rest.unreadable, [read] + rest.trace)
  }

  /** `resolveTarget`. */
  function ResolveTarget(site: Site, fails: Failures, n: nat, c: Component): Reading<Resolution> {
    var direct := Reply(fails, n, site.adapters(c.targetURI));
    var first := [Read(AdapterRead, c.targetURI, CodeOf(direct))];
    if direct.Ok? && direct.value.ports != "" then Reading(IsAdapter(direct.value.(selfURI := c.targetURI)), first)
    else
      match site.slotOf(c.id)
      case NoSlot => Reading(if direct.Ok? then NotAdapter else Unknown, first)
      case Unusable => Reading(Unknown, first)
      case Slot(slot) =>
        var dir := site.dir(c.targetURI);
        var adapters := Reply(fails, n + 1, site.collections(dir));
        var second := first + [Read(CollectionRead, dir, CodeOf(adapters))];
        match adapters
        case Err(_) => Reading(Unknown, second)
        case Ok(refs) =>
          var scan := FindInSlot(site, fails, n + 2, refs, slot);
          Reading(if scan.found.Some? then IsAdapter(scan.found.value)
                  else if scan.unreadable || direct == Err(Unreachable) then Unknown
                  else NotAdapter,
                  second + scan.trace)
  }

  /** The cache of targets holds None for what is definitely not an adapter. */
  function AsTarget(r: Resolution): Option<Adapter> {
    match r
    case IsAdapter(a) => Some(a)
    case _ => None
  }

  /** `targetAdapter`. */
  function TargetAdapter(site: Site, fails: Failures, n: nat, s: State, c: Component): Effect<Resolution> {
    if c.id in s.targets then
      Effect(if s.targets[c.id].Some? then IsAdapter(s.targets[c.id].value) else NotAdapter, s, [])
    else
      var r := ResolveTarget(site, fails, n, c);
      var kept := r.value != Unknown && c.id != "";
      Effect(r.value, if kept then s.(targets := s.targets[c.id := AsTarget(r.value)]) else s, r.trace)
  }

  datatype PortsRead = PortsRead(hit: string, macs: seq<string>, unreadable: bool, trace: seq<Read>)

  /** Port by port with the MACs gathered so far, stopping at the first match. */
  function ReadPorts(site: Site, fails: Failures, n: nat, refs: seq<string>, gathered: seq<string>, mac: string): PortsRead
    decreases refs
  {
    if refs == [] then PortsRead("", gathered, false, [])
    else
      var port := Reply(fails, n, site.portMACs(refs[0]));
      var first := [Read(PortRead, refs[0], CodeOf(port))];
      match port
      case Err(_) =>
        var rest := ReadPorts(site, fails, n + 1, refs[1..], gathered, mac);
        PortsRead(rest.hit, rest.macs, true, first + rest.trace)
      case Ok(listed) =>
        var macs := gathered + Trimmed(site, listed);
        if MatchMAC(site, macs, mac) != "" then PortsRead(MatchMAC(site, macs, mac), macs, false, first)
        else
          var rest := ReadPorts(site, fails, n + 1, refs[1..], macs, mac);
          PortsRead(rest.hit, rest.macs, rest.unreadable, first + rest.trace)
  }

  function ScanOf(found: string): Scan {
    if found != "" then Hit(found) else NoHit
  }

  /** `adapterMAC`. */
  function AdapterMAC(site: Site, fails: Failures, n: nat, s: State, ports: string, mac: string): Effect<Scan> {
    if ports == "" then Effect(NoHit, s, [])
    else if ports in s.portMACs then Effect(ScanOf(MatchMAC(site, s.portMACs[ports], mac)), s, [])
    else ReadAdapterMAC(site, fails, n, s, ports, mac)
  }

  function ReadAdapterMAC(site: Site, fails: Failures, n: nat, s: State, ports: string, mac: string): Effect<Scan> {
    var list := Reply(fails, n, site.collections(ports));
    var first := [Read(CollectionRead, ports, CodeOf(list))];
    match list
    case Err(_) => Effect(Unreadable, s, first)
    case Ok(refs) =>
      var scan := ReadPorts(site, fails, n + 1, refs, [], mac);
      if scan.hit != "" then Effect(Hit(scan.hit), s, first + scan.trace)
      else if scan.unreadable then Effect(Unreadable, s, first + scan.trace)
      else Effect(NoHit, s.(portMACs := s.portMACs[ports := scan.macs]), first + scan.trace)
  }

  // ---- the search

  datatype Attempt = Matched(adapter: Adapter, spelled: string) | Passed | Blocked

  function AttemptOf(a: Adapter, scan: Scan): Attempt {
    match scan
    case Hit(spelled) => Matched(a, spelled)
    case NoHit => Passed
    case Unreadable => Blocked
  }

  function TryEntry(site: Site, fails: Failures, n: nat, s: State, c: Component, mac: string): Effect<Attempt> {
    var t := TargetAdapter(site, fails, n, s, c);
    match t.value
    case Unknown => Effect(Blocked, t.state, t.trace)
    case NotAdapter => Effect(Passed, t.state, t.trace)
    case IsAdapter(a) =>
      var m := AdapterMAC(site, fails, n + |t.trace|, t.state, a.ports, mac);
      Effect(AttemptOf(a, m.value), m.state, t.trace + m.trace)
  }

  /** The entries in order until a match; `unreadable` is what is known so far. */
  function Search(site: Site, fails: Failures, n: nat, s: State, order: seq<Component>, mac: string, unreadable: bool)
      : Effect<Outcome>
    decreases order
  {
    if order == [] then Effect(Miss(unreadable), s, [])
    else if !Searched(order[0]) then Search(site, fails, n, s, order[1..], mac, unreadable)
    else
      var e := TryEntry(site, fails, n, s, order[0], mac);
      if e.value.Matched? then Effect(Found(order[0], e.value.adapter, e.value.spelled), e.state, e.trace)
      else
        var rest := Search(site, fails, n + |e.trace|, e.state, order[1..], mac, unreadable || e.value.Blocked?);
        Effect(rest.value, rest.state, e.trace + rest.trace)
  }

  // ---- calls

  datatype Done = Done(state: State, call: Call)

  /** `ComponentIntegrityFor`. */
  function DoLookup(site: Site, fails: Failures, n: nat, s: State, mac: string): Done {
    var snap := Snap(site, fails, n, s.integrity);
    match snap.value
    case None => Done(s, Lookup(mac, ListFailed, snap.trace, []))
    case Some(now) =>
      var e := Search(site, fails, n + |snap.trace|, s.(integrity := Some(now)), SearchOrder(now.members), mac,
                      now.failed != []);
      Done(e.state, Lookup(mac, e.value, snap.trace, e.trace))
  }

  /** `managerPath`. */
  function ManagerPath(site: Site, fails: Failures, n: nat, known: string): Reading<Option<string>> {
    if known != "" then Reading(Some(known), [])
    else
      var members := Reply(fails, n, site.collections(MANAGERS_PATH));
      Reading(if members.Ok? && |members.value| == 1 then Some(TrimSlashes(members.value[0])) else None,
              [Read(CollectionRead, MANAGERS_PATH, CodeOf(members))])
  }

  /** `quoteTarget`. */
  function DoQuote(site: Site, fails: Failures, n: nat, s: State): Done {
    var path := ManagerPath(site, fails, n, s.manager);
    match path.value
    case None => Done(s, Quote(ManagerFailed, [], path.trace))
    case Some(manager) =>
      var snap := Snap(site, fails, n + |path.trace|, s.integrity);
      Done(s.(manager := manager, integrity := if snap.value.Some? then snap.value else s.integrity),
           Quote(if snap.value.Some? then QuoteAnswer(snap.value.value, manager) else QuoteListFailed,
                 snap.trace, path.trace))
  }

  // ---- runs

  /** One call, made when `n` reads have been made. */
  ghost predicate Step(site: Site, fails: Failures, n: nat, a: State, call: Call, b: State) {
    Done(b, call) == match call
                     case Lookup(mac, _, _, _) => DoLookup(site, fails, n, a, mac)
                     case Quote(_, _, _) => DoQuote(site, fails, n, a)
  }

  function AllReads(calls: seq<Call>): seq<Read> {
    if calls == [] then [] else AllReads(Init(calls)) + Reads(Last(calls))
  }

  /** The life of one client, from its making, on a BMC whose reads fail where `fails` says. */
  ghost predicate IsRun(site: Site, fails: Failures, states: seq<State>, calls: seq<Call>) {
    && |states| == |calls| + 1
    && states[0] == INITIAL
    && forall i :: 0 <= i < |calls| ==>
         Step(site, fails, |AllReads(calls[..i])|, states[i], calls[i], states[i + 1])
  }
}
