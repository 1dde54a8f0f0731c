/**
 * The Redfish client: one object that caches what it resolved, talking to a BMC whose
 * every read may fail. Each method is proved equal to its function in RedfishCalls: same
 * result, same caches, same reads in the same order.
 */
module RedfishClient {
  import opened Prelude
  import opened RedfishSite
  import opened RedfishState
  import Calls = RedfishCalls

  /** The BMC behind `do`: fixed content, and an adversary that says which reads fail. */
  class Bmc {
    const site: Site
    const fails: Calls.Failures
    var log: seq<Read>

    constructor (site: Site, fails: Calls.Failures)
      ensures this.site == site && this.fails == fails && log == []
    {
      this.site, this.fails, log := site, fails, [];
    }

    method Fetch<T>(kind: Kind, path: string, content: Content<T>) returns (r: Result<T, Code>)
      modifies this`log
      ensures r == Calls.Reply(fails, |old(log)|, content)
      ensures log == old(log) + [Read(kind, path, Calls.CodeOf(r))]
    {
      if fails(|log|) {
        r := Err(Unreachable);
      } else {
        match content
        case Body(v) => r := Ok(v);
        case NotFound => r := Err(Missing);
        case Undecodable => r := Err(Garbled);
      }
      log := log + [Read(kind, path, Calls.CodeOf(r))];
    }
  }

  // ---- what the client keeps in memory

  /** A component as the client holds it: the measurements are a slice that a caller could write through. */
  datatype HeldComponent = HeldComponent(header: Component, slice: array<Measurement>)

  datatype HeldAdapter = HeldAdapter(header: Adapter, controllers: array<string>)

  ghost predicate Shows(h: HeldComponent, c: Component)
    reads h.slice
  {
    h.header == c.(measurements := []) && h.slice[..] == c.measurements
  }

  ghost predicate ShowsAdapter(h: HeldAdapter, a: Adapter)
    reads h.controllers
  {
    h.header == a.(controllers := []) && h.controllers[..] == a.controllers
  }

  method CopyOf<T>(s: seq<T>) returns (a: array<T>)
    ensures fresh(a) && a[..] == s
  {
    a := new T[|s|](i requires 0 <= i < |s| => s[i]);
  }

  method HoldComponent(c: Component) returns (h: HeldComponent)
    ensures fresh(h.slice) && Shows(h, c)
  {
    var slice := CopyOf(c.measurements);
    h := HeldComponent(c.(measurements := []), slice);
  }

  method HoldAdapter(a: Adapter) returns (h: HeldAdapter)
    ensures fresh(h.controllers) && ShowsAdapter(h, a)
  {
    var controllers := CopyOf(a.controllers);
    h := HeldAdapter(a.(controllers := []), controllers);
  }

  ghost predicate MembersShown(hs: seq<HeldComponent>, cs: seq<Component>, owned: set<object>)
    reads owned
  {
    && |hs| == |cs|
    && forall i :: 0 <= i < |cs| ==> hs[i].slice in owned && Shows(hs[i], cs[i])
  }

  /** The two groups of the search order after the first `i` members. */
  ghost predicate Grouped(measured: seq<HeldComponent>, unmeasured: seq<HeldComponent>, values: seq<Component>,
                          i: nat, owned: set<object>)
    requires i <= |values|
    reads owned
  {
    && MembersShown(measured, Keep(values[..i], true), owned)
    && MembersShown(unmeasured, Keep(values[..i], false), owned)
  }

  lemma GroupNext(measured: seq<HeldComponent>, unmeasured: seq<HeldComponent>, values: seq<Component>,
                  i: nat, h: HeldComponent, owned: set<object>)
    requires i < |values| && Grouped(measured, unmeasured, values, i, owned)
    requires h.slice in owned && Shows(h, values[i])
    ensures if h.slice.Length > 0 then Grouped(measured + [h], unmeasured, values, i + 1, owned)
            else Grouped(measured, unmeasured + [h], values, i + 1, owned)
  {
    var next := values[..i + 1];
    assert Init(next) == values[..i] && Last(next) == values[i];
    assert Measured(values[i]) <==> h.slice.Length > 0;
    assert Keep(values[..i], true) + [] == Keep(values[..i], true);
    assert Keep(values[..i], false) + [] == Keep(values[..i], false);
  }

  lemma GroupsMakeTheOrder(measured: seq<HeldComponent>, unmeasured: seq<HeldComponent>, values: seq<Component>,
                           owned: set<object>)
    requires Grouped(measured, unmeasured, values, |values|, owned)
    ensures MembersShown(measured + unmeasured, SearchOrder(values), owned)
  {
    assert values[..|values|] == values;
  }

  ghost predicate SnapshotShown(integrity: IntegritySnapshot?, snap: Option<Snapshot>, owned: set<object>)
    reads integrity, owned
  {
    if integrity == null then snap.None?
    else
      && snap.Some?
      && integrity.failed == snap.value.failed
      && MembersShown(integrity.members, snap.value.members, owned)
  }

  ghost predicate TargetShown(t: Option<HeldAdapter>, v: Option<Adapter>, owned: set<object>)
    reads owned
  {
    match t
    case None => v.None?
    case Some(h) => v.Some? && h.controllers in owned && ShowsAdapter(h, v.value)
  }

  ghost predicate TargetsShown(ts: map<string, Option<HeldAdapter>>, vs: map<string, Option<Adapter>>, owned: set<object>)
    reads owned
  {
    && ts.Keys == vs.Keys
    && forall id :: id in ts ==> TargetShown(ts[id], vs[id], owned)
  }

  class IntegritySnapshot {
    var members: seq<HeldComponent>
    var failed: seq<string>
    var unreadable: seq<Code>

    constructor (failed: seq<string>)
      ensures members == [] && this.failed == failed && unreadable == []
    {
      members, this.failed, unreadable := [], failed, [];
    }
  }

  datatype Target = Held(adapter: HeldAdapter) | NoTarget | CouldNotTell

  datatype Attempt = Matched(held: HeldAdapter, spelled: string) | Passed | Blocked

  ghost predicate ResolutionShown(t: Target, r: Resolution, owned: set<object>)
    reads owned
  {
    match t
    case Held(h) => r.IsAdapter? && TargetShown(Some(h), Some(r.adapter), owned)
    case NoTarget => r == NotAdapter
    case CouldNotTell => r == Unknown
  }

  ghost predicate AttemptShown(t: Attempt, r: Calls.Attempt, owned: set<object>)
    reads owned
  {
    match t
    case Matched(h, spelled) => r.Matched? && TargetShown(Some(h), Some(r.adapter), owned) && spelled == r.spelled
    case Passed => r.Passed?
    case Blocked => r.Blocked?
  }

  datatype LookupResult =
    | LookupFound(component: HeldComponent, adapter: HeldAdapter, spelled: string)
    | LookupMiss(unreadable: bool)
    | LookupListFailed

  /** The objects handed to the caller spell out `outcome`. */
  ghost predicate ResultShown(out: LookupResult, outcome: Outcome)
    reads if out.LookupFound? then {out.component.slice as object, out.adapter.controllers} else {}
  {
    match out
    case LookupFound(h, k, spelled) =>
      outcome.Found? && Shows(h, outcome.component) && ShowsAdapter(k, outcome.adapter) && spelled == outcome.spelled
    case LookupMiss(unreadable) => outcome == Miss(unreadable)
    case LookupListFailed => outcome == ListFailed
  }

  twostate predicate FreshResult(new out: LookupResult) {
    out.LookupFound? ==> fresh(out.component.slice) && fresh(out.adapter.controllers)
  }

  /** Nothing a caller can write through the result is kept by the client. */
  ghost predicate OutOfReach(out: LookupResult, owned: set<object>) {
    out.LookupFound? ==> out.component.slice !in owned && out.adapter.controllers !in owned
  }

  class Client {
    const bmc: Bmc
    var manager: string
    var integrity: IntegritySnapshot?
    var targets: map<string, Option<HeldAdapter>>
    var portMACs: map<string, seq<string>>

    /** The state as a value; `Valid` ties the fields to it. */
    ghost var model: State
    /** Every slice the client keeps. */
    ghost var Repr: set<object>

    /** The fields spell out `model`. */
    ghost predicate Tied()
      reads this, integrity, Repr
    {
      && this !in Repr && bmc !in Repr
      && manager == model.manager
      && portMACs == model.portMACs
      && (integrity != null ==> integrity !in Repr)
      && SnapshotShown(integrity, model.integrity, Repr)
      && TargetsShown(targets, model.targets, Repr)
    }

    /** Between calls there is moreover one error for each pending member: none pending, none unreadable. */
    ghost predicate Valid()
      reads this, integrity, Repr
    {
      Tied() && (integrity != null ==> |integrity.unreadable| == |integrity.failed|)
    }

    constructor (bmc: Bmc)
      ensures Valid() && this.bmc == bmc && model == INITIAL && Repr == {}
    {
      this.bmc := bmc;
      manager, integrity, targets, portMACs := "", null, map[], map[];
      model, Repr := INITIAL, {};
    }

    // ---- the snapshot

    /** One pending member: read, it joins the members; not read, it stays pending with its error. */
    method ReadNext(id: string, ghost done: Calls.Pass, ghost a: Snapshot) returns (ghost now: Calls.Pass)
      requires integrity != null && this !in Repr && bmc !in Repr && integrity !in Repr
      requires integrity.failed == done.failed && |integrity.unreadable| == |integrity.failed|
      requires MembersShown(integrity.members, a.members + done.members, Repr)
      modifies this`Repr, integrity, bmc`log
      ensures old(Repr) <= Repr && fresh(Repr - old(Repr))
      ensures now == Calls.Joined(done, Calls.ReadMember(bmc.site, bmc.fails, |old(bmc.log)|, id))
      ensures bmc.log == old(bmc.log) + Calls.ReadMember(bmc.site, bmc.fails, |old(bmc.log)|, id).trace
      ensures integrity.failed == now.failed && |integrity.unreadable| == |integrity.failed|
      ensures MembersShown(integrity.members, a.members + now.members, Repr)
    {
      now := Calls.Joined(done, Calls.ReadMember(bmc.site, bmc.fails, |bmc.log|, id));
      var reply := bmc.Fetch(ComponentRead, id, bmc.site.components(id));
      match reply {
        case Err(e) =>
          integrity.failed := integrity.failed + [id];
          integrity.unreadable := integrity.unreadable + [e];
          assert a.members + now.members == a.members + done.members;
        case Ok(ci) =>
          var h := HoldComponent(ci);
          integrity.members := integrity.members + [h];
          Repr := Repr + {h.slice};
          assert a.members + now.members == a.members + done.members + [ci];
          assert done.failed + [] == done.failed;
      }
    }

    /** One pass over the pending members: what is read joins the members, the rest stays pending. */
    method ReadPending()
      requires Tied() && integrity != null
      modifies this`model, this`Repr, integrity, bmc`log
      ensures Valid() && old(Repr) <= Repr && fresh(Repr - old(Repr))
      ensures var r := Calls.Refresh(bmc.site, bmc.fails, |old(bmc.log)|, old(model).integrity.value);
              model == old(model).(integrity := Some(r.value)) && bmc.log == old(bmc.log) + r.trace
    {
      hide Calls.ReadMembers, Calls.ReadMember, Calls.Joined;
      ghost var snap, n := model.integrity.value, |bmc.log|;
      ghost var done := NONE_READ;
      var pending := integrity.failed;
      integrity.failed, integrity.unreadable := [], [];
      PassStart(bmc.site, bmc.fails, n, pending);
      assert snap.members + done.members == snap.members;
      var i := 0;
      while i < |pending|
        invariant 0 <= i <= |pending| && |done.trace| == i
        invariant old(Repr) <= Repr && fresh(Repr - old(Repr)) && bmc.log == old(bmc.log) + done.trace
        invariant this !in Repr && bmc !in Repr && integrity !in Repr && model == old(model)
        invariant Calls.ReadMembers(bmc.site, bmc.fails, n, pending)
                  == Calls.Joined(done, Calls.ReadMembers(bmc.site, bmc.fails, n + i, pending[i..]))
        invariant integrity.failed == done.failed && |integrity.unreadable| == |integrity.failed|
        invariant MembersShown(integrity.members, snap.members + done.members, Repr)
      {
        PassNext(bmc.site, bmc.fails, n, pending, i, done);
        ConcatAssociative(old(bmc.log), done.trace, Calls.ReadMember(bmc.site, bmc.fails, n + i, pending[i]).trace);
        done := ReadNext(pending[i], done, snap);
        i := i + 1;
      }
      PassEnd(bmc.site, bmc.fails, n, pending, done);
      model := model.(integrity := Some(Snapshot(snap.members + done.members, snap.sources + done.sources, done.failed)));
    }

    /** The first listing: every member is pending. A failed one leaves no snapshot behind. */
    method ListMembers() returns (ok: bool)
      requires Valid() && integrity == null
      modifies this`integrity, this`model, bmc`log
      ensures var list := Calls.Reply(bmc.fails, |old(bmc.log)|, Listing(bmc.site));
              && bmc.log == old(bmc.log) + [Read(CollectionRead, COMPONENT_INTEGRITY_PATH, Calls.CodeOf(list))]
              && ok == list.Ok?
              && model == if ok then old(model).(integrity := Some(Snapshot([], [], list.value))) else old(model)
      ensures Tied() && (ok <==> integrity != null) && (ok ==> fresh(integrity))
    {
      var list := bmc.Fetch(CollectionRead, COMPONENT_INTEGRITY_PATH, Listing(bmc.site));
      ok := list.Ok?;
      if ok {
        integrity := new IntegritySnapshot(list.value);
        model := model.(integrity := Some(Snapshot([], [], list.value)));
      }
    }

    /** Lists the collection once, then reads each member until it succeeds; false when it cannot be listed. */
    method ComponentIntegrities() returns (ok: bool)
      requires Valid()
      modifies this`integrity, this`model, this`Repr, integrity, bmc`log
      ensures Valid() && old(Repr) <= Repr && fresh(Repr - old(Repr))
      ensures var r := Calls.Snap(bmc.site, bmc.fails, |old(bmc.log)|, old(model).integrity);
              && bmc.log == old(bmc.log) + r.trace && ok == r.value.Some?
              && model == if ok then old(model).(integrity := r.value) else old(model)
      ensures (ok <==> integrity != null) && (integrity == old(integrity) || fresh(integrity))
    {
      if integrity == null {
        ok := ListMembers();
        if !ok {
          return;
        }
        ghost var listed := bmc.log;
        ReadPending();
        ConcatAssociative(old(bmc.log), listed[|old(bmc.log)|..], bmc.log[|listed|..]);
      } else {
        ReadPending();
      }
      ok := true;
    }

    // ---- one entry

    /** The first adapter of `refs` found in slot `n`, and whether some candidate was unreadable. */
    method FindInSlot(refs: seq<string>, slot: int) returns (found: Option<Adapter>, unreadable: bool)
      modifies bmc`log
      ensures var f := Calls.FindInSlot(bmc.site, bmc.fails, |old(bmc.log)|, refs, slot);
              found == f.found && unreadable == f.unreadable && bmc.log == old(bmc.log) + f.trace
    {
      hide Calls.FindInSlot, Calls.Reply;
      ghost var n, trace: seq<Read> := |bmc.log|, [];
      found, unreadable := None, false;
      SlotStart(bmc.site, bmc.fails, n, refs, slot);
      var i := 0;
      while i < |refs|
        invariant 0 <= i <= |refs| && |trace| == i && bmc.log == old(bmc.log) + trace && found == None
        invariant Calls.FindInSlot(bmc.site, bmc.fails, n, refs, slot)
                  == SlotAfter(unreadable, trace, Calls.FindInSlot(bmc.site, bmc.fails, n + i, refs[i..], slot))
      {
        var ref := refs[i];
        SlotNext(bmc.site, bmc.fails, n, refs, slot, i, unreadable, trace);
        var candidate := bmc.Fetch(AdapterRead, ref, bmc.site.adapters(ref));
        ghost var read := Read(AdapterRead, ref, Calls.CodeOf(candidate));
        ConcatAssociative(old(bmc.log), trace, [read]);
        trace := trace + [read];
        if candidate.Err? {
          unreadable := true;
        } else if InSlot(candidate.value, slot) {
          found := Some(candidate.value.(selfURI := ref));
          return;
        }
        i := i + 1;
      }
      SlotEnd(bmc.site, bmc.fails, n, refs, slot, unreadable, trace);
    }

    /** `targetAdapter` without the cache: an adapter, definitively none, or could not tell. */
    method ResolveTarget(held: Component, ghost c: Component) returns (r: Resolution)
      requires held == c.(measurements := [])
      modifies bmc`log
      ensures var f := Calls.ResolveTarget(bmc.site, bmc.fails, |old(bmc.log)|, c);
              r == f.value && bmc.log == old(bmc.log) + f.trace
    {
      var direct := bmc.Fetch(AdapterRead, held.targetURI, bmc.site.adapters(held.targetURI));
      if direct.Ok? && direct.value.ports != "" {
        return IsAdapter(direct.value.(selfURI := held.targetURI));
      }
      match bmc.site.slotOf(held.id) {
        case NoSlot =>
          r := if direct.Ok? then NotAdapter else Unknown;
        case Unusable =>
          r := Unknown;
        case Slot(slot) =>
          ghost var first := bmc.log[|old(bmc.log)|..];
          var dir := bmc.site.dir(held.targetURI);
          var adapters := bmc.Fetch(CollectionRead, dir, bmc.site.collections(dir));
          ghost var second := first + bmc.log[|old(bmc.log)| + 1..];
          assert bmc.log == old(bmc.log) + second;
          if adapters.Err? {
            return Unknown;
          }
          ghost var before := bmc.log;
          var found, unreadable := FindInSlot(adapters.value, slot);
          ConcatAssociative(old(bmc.log), second, bmc.log[|before|..]);
          r := if found.Some? then IsAdapter(found.value)
               else if unreadable || direct == Err(Unreachable) then Unknown
               else NotAdapter;
      }
    }

    /** A component's adapter, from the cache when it was resolved before. */
    method TargetAdapter(h: HeldComponent, ghost c: Component) returns (r: Target)
      requires Valid() && h.header == c.(measurements := [])
      modifies this`targets, this`model, this`Repr, bmc`log
      ensures Valid() && old(Repr) <= Repr && fresh(Repr - old(Repr))
      ensures var e := Calls.TargetAdapter(bmc.site, bmc.fails, |old(bmc.log)|, old(model), c);
              model == e.state && bmc.log == old(bmc.log) + e.trace && ResolutionShown(r, e.value, Repr)
    {
      if h.header.id in targets {
        match targets[h.header.id] {
          case None => r := NoTarget;
          case Some(known) => r := Held(known);
        }
      } else {
        r := ResolveAndKeep(h, c);
      }
    }

    method ResolveAndKeep(h: HeldComponent, ghost c: Component) returns (r: Target)
      requires Valid() && h.header == c.(measurements := []) && c.id !in targets
      modifies this`targets, this`model, this`Repr, bmc`log
      ensures Valid() && old(Repr) <= Repr && fresh(Repr - old(Repr))
      ensures var e := Calls.TargetAdapter(bmc.site, bmc.fails, |old(bmc.log)|, old(model), c);
              model == e.state && bmc.log == old(bmc.log) + e.trace && ResolutionShown(r, e.value, Repr)
    {
      hide Calls.ResolveTarget;
      var found := ResolveTarget(h.header, c);
      match found {
        case Unknown =>
          r := CouldNotTell;
        case NotAdapter =>
          r := NoTarget;
          KeepTarget(h.header.id, None, None);
        case IsAdapter(adapter) =>
          var held := HoldAdapter(adapter);
          Repr := Repr + {held.controllers};
          r := Held(held);
          KeepTarget(h.header.id, Some(held), Some(adapter));
      }
    }

    /** Remembers a resolved target, unless its component has no id. */
    method KeepTarget(id: string, target: Option<HeldAdapter>, ghost value: Option<Adapter>)
      requires Valid() && TargetShown(target, value, Repr)
      modifies this`targets, this`model
      ensures Valid()
      ensures model == if id == "" then old(model) else old(model).(targets := old(model).targets[id := value])
    {
      if id != "" {
        targets := targets[id := target];
        model := model.(targets := model.targets[id := value]);
      }
    }

    /** Port by port until a match; `macs` are all ports' MACs when none was unreadable. */
    method ReadPorts(refs: seq<string>, mac: string) returns (hit: string, macs: seq<string>, unreadable: bool)
      modifies bmc`log
      ensures var p := Calls.ReadPorts(bmc.site, bmc.fails, |old(bmc.log)|, refs, [], mac);
              && hit == p.hit && bmc.log == old(bmc.log) + p.trace
              && (hit == "" ==> macs == p.macs && unreadable == p.unreadable)
    {
      hide Calls.ReadPorts, Calls.Reply;
      ghost var n, trace: seq<Read> := |bmc.log|, [];
      hit, macs, unreadable := "", [], false;
      PortsStart(bmc.site, bmc.fails, n, refs, mac);
      var i := 0;
      while i < |refs|
        invariant 0 <= i <= |refs| && |trace| == i && bmc.log == old(bmc.log) + trace && hit == ""
        invariant Calls.ReadPorts(bmc.site, bmc.fails, n, refs, [], mac)
                  == PortsAfter(unreadable, trace, Calls.ReadPorts(bmc.site, bmc.fails, n + i, refs[i..], macs, mac))
      {
        var ref := refs[i];
        PortsNext(bmc.site, bmc.fails, n, refs, mac, i, macs, unreadable, trace);
        var port := bmc.Fetch(PortRead, ref, bmc.site.portMACs(ref));
        ghost var read := Read(PortRead, ref, Calls.CodeOf(port));
        ConcatAssociative(old(bmc.log), trace, [read]);
        if port.Err? {
          unreadable := true;
        } else {
          macs := macs + Trimmed(bmc.site, port.value);
          var found := MatchMAC(bmc.site, macs, mac);
          if found != "" {
            hit := found;
            return;
          }
        }
        trace := trace + [read];
        i := i + 1;
      }
      PortsEnd(bmc.site, bmc.fails, n, refs, mac, macs, unreadable, trace);
    }

    /** An adapter's own spelling of `mac`; what was read in full is remembered. */
    method AdapterMAC(ports: string, mac: string) returns (r: Scan)
      requires Valid()
      modifies this`portMACs, this`model, bmc`log
      ensures Valid()
      ensures var e := Calls.AdapterMAC(bmc.site, bmc.fails, |old(bmc.log)|, old(model), ports, mac);
              r == e.value && model == e.state && bmc.log == old(bmc.log) + e.trace
    {
      if ports == "" {
        return NoHit;
      }
      if ports in portMACs {
        var found := MatchMAC(bmc.site, portMACs[ports], mac);
        return if found != "" then Hit(found) else NoHit;
      }
      r := ReadAdapterMAC(ports, mac);
    }

    method ReadAdapterMAC(ports: string, mac: string) returns (r: Scan)
      requires Valid()
      modifies this`portMACs, this`model, bmc`log
      ensures Valid()
      ensures var e := Calls.ReadAdapterMAC(bmc.site, bmc.fails, |old(bmc.log)|, old(model), ports, mac);
              r == e.value && model == e.state && bmc.log == old(bmc.log) + e.trace
    {
      var list := bmc.Fetch(CollectionRead, ports, bmc.site.collections(ports));
      if list.Err? {
        return Unreadable;
      }
      ghost var before := bmc.log;
      var hit, macs, unreadable := ReadPorts(list.value, mac);
      ConcatAssociative(old(bmc.log), before[|old(bmc.log)|..], bmc.log[|before|..]);
      if hit != "" {
        r := Hit(hit);
      } else if unreadable {
        r := Unreadable;
      } else {
        r := NoHit;
        portMACs := portMACs[ports := macs];
        model := model.(portMACs := model.portMACs[ports := macs]);
      }
    }

    // ---- the search

    /** One entry of the search: a match, a definite pass, or something in the way. */
    method TryEntry(h: HeldComponent, ghost c: Component, mac: string) returns (r: Attempt)
      requires Valid() && h.header == c.(measurements := [])
      modifies this`targets, this`portMACs, this`model, this`Repr, bmc`log
      ensures Valid() && old(Repr) <= Repr && fresh(Repr - old(Repr))
      ensures var e := Calls.TryEntry(bmc.site, bmc.fails, |old(bmc.log)|, old(model), c, mac);
              model == e.state && bmc.log == old(bmc.log) + e.trace && AttemptShown(r, e.value, Repr)
    {
      hide Calls.TargetAdapter, Calls.AdapterMAC;
      var target := TargetAdapter(h, c);
      match target {
        case CouldNotTell => r := Blocked;
        case NoTarget => r := Passed;
        case Held(held) =>
          ghost var before := bmc.log;
          var scan := AdapterMAC(held.header.ports, mac);
          ConcatAssociative(old(bmc.log), before[|old(bmc.log)|..], bmc.log[|before|..]);
          match scan {
            case Unreadable => r := Blocked;
            case NoHit => r := Passed;
            case Hit(spelled) => r := Matched(held, spelled);
          }
      }
    }

    /** Entries that carry measurements first, each group in the snapshot's order. */
    method Partition(members: seq<HeldComponent>, ghost values: seq<Component>, ghost owned: set<object>)
        returns (order: seq<HeldComponent>)
      requires MembersShown(members, values, owned)
      ensures MembersShown(order, SearchOrder(values), owned)
    {
      var measured, unmeasured := [], [];
      var i := 0;
      while i < |members|
        invariant 0 <= i <= |members|
        invariant Grouped(measured, unmeasured, values, i, owned)
      {
        GroupNext(measured, unmeasured, values, i, members[i], owned);
        if members[i].slice.Length > 0 {
          measured := measured + [members[i]];
        } else {
          unmeasured := unmeasured + [members[i]];
        }
        i := i + 1;
      }
      GroupsMakeTheOrder(measured, unmeasured, values, owned);
      order := measured + unmeasured;
    }

    /** What is handed out shares nothing with what the client keeps. */
    method HandOver(h: HeldComponent, ghost c: Component, held: HeldAdapter, ghost a: Adapter, spelled: string)
        returns (out: LookupResult)
      requires Valid() && Shows(h, c) && ShowsAdapter(held, a)
      ensures Valid() && ResultShown(out, Found(c, a, spelled)) && FreshResult(out) && OutOfReach(out, Repr)
    {
      var slice := CopyOf(h.slice[..]);
      var controllers := CopyOf(held.controllers[..]);
      out := LookupFound(HeldComponent(h.header, slice), HeldAdapter(held.header, controllers), spelled);
    }

    /** The search over the refreshed snapshot. */
    method Search(mac: string) returns (out: LookupResult)
      requires Valid() && integrity != null
      modifies this`targets, this`portMACs, this`model, this`Repr, bmc`log
      ensures Valid() && old(Repr) <= Repr && fresh(Repr - old(Repr))
      ensures var snap := old(model).integrity.value;
              var e := Calls.Search(bmc.site, bmc.fails, |old(bmc.log)|, old(model), SearchOrder(snap.members), mac,
                                    snap.failed != []);
              model == e.state && bmc.log == old(bmc.log) + e.trace && ResultShown(out, e.value)
      ensures FreshResult(out) && OutOfReach(out, Repr)
    {
      ghost var values := model.integrity.value.members;
      var order := Partition(integrity.members, values, Repr);
      out := SearchInOrder(order, mac, |integrity.unreadable| > 0, SearchOrder(values));
    }

    method SearchInOrder(order: seq<HeldComponent>, mac: string, anyFailed: bool, ghost cs: seq<Component>)
        returns (out: LookupResult)
      requires Valid() && MembersShown(order, cs, Repr)
      modifies this`targets, this`portMACs, this`model, this`Repr, bmc`log
      ensures Valid() && old(Repr) <= Repr && fresh(Repr - old(Repr))
      ensures var e := Calls.Search(bmc.site, bmc.fails, |old(bmc.log)|, old(model), cs, mac, anyFailed);
              model == e.state && bmc.log == old(bmc.log) + e.trace && ResultShown(out, e.value)
      ensures FreshResult(out) && OutOfReach(out, Repr)
    {
      hide Calls.TryEntry;
      ghost var owned, trace: seq<Read> := Repr, [];
      var unreadable := anyFailed;
      assert cs[0..] == cs;
      var i := 0;
      while i < |order|
        invariant 0 <= i <= |order|
        invariant Valid() && owned <= Repr && fresh(Repr - owned) && bmc.log == old(bmc.log) + trace
        invariant MembersShown(order, cs, owned)
        invariant Calls.Search(bmc.site, bmc.fails, |old(bmc.log)|, old(model), cs, mac, anyFailed)
                  == SearchAfter(trace, Calls.Search(bmc.site, bmc.fails, |bmc.log|, model, cs[i..], mac, unreadable))
      {
        var h := order[i];
        assert Shows(h, cs[i]) && cs[i..][1..] == cs[i + 1..];
        if h.header.kind == "SPDM" && h.header.targetURI != "" {
          ghost var before, start := bmc.log, model;
          var r := TryEntry(h, cs[i], mac);
          ghost var e := Calls.TryEntry(bmc.site, bmc.fails, |before|, start, cs[i], mac);
          ConcatAssociative(old(bmc.log), trace, e.trace);
          if r.Matched? {
            out := HandOver(h, cs[i], r.held, e.value.adapter, r.spelled);
            return;
          }
          ghost var rest := Calls.Search(bmc.site, bmc.fails, |bmc.log|, model, cs[i + 1..], mac, unreadable || r.Blocked?);
          ConcatAssociative(trace, e.trace, rest.trace);
          trace := trace + e.trace;
          unreadable := unreadable || r.Blocked?;
        }
        i := i + 1;
      }
      assert trace + [] == trace;
      out := LookupMiss(unreadable);
    }

    // ---- calls

    /** Finds the SPDM entry whose adapter reports `mac`; a match is handed out as copies. */
    method ComponentIntegrityFor(mac: string) returns (out: LookupResult, ghost call: Call)
      requires Valid()
      modifies this`integrity, this`targets, this`portMACs, this`model, this`Repr, integrity, bmc`log
      ensures Valid() && old(Repr) <= Repr && fresh(Repr - old(Repr))
      ensures Calls.Done(model, call) == Calls.DoLookup(bmc.site, bmc.fails, |old(bmc.log)|, old(model), mac)
      ensures bmc.log == old(bmc.log) + Reads(call)
      ensures ResultShown(out, call.outcome) && FreshResult(out) && OutOfReach(out, Repr)
      ensures integrity == old(integrity) || fresh(integrity)
    {
      hide Calls.Snap, Calls.Search;
      call := Calls.DoLookup(bmc.site, bmc.fails, |bmc.log|, model, mac).call;
      var ok := ComponentIntegrities();
      if !ok {
        assert call.listing + [] == call.listing;
        return LookupListFailed, call;
      }
      out := Search(mac);
      ConcatAssociative(old(bmc.log), call.listing, call.search);
    }

    /** The BMC's own resource, resolved once; None when its collection cannot be read or is ambiguous. */
    method ManagerPath() returns (r: Option<string>)
      requires Valid()
      modifies this`manager, this`model, bmc`log
      ensures Valid()
      ensures var p := Calls.ManagerPath(bmc.site, bmc.fails, |old(bmc.log)|, old(model).manager);
              && r == p.value && bmc.log == old(bmc.log) + p.trace
              && model == if r.Some? then old(model).(manager := r.value) else old(model)
    {
      if manager == "" {
        var members := bmc.Fetch(CollectionRead, MANAGERS_PATH, bmc.site.collections(MANAGERS_PATH));
        if members.Err? || |members.value| != 1 {
          return None;
        }
        manager := TrimSlashes(members.value[0]);
        model := model.(manager := manager);
      }
      r := Some(manager);
    }

    /** The action URI a TPM member targeting the manager advertises. */
    method QuoteTarget() returns (out: QuoteOutcome, ghost call: Call)
      requires Valid()
      modifies this`manager, this`integrity, this`model, this`Repr, integrity, bmc`log
      ensures Valid() && old(Repr) <= Repr && fresh(Repr - old(Repr))
      ensures Calls.Done(model, call) == Calls.DoQuote(bmc.site, bmc.fails, |old(bmc.log)|, old(model))
      ensures bmc.log == old(bmc.log) + Reads(call) && out == call.quoted
      ensures integrity == old(integrity) || fresh(integrity)
    {
      hide Calls.Snap, Calls.ManagerPath;
      call := Calls.DoQuote(bmc.site, bmc.fails, |bmc.log|, model).call;
      var path := ManagerPath();
      if path.None? {
        assert call.search + [] == call.search;
        return ManagerFailed, call;
      }
      var ok := ComponentIntegrities();
      ConcatAssociative(old(bmc.log), call.search, call.listing);
      if !ok {
        return QuoteListFailed, call;
      }
      out := FindQuote(path.value);
    }

    method FindQuote(path: string) returns (out: QuoteOutcome)
      requires Valid() && integrity != null
      ensures out == QuoteAnswer(model.integrity.value, path)
    {
      ghost var values := model.integrity.value.members;
      var i := 0;
      while i < |integrity.members|
        invariant 0 <= i <= |integrity.members|
        invariant FirstQuote(values, path) == FirstQuote(values[i..], path)
      {
        var ci := integrity.members[i].header;
        assert Shows(integrity.members[i], values[i]) && values[i..][1..] == values[i + 1..];
        if ci.kind == "TPM" && TrimSlashes(ci.targetURI) == path && ci.tpmAction != "" {
          return Action(ci.tpmAction);
        }
        i := i + 1;
      }
      out := if |integrity.unreadable| > 0 then MembersUnreadable else NoSupport;
    }
  }

  // ---- loops against their functions: what is done, followed by the rest

  function SlotAfter(unreadable: bool, trace: seq<Read>, rest: Calls.SlotScan): Calls.SlotScan {
    Calls.SlotScan(rest.found, unreadable || rest.unreadable, trace + rest.trace)
  }

  function PortsAfter(unreadable: bool, trace: seq<Read>, rest: Calls.PortsRead): Calls.PortsRead {
    Calls.PortsRead(rest.hit, rest.macs, unreadable || rest.unreadable, trace + rest.trace)
  }

  function SearchAfter(trace: seq<Read>, rest: Calls.Effect<Outcome>): Calls.Effect<Outcome> {
    Calls.Effect(rest.value, rest.state, trace + rest.trace)
  }

  lemma SlotStart(site: Site, fails: Calls.Failures, n: nat, refs: seq<string>, slot: int)
    ensures Calls.FindInSlot(site, fails, n, refs, slot)
         == SlotAfter(false, [], Calls.FindInSlot(site, fails, n + 0, refs[0..], slot))
  {
    assert refs[0..] == refs;
    var f := Calls.FindInSlot(site, fails, n, refs, slot);
    assert [] + f.trace == f.trace;
  }

  lemma SlotNext(site: Site, fails: Calls.Failures, n: nat, refs: seq<string>, slot: int, i: nat, unreadable: bool, trace: seq<Read>)
    requires i < |refs|
    ensures var candidate := Calls.Reply(fails, n + i, site.adapters(refs[i]));
            var t := trace + [Read(AdapterRead, refs[i], Calls.CodeOf(candidate))];
            SlotAfter(unreadable, trace, Calls.FindInSlot(site, fails, n + i, refs[i..], slot))
            == if candidate.Ok? && InSlot(candidate.value, slot)
               then Calls.SlotScan(Some(candidate.value.(selfURI := refs[i])), unreadable, t)
               else SlotAfter(unreadable || candidate.Err?, t,
                              Calls.FindInSlot(site, fails, n + (i + 1), refs[i + 1..], slot))
  {
    hide Calls.Reply;
    assert refs[i..][1..] == refs[i + 1..];
    var read := Read(AdapterRead, refs[i], Calls.CodeOf(Calls.Reply(fails, n + i, site.adapters(refs[i]))));
    ConcatAssociative(trace, [read], Calls.FindInSlot(site, fails, n + (i + 1), refs[i + 1..], slot).trace);
  }

  lemma SlotEnd(site: Site, fails: Calls.Failures, n: nat, refs: seq<string>, slot: int, unreadable: bool, trace: seq<Read>)
    ensures SlotAfter(unreadable, trace, Calls.FindInSlot(site, fails, n + |refs|, refs[|refs|..], slot))
         == Calls.SlotScan(None, unreadable, trace)
  {
    assert trace + [] == trace;
  }

  lemma PortsStart(site: Site, fails: Calls.Failures, n: nat, refs: seq<string>, mac: string)
    ensures Calls.ReadPorts(site, fails, n, refs, [], mac)
         == PortsAfter(false, [], Calls.ReadPorts(site, fails, n + 0, refs[0..], [], mac))
  {
    assert refs[0..] == refs;
    var p := Calls.ReadPorts(site, fails, n, refs, [], mac);
    assert [] + p.trace == p.trace;
  }

  lemma PortsNext(site: Site, fails: Calls.Failures, n: nat, refs: seq<string>, mac: string, i: nat, macs: seq<string>,
                  unreadable: bool, trace: seq<Read>)
    requires i < |refs|
    ensures var port := Calls.Reply(fails, n + i, site.portMACs(refs[i]));
            var t := trace + [Read(PortRead, refs[i], Calls.CodeOf(port))];
            var now := if port.Ok? then macs + Trimmed(site, port.value) else macs;
            PortsAfter(unreadable, trace, Calls.ReadPorts(site, fails, n + i, refs[i..], macs, mac))
            == if port.Ok? && MatchMAC(site, now, mac) != ""
               then Calls.PortsRead(MatchMAC(site, now, mac), now, unreadable, t)
               else PortsAfter(unreadable || port.Err?, t,
                               Calls.ReadPorts(site, fails, n + (i + 1), refs[i + 1..], now, mac))
  {
    hide Calls.Reply;
    assert refs[i..][1..] == refs[i + 1..];
    var port := Calls.Reply(fails, n + i, site.portMACs(refs[i]));
    var now := if port.Ok? then macs + Trimmed(site, port.value) else macs;
    ConcatAssociative(trace, [Read(PortRead, refs[i], Calls.CodeOf(port))],
                      Calls.ReadPorts(site, fails, n + (i + 1), refs[i + 1..], now, mac).trace);
  }

  lemma PortsEnd(site: Site, fails: Calls.Failures, n: nat, refs: seq<string>, mac: string, macs: seq<string>,
                 unreadable: bool, trace: seq<Read>)
    ensures PortsAfter(unreadable, trace, Calls.ReadPorts(site, fails, n + |refs|, refs[|refs|..], macs, mac))
         == Calls.PortsRead("", macs, unreadable, trace)
  {
    assert trace + [] == trace;
  }

  const NONE_READ := Calls.Pass([], [], [], [])

  lemma PassStart(site: Site, fails: Calls.Failures, n: nat, paths: seq<string>)
    ensures Calls.ReadMembers(site, fails, n, paths)
         == Calls.Joined(NONE_READ, Calls.ReadMembers(site, fails, n + 0, paths[0..]))
  {
    assert paths[0..] == paths;
    var p := Calls.ReadMembers(site, fails, n, paths);
    assert [] + p.members == p.members && [] + p.sources == p.sources && [] + p.failed == p.failed && [] + p.trace == p.trace;
  }

  lemma PassNext(site: Site, fails: Calls.Failures, n: nat, paths: seq<string>, i: nat, done: Calls.Pass)
    requires i < |paths|
    ensures var one := Calls.ReadMember(site, fails, n + i, paths[i]);
            && Calls.Joined(done, Calls.ReadMembers(site, fails, n + i, paths[i..]))
               == Calls.Joined(Calls.Joined(done, one), Calls.ReadMembers(site, fails, n + (i + 1), paths[i + 1..]))
            && |one.trace| == 1 && Calls.Joined(done, one).trace == done.trace + one.trace
  {
    assert paths[i..][1..] == paths[i + 1..];
    var one, rest := Calls.ReadMember(site, fails, n + i, paths[i]), Calls.ReadMembers(site, fails, n + (i + 1), paths[i + 1..]);
    ConcatAssociative(done.members, one.members, rest.members);
    ConcatAssociative(done.sources, one.sources, rest.sources);
    ConcatAssociative(done.failed, one.failed, rest.failed);
    ConcatAssociative(done.trace, one.trace, rest.trace);
  }

  lemma PassEnd(site: Site, fails: Calls.Failures, n: nat, paths: seq<string>, done: Calls.Pass)
    ensures Calls.Joined(done, Calls.ReadMembers(site, fails, n + |paths|, paths[|paths|..])) == done
  {
    assert done.members + [] == done.members && done.sources + [] == done.sources;
    assert done.failed + [] == done.failed && done.trace + [] == done.trace;
  }
}
