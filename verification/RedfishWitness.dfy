/**
 * A BMC on which a component's slot and its target URI lead to different adapters, and a
 * client on it that misses a device which is there: one failed read is enough.
 */
module RedfishWitness {
  import opened Prelude
  import opened RedfishSite
  import opened RedfishState
  import opened RedfishCalls
  import opened RedfishLimits
  import Client = RedfishClient

  const DEVICE := Component("Slot-1", "SPDM", "", "", "", "/a", "", "", [])

  /** The adapter the component targets, with a port; and another one in the slot its id names, with none. */
  const TARGETED := Adapter("", "", "", "", "", "", "", 0, [], "/pa")
  const IN_SLOT := Adapter("", "", "", "", "", "", "Slot", 1, [], "/pb")

  const MAC := "m"

  function Collections(path: string): Content<seq<string>> {
    if path == COMPONENT_INTEGRITY_PATH then Body(["/c"])
    else if path == "/" then Body(["/b"])
    else if path == "/pa" then Body(["/p"])
    else if path == "/pb" then Body([])
    else NotFound
  }

  function Components(path: string): Content<Component> {
    if path == "/c" then Body(DEVICE) else NotFound
  }

  function Adapters(path: string): Content<Adapter> {
    if path == "/a" then Body(TARGETED) else if path == "/b" then Body(IN_SLOT) else NotFound
  }

  function Ports(path: string): Content<seq<string>> {
    if path == "/p" then Body([MAC]) else NotFound
  }

  const TORN := Site(Collections, Components, Adapters, Ports, p => "/", id => Slot(1), s => s, (a, b) => a == b)

  /** Read 0 is the listing and 1 the component; 2, of the adapter it targets, fails. */
  const TARGET_FAILS: Failures := n => n == 2

  const LISTING: seq<Read> :=
    [Read(CollectionRead, COMPONENT_INTEGRITY_PATH, Answered), Read(ComponentRead, "/c", Answered)]

  const SEARCH: seq<Read> := [
    Read(AdapterRead, "/a", Unreachable), Read(CollectionRead, "/", Answered),
    Read(AdapterRead, "/b", Answered), Read(CollectionRead, "/pb", Answered)]

  const SNAPSHOT := Snapshot([DEVICE], ["/c"], [])

  const KEPT := IN_SLOT.(selfURI := "/b")

  const AFTER := State("", Some(SNAPSHOT), map["Slot-1" := Some(KEPT)], map["/pb" := []])

  const MISS := Lookup(MAC, Miss(false), LISTING, SEARCH)

  lemma DeviceIsPresent()
    ensures Present(TORN, MAC)
  {
    assert "/c" in ListedPaths(TORN) && Listed(TORN, DEVICE);
    assert Resolve(TORN, DEVICE) == IsAdapter(TARGETED.(selfURI := "/a"));
    assert Trimmed(TORN, [MAC]) == [MAC] && [] + [MAC] == [MAC];
    assert ScanPorts(TORN, ["/p"], [], MAC) == Hit(MAC);
    assert Reports(TORN, DEVICE, MAC);
  }

  lemma SnapshotIsTaken()
    ensures Snap(TORN, TARGET_FAILS, 0, None) == Reading(Some(SNAPSHOT), LISTING)
  {
    var read := Read(ComponentRead, "/c", Answered);
    assert ["/c"][1..] == [] && ReadMembers(TORN, TARGET_FAILS, 2, []) == Pass([], [], [], []);
    assert ReadMember(TORN, TARGET_FAILS, 1, "/c") == Pass([DEVICE], ["/c"], [], [read]);
    assert ReadMembers(TORN, TARGET_FAILS, 1, ["/c"]) == Pass([DEVICE], ["/c"], [], [read]);
    assert [] + [DEVICE] == [DEVICE] && [] + ["/c"] == ["/c"];
    assert Refresh(TORN, TARGET_FAILS, 1, Snapshot([], [], ["/c"])) == Reading(SNAPSHOT, [read]);
    assert [LISTING[0]] + [read] == LISTING;
  }

  lemma WrongAdapterIsFound()
    ensures ResolveTarget(TORN, TARGET_FAILS, 2, DEVICE) == Reading(IsAdapter(KEPT), SEARCH[..3])
  {
    assert FindInSlot(TORN, TARGET_FAILS, 4, ["/b"], 1)
        == SlotScan(Some(KEPT), false, [Read(AdapterRead, "/b", Answered)]);
  }

  lemma SearchPasses()
    ensures var now := INITIAL.(integrity := Some(SNAPSHOT));
            Search(TORN, TARGET_FAILS, 2, now, [DEVICE], MAC, false) == Effect(Miss(false), AFTER, SEARCH)
  {
    var now := INITIAL.(integrity := Some(SNAPSHOT));
    WrongAdapterIsFound();
    var t := TargetAdapter(TORN, TARGET_FAILS, 2, now, DEVICE);
    assert t.state.portMACs == map[];
    assert AdapterMAC(TORN, TARGET_FAILS, 5, t.state, "/pb", MAC) == Effect(NoHit, AFTER, [SEARCH[3]]);
    assert SEARCH[..3] + [SEARCH[3]] == SEARCH;
    assert TryEntry(TORN, TARGET_FAILS, 2, now, DEVICE, MAC) == Effect(Passed, AFTER, SEARCH);
    assert SEARCH + [] == SEARCH;
  }

  lemma OneInOrder()
    ensures SearchOrder([DEVICE]) == [DEVICE]
  {
    assert Init([DEVICE]) == [] && Keep([], true) == [] && Keep([], false) == [];
    assert Keep([DEVICE], true) == [] && Keep([DEVICE], false) == [DEVICE];
  }

  lemma LookupMisses()
    ensures DoLookup(TORN, TARGET_FAILS, 0, INITIAL, MAC) == Done(AFTER, MISS)
  {
    hide Snap, Search;
    SnapshotIsTaken();
    OneInOrder();
    SearchPasses();
  }

  /**
   * Ids are distinct and case folding is lawful, but slot and URI disagree. The client is
   * made on this BMC and asked for the MAC of a device that is there; one read fails, and
   * it misses without a word of it. Then nothing fails any more: it is asked again, reads
   * nothing, and misses again.
   */
  method MissTheDevice() returns (first: Client.LookupResult, second: Client.LookupResult, made: nat)
    ensures FoldLaw(TORN) && DistinctIds(TORN) && Present(TORN, MAC)
    ensures first == Client.LookupMiss(false) && second == Client.LookupMiss(false) && made == 0
  {
    hide DoLookup, Present;
    var bmc := new Client.Bmc(TORN, TARGET_FAILS);
    var client := new Client.Client(bmc);
    ghost var call;
    LookupMisses();
    first, call := client.ComponentIntegrityFor(MAC);
    LookupMissesAgain(|bmc.log|);
    var before := |bmc.log|;
    second, call := client.ComponentIntegrityFor(MAC);
    made := |bmc.log| - before;
    DeviceIsPresent();
    IdsAreDistinct();
  }

  lemma LookupMissesAgain(n: nat)
    ensures DoLookup(TORN, TARGET_FAILS, n, AFTER, MAC) == Done(AFTER, Lookup(MAC, Miss(false), [], []))
  {
    OneInOrder();
    assert [DEVICE] + [] == [DEVICE] && ["/c"] + [] == ["/c"];
    assert Refresh(TORN, TARGET_FAILS, n, SNAPSHOT) == Reading(SNAPSHOT, []);
    assert TryEntry(TORN, TARGET_FAILS, n, AFTER, DEVICE, MAC) == Effect(Passed, AFTER, []);
    assert AFTER.(integrity := Some(SNAPSHOT)) == AFTER && [DEVICE][1..] == [];
    assert Search(TORN, TARGET_FAILS, n, AFTER, [DEVICE], MAC, false) == Effect(Miss(false), AFTER, []);
  }

  lemma IdsAreDistinct()
    ensures FoldLaw(TORN) && DistinctIds(TORN)
  {
  }

  /** The condition of `CleanMissHappensExactly` says so too. */
  lemma TheConditionHolds()
    ensures Present(TORN, MAC) && CanMissCleanly(TORN, MAC)
  {
    hide DoLookup, CanMissCleanly;
    LookupMisses();
    OneCallIsARun(TORN, TARGET_FAILS, MAC);
    assert MissesCleanly([MISS][0], MAC);
    IdsAreDistinct();
    CleanMissHappensExactly(TORN, MAC);
    DeviceIsPresent();
  }
}
