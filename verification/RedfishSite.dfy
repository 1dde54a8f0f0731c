/**
 * What a BMC's Redfish service holds, and the reference search over it: the
 * failure-free, uncached meaning of "which SPDM component's adapter reports this
 * MAC". The client in RedfishClient is judged against these definitions.
 */
module RedfishSite {
  import opened Prelude

  const COMPONENT_INTEGRITY_PATH := "/redfish/v1/ComponentIntegrity"
  const MANAGERS_PATH := "/redfish/v1/Managers"

  datatype Measurement = Measurement(index: int, value: string, kind: string, hashAlgorithm: string)

  datatype Component = Component(
    id: string, kind: string, tpmAction: string, spdmAction: string, typeVersion: string,
    targetURI: string, verificationStatus: string, measurementSpecification: string,
    measurements: seq<Measurement>)

  datatype Adapter = Adapter(
    selfURI: string, name: string, model: string, manufacturer: string, partNumber: string,
    serialNumber: string, locationType: string, locationOrdinal: int, controllers: seq<string>,
    ports: string)

  /** The lasting fact about a path: its decoded body, a 404, or a body that does not decode. */
  datatype Content<+T> = Body(value: T) | NotFound | Undecodable

  /** What the slot pattern makes of a component id. */
  datatype SlotName = NoSlot | Unusable | Slot(ordinal: int)

  /**
   * One BMC. A path decodes differently as each resource type. The last four fields
   * stand for library calls: `path.Dir`, the slot pattern with `strconv.Atoi`,
   * `strings.TrimSpace` and `strings.EqualFold`.
   */
  datatype Site = Site(
    collections: string -> Content<seq<string>>,
    components: string -> Content<Component>,
    adapters: string -> Content<Adapter>,
    portMACs: string -> Content<seq<string>>,
    dir: string -> string,
    slotOf: string -> SlotName,
    trim: string -> string,
    equalFold: (string, string) -> bool)

  /** Case folding never equates an empty string with a non-empty one. */
  ghost predicate FoldLaw(site: Site) {
    forall a, b :: site.equalFold(a, b) ==> (a == "" <==> b == "")
  }

  function TrimSlashes(s: string): string {
    if s != "" && s[|s| - 1] == '/' then TrimSlashes(s[..|s| - 1]) else s
  }

  /** The TPM shares the collection with SPDM devices. */
  predicate Searched(c: Component) {
    c.kind == "SPDM" && c.targetURI != ""
  }

  predicate InSlot(a: Adapter, slot: int) {
    a.ports != "" && a.locationType == "Slot" && a.locationOrdinal == slot
  }

  // ---- resolving a component to its adapter

  datatype Resolution = IsAdapter(adapter: Adapter) | NotAdapter | Unknown

  function Resolve(site: Site, c: Component): Resolution {
    var direct := site.adapters(c.targetURI);
    if direct.Body? && direct.value.ports != "" then
      IsAdapter(direct.value.(selfURI := c.targetURI))
    else
      match site.slotOf(c.id)
      case NoSlot => if direct.Body? then NotAdapter else Unknown
      case Unusable => Unknown
      case Slot(n) =>
        match site.collections(site.dir(c.targetURI))
        case Body(refs) => ScanSlot(site, refs, n)
        case _ => Unknown
  }

  /** The first adapter of a collection sitting in slot `n`. */
  function ScanSlot(site: Site, refs: seq<string>, n: int): Resolution {
    if refs == [] then NotAdapter
    else
      match site.adapters(refs[0])
      case Body(a) =>
        if InSlot(a, n) then IsAdapter(a.(selfURI := refs[0])) else ScanSlot(site, refs[1..], n)
      case _ =>
        var rest := ScanSlot(site, refs[1..], n);
        if rest.NotAdapter? then Unknown else rest
  }

  ghost predicate SlotCandidate(site: Site, c: Component, ref: string) {
    && site.slotOf(c.id).Slot?
    && site.collections(site.dir(c.targetURI)).Body?
    && ref in site.collections(site.dir(c.targetURI)).value
    && site.adapters(ref).Body?
    && InSlot(site.adapters(ref).value, site.slotOf(c.id).ordinal)
  }

  ghost predicate DirectCandidate(site: Site, c: Component) {
    site.adapters(c.targetURI).Body? && site.adapters(c.targetURI).value.ports != ""
  }

  /** `a` is what resolving `c` can yield when some reads fail. */
  ghost predicate MayResolve(site: Site, c: Component, a: Adapter) {
    || (DirectCandidate(site, c) && a == site.adapters(c.targetURI).value.(selfURI := c.targetURI))
    || (exists ref :: SlotCandidate(site, c, ref) && a == site.adapters(ref).value.(selfURI := ref))
  }

  lemma {:induction false} ScanSlotFinds(site: Site, refs: seq<string>, n: int)
    ensures ScanSlot(site, refs, n).IsAdapter? ==>
              exists ref :: ref in refs && site.adapters(ref).Body? && InSlot(site.adapters(ref).value, n)
                         && ScanSlot(site, refs, n).adapter == site.adapters(ref).value.(selfURI := ref)
    ensures !ScanSlot(site, refs, n).IsAdapter? ==>
              forall ref :: ref in refs && site.adapters(ref).Body? ==> !InSlot(site.adapters(ref).value, n)
  {
    if refs != [] {
      ScanSlotFinds(site, refs[1..], n);
    }
  }

  // ---- searching an adapter's ports for a MAC

  datatype Scan = Hit(spelled: string) | NoHit | Unreadable

  /** The first entry equal to `mac` up to case, in its own spelling, or "". */
  function MatchMAC(site: Site, macs: seq<string>, mac: string): string {
    if macs == [] then ""
    else if site.equalFold(macs[0], mac) then macs[0]
    else MatchMAC(site, macs[1..], mac)
  }

  function Trimmed(site: Site, macs: seq<string>): (r: seq<string>)
    ensures |r| == |macs|
  {
    seq(|macs|, i requires 0 <= i < |macs| => site.trim(macs[i]))
  }

  function PortScan(site: Site, ports: string, mac: string): Scan {
    if ports == "" then NoHit
    else
      match site.collections(ports)
      case Body(refs) => ScanPorts(site, refs, [], mac)
      case _ => Unreadable
  }

  /** Port by port, stopping at the first match among the MACs gathered so far. */
  function ScanPorts(site: Site, refs: seq<string>, gathered: seq<string>, mac: string): Scan {
    if refs == [] then NoHit
    else
      match site.portMACs(refs[0])
      case Body(ms) =>
        var macs := gathered + Trimmed(site, ms);
        if MatchMAC(site, macs, mac) != "" then Hit(MatchMAC(site, macs, mac))
        else ScanPorts(site, refs[1..], macs, mac)
      case _ =>
        var rest := ScanPorts(site, refs[1..], gathered, mac);
        if rest.NoHit? then Unreadable else rest
  }

  /** All ports' MACs in order, when every port is readable. */
  function AllMACs(site: Site, refs: seq<string>): Option<seq<string>> {
    if refs == [] then Some([])
    else
      match (site.portMACs(refs[0]), AllMACs(site, refs[1..]))
      case (Body(ms), Some(rest)) => Some(Trimmed(site, ms) + rest)
      case _ => None
  }

  function AdapterMACs(site: Site, ports: string): Option<seq<string>> {
    match site.collections(ports)
    case Body(refs) => AllMACs(site, refs)
    case _ => None
  }

  /** Some readable port behind `ports` lists `spelled`, which is `mac` up to case. */
  ghost predicate Carries(site: Site, ports: string, mac: string, spelled: string) {
    && spelled != ""
    && site.equalFold(spelled, mac)
    && ports != ""
    && site.collections(ports).Body?
    && exists ref :: ref in site.collections(ports).value && Lists(site, ref, spelled)
  }

  ghost predicate Lists(site: Site, ref: string, spelled: string) {
    site.portMACs(ref).Body? && spelled in Trimmed(site, site.portMACs(ref).value)
  }

  lemma {:induction false} MatchMACAppend(site: Site, a: seq<string>, b: seq<string>, mac: string)
    ensures MatchMAC(site, a, mac) != "" ==> MatchMAC(site, a + b, mac) == MatchMAC(site, a, mac)
  {
    if a != [] {
      assert (a + b)[1..] == a[1..] + b;
      MatchMACAppend(site, a[1..], b, mac);
    }
  }

  lemma {:induction false} MatchMACSound(site: Site, macs: seq<string>, mac: string)
    ensures var m := MatchMAC(site, macs, mac); m != "" ==> m in macs && site.equalFold(m, mac)
  {
    if macs != [] {
      MatchMACSound(site, macs[1..], mac);
    }
  }

  lemma {:induction false} MatchMACComplete(site: Site, macs: seq<string>, mac: string, spelled: string)
    requires FoldLaw(site)
    requires spelled in macs && spelled != "" && site.equalFold(spelled, mac)
    ensures MatchMAC(site, macs, mac) != ""
  {
    if macs[0] != spelled {
      MatchMACComplete(site, macs[1..], mac, spelled);
    }
  }

  /**
   * Stopping early at a growing prefix of the ports gives the same answer, in the
   * same spelling, as one search over everything the ports list.
   */
  lemma {:induction false} EarlyExitAgrees(site: Site, refs: seq<string>, gathered: seq<string>, mac: string)
    requires AllMACs(site, refs).Some?
    requires MatchMAC(site, gathered, mac) == ""
    ensures var whole := MatchMAC(site, gathered + AllMACs(site, refs).value, mac);
            ScanPorts(site, refs, gathered, mac) == if whole != "" then Hit(whole) else NoHit
  {
    if refs == [] {
      assert gathered + [] == gathered;
    } else {
      var here := gathered + Trimmed(site, site.portMACs(refs[0]).value);
      var rest := AllMACs(site, refs[1..]).value;
      assert gathered + AllMACs(site, refs).value == here + rest;
      if MatchMAC(site, here, mac) != "" {
        MatchMACAppend(site, here, rest, mac);
      } else {
        EarlyExitAgrees(site, refs[1..], here, mac);
      }
    }
  }

  lemma CachedScanAgrees(site: Site, ports: string, mac: string)
    requires ports != "" && AdapterMACs(site, ports).Some?
    ensures var whole := MatchMAC(site, AdapterMACs(site, ports).value, mac);
            PortScan(site, ports, mac) == if whole != "" then Hit(whole) else NoHit
  {
    var macs := AdapterMACs(site, ports).value;
    EarlyExitAgrees(site, site.collections(ports).value, [], mac);
    assert [] + macs == macs;
  }

  lemma {:induction false} ScanPortsFinds(site: Site, refs: seq<string>, gathered: seq<string>, mac: string)
    requires FoldLaw(site)
    requires exists ref, s :: ref in refs && Lists(site, ref, s) && s != "" && site.equalFold(s, mac)
    ensures ScanPorts(site, refs, gathered, mac).Hit?
  {
    var ref, s :| ref in refs && Lists(site, ref, s) && s != "" && site.equalFold(s, mac);
    if ref == refs[0] {
      MatchMACComplete(site, gathered + Trimmed(site, site.portMACs(ref).value), mac, s);
    } else {
      assert ref in refs[1..];
      if site.portMACs(refs[0]).Body? {
        ScanPortsFinds(site, refs[1..], gathered + Trimmed(site, site.portMACs(refs[0]).value), mac);
      } else {
        ScanPortsFinds(site, refs[1..], gathered, mac);
      }
    }
  }

  /** A MAC some readable port lists is found by the failure-free port scan. */
  lemma CarriedIsHit(site: Site, ports: string, mac: string, spelled: string)
    requires FoldLaw(site) && Carries(site, ports, mac, spelled)
    ensures PortScan(site, ports, mac).Hit?
  {
    ScanPortsFinds(site, site.collections(ports).value, [], mac);
  }

  // ---- the whole search

  function Listing(site: Site): Content<seq<string>> {
    site.collections(COMPONENT_INTEGRITY_PATH)
  }

  /** In the failure-free search, `c` resolves to an adapter carrying `mac`. */
  predicate Reports(site: Site, c: Component, mac: string) {
    && Searched(c)
    && Resolve(site, c).IsAdapter?
    && PortScan(site, Resolve(site, c).adapter.ports, mac).Hit?
  }

  function ListedPaths(site: Site): seq<string> {
    match Listing(site)
    case Body(paths) => paths
    case _ => []
  }

  /** `c` is what the BMC serves for some member of the collection. */
  ghost predicate Listed(site: Site, c: Component) {
    exists p :: p in ListedPaths(site) && site.components(p) == Body(c)
  }

  /** The failure-free, uncached search of the whole BMC finds `mac`. */
  ghost predicate Present(site: Site, mac: string) {
    exists c :: Listed(site, c) && Reports(site, c, mac)
  }

  /** An id names one of the components that are searched; others, and those without an id, do not matter. */
  ghost predicate DistinctIds(site: Site) {
    forall c, d :: Listed(site, c) && Searched(c) && Listed(site, d) && Searched(d) && c.id == d.id && c.id != "" ==> c == d
  }

  /**
   * What ties a BMC's two ways of naming an adapter together: an id names one
   * component, and however a component is resolved the same set of ports is reached.
   */
  ghost predicate Consistent(site: Site) {
    && FoldLaw(site)
    && DistinctIds(site)
    && (forall c :: Listed(site, c) && Searched(c) ==> OneDevice(site, c))
  }

  ghost predicate OneDevice(site: Site, c: Component) {
    && (forall r, s :: SlotCandidate(site, c, r) && SlotCandidate(site, c, s)
          ==> site.adapters(r).value.ports == site.adapters(s).value.ports)
    && (forall r :: SlotCandidate(site, c, r) && DirectCandidate(site, c)
          ==> site.adapters(r).value.ports == site.adapters(c.targetURI).value.ports)
  }

  /** However reads fail, a resolved component has the reference adapter's ports. */
  lemma ResolutionAgrees(site: Site, c: Component, a: Adapter)
    requires OneDevice(site, c) && MayResolve(site, c, a)
    ensures Resolve(site, c).IsAdapter? && Resolve(site, c).adapter.ports == a.ports
  {
    if !DirectCandidate(site, c) {
      var ref :| SlotCandidate(site, c, ref) && a == site.adapters(ref).value.(selfURI := ref);
      var refs := site.collections(site.dir(c.targetURI)).value;
      var n := site.slotOf(c.id).ordinal;
      ScanSlotFinds(site, refs, n);
      assert ScanSlot(site, refs, n).IsAdapter?;
      var r :| r in refs && site.adapters(r).Body? && InSlot(site.adapters(r).value, n)
        && ScanSlot(site, refs, n).adapter == site.adapters(r).value.(selfURI := r);
      assert SlotCandidate(site, c, r);
    }
  }
}
