/**
 * What the NIC enumeration reads from sysfs, and its verdict on one PCI function.
 */
module Sysfs {
  import opened Prelude

  /** The `device` link of a netdev: no PCI function, unreadable, or a function by its address. */
  datatype Link = NotPCI | LinkUnreadable(reason: string) | PciAddress(bdf: string)

  datatype Stat = Present | NotThere | StatFailed(reason: string)

  datatype Entry = Entry(name: string, regular: bool)

  type HardwareAddr = seq<Byte>

  datatype Reason =
    | DeviceLink(reason: string)
    | Group(reason: string)
    | DomainUnreadable(group: string, reason: string)
    | DomainUnknown(group: string, domain: string)
    | OnlyRepresentors
    | BondingUnreadable(reason: string)
    | Enslaved
    | NoUsableMAC

  /**
   * One host. Reading and matching of file contents stands for its result: `group` is a
   * validated IOMMU group number, `domain` a trimmed lower-case group type, and the three
   * addresses are parsed hardware addresses, None when unreadable or malformed.
   */
  datatype Sysfs = Sysfs(
    entries: Option<seq<Entry>>,
    link: string -> Link,
    representor: string -> bool,
    group: string -> Result<string, string>,
    domain: string -> Result<string, string>,
    bondingSlave: string -> Stat,
    permAddress: string -> Option<HardwareAddr>,
    permHwaddr: string -> Option<HardwareAddr>,
    address: string -> Option<HardwareAddr>)

  // ---- exposure

  datatype Exposure = Exposure(group: string, exposed: bool, error: Option<Reason>)

  /** Known domains and whether they translate DMA; anything else is unknown, not protected. */
  function Protects(domain: string): Option<bool> {
    if domain == "dma" || domain == "dma-fq" || domain == "blocked" then Some(true)
    else if domain == "identity" then Some(false)
    else None
  }

  function Classify(fs: Sysfs, iface: string): Exposure {
    match fs.group(iface)
    case Err(e) => Exposure("", false, Some(Group(e)))
    case Ok(group) =>
      match fs.domain(group)
      case Err(e) => Exposure(group, false, Some(DomainUnreadable(group, e)))
      case Ok(domain) =>
        match Protects(domain)
        case None => Exposure(group, false, Some(DomainUnknown(group, domain)))
        case Some(protects) => Exposure(group, !protects, None)
  }

  // ---- the address to join on

  /** Six octets, not multicast, not all zero. */
  predicate Usable(mac: Option<HardwareAddr>) {
    mac.Some? && |mac.value| == 6 && mac.value[0] % 2 == 0 && mac.value != [0, 0, 0, 0, 0, 0]
  }

  function ReadMAC(fs: Sysfs, iface: string): Result<HardwareAddr, Reason> {
    var stat := fs.bondingSlave(iface);
    var second := if stat.NotThere? then fs.address(iface) else fs.permHwaddr(iface);
    if Usable(fs.permAddress(iface)) then Ok(fs.permAddress(iface).value)
    else if Usable(second) then Ok(second.value)
    else
      match stat
      case StatFailed(e) => Err(BondingUnreadable(e))
      case Present => Err(Enslaved)
      case NotThere => Err(NoUsableMAC)
  }

  /** `address` is used only for an interface known not to be enslaved: it may be the bond's otherwise. */
  lemma BondAddressIsNeverUsed(fs: Sysfs, other: string -> Option<HardwareAddr>, iface: string)
    requires !fs.bondingSlave(iface).NotThere?
    ensures ReadMAC(fs, iface) == ReadMAC(fs.(address := other), iface)
  {
  }

  // ---- one PCI function

  /** A PCI function and its netdevs in listing order; representors are kept apart from ports. */
  datatype Function = Function(bdf: string, ports: seq<string>, representors: seq<string>)

  function Netdevs(fn: Function): seq<string> {
    fn.ports + fn.representors
  }

  datatype NIC = NIC(iface: string, bdf: string, group: string, mac: HardwareAddr, forced: bool)

  datatype Undetermined = Undetermined(iface: string, bdf: string, reason: Reason)

  /** Once per PCI function, or per interface when the function could not be resolved. */
  function Key(u: Undetermined): string {
    if u.bdf != "" then u.bdf else u.iface
  }

  function IndexOf(s: seq<string>, x: string): (i: int)
    ensures i == -1 ==> x !in s
    ensures i != -1 ==> 0 <= i < |s| && s[i] == x && x !in s[..i]
  {
    if s == [] then -1
    else if s[0] == x then 0
    else
      var i := IndexOf(s[1..], x);
      assert s == [s[0]] + s[1..];
      if i == -1 then -1 else assert s[..i + 1] == [s[0]] + s[1..][..i]; i + 1
  }

  /** The forced port first, the others in order. */
  function Candidates(fn: Function, forced: string): seq<string> {
    var i := IndexOf(fn.ports, forced);
    if i > 0 then [forced] + fn.ports[..i] + fn.ports[i + 1..] else fn.ports
  }

  /** The first candidate with a usable address, or the reason the first one has none. */
  function FirstMAC(fs: Sysfs, candidates: seq<string>): Result<(string, HardwareAddr), Reason>
    requires candidates != []
  {
    match ReadMAC(fs, candidates[0])
    case Ok(mac) => Ok((candidates[0], mac))
    case Err(e) =>
      if |candidates| == 1 then Err(e)
      else
        match FirstMAC(fs, candidates[1..])
        case Ok(found) => Ok(found)
        case Err(_) => Err(e)
  }

  datatype Verdict = Verdict(nic: Option<NIC>, reasons: seq<Undetermined>)

  predicate IsForced(fn: Function, forced: string) {
    forced != "" && forced in Netdevs(fn)
  }

  /** The verdict on a function: at most one NIC, and the reasons it could not be established. */
  function Judge(fs: Sysfs, forced: string, fn: Function): Verdict
    requires Netdevs(fn) != []
  {
    var lead := Netdevs(fn)[0];
    var c := Classify(fs, lead);
    var unclear := if c.error.Some? then [Undetermined(lead, fn.bdf, c.error.value)] else [];
    if !IsForced(fn, forced) && (c.error.Some? || !c.exposed) then Verdict(None, unclear)
    else Collect(fs, forced, fn, c, unclear)
  }

  function Collect(fs: Sysfs, forced: string, fn: Function, c: Exposure, unclear: seq<Undetermined>): Verdict
    requires Netdevs(fn) != []
  {
    var candidates := Candidates(fn, forced);
    if candidates == [] then Verdict(None, unclear + [Undetermined(Netdevs(fn)[0], fn.bdf, OnlyRepresentors)])
    else
      match FirstMAC(fs, candidates)
      case Ok((iface, mac)) => Verdict(Some(NIC(iface, fn.bdf, c.group, mac, !c.exposed)), unclear)
      case Err(e) => Verdict(None, unclear + [Undetermined(candidates[0], fn.bdf, e)])
  }

  // ---- what forcing does to one verdict

  lemma CandidatesAreThePorts(fn: Function, forced: string)
    ensures forall x :: x in Candidates(fn, forced) <==> x in fn.ports
    ensures Candidates(fn, forced) == [] <==> fn.ports == []
    ensures forced in fn.ports ==> Candidates(fn, forced)[0] == forced
  {
  }

  /** Some candidate has a usable address exactly when an address is found, and it is that candidate's. */
  lemma {:induction false} FirstMACFinds(fs: Sysfs, candidates: seq<string>)
    requires candidates != []
    ensures var r := FirstMAC(fs, candidates);
            && (r.Ok? <==> exists x :: x in candidates && ReadMAC(fs, x).Ok?)
            && (r.Ok? ==> r.value.0 in candidates && ReadMAC(fs, r.value.0) == Ok(r.value.1))
            && (ReadMAC(fs, candidates[0]).Ok? ==> r.Ok? && r.value.0 == candidates[0])
  {
    if |candidates| > 1 {
      FirstMACFinds(fs, candidates[1..]);
      assert candidates == [candidates[0]] + candidates[1..];
    }
  }

  /** A NIC is named after a port of its function, never a representor, with that port's own address. */
  lemma NICIsAPort(fs: Sysfs, forced: string, fn: Function)
    requires Netdevs(fn) != [] && Judge(fs, forced, fn).nic.Some?
    ensures var nic := Judge(fs, forced, fn).nic.value;
            && nic.bdf == fn.bdf && nic.iface in fn.ports && ReadMAC(fs, nic.iface) == Ok(nic.mac)
            && nic.group == Classify(fs, Netdevs(fn)[0]).group
            && nic.forced == !Classify(fs, Netdevs(fn)[0]).exposed
            && (nic.forced ==> IsForced(fn, forced))
            && (IsForced(fn, forced) && forced in fn.ports && ReadMAC(fs, forced).Ok? ==> nic.iface == forced)
  {
    CandidatesAreThePorts(fn, forced);
    FirstMACFinds(fs, Candidates(fn, forced));
  }

  /** A forced port with a usable address is always collected, under its own name. */
  lemma ForcedPortIsCollected(fs: Sysfs, forced: string, fn: Function)
    requires IsForced(fn, forced) && forced in fn.ports && ReadMAC(fs, forced).Ok?
    ensures Judge(fs, forced, fn).nic.Some? && Judge(fs, forced, fn).nic.value.iface == forced
  {
    CandidatesAreThePorts(fn, forced);
    FirstMACFinds(fs, Candidates(fn, forced));
  }

  /** A function that is exposed, unclassifiable or forced yields a NIC or a reason. */
  lemma ExposedIsReported(fs: Sysfs, forced: string, fn: Function)
    requires Netdevs(fn) != []
    ensures var v := Judge(fs, forced, fn); var c := Classify(fs, Netdevs(fn)[0]);
            && (c.error.Some? || c.exposed || IsForced(fn, forced) ==> v.nic.Some? || v.reasons != [])
            && (c.error.Some? ==> v.reasons != [])
  {
  }

  /** Every reason names its function. */
  lemma ReasonsNameTheFunction(fs: Sysfs, forced: string, fn: Function)
    requires Netdevs(fn) != []
    ensures forall k :: 0 <= k < |Judge(fs, forced, fn).reasons| ==> Judge(fs, forced, fn).reasons[k].bdf == fn.bdf
  {
  }

  /** The unforced part of a verdict: what is collected because the function is exposed. */
  function Trusted(nic: Option<NIC>): Option<(string, string)> {
    if nic.Some? && !nic.value.forced then Some((nic.value.bdf, nic.value.group)) else None
  }

  /** Whether some port has a usable address does not depend on the order they are tried in. */
  lemma AddressFoundEitherWay(fs: Sysfs, forced: string, fn: Function)
    requires fn.ports != []
    ensures Candidates(fn, forced) != [] && Candidates(fn, "") != []
    ensures FirstMAC(fs, Candidates(fn, forced)).Ok? == FirstMAC(fs, Candidates(fn, "")).Ok?
  {
    CandidatesAreThePorts(fn, forced);
    CandidatesAreThePorts(fn, "");
    FirstMACFinds(fs, Candidates(fn, forced));
    FirstMACFinds(fs, Candidates(fn, ""));
  }

  /** Forcing changes neither whether an exposed function is collected nor drops every reason. */
  lemma ForcingWidensVerdict(fs: Sysfs, forced: string, fn: Function)
    requires Netdevs(fn) != []
    ensures var v, w := Judge(fs, "", fn), Judge(fs, forced, fn);
            && Trusted(w.nic) == Trusted(v.nic)
            && (v.nic.Some? ==> !v.nic.value.forced)
            && (v.reasons != [] ==> w.reasons != [])
  {
    if fn.ports == [] {
      CandidatesAreThePorts(fn, forced);
      CandidatesAreThePorts(fn, "");
    } else {
      AddressFoundEitherWay(fs, forced, fn);
    }
  }

  /** A function without the forced interface gets the same verdict in both runs. */
  lemma OtherVerdictsAreUnchanged(fs: Sysfs, forced: string, fn: Function)
    requires Netdevs(fn) != [] && !IsForced(fn, forced) && "" !in fn.ports
    ensures Judge(fs, forced, fn) == Judge(fs, "", fn)
  {
  }
}
