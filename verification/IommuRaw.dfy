/**
 * The enumeration in terms of what sysfs says: the domain an interface's group is in
 * decides what becomes of its function.
 */
module IommuRaw {
  import opened Prelude
  import opened Sysfs
  import opened Iommu
  import opened IommuTheorems

  // ---- exposure

  /** DMA of the interface bypasses translation: its group is in the identity domain. */
  ghost predicate Bypasses(fs: Sysfs, iface: string) {
    fs.group(iface).Ok? && fs.domain(fs.group(iface).value) == Ok("identity")
  }

  /** DMA of the interface is known to be translated or blocked. */
  ghost predicate Contained(fs: Sysfs, iface: string) {
    fs.group(iface).Ok? && fs.domain(fs.group(iface).value) in {Ok("dma"), Ok("dma-fq"), Ok("blocked")}
  }

  /** Why the exposure of an interface that does neither is unknown. */
  function Doubt(fs: Sysfs, iface: string): Reason {
    match fs.group(iface)
    case Err(e) => Group(e)
    case Ok(g) =>
      match fs.domain(g)
      case Err(e) => DomainUnreadable(g, e)
      case Ok(d) => DomainUnknown(g, d)
  }

  /** Exposed is exactly identity, no doubt is exactly that or a known protecting domain, and doubt has its cause. */
  lemma ClassifiedByDomain(fs: Sysfs, iface: string)
    ensures var c := Classify(fs, iface);
            && (c.exposed <==> Bypasses(fs, iface))
            && (c.error.None? <==> Bypasses(fs, iface) || Contained(fs, iface))
            && (c.error.Some? ==> c.error.value == Doubt(fs, iface))
            && c.group == (if fs.group(iface).Ok? then fs.group(iface).value else "")
  {
  }

  // ---- addresses

  /** Six octets of a station: not a group address, and not all zero. */
  ghost predicate IsStation(mac: HardwareAddr) {
    |mac| == 6 && mac[0] % 2 == 0 && exists j :: 0 <= j < 6 && mac[j] != 0
  }

  ghost predicate Gives(a: Option<HardwareAddr>, mac: HardwareAddr) {
    a == Some(mac) && IsStation(mac)
  }

  ghost predicate GivesNone(a: Option<HardwareAddr>) {
    a.None? || !IsStation(a.value)
  }

  lemma UsableIsStation(a: Option<HardwareAddr>)
    ensures Usable(a) <==> a.Some? && IsStation(a.value)
  {
    if a.Some? && |a.value| == 6 && forall j :: 0 <= j < 6 ==> a.value[j] == 0 {
      assert a.value == [0, 0, 0, 0, 0, 0];
    }
  }

  /**
   * The address of an interface is the permanent one; failing that, the one its bond
   * remembers for it, or, only if it is known to be in no bond, the current one; each only
   * if it is a station's.
   */
  lemma AddressExactly(fs: Sysfs, iface: string, mac: HardwareAddr)
    ensures ReadMAC(fs, iface) == Ok(mac) <==>
              || Gives(fs.permAddress(iface), mac)
              || (GivesNone(fs.permAddress(iface)) && fs.bondingSlave(iface) != NotThere && Gives(fs.permHwaddr(iface), mac))
              || (GivesNone(fs.permAddress(iface)) && fs.bondingSlave(iface) == NotThere && Gives(fs.address(iface), mac))
  {
    UsableIsStation(fs.permAddress(iface));
    UsableIsStation(fs.permHwaddr(iface));
    UsableIsStation(fs.address(iface));
  }

  /** Without an address, the reason tells an unreadable bond, a bond, and neither apart. */
  lemma NoAddressExactly(fs: Sysfs, iface: string, e: Reason)
    ensures ReadMAC(fs, iface) == Err(e) <==>
              && GivesNone(fs.permAddress(iface))
              && match fs.bondingSlave(iface)
                 case NotThere => GivesNone(fs.address(iface)) && e == NoUsableMAC
                 case Present => GivesNone(fs.permHwaddr(iface)) && e == Enslaved
                 case StatFailed(why) => GivesNone(fs.permHwaddr(iface)) && e == BondingUnreadable(why)
  {
    UsableIsStation(fs.permAddress(iface));
    UsableIsStation(fs.permHwaddr(iface));
    UsableIsStation(fs.address(iface));
  }

  // ---- the host

  /** Netdevs on one function are the same device, hence in the same group; names hold no ':', addresses do. */
  ghost predicate OneHost(fs: Sysfs) {
    && fs.entries.Some?
    && (forall x, y :: fs.link(x).PciAddress? && fs.link(x) == fs.link(y) ==> fs.group(x) == fs.group(y))
    && (forall e :: e in fs.entries.value && !e.regular ==> ':' !in e.name)
    && (forall e :: e in fs.entries.value && fs.link(e.name).PciAddress? ==> ':' in fs.link(e.name).bdf)
  }

  /** A listed netdev on the PCI function. */
  ghost predicate NetdevAt(fs: Sysfs, iface: string, bdf: string) {
    && fs.entries.Some? && fs.link(iface) == PciAddress(bdf)
    && exists e :: e in fs.entries.value && !e.regular && e.name == iface
  }

  lemma HostIsAlike(fs: Sysfs)
    requires OneHost(fs)
    ensures AlikeOnFunction(fs)
  {
  }

  /** A function whose DMA bypasses translation is reported as such, or it is said why it could not be. */
  lemma IdentityIsReported(fs: Sysfs, forced: string, iface: string, bdf: string)
    requires OneHost(fs) && NetdevAt(fs, iface, bdf) && Bypasses(fs, iface)
    ensures var out := Find(fs, forced).value;
            || (exists nic :: nic in out.nics && nic.bdf == bdf && nic.group == fs.group(iface).value && !nic.forced)
            || (exists u :: u in out.undetermined && u.bdf == bdf)
  {
    HostIsAlike(fs);
    ClassifiedByDomain(fs, iface);
    var e :| e in fs.entries.value && !e.regular && e.name == iface;
    NothingExposedIsEverDropped(fs, forced, e);
    var out := Find(fs, forced).value;
    if nic :| nic in out.nics && nic.bdf == bdf {
      var j :| 0 <= j < |out.nics| && out.nics[j] == nic;
      EveryNICIsHonest(fs, forced, j);
      assert fs.link(nic.iface) == fs.link(iface);
    }
  }

  /** Some netdev on the function that is no representor gives an address. */
  ghost predicate HasAddress(fs: Sysfs, bdf: string) {
    exists x :: NetdevAt(fs, x, bdf) && !fs.representor(x) && ReadMAC(fs, x).Ok?
  }

  lemma CollectsExactly(fs: Sysfs, forced: string, fn: Function)
    requires fs.entries.Some? && fn == FunctionAt(fs, fs.entries.value, fn.bdf) && Netdevs(fn) != []
    requires Bypasses(fs, Netdevs(fn)[0])
    ensures Judge(fs, forced, fn).nic.Some? <==> HasAddress(fs, fn.bdf)
  {
    ClassifiedByDomain(fs, Netdevs(fn)[0]);
    CandidatesAreThePorts(fn, forced);
    forall x
      ensures x in fn.ports <==> NetdevAt(fs, x, fn.bdf) && !fs.representor(x)
    {
      FunctionsPartitionNetdevs(fs, fs.entries.value, fn.bdf, x);
      NetdevOnIsAt(fs, x, fn.bdf);
    }
    if fn.ports != [] {
      FirstMACFinds(fs, Candidates(fn, forced));
    }
  }

  /** Such a function is among the NICs exactly when some port of it gives an address. */
  lemma IdentityIsCollectedExactly(fs: Sysfs, forced: string, iface: string, bdf: string)
    requires OneHost(fs) && NetdevAt(fs, iface, bdf) && Bypasses(fs, iface)
    ensures (exists nic :: nic in Find(fs, forced).value.nics && nic.bdf == bdf) <==> HasAddress(fs, bdf)
  {
    var entries, out := fs.entries.value, Find(fs, forced).value;
    var fns := Functions(fs, entries);
    var e :| e in entries && !e.regular && e.name == iface;
    FindIs(fs, forced);
    var k := FunctionOf(fs, entries, e);
    assert fs.group(Netdevs(fns[k])[0]) == fs.group(iface);
    CollectsExactly(fs, forced, fns[k]);
    if Judge(fs, forced, fns[k]).nic.Some? {
      NICsOfAre(fs, forced, fns, k);
      NICIsAPort(fs, forced, fns[k]);
    }
    if nic :| nic in out.nics && nic.bdf == bdf {
      var j :| 0 <= j < |out.nics| && out.nics[j] == nic;
      var l := NICsComeFromVerdicts(fs, forced, fns, j);
      NICIsAPort(fs, forced, fns[l]);
    }
  }

  lemma {:induction false} HeadIsNoted(out: Out, us: seq<Undetermined>)
    requires us != [] && Key(us[0]) !in out.reported
    ensures us[0] in NoteAll(out, us).undetermined
  {
    if |us| > 1 {
      HeadIsNoted(out, Init(us));
    } else {
      assert Init(us) == [];
    }
  }

  lemma {:induction false} ReasonKeysAreFunctions(fs: Sysfs, forced: string, fns: seq<Function>, x: string)
    requires NoneEmpty(fns) && (forall k :: 0 <= k < |fns| ==> fns[k].bdf != "") && x in ReasonKeys(fs, forced, fns)
    ensures exists k :: 0 <= k < |fns| && fns[k].bdf == x
  {
    ReasonsNameTheFunction(fs, forced, Last(fns));
    if x in ReasonKeys(fs, forced, Init(fns)) {
      ReasonKeysAreFunctions(fs, forced, Init(fns), x);
      var k :| 0 <= k < |Init(fns)| && Init(fns)[k].bdf == x;
      assert fns[k].bdf == x;
    } else {
      assert fns[|fns| - 1].bdf == x;
    }
  }

  /** Of several reasons for one function the first is the one reported. */
  lemma {:induction false} FirstReasonIsKept(fs: Sysfs, forced: string, out: Out, fns: seq<Function>, k: nat)
    requires NoneEmpty(fns) && k < |fns| && Judge(fs, forced, fns[k]).reasons != []
    requires SingleVoiced(out) && out.nics == [] && fns[k].bdf !in out.reported
    requires forall j :: 0 <= j < |fns| ==> fns[j].bdf != "" && (j != k ==> fns[j].bdf != fns[k].bdf)
    ensures Judge(fs, forced, fns[k]).reasons[0] in ReportAll(fs, forced, out, fns).undetermined
  {
    var before, reasons := ReportAll(fs, forced, out, Init(fns)), Judge(fs, forced, fns[k]).reasons;
    if k == |fns| - 1 {
      ReportAllIs(fs, forced, out, Init(fns));
      ReasonsNameTheFunction(fs, forced, fns[k]);
      if fns[k].bdf in ReasonKeys(fs, forced, Init(fns)) {
        ReasonKeysAreFunctions(fs, forced, Init(fns), fns[k].bdf);
      }
      HeadIsNoted(before, reasons);
    } else {
      FirstReasonIsKept(fs, forced, out, Init(fns), k);
      NoteAllSources(before, Judge(fs, forced, Last(fns)).reasons, reasons[0]);
    }
  }

  /** A function whose exposure is unknown has an undetermined entry of its own, with that very reason. */
  lemma DoubtIsReported(fs: Sysfs, forced: string, iface: string, bdf: string)
    requires OneHost(fs) && NetdevAt(fs, iface, bdf) && !Bypasses(fs, iface) && !Contained(fs, iface)
    ensures exists u :: u in Find(fs, forced).value.undetermined && u.bdf == bdf && u.reason == Doubt(fs, iface)
  {
    var entries := fs.entries.value;
    var fns, links := Functions(fs, entries), NoteLinks(fs, entries);
    var e :| e in entries && !e.regular && e.name == iface;
    FunctionsNotEmpty(fs, entries);
    var k := FunctionOf(fs, entries, e);
    NoteLinksIs(fs, entries);
    if bdf in links.reported { LinkKeysAreNames(fs, entries, bdf); }
    AddressesDistinct(fs, entries);
    forall j | 0 <= j < |fns|
      ensures fns[j].bdf != "" && (j != k ==> fns[j].bdf != bdf)
    {
      FunctionHasAddress(fs, entries, j);
    }
    ClassifiedByDomain(fs, Netdevs(fns[k])[0]);
    assert fs.group(Netdevs(fns[k])[0]) == fs.group(iface);
    ExposedIsReported(fs, forced, fns[k]);
    ReasonsNameTheFunction(fs, forced, fns[k]);
    DoubtComesFirst(fs, forced, fns[k]);
    FirstReasonIsKept(fs, forced, links, fns, k);
  }

  lemma DoubtComesFirst(fs: Sysfs, forced: string, fn: Function)
    requires Netdevs(fn) != [] && Classify(fs, Netdevs(fn)[0]).error.Some?
    ensures var reasons := Judge(fs, forced, fn).reasons;
            reasons != [] && reasons[0] == Undetermined(Netdevs(fn)[0], fn.bdf, Classify(fs, Netdevs(fn)[0]).error.value)
  {
  }

  /** A function whose DMA is contained, and is not forced, is not reported at all. */
  lemma ContainedIsSilent(fs: Sysfs, forced: string, iface: string, bdf: string)
    requires OneHost(fs) && NetdevAt(fs, iface, bdf) && Contained(fs, iface) && !NetdevAt(fs, forced, bdf)
    ensures var out := Find(fs, forced).value;
            && (forall nic :: nic in out.nics ==> nic.bdf != bdf)
            && (forall u :: u in out.undetermined ==> u.bdf != bdf)
  {
    HostIsAlike(fs);
    ClassifiedByDomain(fs, iface);
    var entries, out := fs.entries.value, Find(fs, forced).value;
    var fns := Functions(fs, entries);
    FindIs(fs, forced);
    forall nic | nic in out.nics
      ensures nic.bdf != bdf
    {
      var j :| 0 <= j < |out.nics| && out.nics[j] == nic;
      EveryNICIsHonest(fs, forced, j);
      ClassifiedByDomain(fs, nic.iface);
      if nic.bdf == bdf { NetdevOnIsAt(fs, forced, bdf); }
    }
    forall u | u in out.undetermined
      ensures u.bdf != bdf
    {
      SilentFunctionHasNoEntry(fs, forced, iface, bdf, u);
    }
  }

  lemma NetdevOnIsAt(fs: Sysfs, x: string, bdf: string)
    requires fs.entries.Some?
    ensures IsNetdevOn(fs, fs.entries.value, bdf, x) <==> NetdevAt(fs, x, bdf)
  {
    if NetdevAt(fs, x, bdf) {
      var e :| e in fs.entries.value && !e.regular && e.name == x;
      var k :| 0 <= k < |fs.entries.value| && fs.entries.value[k] == e;
      assert OnFunction(fs, fs.entries.value[k], bdf);
    }
    if IsNetdevOn(fs, fs.entries.value, bdf, x) {
      var k :| 0 <= k < |fs.entries.value| && fs.entries.value[k].name == x && OnFunction(fs, fs.entries.value[k], bdf);
      assert fs.entries.value[k] in fs.entries.value;
    }
  }

  /** Entries about functions are reasons of theirs. */
  lemma {:induction false} EntriesAreReasons(fs: Sysfs, forced: string, out: Out, fns: seq<Function>, u: Undetermined)
      returns (k: nat)
    requires NoneEmpty(fns) && u !in out.undetermined && u in ReportAll(fs, forced, out, fns).undetermined
    ensures k < |fns| && u in Judge(fs, forced, fns[k]).reasons
  {
    NoteAllSources(ReportAll(fs, forced, out, Init(fns)), Judge(fs, forced, Last(fns)).reasons, u);
    if u in Judge(fs, forced, Last(fns)).reasons {
      k := |fns| - 1;
    } else {
      k := EntriesAreReasons(fs, forced, out, Init(fns), u);
    }
  }

  lemma SilentFunctionHasNoEntry(fs: Sysfs, forced: string, iface: string, bdf: string, u: Undetermined)
    requires OneHost(fs) && NetdevAt(fs, iface, bdf) && Contained(fs, iface) && !NetdevAt(fs, forced, bdf)
    requires u in Find(fs, forced).value.undetermined
    ensures u.bdf != bdf
  {
    var entries := fs.entries.value;
    var fns, links := Functions(fs, entries), NoteLinks(fs, entries);
    FunctionsNotEmpty(fs, entries);
    var e :| e in entries && !e.regular && e.name == iface;
    assert ':' in bdf;
    if u in links.undetermined {
      LinkEntriesAre(fs, entries, u);
    } else {
      var k := EntriesAreReasons(fs, forced, links, fns, u);
      ReasonsNameTheFunction(fs, forced, fns[k]);
      if u.bdf == bdf {
        ContainedHasNoReason(fs, forced, iface, fns[k]);
      }
    }
  }

  lemma ContainedHasNoReason(fs: Sysfs, forced: string, iface: string, fn: Function)
    requires OneHost(fs) && NetdevAt(fs, iface, fn.bdf) && Contained(fs, iface) && !NetdevAt(fs, forced, fn.bdf)
    requires fn == FunctionAt(fs, fs.entries.value, fn.bdf) && Netdevs(fn) != []
    ensures Judge(fs, forced, fn).reasons == []
  {
    var lead := Netdevs(fn)[0];
    FunctionsPartitionNetdevs(fs, fs.entries.value, fn.bdf, lead);
    FunctionsPartitionNetdevs(fs, fs.entries.value, fn.bdf, forced);
    NetdevOnIsAt(fs, lead, fn.bdf);
    NetdevOnIsAt(fs, forced, fn.bdf);
    assert fs.group(lead) == fs.group(iface);
    ClassifiedByDomain(fs, lead);
  }
}
