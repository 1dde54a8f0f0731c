/** The promises of the NIC enumeration, for any sysfs and any forced interface. */
module IommuTheorems {
  import opened Prelude
  import opened Sysfs
  import opened Iommu

  // ---- the shape of the output

  function Keys(us: seq<Undetermined>): set<string> {
    set k | 0 <= k < |us| :: Key(us[k])
  }

  /** One entry a key, and `reported` is exactly the keys. */
  ghost predicate SingleVoiced(out: Out) {
    && (forall j, k :: 0 <= j < k < |out.undetermined| ==> Key(out.undetermined[j]) != Key(out.undetermined[k]))
    && out.reported == Keys(out.undetermined)
  }

  lemma KeysNext(us: seq<Undetermined>, u: Undetermined)
    ensures Keys(us + [u]) == Keys(us) + {Key(u)}
  {
    var now := us + [u];
    forall x | x in Keys(us) ensures x in Keys(now) {
      var k :| 0 <= k < |us| && Key(us[k]) == x;
      assert Key(now[k]) == x;
    }
    assert Key(now[|us|]) == Key(u);
  }

  lemma NoteKeeps(out: Out, u: Undetermined)
    requires SingleVoiced(out)
    ensures SingleVoiced(Note(out, u)) && Note(out, u).reported == out.reported + {Key(u)} && Note(out, u).nics == out.nics
  {
    KeysNext(out.undetermined, u);
    assert forall k :: 0 <= k < |out.undetermined| ==> Key(out.undetermined[k]) in Keys(out.undetermined);
  }

  lemma {:induction false} NoteAllKeeps(out: Out, us: seq<Undetermined>)
    requires SingleVoiced(out)
    ensures var now := NoteAll(out, us);
            SingleVoiced(now) && now.reported == out.reported + Keys(us) && now.nics == out.nics
  {
    if us != [] {
      NoteAllKeeps(out, Init(us));
      NoteKeeps(NoteAll(out, Init(us)), Last(us));
      KeysNext(Init(us), Last(us));
      assert us == Init(us) + [Last(us)];
    }
  }

  function ReasonKeys(fs: Sysfs, forced: string, fns: seq<Function>): set<string>
    requires NoneEmpty(fns)
  {
    if fns == [] then {} else ReasonKeys(fs, forced, Init(fns)) + Keys(Judge(fs, forced, Last(fns)).reasons)
  }

  function Listed<T>(o: Option<T>): (s: seq<T>) {
    if o.Some? then [o.value] else []
  }

  function NICsOf(fs: Sysfs, forced: string, fns: seq<Function>): seq<NIC>
    requires NoneEmpty(fns)
  {
    if fns == [] then []
    else
      NICsOf(fs, forced, Init(fns)) + Listed(Judge(fs, forced, Last(fns)).nic)
  }

  /** The output of a run: the NICs of the verdicts in order, and one entry for each key of a reason. */
  lemma {:induction false} ReportAllIs(fs: Sysfs, forced: string, out: Out, fns: seq<Function>)
    requires NoneEmpty(fns) && SingleVoiced(out) && out.nics == []
    ensures var now := ReportAll(fs, forced, out, fns);
            && SingleVoiced(now) && now.nics == NICsOf(fs, forced, fns)
            && now.reported == out.reported + ReasonKeys(fs, forced, fns)
  {
    if fns != [] {
      ReportAllIs(fs, forced, out, Init(fns));
      NoteAllKeeps(ReportAll(fs, forced, out, Init(fns)), Judge(fs, forced, Last(fns)).reasons);
    }
  }

  function LinkKeys(fs: Sysfs, entries: seq<Entry>): set<string> {
    if entries == [] then {}
    else
      var e := Last(entries);
      LinkKeys(fs, Init(entries)) + (if !e.regular && fs.link(e.name).LinkUnreadable? then {e.name} else {})
  }

  lemma {:induction false} NoteLinksIs(fs: Sysfs, entries: seq<Entry>)
    ensures var out := NoteLinks(fs, entries);
            SingleVoiced(out) && out.nics == [] && out.reported == LinkKeys(fs, entries)
  {
    if entries != [] {
      NoteLinksIs(fs, Init(entries));
      var e := Last(entries);
      if !e.regular && fs.link(e.name).LinkUnreadable? {
        NoteKeeps(NoteLinks(fs, Init(entries)), Undetermined(e.name, "", DeviceLink(fs.link(e.name).reason)));
      }
    }
  }

  lemma FindIs(fs: Sysfs, forced: string)
    requires fs.entries.Some?
    ensures var entries := fs.entries.value; var fns := Functions(fs, entries); var out := Find(fs, forced).value;
            && NoneEmpty(fns) && SingleVoiced(out) && out.nics == NICsOf(fs, forced, fns)
            && Keys(out.undetermined) == LinkKeys(fs, entries) + ReasonKeys(fs, forced, fns)
  {
    NoteLinksIs(fs, fs.entries.value);
    FunctionsNotEmpty(fs, fs.entries.value);
    ReportAllIs(fs, forced, NoteLinks(fs, fs.entries.value), Functions(fs, fs.entries.value));
  }

  lemma {:induction false} ReasonKeysAre(fs: Sysfs, forced: string, fns: seq<Function>, k: nat)
    requires NoneEmpty(fns) && k < |fns| && Judge(fs, forced, fns[k]).reasons != []
    requires fns[k].bdf != ""
    ensures fns[k].bdf in ReasonKeys(fs, forced, fns)
  {
    if k == |fns| - 1 {
      ReasonsNameTheFunction(fs, forced, fns[k]);
      var reasons := Judge(fs, forced, fns[k]).reasons;
      assert Key(reasons[0]) == fns[k].bdf;
    } else {
      ReasonKeysAre(fs, forced, Init(fns), k);
    }
  }

  lemma {:induction false} NICsOfAre(fs: Sysfs, forced: string, fns: seq<Function>, k: nat)
    requires NoneEmpty(fns) && k < |fns| && Judge(fs, forced, fns[k]).nic.Some?
    ensures Judge(fs, forced, fns[k]).nic.value in NICsOf(fs, forced, fns)
  {
    if k < |fns| - 1 {
      NICsOfAre(fs, forced, Init(fns), k);
    }
  }

  lemma {:induction false} NICsComeFromVerdicts(fs: Sysfs, forced: string, fns: seq<Function>, j: nat) returns (k: nat)
    requires NoneEmpty(fns) && j < |NICsOf(fs, forced, fns)|
    ensures k < |fns| && Judge(fs, forced, fns[k]).nic == Some(NICsOf(fs, forced, fns)[j])
  {
    if j < |NICsOf(fs, forced, Init(fns))| {
      k := NICsComeFromVerdicts(fs, forced, Init(fns), j);
    } else {
      k := |fns| - 1;
    }
  }

  // ---- completeness

  /** All netdevs on one function share its device, hence its exposure. */
  ghost predicate AlikeOnFunction(fs: Sysfs) {
    forall x, y :: fs.link(x).PciAddress? && fs.link(x) == fs.link(y) ==> Classify(fs, x) == Classify(fs, y)
  }

  ghost predicate Mentions(out: Out, bdf: string) {
    || (exists nic :: nic in out.nics && nic.bdf == bdf)
    || HasReason(out, bdf)
  }

  /** Some undetermined entry is about the function itself. */
  ghost predicate HasReason(out: Out, bdf: string) {
    exists u :: u in out.undetermined && u.bdf == bdf
  }

  function LinkEntry(fs: Sysfs, e: Entry): Undetermined
    requires fs.link(e.name).LinkUnreadable?
  {
    Undetermined(e.name, "", DeviceLink(fs.link(e.name).reason))
  }

  lemma {:induction false} LinkEntriesAre(fs: Sysfs, entries: seq<Entry>, u: Undetermined)
    requires u in NoteLinks(fs, entries).undetermined
    ensures u.bdf == "" && fs.link(u.iface).LinkUnreadable? && u.reason == DeviceLink(fs.link(u.iface).reason)
  {
    if u in NoteLinks(fs, Init(entries)).undetermined {
      LinkEntriesAre(fs, Init(entries), u);
    }
  }

  lemma {:induction false} LinkIsNoted(fs: Sysfs, entries: seq<Entry>, e: Entry)
    requires e in entries && !e.regular && fs.link(e.name).LinkUnreadable?
    ensures LinkEntry(fs, e) in NoteLinks(fs, entries).undetermined
  {
    var before := NoteLinks(fs, Init(entries));
    if e != Last(entries) {
      assert entries == Init(entries) + [Last(entries)];
      LinkIsNoted(fs, Init(entries), e);
    } else if e.name in before.reported {
      NoteLinksIs(fs, Init(entries));
      var k :| 0 <= k < |before.undetermined| && Key(before.undetermined[k]) == e.name;
      LinkEntriesAre(fs, Init(entries), before.undetermined[k]);
      assert before.undetermined[k] == LinkEntry(fs, e);
    }
  }

  lemma {:induction false} NoteAllSources(out: Out, us: seq<Undetermined>, u: Undetermined)
    ensures u in out.undetermined ==> u in NoteAll(out, us).undetermined
    ensures u in NoteAll(out, us).undetermined ==> u in out.undetermined || u in us
  {
    if us != [] {
      NoteAllSources(out, Init(us), u);
      assert us == Init(us) + [Last(us)];
    }
  }

  /** Every entry was there before or is about one of the functions, and none is lost. */
  lemma {:induction false} ReportAllSources(fs: Sysfs, forced: string, out: Out, fns: seq<Function>, u: Undetermined)
    requires NoneEmpty(fns)
    ensures u in out.undetermined ==> u in ReportAll(fs, forced, out, fns).undetermined
    ensures u in ReportAll(fs, forced, out, fns).undetermined ==>
              u in out.undetermined || exists k :: 0 <= k < |fns| && fns[k].bdf == u.bdf
  {
    if fns != [] {
      var fn := Last(fns);
      ReportAllSources(fs, forced, out, Init(fns), u);
      NoteAllSources(ReportAll(fs, forced, out, Init(fns)), Judge(fs, forced, fn).reasons, u);
      ReasonsNameTheFunction(fs, forced, fn);
      if u in Judge(fs, forced, fn).reasons {
        assert fns[|fns| - 1].bdf == u.bdf;
      } else if k :| 0 <= k < |Init(fns)| && Init(fns)[k].bdf == u.bdf {
        assert fns[k].bdf == u.bdf;
      }
    }
  }

  lemma FunctionOf(fs: Sysfs, entries: seq<Entry>, e: Entry) returns (k: nat)
    requires e in entries && !e.regular && fs.link(e.name).PciAddress?
    ensures k < |Functions(fs, entries)| && Functions(fs, entries)[k] == FunctionAt(fs, entries, fs.link(e.name).bdf)
    ensures e.name in Netdevs(Functions(fs, entries)[k])
    ensures fs.link(Netdevs(Functions(fs, entries)[k])[0]) == fs.link(e.name)
  {
    var bdf := fs.link(e.name).bdf;
    var i :| 0 <= i < |entries| && entries[i] == e;
    assert OnFunction(fs, entries[i], bdf);
    AddressesAre(fs, entries, bdf);
    k :| 0 <= k < |Addresses(fs, entries)| && Addresses(fs, entries)[k] == bdf;
    var fn := FunctionAt(fs, entries, bdf);
    FunctionsPartitionNetdevs(fs, entries, bdf, e.name);
    FunctionsPartitionNetdevs(fs, entries, bdf, Netdevs(fn)[0]);
  }

  /** A netdev whose device link is unreadable is reported, under its own name and with that reason. */
  lemma UnreadableLinkIsReported(fs: Sysfs, forced: string, e: Entry)
    requires fs.entries.Some? && e in fs.entries.value && !e.regular && fs.link(e.name).LinkUnreadable?
    ensures LinkEntry(fs, e) in Find(fs, forced).value.undetermined
  {
    var entries := fs.entries.value;
    LinkIsNoted(fs, entries, e);
    FunctionsNotEmpty(fs, entries);
    ReportAllSources(fs, forced, NoteLinks(fs, entries), Functions(fs, entries), LinkEntry(fs, e));
  }

  /** A netdev with an unreadable device link bears the function's address as its name. */
  ghost predicate Shadowed(fs: Sysfs, bdf: string) {
    fs.entries.Some? && exists e :: e in fs.entries.value && !e.regular && e.name == bdf && fs.link(bdf).LinkUnreadable?
  }

  lemma {:induction false} LinkKeysAreNames(fs: Sysfs, entries: seq<Entry>, x: string)
    requires x in LinkKeys(fs, entries)
    ensures fs.link(x).LinkUnreadable? && exists e :: e in entries && !e.regular && e.name == x
  {
    var e := Last(entries);
    if x in LinkKeys(fs, Init(entries)) {
      LinkKeysAreNames(fs, Init(entries), x);
      assert entries == Init(entries) + [e];
    } else {
      assert e in entries && e.name == x;
    }
  }

  lemma FunctionHasAddress(fs: Sysfs, entries: seq<Entry>, k: nat)
    requires k < |Functions(fs, entries)| && forall e :: e in entries ==> fs.link(e.name) != PciAddress("")
    ensures Functions(fs, entries)[k].bdf != ""
  {
    var bdf := Functions(fs, entries)[k].bdf;
    AddressesAre(fs, entries, bdf);
    assert bdf in Addresses(fs, entries);
    var i :| 0 <= i < |entries| && OnFunction(fs, entries[i], bdf);
    assert entries[i] in entries;
  }

  /**
   * Two kinds of key share one table, names and addresses. A function with a reason to be
   * reported has an entry of its own exactly when no unreadable netdev is named like its address.
   */
  lemma ReasonIsKeptUnlessShadowed(fs: Sysfs, forced: string, k: nat)
    requires fs.entries.Some? && k < |Functions(fs, fs.entries.value)|
    requires forall e :: e in fs.entries.value ==> fs.link(e.name) != PciAddress("")
    requires Netdevs(Functions(fs, fs.entries.value)[k]) != []
    requires Judge(fs, forced, Functions(fs, fs.entries.value)[k]).reasons != []
    ensures var bdf := Functions(fs, fs.entries.value)[k].bdf;
            HasReason(Find(fs, forced).value, bdf) <==> !Shadowed(fs, bdf)
  {
    var entries, out := fs.entries.value, Find(fs, forced).value;
    var fns, links := Functions(fs, entries), NoteLinks(fs, entries);
    var bdf := fns[k].bdf;
    FindIs(fs, forced);
    FunctionHasAddress(fs, entries, k);
    if Shadowed(fs, bdf) {
      var e :| e in entries && !e.regular && e.name == bdf && fs.link(bdf).LinkUnreadable?;
      UnreadableLinkIsReported(fs, forced, e);
      OneEntryAKey(out, LinkEntry(fs, e), bdf);
    } else {
      ReasonKeysAre(fs, forced, fns, k);
      assert bdf in Keys(out.undetermined);
      var j :| 0 <= j < |out.undetermined| && Key(out.undetermined[j]) == bdf;
      var u := out.undetermined[j];
      ReportAllSources(fs, forced, links, fns, u);
      if u in links.undetermined {
        NoteLinksIs(fs, entries);
        assert bdf in LinkKeys(fs, entries);
        LinkKeysAreNames(fs, entries, bdf);
        assert false;
      } else {
        var i :| 0 <= i < |fns| && fns[i].bdf == u.bdf;
        FunctionHasAddress(fs, entries, i);
        assert u.bdf == bdf;
      }
    }
  }

  lemma OneEntryAKey(out: Out, u: Undetermined, key: string)
    requires SingleVoiced(out) && u in out.undetermined && u.bdf == "" && Key(u) == key && key != ""
    ensures !HasReason(out, key)
  {
  }

  /**
   * Nothing exposed or unknown is dropped: the function behind every netdev that is in
   * passthrough, or cannot be classified, is among the NICs or has an undetermined entry
   * of its own.
   */
  lemma NothingExposedIsDropped(fs: Sysfs, forced: string, e: Entry)
    requires AlikeOnFunction(fs) && fs.entries.Some? && e in fs.entries.value && !e.regular
    requires forall e :: e in fs.entries.value ==> fs.link(e.name) != PciAddress("")
    requires fs.link(e.name).PciAddress? && !Shadowed(fs, fs.link(e.name).bdf)
    requires Classify(fs, e.name).error.Some? || Classify(fs, e.name).exposed
    ensures Mentions(Find(fs, forced).value, fs.link(e.name).bdf)
    ensures Classify(fs, e.name).error.Some? ==> HasReason(Find(fs, forced).value, fs.link(e.name).bdf)
  {
    var entries, out := fs.entries.value, Find(fs, forced).value;
    var fns := Functions(fs, entries);
    FindIs(fs, forced);
    var k := FunctionOf(fs, entries, e);
    ExposedIsReported(fs, forced, fns[k]);
    if Judge(fs, forced, fns[k]).reasons != [] {
      ReasonIsKeptUnlessShadowed(fs, forced, k);
    } else {
      NICsOfAre(fs, forced, fns, k);
      NICIsAPort(fs, forced, fns[k]);
      assert Judge(fs, forced, fns[k]).nic.value in out.nics;
    }
  }

  /**
   * On a real host no name is an address: Linux refuses ':' in the name of an interface,
   * and every PCI address holds one. So nothing is ever shadowed.
   */
  ghost predicate NamesHoldNoColon(entries: seq<Entry>) {
    forall e :: e in entries && !e.regular ==> ':' !in e.name
  }

  lemma NothingExposedIsEverDropped(fs: Sysfs, forced: string, e: Entry)
    requires AlikeOnFunction(fs) && fs.entries.Some? && NamesHoldNoColon(fs.entries.value)
    requires forall d :: d in fs.entries.value && fs.link(d.name).PciAddress? ==> ':' in fs.link(d.name).bdf
    requires e in fs.entries.value && !e.regular && fs.link(e.name).PciAddress?
    requires Classify(fs, e.name).error.Some? || Classify(fs, e.name).exposed
    ensures Mentions(Find(fs, forced).value, fs.link(e.name).bdf)
    ensures Classify(fs, e.name).error.Some? ==> HasReason(Find(fs, forced).value, fs.link(e.name).bdf)
  {
    NothingExposedIsDropped(fs, forced, e);
  }

  // ---- single voice

  /** Each key has one undetermined entry, and each function at most one NIC. */
  lemma EachIsReportedOnce(fs: Sysfs, forced: string)
    requires fs.entries.Some?
    ensures var out := Find(fs, forced).value;
            && (forall j, k :: 0 <= j < k < |out.undetermined| ==> Key(out.undetermined[j]) != Key(out.undetermined[k]))
            && DistinctAddresses(out.nics)
  {
    FindIs(fs, forced);
    AddressesDistinct(fs, fs.entries.value);
    NICAddressesDistinct(fs, forced, Functions(fs, fs.entries.value));
  }

  ghost predicate DistinctAddresses(nics: seq<NIC>) {
    forall j, k :: 0 <= j < k < |nics| ==> nics[j].bdf != nics[k].bdf
  }

  lemma DistinctWithOneMore(nics: seq<NIC>, nic: NIC)
    requires DistinctAddresses(nics) && forall j :: 0 <= j < |nics| ==> nics[j].bdf != nic.bdf
    ensures DistinctAddresses(nics + [nic])
  {
  }

  lemma {:induction false} NICAddressesDistinct(fs: Sysfs, forced: string, fns: seq<Function>)
    requires NoneEmpty(fns) && forall j, k :: 0 <= j < k < |fns| ==> fns[j].bdf != fns[k].bdf
    ensures DistinctAddresses(NICsOf(fs, forced, fns))
  {
    if fns != [] {
      NICAddressesDistinct(fs, forced, Init(fns));
      if Judge(fs, forced, Last(fns)).nic.Some? {
        var before, nic := NICsOf(fs, forced, Init(fns)), Judge(fs, forced, Last(fns)).nic.value;
        NICIsAPort(fs, forced, Last(fns));
        forall j | 0 <= j < |before| ensures before[j].bdf != nic.bdf {
          var k := NICsComeFromVerdicts(fs, forced, Init(fns), j);
          NICIsAPort(fs, forced, Init(fns)[k]);
        }
        DistinctWithOneMore(before, nic);
      }
    }
  }

  /**
   * What a NIC entry says is so: its interface is a listed netdev on its function, never
   * a representor, with the address it is joined on its own; it is collected because the
   * function is exposed, or else marked forced and the forced interface is on it.
   */
  lemma EveryNICIsHonest(fs: Sysfs, forced: string, j: nat)
    requires fs.entries.Some? && AlikeOnFunction(fs) && j < |Find(fs, forced).value.nics|
    ensures var nic := Find(fs, forced).value.nics[j];
            && IsNetdevOn(fs, fs.entries.value, nic.bdf, nic.iface) && !fs.representor(nic.iface)
            && ReadMAC(fs, nic.iface) == Ok(nic.mac)
            && nic.group == Classify(fs, nic.iface).group
            && (nic.forced <==> !Classify(fs, nic.iface).exposed)
            && (nic.forced ==> forced != "" && IsNetdevOn(fs, fs.entries.value, nic.bdf, forced))
  {
    FindIs(fs, forced);
    var entries := fs.entries.value;
    var fns := Functions(fs, entries);
    var k := NICsComeFromVerdicts(fs, forced, fns, j);
    var fn, nic := fns[k], Find(fs, forced).value.nics[j];
    NICIsAPort(fs, forced, fn);
    FunctionsPartitionNetdevs(fs, entries, fn.bdf, nic.iface);
    FunctionsPartitionNetdevs(fs, entries, fn.bdf, Netdevs(fn)[0]);
    FunctionsPartitionNetdevs(fs, entries, fn.bdf, forced);
  }

  // ---- forcing only widens

  /** What is reported because it is exposed: the functions and groups of the NICs not marked forced. */
  function Exposed(nics: seq<NIC>): seq<(string, string)> {
    if nics == [] then []
    else Exposed(Init(nics)) + (if Last(nics).forced then [] else [(Last(nics).bdf, Last(nics).group)])
  }

  ghost predicate NoneForced(nics: seq<NIC>) {
    forall j :: 0 <= j < |nics| ==> !nics[j].forced
  }

  lemma ExposedNext(nics: seq<NIC>, nic: Option<NIC>)
    ensures Exposed(nics + Listed(nic)) == Exposed(nics) + Listed(Trusted(nic))
    ensures NoneForced(nics) && (nic.Some? ==> !nic.value.forced) ==> NoneForced(nics + Listed(nic))
  {
    if nic.Some? {
      assert Init(nics + [nic.value]) == nics;
    } else {
      assert nics + Listed(nic) == nics;
    }
  }

  lemma {:induction false} ForcedRunSeesTheSameExposure(fs: Sysfs, forced: string, fns: seq<Function>)
    requires NoneEmpty(fns)
    ensures Exposed(NICsOf(fs, forced, fns)) == Exposed(NICsOf(fs, "", fns))
    ensures NoneForced(NICsOf(fs, "", fns))
  {
    if fns != [] {
      ForcedRunSeesTheSameExposure(fs, forced, Init(fns));
      ForcingWidensVerdict(fs, forced, Last(fns));
      ExposedNext(NICsOf(fs, "", Init(fns)), Judge(fs, "", Last(fns)).nic);
      ExposedNext(NICsOf(fs, forced, Init(fns)), Judge(fs, forced, Last(fns)).nic);
    }
  }

  lemma {:induction false} ForcedRunKeepsReasons(fs: Sysfs, forced: string, fns: seq<Function>)
    requires NoneEmpty(fns) && forall k :: 0 <= k < |fns| ==> fns[k].bdf != ""
    ensures ReasonKeys(fs, "", fns) <= ReasonKeys(fs, forced, fns)
  {
    if fns != [] {
      var fn := Last(fns);
      ForcedRunKeepsReasons(fs, forced, Init(fns));
      ForcingWidensVerdict(fs, forced, fn);
      ReasonsNameTheFunction(fs, "", fn);
      if Judge(fs, "", fn).reasons != [] {
        ReasonKeysAre(fs, forced, fns, |fns| - 1);
      }
      assert Keys(Judge(fs, "", fn).reasons) <= {fn.bdf};
    }
  }

  /**
   * Forcing only widens what is collected, never what is trusted: for any sysfs and any
   * forced name, the functions reported as exposed, with their groups and in their order,
   * are exactly those of the unforced run, which marks none as forced; and every
   * undetermined key of the unforced run is still there.
   */
  lemma ForcingOnlyWidens(fs: Sysfs, forced: string)
    requires fs.entries.Some? && forall e :: e in fs.entries.value ==> fs.link(e.name) != PciAddress("")
    ensures var plain, wide := Find(fs, "").value, Find(fs, forced).value;
            && Exposed(wide.nics) == Exposed(plain.nics)
            && NoneForced(plain.nics)
            && Keys(plain.undetermined) <= Keys(wide.undetermined)
  {
    FindIs(fs, "");
    FindIs(fs, forced);
    var entries := fs.entries.value;
    var fns := Functions(fs, entries);
    forall k | 0 <= k < |fns| ensures fns[k].bdf != "" {
      FunctionHasAddress(fs, entries, k);
    }
    ForcedRunSeesTheSameExposure(fs, forced, fns);
    ForcedRunKeepsReasons(fs, forced, fns);
  }

  /** A forced port with a usable address is collected under the name it was given. */
  lemma ForcedPortIsReported(fs: Sysfs, forced: string, e: Entry)
    requires fs.entries.Some? && e in fs.entries.value && !e.regular && e.name == forced && forced != ""
    requires fs.link(forced).PciAddress? && !fs.representor(forced) && ReadMAC(fs, forced).Ok?
    ensures exists j :: 0 <= j < |Find(fs, forced).value.nics| && Find(fs, forced).value.nics[j].iface == forced
                     && Find(fs, forced).value.nics[j].bdf == fs.link(forced).bdf
  {
    FindIs(fs, forced);
    var entries, out := fs.entries.value, Find(fs, forced).value;
    var fns := Functions(fs, entries);
    var k := FunctionOf(fs, entries, e);
    FunctionsPartitionNetdevs(fs, entries, fs.link(forced).bdf, forced);
    FunctionsPartitionNetdevs(fs, entries, fs.link(forced).bdf, e.name);
    ForcedPortIsCollected(fs, forced, fns[k]);
    NICIsAPort(fs, forced, fns[k]);
    NICsOfAre(fs, forced, fns, k);
    var j :| 0 <= j < |out.nics| && out.nics[j] == Judge(fs, forced, fns[k]).nic.value;
  }
}
