/**
 * What the reference search means in the fields of the BMC's own resources: the notions of
 * RedfishSite spelled out, so that what is proved with them can be read without them.
 */
module RedfishRaw {
  import opened Prelude
  import opened RedfishSite

  // ---- trailing slashes

  /** `s` is the stem followed by slashes only. */
  ghost predicate SlashesAfter(stem: string, s: string) {
    stem <= s && forall i :: |stem| <= i < |s| ==> s[i] == '/'
  }

  /** Two paths that differ at most in their trailing slashes. */
  ghost predicate SameButSlashes(a: string, b: string) {
    exists stem :: SlashesAfter(stem, a) && SlashesAfter(stem, b)
  }

  /** All trailing slashes are cut, and nothing else. */
  lemma {:induction false} TrimSlashesTrims(s: string)
    ensures var t := TrimSlashes(s); SlashesAfter(t, s) && (t == "" || t[|t| - 1] != '/')
  {
    if s != "" && s[|s| - 1] == '/' {
      TrimSlashesTrims(s[..|s| - 1]);
    }
  }

  lemma {:induction false} SlashesAreCut(stem: string, s: string)
    requires SlashesAfter(stem, s)
    ensures TrimSlashes(s) == TrimSlashes(stem)
    decreases |s|
  {
    if |s| > |stem| {
      SlashesAreCut(stem, s[..|s| - 1]);
    } else {
      assert s == stem;
    }
  }

  lemma TrimSlashesEqual(a: string, b: string)
    ensures TrimSlashes(a) == TrimSlashes(b) <==> SameButSlashes(a, b)
  {
    TrimSlashesTrims(a);
    TrimSlashesTrims(b);
    if stem :| SlashesAfter(stem, a) && SlashesAfter(stem, b) {
      SlashesAreCut(stem, a);
      SlashesAreCut(stem, b);
    }
  }

  // ---- the MACs of an adapter

  /** How many MACs the first `i` ports list. */
  function Before(site: Site, refs: seq<string>, i: nat): nat
    requires i <= |refs|
  {
    if i == 0 then 0
    else Before(site, refs, i - 1) + (match site.portMACs(refs[i - 1]) case Body(macs) => |macs| case _ => 0)
  }

  lemma {:induction false} BeforeShifted(site: Site, refs: seq<string>, i: nat)
    requires 0 < i <= |refs| && site.portMACs(refs[0]).Body?
    ensures Before(site, refs, i) == |site.portMACs(refs[0]).value| + Before(site, refs[1..], i - 1)
  {
    if i > 1 {
      BeforeShifted(site, refs, i - 1);
    }
  }

  /** Entry `k` of port `i` stands in the list after all entries of the ports before, trimmed. */
  ghost predicate EntryListed(site: Site, refs: seq<string>, macs: seq<string>, i: nat, k: nat) {
    i < |refs| && site.portMACs(refs[i]).Body? && k < |site.portMACs(refs[i]).value| ==>
      Before(site, refs, i) + k < |macs| && macs[Before(site, refs, i) + k] == site.trim(site.portMACs(refs[i]).value[k])
  }

  /** Every port is readable, and entry by entry the list is the ports' own entries in order, trimmed. */
  ghost predicate ListsPorts(site: Site, refs: seq<string>, macs: seq<string>) {
    && (forall i :: 0 <= i < |refs| ==> site.portMACs(refs[i]).Body?)
    && |macs| == Before(site, refs, |refs|)
    && forall i: nat, k: nat :: EntryListed(site, refs, macs, i, k)
  }

  lemma {:induction false} AllMACsLists(site: Site, refs: seq<string>)
    ensures AllMACs(site, refs).Some? <==> forall i :: 0 <= i < |refs| ==> site.portMACs(refs[i]).Body?
    ensures AllMACs(site, refs).Some? ==> ListsPorts(site, refs, AllMACs(site, refs).value)
  {
    if refs != [] {
      AllMACsLists(site, refs[1..]);
      assert forall i :: 1 <= i < |refs| ==> refs[i] == refs[1..][i - 1];
      if AllMACs(site, refs).Some? {
        forall i | 0 <= i < |refs| ensures site.portMACs(refs[i]).Body? {
          if i > 0 { assert site.portMACs(refs[1..][i - 1]).Body?; }
        }
        FirstPortThenRest(site, refs, AllMACs(site, refs[1..]).value);
      }
    }
  }

  lemma FirstPortThenRest(site: Site, refs: seq<string>, rest: seq<string>)
    requires refs != [] && (forall i :: 0 <= i < |refs| ==> site.portMACs(refs[i]).Body?) && ListsPorts(site, refs[1..], rest)
    ensures ListsPorts(site, refs, Trimmed(site, site.portMACs(refs[0]).value) + rest)
  {
    var macs := Trimmed(site, site.portMACs(refs[0]).value) + rest;
    BeforeShifted(site, refs, |refs|);
    assert |macs| == Before(site, refs, |refs|);
    forall i: nat, k: nat
      ensures EntryListed(site, refs, macs, i, k)
    {
      if 0 < i < |refs| {
        BeforeShifted(site, refs, i);
        assert refs[1..][i - 1] == refs[i];
        assert EntryListed(site, refs[1..], rest, i - 1, k);
      }
    }
  }

  /** A match is the first entry that is the MAC up to case, as it stands there; without one no entry but "" is. */
  lemma {:induction false} MatchIsTheFirst(site: Site, macs: seq<string>, mac: string)
    requires FoldLaw(site)
    ensures var m := MatchMAC(site, macs, mac);
            if m != "" then
              exists i :: 0 <= i < |macs| && macs[i] == m && site.equalFold(m, mac)
                       && forall j :: 0 <= j < i ==> !site.equalFold(macs[j], mac)
            else forall i :: 0 <= i < |macs| && macs[i] != "" ==> !site.equalFold(macs[i], mac)
  {
    if macs != [] {
      MatchIsTheFirst(site, macs[1..], mac);
      var m := MatchMAC(site, macs, mac);
      if site.equalFold(macs[0], mac) {
        assert macs[0] == m;
      } else if m != "" {
        var i :| 0 <= i < |macs[1..]| && macs[1..][i] == m && site.equalFold(m, mac)
          && forall j :: 0 <= j < i ==> !site.equalFold(macs[1..][j], mac);
        assert macs[i + 1] == m;
        assert forall j :: 1 <= j < i + 1 ==> macs[j] == macs[1..][j - 1];
      } else {
        assert forall j :: 1 <= j < |macs| ==> macs[j] == macs[1..][j - 1];
      }
    }
  }

  // ---- a device on the BMC

  /**
   * The component at path `member` is of the collection and an SPDM device; the adapter at
   * path `at` is the one it targets, or one of its target's collection in the slot its id
   * names; and entry `k` of the port at path `port`, one of the adapter's, is the MAC up to
   * case once trimmed.
   */
  ghost predicate OnBmc(site: Site, mac: string, member: string, at: string, port: string, k: nat) {
    && site.collections("/redfish/v1/ComponentIntegrity").Body?
    && member in site.collections("/redfish/v1/ComponentIntegrity").value
    && site.components(member).Body?
    && var c := site.components(member).value;
    && c.kind == "SPDM" && c.targetURI != ""
    && site.adapters(at).Body?
    && var a := site.adapters(at).value;
    && a.ports != ""
    && (at == c.targetURI
        || (&& site.slotOf(c.id).Slot?
            && site.collections(site.dir(c.targetURI)).Body?
            && at in site.collections(site.dir(c.targetURI)).value
            && a.locationType == "Slot" && a.locationOrdinal == site.slotOf(c.id).ordinal))
    && site.collections(a.ports).Body?
    && port in site.collections(a.ports).value
    && site.portMACs(port).Body?
    && k < |site.portMACs(port).value|
    && site.trim(site.portMACs(port).value[k]) != ""
    && site.equalFold(site.trim(site.portMACs(port).value[k]), mac)
  }

  lemma CarriedAtPort(site: Site, ports: string, mac: string, spelled: string) returns (port: string, k: nat)
    requires Carries(site, ports, mac, spelled)
    ensures ports != "" && site.collections(ports).Body? && port in site.collections(ports).value
    ensures site.portMACs(port).Body? && k < |site.portMACs(port).value| && site.trim(site.portMACs(port).value[k]) == spelled
    ensures spelled != "" && site.equalFold(spelled, mac)
  {
    port :| port in site.collections(ports).value && Lists(site, port, spelled);
    k :| 0 <= k < |Trimmed(site, site.portMACs(port).value)| && Trimmed(site, site.portMACs(port).value)[k] == spelled;
  }

  /** A component that may resolve to an adapter carrying the MAC is a device on the BMC. */
  lemma CarriedIsOnBmc(site: Site, member: string, c: Component, a: Adapter, mac: string, spelled: string)
      returns (at: string, port: string, k: nat)
    requires member in ListedPaths(site) && site.components(member) == Body(c) && Searched(c)
    requires MayResolve(site, c, a) && Carries(site, a.ports, mac, spelled)
    ensures OnBmc(site, mac, member, at, port, k)
    ensures a == site.adapters(at).value.(selfURI := at) && site.trim(site.portMACs(port).value[k]) == spelled
  {
    port, k := CarriedAtPort(site, a.ports, mac, spelled);
    if DirectCandidate(site, c) && a == site.adapters(c.targetURI).value.(selfURI := c.targetURI) {
      at := c.targetURI;
    } else {
      at :| SlotCandidate(site, c, at) && a == site.adapters(at).value.(selfURI := at);
    }
  }

  lemma OnBmcIsCarried(site: Site, mac: string, member: string, at: string, port: string, k: nat)
    requires OnBmc(site, mac, member, at, port, k)
    ensures var c, a := site.components(member).value, site.adapters(at).value.(selfURI := at);
            && Listed(site, c) && Searched(c) && MayResolve(site, c, a)
            && Carries(site, a.ports, mac, site.trim(site.portMACs(port).value[k]))
  {
    var c, a := site.components(member).value, site.adapters(at).value.(selfURI := at);
    var macs := site.portMACs(port).value;
    assert Trimmed(site, macs)[k] == site.trim(macs[k]);
    assert Lists(site, port, site.trim(macs[k]));
    if at == c.targetURI {
      assert DirectCandidate(site, c);
    } else {
      assert SlotCandidate(site, c, at);
    }
  }

  // ---- resolving and scanning

  /** A readable adapter with ports, in the slot. */
  ghost predicate SitsIn(site: Site, at: string, n: int) {
    && site.adapters(at).Body? && site.adapters(at).value.ports != ""
    && site.adapters(at).value.locationType == "Slot" && site.adapters(at).value.locationOrdinal == n
  }

  /** The component's own adapter, or one in its slot: exactly then it resolves to an adapter, its own if it has one. */
  lemma ResolvesExactly(site: Site, c: Component)
    ensures var direct := site.adapters(c.targetURI);
            Resolve(site, c).IsAdapter? <==>
              || (direct.Body? && direct.value.ports != "")
              || (&& site.slotOf(c.id).Slot? && site.collections(site.dir(c.targetURI)).Body?
                  && exists at :: at in site.collections(site.dir(c.targetURI)).value
                               && SitsIn(site, at, site.slotOf(c.id).ordinal))
    ensures var direct := site.adapters(c.targetURI);
            direct.Body? && direct.value.ports != "" ==>
              Resolve(site, c) == IsAdapter(direct.value.(selfURI := c.targetURI))
  {
    if site.slotOf(c.id).Slot? && site.collections(site.dir(c.targetURI)).Body? {
      ScanSlotFinds(site, site.collections(site.dir(c.targetURI)).value, site.slotOf(c.id).ordinal);
    }
  }

  ghost predicate FirstInSlot(site: Site, refs: seq<string>, n: int, i: nat) {
    i < |refs| && SitsIn(site, refs[i], n) && forall j :: 0 <= j < i ==> !SitsIn(site, refs[j], n)
  }

  /** The adapter taken is the first of the collection that sits in the slot, and knows its own path; else there is none. */
  lemma {:induction false} FirstInSlotIsTaken(site: Site, refs: seq<string>, n: int) returns (i: nat)
    ensures match ScanSlot(site, refs, n)
            case IsAdapter(a) => FirstInSlot(site, refs, n, i) && a == site.adapters(refs[i]).value.(selfURI := refs[i])
            case _ => forall at :: at in refs ==> !SitsIn(site, at, n)
  {
    i := 0;
    if refs != [] && !SitsIn(site, refs[0], n) {
      var k := FirstInSlotIsTaken(site, refs[1..], n);
      i := k + 1;
      assert forall j :: 0 < j < |refs| ==> refs[j] == refs[1..][j - 1];
    }
  }

  lemma {:induction false} NotInSlotExactly(site: Site, refs: seq<string>, n: int)
    ensures ScanSlot(site, refs, n) == NotAdapter <==>
              forall at :: at in refs ==> site.adapters(at).Body? && !SitsIn(site, at, n)
  {
    if refs != [] {
      NotInSlotExactly(site, refs[1..], n);
      assert forall at :: at in refs <==> at == refs[0] || at in refs[1..];
    }
  }

  /**
   * It is definitely no adapter exactly when what it targets is none and, if its id names a
   * slot, every adapter of the collection is readable and none is in that slot. Everything
   * else could not be told.
   */
  lemma NotAdapterExactly(site: Site, c: Component)
    ensures var direct := site.adapters(c.targetURI);
            Resolve(site, c) == NotAdapter <==>
              && !(direct.Body? && direct.value.ports != "")
              && (|| (site.slotOf(c.id) == NoSlot && direct.Body?)
                  || (&& site.slotOf(c.id).Slot? && site.collections(site.dir(c.targetURI)).Body?
                      && forall at :: at in site.collections(site.dir(c.targetURI)).value ==>
                           site.adapters(at).Body? && !SitsIn(site, at, site.slotOf(c.id).ordinal)))
  {
    if site.slotOf(c.id).Slot? && site.collections(site.dir(c.targetURI)).Body? {
      NotInSlotExactly(site, site.collections(site.dir(c.targetURI)).value, site.slotOf(c.id).ordinal);
    }
  }

  /** No entry of any port of `refs` is the MAC. */
  ghost predicate NoneIsTheMAC(site: Site, refs: seq<string>, mac: string) {
    forall port, k :: port in refs && site.portMACs(port).Body? && 0 <= k < |site.portMACs(port).value|
                      && site.trim(site.portMACs(port).value[k]) != "" ==>
      !site.equalFold(site.trim(site.portMACs(port).value[k]), mac)
  }

  lemma {:induction false} ScanPortsMisses(site: Site, refs: seq<string>, gathered: seq<string>, mac: string)
    requires FoldLaw(site) && MatchMAC(site, gathered, mac) == ""
    ensures !ScanPorts(site, refs, gathered, mac).Hit? <==> NoneIsTheMAC(site, refs, mac)
    ensures ScanPorts(site, refs, gathered, mac) == NoHit ==> forall port :: port in refs ==> site.portMACs(port).Body?
    ensures ScanPorts(site, refs, gathered, mac) == Unreadable ==> exists port :: port in refs && !site.portMACs(port).Body?
  {
    if refs != [] {
      assert forall port :: port in refs <==> port == refs[0] || port in refs[1..];
      if site.portMACs(refs[0]).Body? {
        var raw := site.portMACs(refs[0]).value;
        var macs := gathered + Trimmed(site, raw);
        MatchIsTheFirst(site, gathered, mac);
        MatchIsTheFirst(site, macs, mac);
        assert forall k :: 0 <= k < |raw| ==> macs[|gathered| + k] == site.trim(raw[k]);
        if MatchMAC(site, macs, mac) == "" {
          ScanPortsMisses(site, refs[1..], macs, mac);
        } else {
          var i :| 0 <= i < |macs| && macs[i] == MatchMAC(site, macs, mac);
          assert i >= |gathered|;
          assert site.trim(raw[i - |gathered|]) == macs[i];
        }
      } else {
        ScanPortsMisses(site, refs[1..], gathered, mac);
      }
    }
  }

  /** A scan ends without a hit exactly when no readable entry is the MAC: definitely so when all ports are readable. */
  lemma PortScanExactly(site: Site, ports: string, mac: string)
    requires FoldLaw(site) && ports != ""
    ensures PortScan(site, ports, mac) == NoHit <==>
              && site.collections(ports).Body?
              && (forall port :: port in site.collections(ports).value ==> site.portMACs(port).Body?)
              && NoneIsTheMAC(site, site.collections(ports).value, mac)
    ensures PortScan(site, ports, mac).Hit? <==>
              site.collections(ports).Body? && !NoneIsTheMAC(site, site.collections(ports).value, mac)
  {
    if site.collections(ports).Body? {
      ScanPortsMisses(site, site.collections(ports).value, [], mac);
    }
  }

  /** With lawful ids, slots and URIs: the failure-free search finds a MAC exactly when some device with it is on the BMC. */
  lemma PresentIsOnBmc(site: Site, mac: string)
    requires Consistent(site)
    ensures Present(site, mac) <==> exists member, at, port, k :: OnBmc(site, mac, member, at, port, k)
  {
    if c :| Listed(site, c) && Reports(site, c, mac) {
      var member :| member in ListedPaths(site) && site.components(member) == Body(c);
      var a := Resolve(site, c).adapter;
      ReportedIsCarried(site, c, mac);
      var spelled :| Carries(site, a.ports, mac, spelled);
      var at, port, k := CarriedIsOnBmc(site, member, c, a, mac, spelled);
    }
    if member, at, port, k: nat :| OnBmc(site, mac, member, at, port, k) {
      var c, a := site.components(member).value, site.adapters(at).value.(selfURI := at);
      OnBmcIsCarried(site, mac, member, at, port, k);
      ResolutionAgrees(site, c, a);
      CarriedIsHit(site, a.ports, mac, site.trim(site.portMACs(port).value[k]));
    }
  }

  lemma ReportedIsCarried(site: Site, c: Component, mac: string)
    requires FoldLaw(site) && Reports(site, c, mac)
    ensures MayResolve(site, c, Resolve(site, c).adapter)
    ensures exists spelled :: Carries(site, Resolve(site, c).adapter.ports, mac, spelled)
  {
    var a := Resolve(site, c).adapter;
    if !DirectCandidate(site, c) {
      var refs, n := site.collections(site.dir(c.targetURI)).value, site.slotOf(c.id).ordinal;
      ScanSlotFinds(site, refs, n);
      var at :| at in refs && site.adapters(at).Body? && InSlot(site.adapters(at).value, n)
        && a == site.adapters(at).value.(selfURI := at);
      assert SlotCandidate(site, c, at);
    }
    PortScanExactly(site, a.ports, mac);
    var port, k :| port in site.collections(a.ports).value && site.portMACs(port).Body? && 0 <= k < |site.portMACs(port).value|
      && site.trim(site.portMACs(port).value[k]) != "" && site.equalFold(site.trim(site.portMACs(port).value[k]), mac);
    var macs := site.portMACs(port).value;
    assert Trimmed(site, macs)[k] == site.trim(macs[k]);
    assert Lists(site, port, site.trim(macs[k])) && Carries(site, a.ports, mac, site.trim(macs[k]));
  }
}
