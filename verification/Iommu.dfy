/**
 * The NIC enumeration: netdevs grouped by PCI function, one deduplicated verdict each.
 * The program does it over shared mutable objects; what it computes is stated here as
 * functions of sysfs, and the promises of the enumeration are proved of those.
 */
module Iommu {
  import opened Prelude
  import opened Sysfs

  // ---- grouping

  predicate OnFunction(fs: Sysfs, e: Entry, bdf: string) {
    !e.regular && fs.link(e.name) == PciAddress(bdf)
  }

  /** The addresses of the functions, in order of first appearance. */
  function Addresses(fs: Sysfs, entries: seq<Entry>): seq<string> {
    if entries == [] then []
    else
      var before, e := Addresses(fs, Init(entries)), Last(entries);
      if !e.regular && fs.link(e.name).PciAddress? && fs.link(e.name).bdf !in before
      then before + [fs.link(e.name).bdf] else before
  }

  /** The netdevs on a function that are representors, or that are not, in order. */
  function NamesOn(fs: Sysfs, entries: seq<Entry>, bdf: string, representor: bool): seq<string> {
    if entries == [] then []
    else
      NamesOn(fs, Init(entries), bdf, representor)
      + (if OnFunction(fs, Last(entries), bdf) && fs.representor(Last(entries).name) == representor
         then [Last(entries).name] else [])
  }

  function FunctionAt(fs: Sysfs, entries: seq<Entry>, bdf: string): Function {
    Function(bdf, NamesOn(fs, entries, bdf, false), NamesOn(fs, entries, bdf, true))
  }

  function Functions(fs: Sysfs, entries: seq<Entry>): seq<Function> {
    var addresses := Addresses(fs, entries);
    seq(|addresses|, i requires 0 <= i < |addresses| => FunctionAt(fs, entries, addresses[i]))
  }

  /** Some listed netdev is on the function. */
  ghost predicate HasNetdev(fs: Sysfs, entries: seq<Entry>, bdf: string) {
    exists k :: 0 <= k < |entries| && OnFunction(fs, entries[k], bdf)
  }

  /** `x` is the name of a netdev on the function. */
  ghost predicate IsNetdevOn(fs: Sysfs, entries: seq<Entry>, bdf: string, x: string) {
    exists k :: 0 <= k < |entries| && entries[k].name == x && OnFunction(fs, entries[k], bdf)
  }

  lemma {:induction false} AddressesAre(fs: Sysfs, entries: seq<Entry>, b: string)
    ensures b in Addresses(fs, entries) <==> HasNetdev(fs, entries, b)
  {
    if entries != [] {
      var before := Init(entries);
      AddressesAre(fs, before, b);
      if HasNetdev(fs, before, b) {
        var k :| 0 <= k < |before| && OnFunction(fs, before[k], b);
        assert OnFunction(fs, entries[k], b);
      }
      if HasNetdev(fs, entries, b) && !OnFunction(fs, Last(entries), b) {
        var k :| 0 <= k < |entries| && OnFunction(fs, entries[k], b);
        assert OnFunction(fs, before[k], b);
      }
    }
  }

  ghost predicate DistinctStrings(s: seq<string>) {
    forall j, k :: 0 <= j < k < |s| ==> s[j] != s[k]
  }

  lemma {:induction false} AddressesDistinct(fs: Sysfs, entries: seq<Entry>)
    ensures DistinctStrings(Addresses(fs, entries))
  {
    if entries != [] {
      AddressesDistinct(fs, Init(entries));
      var before, now := Addresses(fs, Init(entries)), Addresses(fs, entries);
      forall j, k | 0 <= j < k < |now|
        ensures now[j] != now[k]
      {
        assert now[j] == before[j] && before[j] in before;
      }
    }
  }

  lemma {:induction false} NamesAre(fs: Sysfs, entries: seq<Entry>, bdf: string, representor: bool, x: string)
    ensures x in NamesOn(fs, entries, bdf, representor) <==>
              fs.representor(x) == representor && IsNetdevOn(fs, entries, bdf, x)
  {
    if entries != [] {
      var before, e := Init(entries), Last(entries);
      NamesAre(fs, before, bdf, representor, x);
      if IsNetdevOn(fs, before, bdf, x) {
        var k :| 0 <= k < |before| && before[k].name == x && OnFunction(fs, before[k], bdf);
        assert entries[k].name == x && OnFunction(fs, entries[k], bdf);
      }
      if IsNetdevOn(fs, entries, bdf, x) && !(e.name == x && OnFunction(fs, e, bdf)) {
        var k :| 0 <= k < |entries| && entries[k].name == x && OnFunction(fs, entries[k], bdf);
        assert before[k].name == x && OnFunction(fs, before[k], bdf);
      }
    }
  }

  /** Ports and representors of a function partition its netdevs. */
  lemma FunctionsPartitionNetdevs(fs: Sysfs, entries: seq<Entry>, bdf: string, x: string)
    ensures var fn := FunctionAt(fs, entries, bdf);
            && (x in fn.ports <==> IsNetdevOn(fs, entries, bdf, x) && !fs.representor(x))
            && (x in fn.representors <==> IsNetdevOn(fs, entries, bdf, x) && fs.representor(x))
            && (x in Netdevs(fn) <==> IsNetdevOn(fs, entries, bdf, x))
  {
    NamesAre(fs, entries, bdf, false, x);
    NamesAre(fs, entries, bdf, true, x);
  }

  lemma FunctionHasNetdevs(fs: Sysfs, entries: seq<Entry>, bdf: string)
    requires bdf in Addresses(fs, entries)
    ensures Netdevs(FunctionAt(fs, entries, bdf)) != []
  {
  }

  // ---- the output

  datatype Out = Out(nics: seq<NIC>, undetermined: seq<Undetermined>, reported: set<string>)

  const EMPTY := Out([], [], {})

  function Note(out: Out, u: Undetermined): Out {
    if Key(u) in out.reported then out
    else Out(out.nics, out.undetermined + [u], out.reported + {Key(u)})
  }

  function NoteAll(out: Out, us: seq<Undetermined>): Out {
    if us == [] then out else Note(NoteAll(out, Init(us)), Last(us))
  }

  function WithNIC(out: Out, nic: Option<NIC>): Out {
    if nic.Some? then out.(nics := out.nics + [nic.value]) else out
  }

  function Report(fs: Sysfs, forced: string, out: Out, fn: Function): Out
    requires Netdevs(fn) != []
  {
    var v := Judge(fs, forced, fn);
    WithNIC(NoteAll(out, v.reasons), v.nic)
  }

  /** The netdevs whose device link cannot be read. */
  function NoteLinks(fs: Sysfs, entries: seq<Entry>): Out {
    if entries == [] then EMPTY
    else
      var before, e := NoteLinks(fs, Init(entries)), Last(entries);
      if !e.regular && fs.link(e.name).LinkUnreadable?
      then Note(before, Undetermined(e.name, "", DeviceLink(fs.link(e.name).reason))) else before
  }

  predicate NoneEmpty(fns: seq<Function>) {
    forall k :: 0 <= k < |fns| ==> Netdevs(fns[k]) != []
  }

  function ReportAll(fs: Sysfs, forced: string, out: Out, fns: seq<Function>): Out
    requires NoneEmpty(fns)
  {
    if fns == [] then out
    else Report(fs, forced, ReportAll(fs, forced, out, Init(fns)), Last(fns))
  }

  lemma FunctionsNotEmpty(fs: Sysfs, entries: seq<Entry>)
    ensures NoneEmpty(Functions(fs, entries))
  {
    forall k | 0 <= k < |Functions(fs, entries)|
      ensures Netdevs(Functions(fs, entries)[k]) != []
    {
      FunctionHasNetdevs(fs, entries, Addresses(fs, entries)[k]);
    }
  }

  /** What an enumeration reports; None when the interfaces cannot be listed. */
  function Find(fs: Sysfs, forced: string): Option<Out> {
    if fs.entries.None? then None
    else
      FunctionsNotEmpty(fs, fs.entries.value);
      Some(ReportAll(fs, forced, NoteLinks(fs, fs.entries.value), Functions(fs, fs.entries.value)))
  }

  // ---- the program

  class PciFunction {
    const bdf: string
    var ports: seq<string>
    var representors: seq<string>

    constructor (bdf: string)
      ensures this.bdf == bdf && ports == [] && representors == []
    {
      this.bdf := bdf;
      ports, representors := [], [];
    }

    function Value(): Function
      reads this
    {
      Function(bdf, ports, representors)
    }
  }

  class Enumerator {
    const fs: Sysfs
    const forced: string
    var nics: seq<NIC>
    var undetermined: seq<Undetermined>
    var reported: set<string>

    constructor (fs: Sysfs, forced: string)
      ensures this.fs == fs && this.forced == forced && Value() == EMPTY
    {
      this.fs, this.forced := fs, forced;
      nics, undetermined, reported := [], [], {};
    }

    function Value(): Out
      reads this
    {
      Out(nics, undetermined, reported)
    }

    method NoteUndetermined(iface: string, bdf: string, reason: Reason)
      modifies this
      ensures Value() == Note(old(Value()), Undetermined(iface, bdf, reason))
    {
      var key := if bdf != "" then bdf else iface;
      if key in reported {
        return;
      }
      reported := reported + {key};
      undetermined := undetermined + [Undetermined(iface, bdf, reason)];
    }

    method ReportFunction(fn: PciFunction)
      requires Netdevs(fn.Value()) != []
      modifies this
      ensures Value() == Report(fs, forced, old(Value()), fn.Value())
    {
      var netdevs := fn.ports + fn.representors;
      var c := Classify(fs, netdevs[0]);
      ghost var start, unclear := Value(), [];
      if c.error.Some? {
        NoteUndetermined(netdevs[0], fn.bdf, c.error.value);
        unclear := [Undetermined(netdevs[0], fn.bdf, c.error.value)];
        assert Init(unclear) == [];
      }
      assert Value() == NoteAll(start, unclear);
      var isForced := forced != "" && forced in netdevs;
      if !isForced && (c.error.Some? || !c.exposed) {
        return;
      }
      CollectFunction(fn, c, start, unclear);
    }

    method ReportEach(functions: seq<PciFunction>, ghost start: Out, ghost fns: seq<Function>)
      requires Value() == start && |functions| == |fns| && NoneEmpty(fns)
      requires forall k :: 0 <= k < |fns| ==> functions[k].Value() == fns[k]
      modifies this
      ensures Value() == ReportAll(fs, forced, start, fns)
    {
      var i := 0;
      while i < |functions|
        invariant 0 <= i <= |functions|
        invariant forall k :: 0 <= k < |fns| ==> functions[k].Value() == fns[k]
        invariant Value() == ReportAll(fs, forced, start, fns[..i])
      {
        assert Init(fns[..i + 1]) == fns[..i];
        ReportFunction(functions[i]);
        i := i + 1;
      }
      assert fns[..i] == fns;
    }

    method CollectFunction(fn: PciFunction, c: Exposure, ghost start: Out, ghost unclear: seq<Undetermined>)
      requires Netdevs(fn.Value()) != [] && Value() == NoteAll(start, unclear)
      modifies this
      ensures var v := Collect(fs, forced, fn.Value(), c, unclear);
              Value() == WithNIC(NoteAll(start, v.reasons), v.nic)
    {
      var candidates := fn.ports;
      var at := IndexOf(fn.ports, forced);
      if at > 0 {
        candidates := [forced] + fn.ports[..at] + fn.ports[at + 1..];
      }
      if |candidates| == 0 {
        NoteUndetermined((fn.ports + fn.representors)[0], fn.bdf, OnlyRepresentors);
        NoteLast(start, unclear, Undetermined((fn.ports + fn.representors)[0], fn.bdf, OnlyRepresentors));
        return;
      }
      var firstErr: Option<Reason> := None;
      var i := 0;
      while i < |candidates|
        invariant 0 <= i <= |candidates|
        invariant Value() == NoteAll(start, unclear)
        invariant i == 0 ==> firstErr.None?
        invariant i > 0 ==> firstErr.Some?
        invariant forall k :: 0 <= k < i ==> ReadMAC(fs, candidates[k]).Err?
        invariant i > 0 ==> ReadMAC(fs, candidates[0]) == Err(firstErr.value)
      {
        var mac := ReadMAC(fs, candidates[i]);
        match mac {
          case Err(e) =>
            if firstErr.None? { firstErr := Some(e); }
          case Ok(addr) =>
            FirstMACAt(fs, candidates, i);
            nics := nics + [NIC(candidates[i], fn.bdf, c.group, addr, !c.exposed)];
            return;
        }
        i := i + 1;
      }
      FirstMACNone(fs, candidates);
      NoteUndetermined(candidates[0], fn.bdf, firstErr.value);
      NoteLast(start, unclear, Undetermined(candidates[0], fn.bdf, firstErr.value));
    }
  }

  lemma NoteLast(start: Out, us: seq<Undetermined>, u: Undetermined)
    ensures NoteAll(start, us + [u]) == Note(NoteAll(start, us), u)
  {
  }

  lemma {:induction false} FirstMACAt(fs: Sysfs, candidates: seq<string>, i: nat)
    requires i < |candidates| && ReadMAC(fs, candidates[i]).Ok?
    requires forall k :: 0 <= k < i ==> ReadMAC(fs, candidates[k]).Err?
    ensures FirstMAC(fs, candidates) == Ok((candidates[i], ReadMAC(fs, candidates[i]).value))
  {
    if i > 0 {
      FirstMACAt(fs, candidates[1..], i - 1);
    }
  }

  lemma {:induction false} FirstMACNone(fs: Sysfs, candidates: seq<string>)
    requires candidates != [] && forall k :: 0 <= k < |candidates| ==> ReadMAC(fs, candidates[k]).Err?
    ensures FirstMAC(fs, candidates) == Err(ReadMAC(fs, candidates[0]).error)
  {
    if |candidates| > 1 {
      FirstMACNone(fs, candidates[1..]);
    }
  }

  /** The objects of the list spell out the functions grouped so far, and the map reaches each by its address. */
  ghost predicate Grouped(fs: Sysfs, entries: seq<Entry>, functions: seq<PciFunction>, byBdf: map<string, PciFunction>)
    reads functions
  {
    Reached(Addresses(fs, entries), functions, byBdf) && SpelledOut(fs, entries, Addresses(fs, entries), functions)
  }

  ghost predicate Reached(addresses: seq<string>, functions: seq<PciFunction>, byBdf: map<string, PciFunction>) {
    && |functions| == |addresses|
    && (forall j, k :: 0 <= j < k < |functions| ==> functions[j] != functions[k])
    && (forall b :: b in byBdf <==> b in addresses)
    && (forall k :: 0 <= k < |addresses| ==> addresses[k] in byBdf && byBdf[addresses[k]] == functions[k])
  }

  /** One more entry adds its name to its own function and leaves every other as it was. */
  lemma FunctionWithEntry(fs: Sysfs, entries: seq<Entry>, e: Entry, bdf: string)
    ensures var before, now := FunctionAt(fs, entries, bdf), FunctionAt(fs, entries + [e], bdf);
            now == if !OnFunction(fs, e, bdf) then before
                   else if fs.representor(e.name) then before.(representors := before.representors + [e.name])
                   else before.(ports := before.ports + [e.name])
  {
  }

  lemma AddressesWithEntry(fs: Sysfs, entries: seq<Entry>, e: Entry)
    ensures var before, now := Addresses(fs, entries), Addresses(fs, entries + [e]);
            now == if !e.regular && fs.link(e.name).PciAddress? && fs.link(e.name).bdf !in before
                   then before + [fs.link(e.name).bdf] else before
  {
  }

  lemma UnplacedEntryKeepsGroups(fs: Sysfs, entries: seq<Entry>, e: Entry, functions: seq<PciFunction>,
                                 byBdf: map<string, PciFunction>)
    requires Grouped(fs, entries, functions, byBdf)
    requires e.regular || !fs.link(e.name).PciAddress?
    ensures Grouped(fs, entries + [e], functions, byBdf)
  {
    AddressesWithEntry(fs, entries, e);
    forall k | 0 <= k < |functions|
      ensures functions[k].Value() == FunctionAt(fs, entries + [e], Addresses(fs, entries + [e])[k])
    {
      FunctionWithEntry(fs, entries, e, Addresses(fs, entries)[k]);
    }
  }

  /** A function not seen before is empty. */
  lemma {:induction false} NewFunctionIsEmpty(fs: Sysfs, entries: seq<Entry>, bdf: string)
    requires bdf !in Addresses(fs, entries)
    ensures FunctionAt(fs, entries, bdf) == Function(bdf, [], [])
  {
    if entries != [] {
      NewFunctionIsEmpty(fs, Init(entries), bdf);
    }
  }

  lemma ReachedMore(addresses: seq<string>, functions: seq<PciFunction>, byBdf: map<string, PciFunction>,
                    bdf: string, made: PciFunction)
    requires Reached(addresses, functions, byBdf) && bdf !in addresses && made !in functions
    ensures Reached(addresses + [bdf], functions + [made], byBdf[bdf := made])
  {
  }

  /** The objects spell out the functions at `addresses` after `entries`. */
  ghost predicate SpelledOut(fs: Sysfs, entries: seq<Entry>, addresses: seq<string>, functions: seq<PciFunction>)
    reads functions
  {
    && |functions| == |addresses|
    && forall k :: 0 <= k < |functions| ==> functions[k].Value() == FunctionAt(fs, entries, addresses[k])
  }

  /** Makes the function of a netdev that is its first. */
  method MakeFunction(fs: Sysfs, ghost entries: seq<Entry>, bdf: string,
                      functions: seq<PciFunction>, byBdf: map<string, PciFunction>)
      returns (functions': seq<PciFunction>, byBdf': map<string, PciFunction>)
    requires Grouped(fs, entries, functions, byBdf) && bdf !in byBdf
    ensures Reached(Addresses(fs, entries) + [bdf], functions', byBdf')
    ensures SpelledOut(fs, entries, Addresses(fs, entries) + [bdf], functions')
    ensures |functions'| == |functions| + 1 && functions'[..|functions|] == functions
    ensures forall k :: |functions| <= k < |functions'| ==> fresh(functions'[k])
  {
    NewFunctionIsEmpty(fs, entries, bdf);
    var made := new PciFunction(bdf);
    ReachedMore(Addresses(fs, entries), functions, byBdf, bdf, made);
    byBdf' := byBdf[bdf := made];
    functions' := functions + [made];
  }

  /** Puts a netdev on its function, which is made when this is its first. */
  method Place(fs: Sysfs, ghost entries: seq<Entry>, e: Entry, bdf: string,
               functions: seq<PciFunction>, byBdf: map<string, PciFunction>)
      returns (functions': seq<PciFunction>, byBdf': map<string, PciFunction>)
    requires OnFunction(fs, e, bdf) && Grouped(fs, entries, functions, byBdf)
    modifies functions
    ensures Grouped(fs, entries + [e], functions', byBdf')
    ensures |functions| <= |functions'| && functions'[..|functions|] == functions
    ensures forall k :: |functions| <= k < |functions'| ==> fresh(functions'[k])
  {
    AddressesWithEntry(fs, entries, e);
    if bdf in byBdf {
      functions', byBdf' := functions, byBdf;
      Append(fs, entries, e, bdf, functions', byBdf');
    } else {
      functions', byBdf' := MakeFunction(fs, entries, bdf, functions, byBdf);
      Append(fs, entries, e, bdf, functions', byBdf');
    }
  }

  method Append(fs: Sysfs, ghost entries: seq<Entry>, e: Entry, bdf: string,
                functions: seq<PciFunction>, byBdf: map<string, PciFunction>)
    requires OnFunction(fs, e, bdf) && bdf in byBdf
    requires Reached(Addresses(fs, entries + [e]), functions, byBdf)
    requires SpelledOut(fs, entries, Addresses(fs, entries + [e]), functions)
    modifies functions
    ensures Grouped(fs, entries + [e], functions, byBdf)
  {
    AddressesDistinct(fs, entries + [e]);
    ghost var all := Addresses(fs, entries + [e]);
    var fn := byBdf[bdf];
    forall k | 0 <= k < |all| { FunctionWithEntry(fs, entries, e, all[k]); }
    if fs.representor(e.name) {
      fn.representors := fn.representors + [e.name];
    } else {
      fn.ports := fn.ports + [e.name];
    }
  }

  /** Groups the netdevs and notes those whose device link cannot be read. */
  method GroupNetdevs(fs: Sysfs, entries: seq<Entry>, e: Enumerator) returns (functions: seq<PciFunction>)
    requires e.Value() == EMPTY
    modifies e
    ensures e.Value() == NoteLinks(fs, entries)
    ensures |functions| == |Functions(fs, entries)|
    ensures forall k :: 0 <= k < |functions| ==> functions[k].Value() == Functions(fs, entries)[k]
  {
    functions := [];
    var byBdf: map<string, PciFunction> := map[];
    var i := 0;
    while i < |entries|
      invariant 0 <= i <= |entries|
      invariant forall k :: 0 <= k < |functions| ==> fresh(functions[k])
      invariant e.Value() == NoteLinks(fs, entries[..i])
      invariant Grouped(fs, entries[..i], functions, byBdf)
    {
      var entry := entries[i];
      ghost var before := entries[..i];
      assert entries[..i + 1] == before + [entry] && Init(entries[..i + 1]) == before;
      if entry.regular || fs.link(entry.name).NotPCI? {
        UnplacedEntryKeepsGroups(fs, before, entry, functions, byBdf);
      } else if fs.link(entry.name).LinkUnreadable? {
        UnplacedEntryKeepsGroups(fs, before, entry, functions, byBdf);
        e.NoteUndetermined(entry.name, "", DeviceLink(fs.link(entry.name).reason));
      } else {
        functions, byBdf := Place(fs, before, entry, fs.link(entry.name).bdf, functions, byBdf);
      }
      i := i + 1;
    }
    assert entries[..i] == entries;
  }

  method FindPassthroughNICs(fs: Sysfs, forced: string) returns (r: Option<Out>)
    ensures r == Find(fs, forced)
  {
    if fs.entries.None? {
      return None;
    }
    var e := new Enumerator(fs, forced);
    var functions := GroupNetdevs(fs, fs.entries.value, e);
    FunctionsNotEmpty(fs, fs.entries.value);
    e.ReportEach(functions, NoteLinks(fs, fs.entries.value), Functions(fs, fs.entries.value));
    r := Some(e.Value());
  }
}
