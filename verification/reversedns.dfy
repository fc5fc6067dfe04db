/** The PTR records the reverse DNS layer puts into the `in-addr.arpa.`
    zone (seedemu/services/ReverseDomainNameService.py): one record per
    interface of every router and host, owned by the interface address
    with its octets reversed as section 3.5 of RFC 1035 describes. */
module ReverseDns {
  import opened Wrappers
  import opened Strings
  import opened Ipv4

  /** An interface: its address and the name of its network. */
  datatype IfaceInfo = IfaceInfo(address: nat, netName: string)

  /** A registry entry `(scope, type, name)` with the node's interfaces. */
  datatype RegEntry = RegEntry(scope: string, kind: string, name: string, ifaces: seq<IfaceInfo>)

  predicate ValidEntry(e: RegEntry)
  {
    forall i :: 0 <= i < |e.ifaces| ==> IsAddress(e.ifaces[i].address)
  }

  function Reversed<T>(s: seq<T>): (r: seq<T>)
    ensures |r| == |s| && forall i :: 0 <= i < |s| ==> r[i] == s[|s| - 1 - i]
  {
    if |s| == 0 then [] else Reversed(s[1..]) + [s[0]]
  }

  /** `'.'.join(reversed(text.split('.')))`. */
  function ReverseText(text: string): string
  {
    Join(Reversed(Split(text, '.')), '.')
  }

  /** Reversing the labels twice gives the text back. */
  lemma ReverseTextTwice(text: string)
    ensures ReverseText(ReverseText(text)) == text
  {
    var parts := Split(text, '.');
    var rev := Reversed(parts);
    assert NoSep(rev, '.');
    SplitJoin(rev, '.');
    assert Reversed(rev) == parts;
    JoinSplit(text, '.');
  }

  /** The owner name of the record for address `a`. */
  function Owner(a: nat): string
    requires IsAddress(a)
  {
    ReverseText(AddrText(a))
  }

  /** The owner's labels are the four octets, least significant first. */
  lemma OwnerLabels(a: nat)
    requires IsAddress(a)
    ensures Split(Owner(a), '.') == Reversed(OctetTexts(Octets(a)))
    ensures OnlyDigitsAndDots(Owner(a))
  {
    AddrTextSplit(a);
    var rev := Reversed(OctetTexts(Octets(a)));
    assert NoSep(rev, '.');
    SplitJoin(rev, '.');
    JoinDigits(rev);
  }

  /** Distinct addresses own distinct names. */
  lemma OwnerInjective(a: nat, b: nat)
    requires IsAddress(a) && IsAddress(b) && Owner(a) == Owner(b)
    ensures a == b
  {
    ReverseTextTwice(AddrText(a));
    ReverseTextTwice(AddrText(b));
    AddrTextInjective(a, b);
  }

  /** Only routers and hosts are named in the zone. */
  predicate Eligible(e: RegEntry)
  {
    e.kind == "rnode" || e.kind == "hnode"
  }

  /** The `(scope, name)` a record uses: an exchange's route server is
      named `rs` under the exchange's name; anything else sits under
      `as<scope>`. */
  function Context(e: RegEntry): (r: (string, string))
    ensures e.scope == "ix" ==> r == (e.name, "rs")
    ensures e.scope != "ix" ==> r.0 == "as" + e.scope && r.1 == e.name
  {
    if e.scope == "ix" then (e.name, "rs") else ("as" + e.scope, e.name)
  }

  /** The record before underscores are replaced. */
  function RawRecord(e: RegEntry, iface: IfaceInfo): string
    requires IsAddress(iface.address)
  {
    var (scope, name) := Context(e);
    Owner(iface.address) + " PTR " + name + "-" + iface.netName + "." + e.kind + "." + scope + ".net."
  }

  /** `<rev> PTR <name>-<net>.<type>.<scope>.net.` with `_` replaced by
      `-`. */
  function Record(e: RegEntry, iface: IfaceInfo): (r: string)
    requires IsAddress(iface.address)
    ensures '_' !in r
    ensures |r| == |RawRecord(e, iface)|
  {
    var raw := RawRecord(e, iface);
    var r := ReplaceChar(raw, '_', '-');
    assert forall i :: 0 <= i < |r| ==> r[i] != '_';
    r
  }

  /** The replacement leaves the owner and ` PTR ` alone: the record
      starts with the reversed address. */
  lemma RecordOwner(e: RegEntry, iface: IfaceInfo)
    requires IsAddress(iface.address)
    ensures StartsWith(Record(e, iface), Owner(iface.address) + " PTR ")
  {
    OwnerLabels(iface.address);
    var p := Owner(iface.address) + " PTR ";
    var raw := RawRecord(e, iface);
    assert raw[..|p|] == p;
    forall i | 0 <= i < |p| ensures Record(e, iface)[i] == p[i] {
      assert raw[i] == p[i];
      if i < |Owner(iface.address)| {
        assert Owner(iface.address)[i] == p[i];
      }
    }
  }

  /** One node's records: one per interface, in interface order, and none
      for anything but a router or host. */
  function EntryRecords(e: RegEntry): (r: seq<string>)
    requires ValidEntry(e)
    ensures !Eligible(e) ==> r == []
    ensures Eligible(e) ==> |r| == |e.ifaces|
    ensures Eligible(e) ==> forall i :: 0 <= i < |e.ifaces| ==> r[i] == Record(e, e.ifaces[i])
  {
    if !Eligible(e) then []
    else seq(|e.ifaces|, i requires 0 <= i < |e.ifaces| => Record(e, e.ifaces[i]))
  }

  /** `configure`: the records of all registry entries, in registry
      order. */
  function ZoneRecords(entries: seq<RegEntry>): (r: seq<string>)
    requires forall k :: 0 <= k < |entries| ==> ValidEntry(entries[k])
    ensures forall j :: 0 <= j < |r| ==> '_' !in r[j]
  {
    if |entries| == 0 then []
    else
      var init := entries[..|entries| - 1];
      ZoneRecords(init) + EntryRecords(entries[|entries| - 1])
  }

  /** The number of interfaces of routers and hosts. */
  function EligibleIfaces(entries: seq<RegEntry>): nat
  {
    if |entries| == 0 then 0
    else
      var e := entries[|entries| - 1];
      EligibleIfaces(entries[..|entries| - 1]) + (if Eligible(e) then |e.ifaces| else 0)
  }

  /** Exactly one record per router or host interface. */
  lemma {:induction false} ZoneRecordsCount(entries: seq<RegEntry>)
    requires forall k :: 0 <= k < |entries| ==> ValidEntry(entries[k])
    ensures |ZoneRecords(entries)| == EligibleIfaces(entries)
  {
    if |entries| > 0 {
      ZoneRecordsCount(entries[..|entries| - 1]);
    }
  }

  /** `rec` is the record of interface `i` of router or host `k`. */
  predicate RecordOf(entries: seq<RegEntry>, k: nat, i: nat, rec: string)
  {
    && k < |entries| && Eligible(entries[k]) && i < |entries[k].ifaces|
    && IsAddress(entries[k].ifaces[i].address)
    && rec == Record(entries[k], entries[k].ifaces[i])
  }

  /** Every interface of every router and host has its record in the
      zone. */
  lemma {:induction false} ZoneRecordsComplete(entries: seq<RegEntry>, k: nat, i: nat, rec: string)
    requires forall k :: 0 <= k < |entries| ==> ValidEntry(entries[k])
    requires RecordOf(entries, k, i, rec)
    ensures rec in ZoneRecords(entries)
  {
    var init := entries[..|entries| - 1];
    if k < |entries| - 1 {
      assert init[k] == entries[k];
      assert RecordOf(init, k, i, rec);
      ZoneRecordsComplete(init, k, i, rec);
    } else {
      assert EntryRecords(entries[k])[i] == rec;
    }
  }

  /** Every record in the zone is that of some router or host
      interface. */
  lemma {:induction false} ZoneRecordsSound(entries: seq<RegEntry>, rec: string)
    requires forall k :: 0 <= k < |entries| ==> ValidEntry(entries[k])
    requires rec in ZoneRecords(entries)
    ensures exists k: nat, i: nat :: RecordOf(entries, k, i, rec)
  {
    var init := entries[..|entries| - 1];
    var e := entries[|entries| - 1];
    var own := EntryRecords(e);
    assert ZoneRecords(entries) == ZoneRecords(init) + own;
    if rec in ZoneRecords(init) {
      ZoneRecordsSound(init, rec);
      var k: nat, i: nat :| RecordOf(init, k, i, rec);
      assert init[k] == entries[k];
      assert RecordOf(entries, k, i, rec);
    } else {
      var i :| 0 <= i < |own| && own[i] == rec;
      assert RecordOf(entries, |entries| - 1, i, rec);
    }
  }

  /** `install`: the layer is not a real service, so installing it on a
      node always fails. */
  function Install(vnode: string): (r: Result<()>)
    ensures r.Failure?
  {
    Failure("ReverseDomainNameService is not a real service and should not be installed this way.")
  }
}
