/** Self-managed ("virtual") addressing of the compose compiler
    (seedemu/compiler/Docker.py): every non-bridge network takes the next
    subnet of a dummy pool, every interface on it takes the next dummy
    address, each such interface adds a `dummy/len,real/len` line to the
    node's map, and a boot script swaps each dummy address found in the
    map for the real one. */
module Addressing {
  import opened Wrappers
  import opened Strings
  import opened Ipv4
  import opened ComposeNames

  /** The default pool `10.128.0.0/9`, cut into /24 subnets. */
  const DefaultRange := Cidr(0x0A80_0000, 9)
  const DefaultMask: nat := 24

  /** `IPv4Network(range).subnets(new_prefix = mask)` after `taken`
      calls to `next`. */
  datatype Pool = Pool(range: Cidr, mask: nat, taken: nat)

  /** The generator accepts the mask: a /32 range yields itself whatever
      the mask, any other needs `len <= mask <= 32`. */
  predicate MaskOk(p: Pool)
  {
    p.range.len == 32 || p.range.len <= p.mask <= 32
  }

  /** The prefix length of the yielded subnets. */
  function SubnetLen(p: Pool): (r: nat)
    requires p.range.len <= 32 && MaskOk(p)
    ensures p.range.len <= r <= 32
  {
    if p.range.len == 32 then 32 else p.mask
  }

  /** How many subnets the generator yields. */
  function SubnetCount(p: Pool): nat
    requires p.range.len <= 32 && MaskOk(p)
  {
    Pow2(SubnetLen(p) - p.range.len)
  }

  /** The `k`-th subnet the generator yields. */
  function Subnet(p: Pool, k: nat): (r: Cidr)
    requires p.range.len <= 32 && MaskOk(p)
    ensures r.len == SubnetLen(p)
  {
    Cidr(p.range.addr + k * Size(SubnetLen(p)), SubnetLen(p))
  }

  predicate ValidPool(p: Pool)
  {
    && ValidCidr(p.range)
    && (MaskOk(p) ==> p.taken <= SubnetCount(p))
    && (!MaskOk(p) ==> p.taken == 0)
  }

  lemma MulLe(a: nat, b: nat, c: nat)
    requires a <= b
    ensures a * c <= b * c
  {
    assert b * c == a * c + (b - a) * c;
  }

  /** The range is the subnets laid end to end, and it ends inside the
      address space. */
  lemma RangeFits(p: Pool)
    requires ValidCidr(p.range) && MaskOk(p)
    ensures Size(p.range.len) == SubnetCount(p) * Size(SubnetLen(p))
    ensures p.range.addr + Size(p.range.len) <= AddressCount
  {
    Pow2Add(SubnetLen(p) - p.range.len, 32 - SubnetLen(p));
    Pow2Add(p.range.len, 32 - p.range.len);
    Pow2Of32();
    AlignedFits(p.range.addr, Size(p.range.len), Pow2(p.range.len));
  }

  /** A multiple of `s` below `n * s` leaves room for `s` more. */
  lemma AlignedFits(a: nat, s: nat, n: nat)
    requires s > 0 && a % s == 0 && a < n * s
    ensures a + s <= n * s
  {
    var q := a / s;
    assert a == q * s;
    if q >= n {
      MulLe(n, q, s);
    }
    MulLe(q + 1, n, s);
    assert (q + 1) * s == q * s + s;
  }

  /** Every subnet lies inside the range. */
  lemma SubnetInside(p: Pool, k: nat)
    requires ValidCidr(p.range) && MaskOk(p) && k < SubnetCount(p)
    ensures p.range.addr <= Subnet(p, k).addr
    ensures Subnet(p, k).addr + Size(SubnetLen(p)) <= p.range.addr + Size(p.range.len)
    ensures Subnet(p, k).addr + Size(SubnetLen(p)) <= AddressCount
  {
    RangeFits(p);
    var s := Size(SubnetLen(p));
    MulLe(k + 1, SubnetCount(p), s);
    MulSucc(k, s);
    assert Subnet(p, k).addr + s == p.range.addr + (k + 1) * s;
  }

  lemma MulSucc(k: nat, s: nat)
    ensures (k + 1) * s == k * s + s
  {
  }

  /** Addresses of two different subnets differ. */
  lemma SubnetsDisjoint(p: Pool, j: nat, k: nat, a: nat, b: nat)
    requires p.range.len <= 32 && MaskOk(p) && j != k
    requires Subnet(p, j).addr <= a < Subnet(p, j).addr + Size(SubnetLen(p))
    requires Subnet(p, k).addr <= b < Subnet(p, k).addr + Size(SubnetLen(p))
    ensures a != b
  {
    var s := Size(SubnetLen(p));
    if j < k {
      MulLe(j + 1, k, s);
      MulSucc(j, s);
      assert a < p.range.addr + (j + 1) * s <= p.range.addr + k * s <= b;
    } else {
      MulLe(k + 1, j, s);
      MulSucc(k, s);
      assert b < p.range.addr + (k + 1) * s <= p.range.addr + j * s <= a;
    }
  }

  /** `next(pool)`: the next subnet; a mask the generator refuses raises
      `ValueError`, an exhausted pool `StopIteration`. */
  function NextSubnet(p: Pool): (r: Result<(Cidr, Pool)>)
    requires ValidPool(p)
    ensures r.Failure? <==> !MaskOk(p) || p.taken >= SubnetCount(p)
    ensures r.Success? ==> && r.value.1 == p.(taken := p.taken + 1) && ValidPool(r.value.1)
                           && r.value.0 == Subnet(p, p.taken)
                           && p.range.addr <= r.value.0.addr
                           && r.value.0.addr + Size(r.value.0.len) <= p.range.addr + Size(p.range.len)
  {
    if !MaskOk(p) then Failure("new prefix must be longer")
    else if p.taken >= SubnetCount(p) then Failure("StopIteration")
    else
      SubnetInside(p, p.taken);
      Success((Subnet(p, p.taken), p.(taken := p.taken + 1)))
  }

  /** A network as the compiler sees it: registry scope and name, whether
      it is a bridge, and its real prefix. */
  datatype Net = Net(scope: string, name: string, bridge: bool, prefix: Cidr)
  datatype NetKey = NetKey(scope: string, name: string)

  function Key(net: Net): NetKey
  {
    NetKey(net.scope, net.name)
  }

  /** The `dummy_prefix` and `dummy_prefix_index` attributes of a network:
      the position of its pool subnet and the cursor. */
  datatype Dummy = Dummy(subnet: nat, cursor: nat)

  /** The compiler's addressing state: whether networks are self-managed,
      the pool, and the attributes set on the networks compiled so far. */
  datatype State = State(selfManaged: bool, pool: Pool, dummies: map<NetKey, Dummy>)

  /** The state invariant: the pool is well formed, every network holds a
      subnet already taken from it, no two networks share one, and no
      cursor is below 2. */
  predicate Valid(st: State)
  {
    && ValidPool(st.pool)
    && (forall k :: k in st.dummies ==> st.dummies[k].subnet < st.pool.taken && st.dummies[k].cursor >= 2)
    && (forall k1, k2 :: k1 in st.dummies && k2 in st.dummies && k1 != k2 ==>
          st.dummies[k1].subnet != st.dummies[k2].subnet)
  }

  /** The compiler's constructor: nothing taken, no network compiled. */
  function NewState(selfManaged: bool, range: Cidr, mask: nat): (r: Result<State>)
    ensures r.Failure? <==> !ValidCidr(range)
    ensures r.Success? ==> Valid(r.value) && r.value.dummies == map[] && r.value.selfManaged == selfManaged
  {
    if !ValidCidr(range) then Failure("does not appear to be an IPv4 network")
    else Success(State(selfManaged, Pool(range, mask, 0), map[]))
  }

  /** The network gets a dummy subnet and its interfaces dummy addresses. */
  predicate Virtualised(st: State, net: Net)
  {
    st.selfManaged && !net.bridge
  }

  /** The dummy prefix of a compiled network. */
  function DummyPrefix(st: State, key: NetKey): (r: Cidr)
    requires Valid(st) && key in st.dummies
    ensures r.len <= 32
  {
    Subnet(st.pool, st.dummies[key].subnet)
  }

  /** A network entry of the compose file: its id and the prefix declared
      for it. */
  datatype NetEntry = NetEntry(id: string, prefix: Cidr)

  /** `_compileNet`: a virtualised network takes the next pool subnet,
      with cursor 2, and compose declares that subnet; any other network
      is declared with its real prefix and changes nothing. */
  function CompileNet(st: State, net: Net): (r: Result<(State, NetEntry)>)
    requires Valid(st)
    ensures r.Failure? <==> Virtualised(st, net) && (!MaskOk(st.pool) || st.pool.taken >= SubnetCount(st.pool))
    ensures r.Success? ==> Valid(r.value.0) && r.value.1.id == NetId(net.scope, net.name, net.bridge)
    ensures r.Success? && !Virtualised(st, net) ==> r.value.0 == st && r.value.1.prefix == net.prefix
    ensures r.Success? && Virtualised(st, net) ==>
              var st2 := r.value.0;
              && st2.selfManaged == st.selfManaged && st2.pool == st.pool.(taken := st.pool.taken + 1)
              && Key(net) in st2.dummies && st2.dummies[Key(net)].cursor == 2
              && r.value.1.prefix == DummyPrefix(st2, Key(net))
              && (forall k :: k in st.dummies ==> st.dummies[k].subnet != st2.dummies[Key(net)].subnet)
              && (forall k :: k != Key(net) ==> (k in st2.dummies <==> k in st.dummies))
              && (forall k :: k != Key(net) && k in st.dummies ==> st2.dummies[k] == st.dummies[k])
  {
    var id := NetId(net.scope, net.name, net.bridge);
    if !Virtualised(st, net) then Success((st, NetEntry(id, net.prefix)))
    else
      var (sub, pool) :- NextSubnet(st.pool);
      var st2 := st.(pool := pool, dummies := st.dummies[Key(net) := Dummy(st.pool.taken, 2)]);
      AddNetValid(st, Key(net));
      Success((st2, NetEntry(id, sub)))
  }

  /** Recording a fresh subnet for a network keeps the invariant. */
  lemma AddNetValid(st: State, key: NetKey)
    requires Valid(st) && MaskOk(st.pool) && st.pool.taken < SubnetCount(st.pool)
    ensures Valid(st.(pool := st.pool.(taken := st.pool.taken + 1),
                      dummies := st.dummies[key := Dummy(st.pool.taken, 2)]))
  {
  }

  /** `d_prefix[d_index]` and the cursor advance: the address at the
      cursor's offset inside the dummy subnet; an offset past the subnet
      raises `IndexError`. */
  function TakeAddress(st: State, key: NetKey): (r: Result<(nat, State)>)
    requires Valid(st) && key in st.dummies
    ensures r.Failure? <==> st.dummies[key].cursor >= Size(DummyPrefix(st, key).len)
    ensures r.Success? ==>
              var (a, st2) := r.value;
              && Valid(st2) && a == DummyPrefix(st, key).addr + st.dummies[key].cursor
              && DummyPrefix(st, key).addr + 2 <= a < DummyPrefix(st, key).addr + Size(DummyPrefix(st, key).len)
              && IsAddress(a)
              && st2 == st.(dummies := st.dummies[key := st.dummies[key].(cursor := st.dummies[key].cursor + 1)])
  {
    var d := st.dummies[key];
    var prefix := DummyPrefix(st, key);
    if d.cursor >= Size(prefix.len) then Failure("address out of range")
    else
      SubnetInside(st.pool, d.subnet);
      Success((prefix.addr + d.cursor, st.(dummies := st.dummies[key := d.(cursor := d.cursor + 1)])))
  }

  /** An interface: its network and its real address, if any. */
  datatype Iface = Iface(net: Net, address: Option<nat>)

  predicate ValidIface(i: Iface)
  {
    i.address.Some? ==> IsAddress(i.address.value)
  }

  /** A line of the map, before it is printed: the dummy prefix-qualified
      address and the real address with its network's prefix length. */
  datatype MapEntry = MapEntry(dummy: Cidr, realAddress: Option<nat>, realLen: nat)

  /** What an interface contributes to the node: the network id, the
      address compose assigns, and the map entry when it is virtualised. */
  datatype IfaceOut = IfaceOut(netId: string, address: Option<nat>, entry: Option<MapEntry>)

  /** The real side of a map line: `str(address)/len`. */
  function RealText(address: Option<nat>, len: nat): string
    requires address.Some? ==> IsAddress(address.value)
  {
    OptAddrText(address) + "/" + NatText(len)
  }

  /** A line of `dummy_addr_map`. */
  function MapLine(dummy: Cidr, address: Option<nat>, len: nat): string
    requires IsAddress(dummy.addr) && (address.Some? ==> IsAddress(address.value))
  {
    CidrText(dummy) + "," + RealText(address, len)
  }

  /** `st2` follows `st`: same configuration and pool, the same networks
      on the same subnets, and no cursor moved back. */
  predicate Grows(st: State, st2: State)
  {
    && st2.selfManaged == st.selfManaged && st2.pool == st.pool
    && st2.dummies.Keys == st.dummies.Keys
    && (forall k :: k in st.dummies ==>
          st2.dummies[k].subnet == st.dummies[k].subnet && st2.dummies[k].cursor >= st.dummies[k].cursor)
  }

  /** `a` was handed out on network `key` between `st` and `st2`: it lies
      in the network's dummy subnet, between the two cursors. */
  predicate Handed(st: State, st2: State, key: NetKey, a: nat)
  {
    && Valid(st) && key in st.dummies && Grows(st, st2)
    && DummyPrefix(st, key).addr + st.dummies[key].cursor <= a
    && a < DummyPrefix(st, key).addr + st2.dummies[key].cursor
    && a < DummyPrefix(st, key).addr + Size(DummyPrefix(st, key).len)
    && IsAddress(a)
  }

  /** One interface of `_compileNode`: a virtualised one takes the next
      dummy address of its network (its network must have been compiled)
      and adds a map entry; any other keeps its real address. */
  function CompileIface(st: State, iface: Iface): (r: Result<(State, IfaceOut)>)
    requires Valid(st) && ValidIface(iface)
    ensures r.Failure? <==> && Virtualised(st, iface.net)
                            && (|| Key(iface.net) !in st.dummies
                                || st.dummies[Key(iface.net)].cursor >= Size(DummyPrefix(st, Key(iface.net)).len))
    ensures r.Success? ==> r.value.1.netId == NetId(iface.net.scope, iface.net.name, iface.net.bridge)
    ensures r.Success? ==> Valid(r.value.0) && Grows(st, r.value.0)
    ensures r.Success? && !Virtualised(st, iface.net) ==>
              r.value.0 == st && r.value.1.address == iface.address && r.value.1.entry.None?
    ensures r.Success? && Virtualised(st, iface.net) ==>
              && Key(iface.net) in st.dummies && r.value.1.address.Some?
              && Handed(st, r.value.0, Key(iface.net), r.value.1.address.value)
              && r.value.1.entry == Some(MapEntry(Cidr(r.value.1.address.value, DummyPrefix(st, Key(iface.net)).len),
                                                  iface.address, iface.net.prefix.len))
  {
    var id := NetId(iface.net.scope, iface.net.name, iface.net.bridge);
    if !Virtualised(st, iface.net) then Success((st, IfaceOut(id, iface.address, None)))
    else if Key(iface.net) !in st.dummies then Failure("'NoneType' object is not subscriptable")
    else
      var len := DummyPrefix(st, Key(iface.net)).len;
      var (a, st2) :- TakeAddress(st, Key(iface.net));
      Success((st2, IfaceOut(id, Some(a), Some(MapEntry(Cidr(a, len), iface.address, iface.net.prefix.len)))))
  }

  predicate ValidIfaces(ifaces: seq<Iface>)
  {
    forall i :: 0 <= i < |ifaces| ==> ValidIface(ifaces[i])
  }

  /** The interface loop of `_compileNode`, in interface order. */
  function CompileIfaces(st: State, ifaces: seq<Iface>): (r: Result<(State, seq<IfaceOut>)>)
    requires Valid(st) && ValidIfaces(ifaces)
    ensures r.Failure? ==> exists i :: 0 <= i < |ifaces| && Virtualised(st, ifaces[i].net)
    ensures r.Success? ==> Valid(r.value.0) && Grows(st, r.value.0) && |r.value.1| == |ifaces|
  {
    if |ifaces| == 0 then Success((st, []))
    else
      var init := ifaces[..|ifaces| - 1];
      var last := ifaces[|ifaces| - 1];
      var (st1, outs) :- CompileIfaces(st, init);
      var (st2, out) :- CompileIface(st1, last);
      GrowsTrans(st, st1, st2);
      Success((st2, outs + [out]))
  }

  lemma GrowsTrans(s0: State, s1: State, s2: State)
    requires Grows(s0, s1) && Grows(s1, s2)
    ensures Grows(s0, s2)
  {
  }

  /** An address handed out before `s1` stays handed out as the state
      grows. */
  lemma HandedLater(st: State, s1: State, s2: State, key: NetKey, a: nat)
    requires Handed(st, s1, key, a) && Grows(s1, s2)
    ensures Handed(st, s2, key, a)
  {
    GrowsTrans(st, s1, s2);
  }

  /** An address handed out after `s1` was handed out after any earlier
      state. */
  lemma HandedEarlier(st: State, s1: State, s2: State, key: NetKey, a: nat)
    requires Valid(st) && Grows(st, s1) && Handed(s1, s2, key, a)
    ensures Handed(st, s2, key, a)
  {
    GrowsTrans(st, s1, s2);
    assert DummyPrefix(s1, key) == DummyPrefix(st, key);
  }

  /** What an interface's output keeps of it: its network's id; a map
      entry exactly when it is virtualised; otherwise its real address. */
  predicate OutMatches(st: State, iface: Iface, out: IfaceOut)
  {
    && out.netId == NetId(iface.net.scope, iface.net.name, iface.net.bridge)
    && (out.entry.Some? <==> Virtualised(st, iface.net))
    && (!Virtualised(st, iface.net) ==> out.address == iface.address)
  }

  /** Interface `i` gets its network's id; it has a map entry exactly when
      it is virtualised, and otherwise keeps its real address. */
  lemma {:induction false} CompileIfacesOut(st: State, ifaces: seq<Iface>, i: nat)
    requires Valid(st) && ValidIfaces(ifaces) && CompileIfaces(st, ifaces).Success? && i < |ifaces|
    ensures OutMatches(st, ifaces[i], CompileIfaces(st, ifaces).value.1[i])
  {
    var init := ifaces[..|ifaces| - 1];
    var last := ifaces[|ifaces| - 1];
    CompileIfacesSnoc(st, ifaces);
    var (st1, outs) := CompileIfaces(st, init).value;
    var out := CompileIface(st1, last).value.1;
    if i < |init| {
      CompileIfacesOut(st, init, i);
      assert init[i] == ifaces[i] && (outs + [out])[i] == outs[i];
    } else {
      CompileIfaceOut(st1, last);
      assert (outs + [out])[i] == out && ifaces[i] == last;
      assert OutMatches(st, last, out) by {
        assert Virtualised(st1, last.net) == Virtualised(st, last.net);
      }
    }
  }

  /** A successful loop is the loop over all but the last interface,
      then the last one. */
  lemma CompileIfacesSnoc(st: State, ifaces: seq<Iface>)
    requires Valid(st) && ValidIfaces(ifaces) && CompileIfaces(st, ifaces).Success? && |ifaces| > 0
    ensures var init := ifaces[..|ifaces| - 1];
            && ValidIfaces(init) && CompileIfaces(st, init).Success?
            && var (st1, outs) := CompileIfaces(st, init).value;
               && Valid(st1) && Grows(st, st1) && ValidIface(ifaces[|ifaces| - 1])
               && CompileIface(st1, ifaces[|ifaces| - 1]).Success?
               && CompileIfaces(st, ifaces).value
                    == (CompileIface(st1, ifaces[|ifaces| - 1]).value.0, outs + [CompileIface(st1, ifaces[|ifaces| - 1]).value.1])
  {
  }

  /** A single interface's part of `CompileIfacesOut`. */
  lemma CompileIfaceOut(st: State, iface: Iface)
    requires Valid(st) && ValidIface(iface) && CompileIface(st, iface).Success?
    ensures OutMatches(st, iface, CompileIface(st, iface).value.1)
  {
  }

  /** A virtualised interface `i` gets an address of its network's dummy
      subnet, handed out during this loop, and the map entry pairing it
      with the real address. */
  lemma {:induction false} CompileIfacesHanded(st: State, ifaces: seq<Iface>, i: nat)
    requires Valid(st) && ValidIfaces(ifaces) && CompileIfaces(st, ifaces).Success? && i < |ifaces|
    requires Virtualised(st, ifaces[i].net)
    ensures HandedAt(st, ifaces, i)
    decreases |ifaces|, 1
  {
    if i < |ifaces| - 1 {
      HandedEarlierIface(st, ifaces, i);
    } else {
      HandedLastIface(st, ifaces);
    }
  }

  predicate HandedAt(st: State, ifaces: seq<Iface>, i: nat)
    requires Valid(st) && ValidIfaces(ifaces) && CompileIfaces(st, ifaces).Success? && i < |ifaces|
  {
    var (st2, outs) := CompileIfaces(st, ifaces).value;
    && Key(ifaces[i].net) in st.dummies && outs[i].address.Some?
    && Handed(st, st2, Key(ifaces[i].net), outs[i].address.value)
    && outs[i].entry == Some(MapEntry(Cidr(outs[i].address.value, DummyPrefix(st, Key(ifaces[i].net)).len),
                                      ifaces[i].address, ifaces[i].net.prefix.len))
  }

  lemma {:induction false} HandedEarlierIface(st: State, ifaces: seq<Iface>, i: nat)
    requires Valid(st) && ValidIfaces(ifaces) && CompileIfaces(st, ifaces).Success? && i < |ifaces| - 1
    requires Virtualised(st, ifaces[i].net)
    ensures HandedAt(st, ifaces, i)
    decreases |ifaces|, 0
  {
    var init := ifaces[..|ifaces| - 1];
    var (st1, outs) := CompileIfaces(st, init).value;
    var (st2, out) := CompileIface(st1, ifaces[|ifaces| - 1]).value;
    assert CompileIfaces(st, ifaces).value == (st2, outs + [out]);
    assert init[i] == ifaces[i] && (outs + [out])[i] == outs[i];
    CompileIfacesHanded(st, init, i);
    HandedLater(st, st1, st2, Key(ifaces[i].net), outs[i].address.value);
  }

  lemma HandedLastIface(st: State, ifaces: seq<Iface>)
    requires Valid(st) && ValidIfaces(ifaces) && CompileIfaces(st, ifaces).Success? && |ifaces| > 0
    requires Virtualised(st, ifaces[|ifaces| - 1].net)
    ensures HandedAt(st, ifaces, |ifaces| - 1)
  {
    var init := ifaces[..|ifaces| - 1];
    var (st1, outs) := CompileIfaces(st, init).value;
    var (st2, out) := CompileIface(st1, ifaces[|ifaces| - 1]).value;
    assert CompileIfaces(st, ifaces).value == (st2, outs + [out]);
    assert (outs + [out])[|ifaces| - 1] == out;
    var key := Key(ifaces[|ifaces| - 1].net);
    HandedEarlier(st, st1, st2, key, out.address.value);
    assert DummyPrefix(st1, key) == DummyPrefix(st, key);
  }

  /** Two virtualised interfaces on the same network get increasing, so
      distinct, addresses. */
  lemma {:induction false} CompileIfacesIncreasing(st: State, ifaces: seq<Iface>, i: nat, j: nat)
    requires Valid(st) && ValidIfaces(ifaces) && CompileIfaces(st, ifaces).Success? && i < j < |ifaces|
    requires Virtualised(st, ifaces[i].net) && Virtualised(st, ifaces[j].net)
    requires Key(ifaces[i].net) == Key(ifaces[j].net)
    ensures var outs := CompileIfaces(st, ifaces).value.1;
            outs[i].address.Some? && outs[j].address.Some? && outs[i].address.value < outs[j].address.value
  {
    var init := ifaces[..|ifaces| - 1];
    if j < |init| {
      var (st1, outs) := CompileIfaces(st, init).value;
      var (st2, out) := CompileIface(st1, ifaces[|ifaces| - 1]).value;
      assert CompileIfaces(st, ifaces).value == (st2, outs + [out]);
      assert init[i] == ifaces[i] && (outs + [out])[i] == outs[i];
      assert init[j] == ifaces[j] && (outs + [out])[j] == outs[j];
      CompileIfacesIncreasing(st, init, i, j);
    } else {
      BeforeLast(st, ifaces, i);
    }
  }

  /** An earlier interface on the network of the last one got a lower
      address. */
  lemma BeforeLast(st: State, ifaces: seq<Iface>, i: nat)
    requires Valid(st) && ValidIfaces(ifaces) && CompileIfaces(st, ifaces).Success? && i < |ifaces| - 1
    requires Virtualised(st, ifaces[i].net) && Virtualised(st, ifaces[|ifaces| - 1].net)
    requires Key(ifaces[i].net) == Key(ifaces[|ifaces| - 1].net)
    ensures var outs := CompileIfaces(st, ifaces).value.1;
            outs[i].address.Some? && outs[|ifaces| - 1].address.Some?
            && outs[i].address.value < outs[|ifaces| - 1].address.value
  {
    var init := ifaces[..|ifaces| - 1];
    var (st1, outs) := CompileIfaces(st, init).value;
    var (st2, out) := CompileIface(st1, ifaces[|ifaces| - 1]).value;
    assert CompileIfaces(st, ifaces).value == (st2, outs + [out]);
    var key := Key(ifaces[i].net);
    assert init[i] == ifaces[i] && (outs + [out])[i] == outs[i];
    assert (outs + [out])[|ifaces| - 1] == out;
    CompileIfacesHanded(st, init, i);
    assert Handed(st, st1, key, outs[i].address.value);
    assert Handed(st1, st2, key, out.address.value);
    assert DummyPrefix(st1, key) == DummyPrefix(st, key);
  }

  /** Two virtualised interfaces of a node never share a dummy address:
      on one network the cursor separates them, on two networks their
      subnets do. */
  lemma CompileIfacesDistinct(st: State, ifaces: seq<Iface>, i: nat, j: nat)
    requires Valid(st) && ValidIfaces(ifaces) && CompileIfaces(st, ifaces).Success?
    requires i < |ifaces| && j < |ifaces| && i != j
    requires Virtualised(st, ifaces[i].net) && Virtualised(st, ifaces[j].net)
    ensures var outs := CompileIfaces(st, ifaces).value.1;
            outs[i].address.Some? && outs[j].address.Some? && outs[i].address.value != outs[j].address.value
  {
    CompileIfacesHanded(st, ifaces, i);
    CompileIfacesHanded(st, ifaces, j);
    var ki := Key(ifaces[i].net);
    var kj := Key(ifaces[j].net);
    if ki == kj {
      if i < j {
        CompileIfacesIncreasing(st, ifaces, i, j);
      } else {
        CompileIfacesIncreasing(st, ifaces, j, i);
      }
    } else {
      var outs := CompileIfaces(st, ifaces).value.1;
      SubnetsDisjoint(st.pool, st.dummies[ki].subnet, st.dummies[kj].subnet,
                      outs[i].address.value, outs[j].address.value);
    }
  }

  predicate ValidEntry(e: MapEntry)
  {
    IsAddress(e.dummy.addr) && (e.realAddress.Some? ==> IsAddress(e.realAddress.value))
  }

  /** The printed form of a map entry. */
  function EntryLine(e: MapEntry): string
    requires ValidEntry(e)
  {
    MapLine(e.dummy, e.realAddress, e.realLen)
  }

  /** The entries of `dummy_addr_map`, in interface order. */
  function MapOf(outs: seq<IfaceOut>): (r: seq<MapEntry>)
    ensures forall e :: e in r <==> exists i :: 0 <= i < |outs| && outs[i].entry == Some(e)
  {
    if |outs| == 0 then []
    else
      var init := outs[..|outs| - 1];
      var last := outs[|outs| - 1];
      assert forall i :: 0 <= i < |init| ==> init[i] == outs[i];
      MapOf(init) + (if last.entry.Some? then [last.entry.value] else [])
  }

  predicate ValidEntries(entries: seq<MapEntry>)
  {
    forall i :: 0 <= i < |entries| ==> ValidEntry(entries[i])
  }

  function MapLines(entries: seq<MapEntry>): (r: seq<string>)
    requires ValidEntries(entries)
    ensures |r| == |entries| && forall i :: 0 <= i < |r| ==> r[i] == EntryLine(entries[i])
  {
    seq(|entries|, i requires 0 <= i < |entries| => EntryLine(entries[i]))
  }

  /** The text of `dummy_addr_map.txt`: one line per entry. */
  function MapText(entries: seq<MapEntry>): string
    requires ValidEntries(entries)
  {
    Terminated(MapLines(entries))
  }

  lemma RealTextCharacters(address: Option<nat>, len: nat)
    requires address.Some? ==> IsAddress(address.value)
    ensures ',' !in RealText(address, len) && '\n' !in RealText(address, len)
  {
    if address.Some? {
      AddrTextCharacters(address.value);
    }
  }

  /** A map line has exactly two comma-separated fields, the dummy and
      the real side, and no newline. */
  lemma EntryLineFields(e: MapEntry)
    requires ValidEntry(e)
    ensures Split(EntryLine(e), ',') == [CidrText(e.dummy), RealText(e.realAddress, e.realLen)]
    ensures '\n' !in EntryLine(e)
  {
    CidrTextNoComma(e.dummy);
    AddrTextCharacters(e.dummy.addr);
    RealTextCharacters(e.realAddress, e.realLen);
    var parts := [CidrText(e.dummy), RealText(e.realAddress, e.realLen)];
    assert Join(parts, ',') == EntryLine(e);
    SplitJoin(parts, ',');
  }

  /** Reading the map file back line by line gives the entry lines. */
  lemma MapTextLines(entries: seq<MapEntry>)
    requires ValidEntries(entries)
    ensures Split(MapText(entries), '\n') == MapLines(entries) + [""]
  {
    var lines := MapLines(entries);
    TerminatedIsJoin(lines);
    forall i | 0 <= i < |lines + [""]| ensures '\n' !in (lines + [""])[i] {
      if i < |lines| {
        EntryLineFields(entries[i]);
      }
    }
    SplitJoin(lines + [""], '\n');
  }

  /** `cut -d, -f<n>`: the `n`-th comma-separated field; a line without a
      comma is printed whole. */
  function Field(line: string, n: nat): string
    requires n >= 1
  {
    if ',' !in line then line
    else
      var parts := Split(line, ',');
      if n <= |parts| then parts[n - 1] else ""
  }

  lemma EntryLineField(e: MapEntry)
    requires ValidEntry(e)
    ensures Field(EntryLine(e), 1) == CidrText(e.dummy)
    ensures Field(EntryLine(e), 2) == RealText(e.realAddress, e.realLen)
  {
    EntryLineFields(e);
    assert ',' in EntryLine(e) by {
      assert EntryLine(e) == CidrText(e.dummy) + "," + RealText(e.realAddress, e.realLen);
      assert EntryLine(e)[|CidrText(e.dummy)|] == ',';
    }
  }

  /** The line of the map for the current `addr/len`: the first whose
      first field is that text. */
  function Lookup(lines: seq<string>, addr: string): (r: Option<string>)
    ensures r.None? <==> forall i :: 0 <= i < |lines| ==> Field(lines[i], 1) != addr
    ensures r.Some? ==> r.value in lines && Field(r.value, 1) == addr
  {
    if |lines| == 0 then None
    else if Field(lines[0], 1) == addr then Some(lines[0])
    else
      var r := Lookup(lines[1..], addr);
      assert forall i :: 1 <= i < |lines| ==> lines[i] == lines[1..][i - 1];
      r
  }

  /** The boot script on one address: a matching line gives the new
      address, its second field; without one the address stays. */
  function Rewrite(lines: seq<string>, addr: string): string
  {
    match Lookup(lines, addr)
    case None => addr
    case Some(line) => Field(line, 2)
  }

  /** The address round trip: on a node's map, the dummy address of a
      virtualised interface is rewritten to that interface's real address
      and prefix length. */
  lemma CompiledRewrite(st: State, ifaces: seq<Iface>, i: nat)
    requires Valid(st) && ValidIfaces(ifaces) && CompileIfaces(st, ifaces).Success? && i < |ifaces|
    requires Virtualised(st, ifaces[i].net)
    ensures var outs := CompileIfaces(st, ifaces).value.1;
            && outs[i].entry.Some? && ValidEntries(MapOf(outs)) && ValidEntry(outs[i].entry.value)
            && Rewrite(MapLines(MapOf(outs)), CidrText(outs[i].entry.value.dummy))
               == RealText(ifaces[i].address, ifaces[i].net.prefix.len)
  {
    var outs := CompileIfaces(st, ifaces).value.1;
    CompiledEntries(st, ifaces);
    CompileIfacesHanded(st, ifaces, i);
    var e := outs[i].entry.value;
    var m := MapOf(outs);
    var lines := MapLines(m);
    var text := CidrText(e.dummy);
    assert e in m;
    var k :| 0 <= k < |m| && m[k] == e;
    EntryLineField(e);
    assert Field(lines[k], 1) == text;
    var line := Lookup(lines, text).value;
    var k2 :| 0 <= k2 < |lines| && lines[k2] == line;
    var e2 := m[k2];
    EntryLineField(e2);
    assert e2 in m;
    var j :| 0 <= j < |outs| && outs[j].entry == Some(e2);
    CompiledEntryFrom(st, ifaces, j);
    CidrTextInjective(e2.dummy, e.dummy);
    if j != i {
      CompileIfacesDistinct(st, ifaces, i, j);
    }
  }

  /** An interface with a map entry is a virtualised one. */
  lemma CompiledEntryFrom(st: State, ifaces: seq<Iface>, j: nat)
    requires Valid(st) && ValidIfaces(ifaces) && CompileIfaces(st, ifaces).Success? && j < |ifaces|
    requires CompileIfaces(st, ifaces).value.1[j].entry.Some?
    ensures Virtualised(st, ifaces[j].net)
    ensures HandedAt(st, ifaces, j)
  {
    CompileIfacesOut(st, ifaces, j);
    CompileIfacesHanded(st, ifaces, j);
  }

  /** Every entry of a node's map can be printed. */
  lemma CompiledEntries(st: State, ifaces: seq<Iface>)
    requires Valid(st) && ValidIfaces(ifaces) && CompileIfaces(st, ifaces).Success?
    ensures ValidEntries(MapOf(CompileIfaces(st, ifaces).value.1))
  {
    var outs := CompileIfaces(st, ifaces).value.1;
    var m := MapOf(outs);
    forall k | 0 <= k < |m| ensures ValidEntry(m[k]) {
      assert m[k] in m;
      var j :| 0 <= j < |outs| && outs[j].entry == Some(m[k]);
      CompiledEntryFrom(st, ifaces, j);
    }
  }

  /** An address that is no interface's dummy is left as it is. */
  lemma CompiledRewriteOthers(st: State, ifaces: seq<Iface>, addr: string)
    requires Valid(st) && ValidIfaces(ifaces) && CompileIfaces(st, ifaces).Success?
    requires forall i :: 0 <= i < |ifaces| && Virtualised(st, ifaces[i].net) ==>
               CompileIfaces(st, ifaces).value.1[i].entry.Some?
               && IsAddress(CompileIfaces(st, ifaces).value.1[i].entry.value.dummy.addr)
               && addr != CidrText(CompileIfaces(st, ifaces).value.1[i].entry.value.dummy)
    ensures ValidEntries(MapOf(CompileIfaces(st, ifaces).value.1))
    ensures Rewrite(MapLines(MapOf(CompileIfaces(st, ifaces).value.1)), addr) == addr
  {
    var outs := CompileIfaces(st, ifaces).value.1;
    CompiledEntries(st, ifaces);
    var m := MapOf(outs);
    var lines := MapLines(m);
    forall k | 0 <= k < |lines| ensures Field(lines[k], 1) != addr {
      EntryLineField(m[k]);
      assert m[k] in m;
      var j :| 0 <= j < |outs| && outs[j].entry == Some(m[k]);
      CompiledEntryFrom(st, ifaces, j);
    }
  }

  /** Nodes compiled one after the other never share a dummy address
      either: the later node's addresses come after the cursor the
      earlier node left. */
  lemma SuccessiveNodesDistinct(st: State, first: seq<Iface>, second: seq<Iface>, i: nat, j: nat)
    requires Valid(st) && ValidIfaces(first) && ValidIfaces(second)
    requires CompileIfaces(st, first).Success?
    requires CompileIfaces(CompileIfaces(st, first).value.0, second).Success?
    requires i < |first| && j < |second|
    requires Virtualised(st, first[i].net) && Virtualised(st, second[j].net)
    ensures var (st1, outs1) := CompileIfaces(st, first).value;
            var outs2 := CompileIfaces(st1, second).value.1;
            outs1[i].address.Some? && outs2[j].address.Some? && outs1[i].address.value != outs2[j].address.value
  {
    var (st1, outs1) := CompileIfaces(st, first).value;
    var outs2 := CompileIfaces(st1, second).value.1;
    CompileIfacesHanded(st, first, i);
    CompileIfacesHanded(st1, second, j);
    var ki := Key(first[i].net);
    var kj := Key(second[j].net);
    assert DummyPrefix(st1, kj) == DummyPrefix(st, kj);
    if ki != kj {
      SubnetsDisjoint(st.pool, st.dummies[ki].subnet, st.dummies[kj].subnet,
                      outs1[i].address.value, outs2[j].address.value);
    }
  }

  lemma DefaultRangeValid()
    ensures ValidCidr(DefaultRange) && Size(DefaultMask) == 256
    ensures SubnetCount(Pool(DefaultRange, DefaultMask, 0)) >= 2
  {
    assert Pow2(8) == 256;
    assert Pow2(15) == 32768;
    assert Pow2(23) == 8388608;
  }

  /** Two networks with the same real prefix `10.0.0.0/24` in different
      scopes, on the default pool: they get the distinct, disjoint dummy
      subnets `10.128.0.0/24` and `10.128.1.0/24`, and compose declares
      those instead of the real prefix. */
  lemma DefaultPoolTwoNetworks()
    ensures var st := NewState(true, DefaultRange, DefaultMask);
            var n1 := Net("150", "net0", false, Cidr(0x0A00_0000, 24));
            var n2 := Net("151", "net0", false, Cidr(0x0A00_0000, 24));
            && st.Success?
            && CompileNet(st.value, n1).Success?
            && CompileNet(CompileNet(st.value, n1).value.0, n2).Success?
            && CompileNet(st.value, n1).value.1.prefix == Cidr(0x0A80_0000, 24)
            && CompileNet(CompileNet(st.value, n1).value.0, n2).value.1.prefix == Cidr(0x0A80_0100, 24)
  {
    DefaultRangeValid();
    var st := NewState(true, DefaultRange, DefaultMask).value;
    var n1 := Net("150", "net0", false, Cidr(0x0A00_0000, 24));
    var n2 := Net("151", "net0", false, Cidr(0x0A00_0000, 24));
    var st1 := CompileNet(st, n1).value.0;
    assert st1.pool.taken == 1;
    assert Subnet(st1.pool, 1) == Cidr(0x0A80_0000 + 256, 24);
  }
}
