/** The addresses that an access point hands out while it configures tags by itself (esl_client.c). */
module AddressPool {
  import opened Bytes
  import opened Modular

  const BROADCAST: byte := 0xFF
  const GROUPS: nat := 128

  function Address(group: byte, id: byte): u16
    requires group < GROUPS
  {
    group * 0x100 + id
  }

  lemma AddressParts(group: byte, id: byte)
    requires group < GROUPS
    ensures Low(Address(group, id)) == id && GroupId(Address(group, id)) == group
    ensures id < 255 ==> Address(group, id + 1) == (Address(group, id) + 1) % 0x1_0000
  {
  }

  /** The address after `addr`: the next ESL ID, or the first one of the next group once `tags` are used up. */
  function Next(addr: u16, first: byte, tags: u16): u16 {
    var n := (addr + 1) % 0x1_0000;
    if Low(n) >= first + tags then Address((GroupId(n) + 1) % 0x80, first) else n
  }

  function Nth(addr: u16, first: byte, tags: u16, n: nat): u16 {
    if n == 0 then addr else Next(Nth(addr, first, tags, n - 1), first, tags)
  }

  /** A group gets at least one tag. */
  function PerGroup(tags: u16): (t: nat)
    ensures t >= 1
  {
    if tags == 0 then 1 else tags
  }

  /** Where the n-th tag goes: so many groups on, and so many IDs on in its group. */
  function GroupsOn(n: nat, tags: u16): nat { n / PerGroup(tags) }

  function IdsOn(n: nat, tags: u16): (r: nat)
    ensures r < PerGroup(tags)
  {
    n % PerGroup(tags)
  }

  lemma OneMoreTag(n: nat, tags: u16)
    ensures GroupsOn(0, tags) == IdsOn(0, tags) == 0
    ensures if IdsOn(n, tags) + 1 < PerGroup(tags)
            then GroupsOn(n + 1, tags) == GroupsOn(n, tags) && IdsOn(n + 1, tags) == IdsOn(n, tags) + 1
            else GroupsOn(n + 1, tags) == GroupsOn(n, tags) + 1 && IdsOn(n + 1, tags) == 0
  {
    SmallMod(0, PerGroup(tags));
    DivStep(n, PerGroup(tags));
  }

  lemma PlacesDiffer(a: nat, b: nat, tags: u16)
    ensures GroupsOn(a, tags) == GroupsOn(b, tags) && IdsOn(a, tags) == IdsOn(b, tags) ==> a == b
    ensures a < GROUPS * PerGroup(tags) ==> GroupsOn(a, tags) < GROUPS
  {
    QuotientBound(a, GROUPS, PerGroup(tags));
    assert a == a / PerGroup(tags) * PerGroup(tags) + a % PerGroup(tags);
    assert b == b / PerGroup(tags) * PerGroup(tags) + b % PerGroup(tags);
  }

  lemma NextAddress(group: byte, id: byte, first: byte, tags: u16)
    requires group < GROUPS && id < 255
    ensures Next(Address(group, id), first, tags) ==
              if id + 1 >= first + tags then Address((group + 1) % GROUPS, first) else Address(group, id + 1)
  {
    hide Address, Low, GroupId;
    AddressParts(group, id);
    AddressParts(group, id + 1);
  }

  /** When the ESL IDs of a group stay below the broadcast one, the n-th address is ID n mod T of group n div T,
      counted from the first group and wrapping after the last. */
  lemma {:induction false} NthAddress(group: byte, first: byte, tags: u16, n: nat)
    requires group < GROUPS && first < BROADCAST && first + tags <= 255
    ensures first + IdsOn(n, tags) < BROADCAST
    ensures Nth(Address(group, first), first, tags, n) ==
            Address((group + GroupsOn(n, tags)) % GROUPS, first + IdsOn(n, tags))
  {
    hide Address, Next, GroupsOn, IdsOn;
    if n == 0 {
      OneMoreTag(0, tags);
    } else {
      NthAddress(group, first, tags, n - 1);
      OneMoreTag(n - 1, tags);
      NextAddress((group + GroupsOn(n - 1, tags)) % GROUPS, first + IdsOn(n - 1, tags), first, tags);
      WrapOne(group + GroupsOn(n - 1, tags));
    }
  }

  /** In numbers, with T tags to a group: the n-th address. */
  lemma NthAddressIs(group: byte, first: byte, tags: u16, n: nat)
    requires group < 128 && first < 255 && first + tags <= 255
    ensures var t := if tags == 0 then 1 else tags as nat;
            Nth(Address(group, first), first, tags, n) == (group + n / t) % 128 * 256 + first + n % t
  {
    NthAddress(group, first, tags, n);
  }

  lemma WrapOne(x: nat)
    ensures (x % GROUPS + 1) % GROUPS == (x + 1) % GROUPS
  {
  }

  /** Without room below the broadcast ID the addresses run on through the group. */
  lemma {:induction false} RunsOn(group: byte, first: byte, tags: u16, n: nat)
    requires group < GROUPS && first < BROADCAST && first + tags > 255 && first + n <= 255
    ensures Nth(Address(group, first), first, tags, n) == Address(group, first + n)
  {
    hide Address, Next;
    if n > 0 {
      RunsOn(group, first, tags, n - 1);
      NextAddress(group, first + n - 1, first, tags);
    }
  }

  /** No tag is ever given the broadcast ID if and only if the first ID and the number of tags stay within 255. */
  lemma NeverBroadcastIff(group: byte, first: byte, tags: u16)
    requires group < GROUPS && first < BROADCAST
    ensures (forall n: nat, a | a == Nth(Address(group, first), first, tags, n) :: Low(a) != BROADCAST) <==>
            first + tags <= 255
  {
    hide Address, Low, GroupId, Nth, GroupsOn, IdsOn;
    if first + tags <= 255 {
      forall n: nat, a | a == Nth(Address(group, first), first, tags, n) ensures Low(a) != BROADCAST {
        NthAddress(group, first, tags, n);
        AddressParts((group + GroupsOn(n, tags)) % GROUPS, first + IdsOn(n, tags));
      }
    } else {
      RunsOn(group, first, tags, 255 - first);
      AddressParts(group, 255);
      assert Low(Nth(Address(group, first), first, tags, 255 - first)) == BROADCAST;
    }
  }

  /** All 128 groups are filled before an address comes again. */
  lemma DistinctAddresses(group: byte, first: byte, tags: u16, a: nat, b: nat)
    requires group < GROUPS && first < BROADCAST && first + tags <= 255
    requires a < b < GROUPS * PerGroup(tags)
    ensures Nth(Address(group, first), first, tags, a) != Nth(Address(group, first), first, tags, b)
  {
    hide Nth, Address, Low, GroupId, GroupsOn, IdsOn, PerGroup;
    NthAddress(group, first, tags, a);
    NthAddress(group, first, tags, b);
    PlacesDiffer(a, b, tags);
    PlacesDiffer(b, a, tags);
    AddressParts((group + GroupsOn(a, tags)) % GROUPS, first + IdsOn(a, tags));
    AddressParts((group + GroupsOn(b, tags)) % GROUPS, first + IdsOn(b, tags));
    SameGroup(group, GroupsOn(a, tags), GroupsOn(b, tags));
  }

  lemma SameGroup(group: nat, p: nat, q: nat)
    requires p < GROUPS && q < GROUPS
    ensures (group + p) % GROUPS == (group + q) % GROUPS ==> p == q
  {
  }

  /** esl_addr_start of the access point object. */
  class Pool {
    var start: u16
    const first: byte
    const tagsPerGroup: u16

    constructor (group: byte, first: byte, tagsPerGroup: u16)
      requires group < GROUPS
      ensures start == Address(group, first) && this.first == first && this.tagsPerGroup == tagsPerGroup
    {
      start := Address(group, first);
      this.first := first;
      this.tagsPerGroup := tagsPerGroup;
    }

    /** The step at the end of esl_c_auto_configuring_tag */
    method Step() returns (used: u16)
      modifies this
      ensures used == old(start) && start == Next(old(start), first, tagsPerGroup)
    {
      hide Address, Low, GroupId;
      used := start;
      start := (start + 1) % 0x1_0000;
      if Low(start) >= first + tagsPerGroup {
        start := Address((GroupId(start) + 1) % 0x80, first);
      }
    }

    /** Configuring n tags uses the first n addresses. */
    method Configure(n: nat) returns (used: seq<u16>)
      modifies this
      ensures |used| == n && forall i | 0 <= i < n :: used[i] == Nth(old(start), first, tagsPerGroup, i)
    {
      used := [];
      for i := 0 to n
        invariant |used| == i && start == Nth(old(start), first, tagsPerGroup, i)
        invariant forall k | 0 <= k < i :: used[k] == Nth(old(start), first, tagsPerGroup, k)
      {
        var a := Step();
        used := used + [a];
      }
    }
  }
}
