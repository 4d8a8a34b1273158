// Fleet-level routing: which service instances own a tenant, and the redirect hint.
module FleetRouting {
  import opened Bits
  import opened ShuffleSharding

  datatype InstanceInfo = InstanceInfo(id: nat, address: string)

  datatype FleetConfig = FleetConfig(
    instanceId: nat, fleetSize: nat, instancesPerTenant: nat, topology: seq<InstanceInfo>)

  /** The assignment loop ends for a tenant with hash h; a fleet of one never runs it. */
  ghost predicate Routable(h: nat, fleetSize: nat, instancesPerTenant: nat) {
    fleetSize > 1 ==> Finishes(h, fleetSize, instancesPerTenant)
  }

  /** Whether instance `id` owns the tenant with hash h. */
  predicate Owns(h: nat, fleetSize: nat, instancesPerTenant: nat, id: nat) {
    fleetSize <= 1 || id in Assignment(h, fleetSize, instancesPerTenant)
  }

  /** Exactly min(K, N) of the N instances of a real fleet own each tenant. */
  lemma ExactlyKOwners(h: nat, n: nat, k: nat)
    requires 2 <= n && Routable(h, n, k)
    ensures |set id | 0 <= id < n && Owns(h, n, k, id)| == if k < n then k else n
  {
    var owners := Assignment(h, n, k);
    AssignmentShape(h, n, k);
    DistinctSize(owners);
    assert (set id | 0 <= id < n && Owns(h, n, k, id)) == Elements(owners);
  }

  // ------------------------------------------------------------ redirect hint

  /** The first topology entry for the instance that has an address to print. */
  function AddressOf(topology: seq<InstanceInfo>, id: nat): seq<string> {
    if topology == [] then []
    else if topology[0].id == id && topology[0].address != "" then [topology[0].address]
    else AddressOf(topology[1..], id)
  }

  function Addresses(topology: seq<InstanceInfo>, ids: seq<nat>): seq<string> {
    if ids == [] then []
    else Addresses(topology, ids[..|ids| - 1]) + AddressOf(topology, ids[|ids| - 1])
  }

  function Join(parts: seq<string>): string {
    if parts == [] then ""
    else if |parts| == 1 then parts[0]
    else Join(parts[..|parts| - 1]) + "," + parts[|parts| - 1]
  }

  function Hint(h: nat, config: FleetConfig): seq<string> {
    if config.fleetSize <= 1 || config.topology == [] then []
    else Addresses(config.topology, Assignment(h, config.fleetSize, config.instancesPerTenant))
  }

  ghost predicate NoneBefore(topology: seq<InstanceInfo>, id: nat, j: nat)
    requires j <= |topology|
  {
    forall i :: 0 <= i < j ==> !(topology[i].id == id && topology[i].address != "")
  }

  /** a is printed by the first entry of the instance that prints anything. */
  ghost predicate FirstAddress(topology: seq<InstanceInfo>, id: nat, a: string) {
    a != "" && exists j :: 0 <= j < |topology| && topology[j] == InstanceInfo(id, a) && NoneBefore(topology, id, j)
  }

  lemma {:induction false} AddressOfMeaning(topology: seq<InstanceInfo>, id: nat)
    ensures |AddressOf(topology, id)| <= 1
    ensures AddressOf(topology, id) != [] ==> FirstAddress(topology, id, AddressOf(topology, id)[0])
    ensures forall a :: a in AddressOf(topology, id) ==> a != "" && InstanceInfo(id, a) in topology
    ensures AddressOf(topology, id) == [] ==> forall a :: a != "" ==> InstanceInfo(id, a) !in topology
  {
    if topology != [] {
      AddressOfMeaning(topology[1..], id);
      assert topology == [topology[0]] + topology[1..];
      if AddressOf(topology, id) != [] {
        var a := AddressOf(topology, id)[0];
        if topology[0].id == id && topology[0].address != "" {
          assert topology[0] == InstanceInfo(id, a);
        } else {
          var j :| 0 <= j < |topology[1..]| && topology[1..][j] == InstanceInfo(id, a) && NoneBefore(topology[1..], id, j);
          assert topology[j + 1] == InstanceInfo(id, a) && NoneBefore(topology, id, j + 1);
        }
      }
    }
  }

  lemma {:induction false} AddressesMeaning(topology: seq<InstanceInfo>, ids: seq<nat>)
    ensures forall a :: a in Addresses(topology, ids) ==>
              a != "" && exists id :: id in ids && InstanceInfo(id, a) in topology
    ensures forall id, a :: id in ids && a != "" && InstanceInfo(id, a) in topology ==>
              exists b :: b in Addresses(topology, ids) && InstanceInfo(id, b) in topology
  {
    if ids != [] {
      var front, last := ids[..|ids| - 1], ids[|ids| - 1];
      AddressesMeaning(topology, front);
      AddressOfMeaning(topology, last);
      assert ids == front + [last];
      forall id, a | id in ids && a != "" && InstanceInfo(id, a) in topology
        ensures exists b :: b in Addresses(topology, ids) && InstanceInfo(id, b) in topology
      {
        if id in front {
          var b :| b in Addresses(topology, front) && InstanceInfo(id, b) in topology;
          assert b in Addresses(topology, ids);
        } else {
          var b := AddressOf(topology, last)[0];
          assert b in AddressOf(topology, last);
          assert b in Addresses(topology, ids);
        }
      }
    }
  }

  /** The hint lists only owners, and every owner that has an address. */
  lemma HintListsOwners(h: nat, config: FleetConfig)
    requires config.fleetSize >= 2
    ensures forall a :: a in Hint(h, config) ==>
              a != "" && exists id :: InstanceInfo(id, a) in config.topology
                                      && Owns(h, config.fleetSize, config.instancesPerTenant, id)
    ensures forall id, a :: a != "" && InstanceInfo(id, a) in config.topology
                            && Owns(h, config.fleetSize, config.instancesPerTenant, id) ==>
              exists b :: b in Hint(h, config) && InstanceInfo(id, b) in config.topology
  {
    AddressesMeaning(config.topology, Assignment(h, config.fleetSize, config.instancesPerTenant));
  }

  ghost predicate InOrder(topology: seq<InstanceInfo>, ids: seq<nat>, addresses: seq<string>, from: seq<nat>) {
    && |from| == |addresses|
    && (forall p, q :: 0 <= p < q < |from| ==> from[p] < from[q])
    && (forall p :: 0 <= p < |from| ==> from[p] < |ids| && FirstAddress(topology, ids[from[p]], addresses[p]))
  }

  lemma OneMoreOwner(topology: seq<InstanceInfo>, ids: seq<nat>, id: nat, addresses: seq<string>, from: seq<nat>, a: string)
    requires InOrder(topology, ids, addresses, from)
    ensures InOrder(topology, ids + [id], addresses, from)
    ensures FirstAddress(topology, id, a) ==> InOrder(topology, ids + [id], addresses + [a], from + [|ids|])
  {
  }

  /** The hint gives the owners' addresses in the order of assignment, each owner once at most,
      and each by its first printable entry. */
  lemma {:induction false} AddressesInOrder(topology: seq<InstanceInfo>, ids: seq<nat>) returns (from: seq<nat>)
    ensures InOrder(topology, ids, Addresses(topology, ids), from)
  {
    if ids == [] {
      from := [];
    } else {
      var front, last := ids[..|ids| - 1], ids[|ids| - 1];
      from := AddressesInOrder(topology, front);
      AddressOfMeaning(topology, last);
      assert ids == front + [last];
      var found := AddressOf(topology, last);
      if found == [] {
        OneMoreOwner(topology, front, last, Addresses(topology, front), from, "");
        assert Addresses(topology, ids) == Addresses(topology, front);
      } else {
        OneMoreOwner(topology, front, last, Addresses(topology, front), from, found[0]);
        assert found == [found[0]];
        from := from + [|front|];
      }
    }
  }

  /** A fleet of one, or of none, owns every tenant everywhere; it and an empty topology give no hint. */
  lemma SmallFleets(h: nat, config: FleetConfig, id: nat)
    ensures config.fleetSize <= 1 ==> Owns(h, config.fleetSize, config.instancesPerTenant, id)
    ensures config.fleetSize <= 1 || config.topology == [] ==> Hint(h, config) == []
  {
    if config.topology == [] && config.fleetSize > 1 {
      NoAddresses(Assignment(h, config.fleetSize, config.instancesPerTenant));
    }
  }

  lemma {:induction false} NoAddresses(ids: seq<nat>)
    ensures Addresses([], ids) == []
  {
    if ids != [] {
      NoAddresses(ids[..|ids| - 1]);
    }
  }

  // ------------------------------------------------------- reading a hint back

  predicate CommaFree(s: string) {
    ',' !in s
  }

  /** The pieces between the commas of a text that has at least one piece. */
  function Split(s: string): (parts: seq<string>)
    ensures parts != []
  {
    if s == "" then [""]
    else
      var rest, c := Split(s[..|s| - 1]), s[|s| - 1];
      if c == ',' then rest + [""]
      else rest[..|rest| - 1] + [rest[|rest| - 1] + [c]]
  }

  lemma {:induction false} SplitLast(s: string, part: string)
    requires CommaFree(part)
    ensures Split(s + "," + part) == Split(s) + [part]
    decreases |part|
  {
    var whole := s + "," + part;
    if part == "" {
      assert whole[..|whole| - 1] == s;
    } else {
      var front, c := part[..|part| - 1], part[|part| - 1];
      assert whole[..|whole| - 1] == s + "," + front && whole[|whole| - 1] == c;
      SplitLast(s, front);
      assert front + [c] == part;
    }
  }

  lemma {:induction false} SplitOne(part: string)
    requires CommaFree(part)
    ensures Split(part) == [part]
  {
    if part != "" {
      SplitOne(part[..|part| - 1]);
      assert part[..|part| - 1] + [part[|part| - 1]] == part;
    }
  }

  /** Splitting a hint at its commas gives back the addresses, when none holds a comma itself. */
  lemma {:induction false} HintReadsBack(parts: seq<string>)
    requires parts != [] && forall p :: 0 <= p < |parts| ==> CommaFree(parts[p])
    ensures Split(Join(parts)) == parts
  {
    var front, last := parts[..|parts| - 1], parts[|parts| - 1];
    if front == [] {
      SplitOne(last);
      assert parts == [last];
    } else {
      HintReadsBack(front);
      SplitLast(Join(front), last);
      assert parts == front + [last];
    }
  }

  // -------------------------------------------------------------- the router

  class FleetRouter {
    const config: FleetConfig
    const hash: string -> nat

    constructor (config: FleetConfig, hash: string -> nat)
      ensures this.config == config && this.hash == hash
    {
      this.config, this.hash := config, hash;
    }

    ghost predicate Serves(tenant: string) {
      Routable(hash(tenant), config.fleetSize, config.instancesPerTenant)
    }

    static method AssignInstances(h: nat, fleetSize: nat, instancesPerTenant: nat) returns (result: seq<nat>)
      requires fleetSize > 0 && Finishes(h, fleetSize, instancesPerTenant)
      ensures result == Assignment(h, fleetSize, instancesPerTenant)
      ensures FirstDistinctCells(h, fleetSize, instancesPerTenant, result)
    {
      LoopEntry(h, fleetSize, instancesPerTenant);
      AssignmentIsFirstDistinct(h, fleetSize, instancesPerTenant, Assignment(h, fleetSize, instancesPerTenant));
      result := [];
      var i := 0;
      ghost var rounds := 0;
      while |result| < instancesPerTenant
        invariant AtHead(h, fleetSize, instancesPerTenant, rounds, result, i)
        decreases TWO32 - rounds
      {
        LoopRound(h, fleetSize, instancesPerTenant, rounds, result, i);
        var instance := Cell(h, fleetSize, i);
        if instance !in result {
          result := result + [instance];
        }
        i := if i + 1 == TWO32 then 0 else i + 1;
        rounds := rounds + 1;
        if |result| == fleetSize {
          break;
        }
      }
    }

    method OwnsTenant(tenant: string) returns (owns: bool)
      requires Serves(tenant)
      ensures owns <==> Owns(hash(tenant), config.fleetSize, config.instancesPerTenant, config.instanceId)
    {
      if config.fleetSize <= 1 {
        return true;
      }
      var owners := AssignInstances(hash(tenant), config.fleetSize, config.instancesPerTenant);
      owns := config.instanceId in owners;
    }

    /** The inner loop: the instance's first printable address, after a comma unless it is the first. */
    method AppendAddress(id: nat, ghost before: seq<string>, text: string, isFirst: bool)
      returns (hint: string, first: bool)
      requires text == Join(before) && (isFirst <==> before == [])
      ensures
        var after := before + AddressOf(config.topology, id);
        hint == Join(after) && (first <==> after == [])
    {
      hint, first := text, isFirst;
      ghost var wanted := AddressOf(config.topology, id);
      var j := 0;
      while j < |config.topology|
        invariant 0 <= j <= |config.topology|
        invariant wanted == AddressOf(config.topology[j..], id)
        invariant hint == text && first == isFirst
      {
        var info := config.topology[j];
        if info.id == id && info.address != "" {
          assert wanted == [info.address];
          assert (before + wanted)[..|before|] == before;
          if !first {
            hint := hint + ",";
          }
          hint := hint + info.address;
          first := false;
          return;
        }
        assert config.topology[j..][1..] == config.topology[j + 1..];
        j := j + 1;
      }
      assert before + wanted == before;
    }

    method RedirectHint(tenant: string) returns (hint: string)
      requires config.topology != [] ==> Serves(tenant)
      ensures hint == Join(Hint(hash(tenant), config))
    {
      if config.fleetSize <= 1 || config.topology == [] {
        return "";
      }
      var owners := AssignInstances(hash(tenant), config.fleetSize, config.instancesPerTenant);
      hint := "";
      var first := true;
      var i := 0;
      ghost var before := [];
      while i < |owners|
        invariant 0 <= i <= |owners|
        invariant before == Addresses(config.topology, owners[..i])
        invariant hint == Join(before) && (first <==> before == [])
      {
        assert owners[..i + 1][..i] == owners[..i];
        hint, first := AppendAddress(owners[i], before, hint, first);
        before := before + AddressOf(config.topology, owners[i]);
        i := i + 1;
      }
      assert owners[..i] == owners;
    }
  }
}
