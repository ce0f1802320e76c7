/** The parts of `srcs/Server.cpp` that are not socket I/O: grouping the
    configurations by listening address, and removing an entry from the poll
    list by swapping the last entry into its slot. */
module Server {
  import opened Text
  import opened HttpTypes
  import opened ServerGroups

  /** A `pollfd` entry. */
  datatype PollFd = PollFd(fd: int, events: int, revents: int)

  /** No two groups share an address. */
  lemma KeysDistinct(groups: seq<ServerGroup>, all: seq<Config>, n: nat)
    requires AllHavePorts(all) && DefaultsIn(groups, |all|) && n <= |all|
    requires GroupsOk(groups, all, n)
    ensures forall g, h :: 0 <= g < h < |groups| ==> Keys(groups, all)[g] != Keys(groups, all)[h]
  {
    forall g, h | 0 <= g < h < |groups| ensures Keys(groups, all)[g] != Keys(groups, all)[h] {
      assert Ordered(groups, g, h);
      assert FirstWithKey(all, groups[h].defaultConf);
    }
  }

  /** With no earlier configuration at address `k`, the filter is empty. */
  lemma {:induction false} FilterEmpty(all: seq<Config>, n: nat, k: (string, int))
    requires AllHavePorts(all) && n <= |all|
    requires forall j :: 0 <= j < n ==> KeyOf(all[j]) != k
    ensures Filter(all, n, k) == []
    decreases n
  {
    if n > 0 {
      FilterEmpty(all, n - 1, k);
    }
  }

  /** The filter holds only configurations with address `k`. */
  lemma {:induction false} FilterKeys(all: seq<Config>, n: nat, k: (string, int))
    requires AllHavePorts(all) && n <= |all|
    ensures forall c :: c in Filter(all, n, k) ==> c.ports != [] && KeyOf(c) == k
    decreases n
  {
    if n > 0 {
      FilterKeys(all, n - 1, k);
    }
  }

  /** The filter holds every configuration with address `k`. */
  lemma {:induction false} FilterHas(all: seq<Config>, n: nat, k: (string, int), j: nat)
    requires AllHavePorts(all) && j < n <= |all| && KeyOf(all[j]) == k
    ensures all[j] in Filter(all, n, k)
    decreases n
  {
    if j < n - 1 {
      FilterHas(all, n - 1, k, j);
    }
  }

  /** The filter starts with the first configuration that has address `k`. */
  lemma {:induction false} FilterFirst(all: seq<Config>, n: nat, d: nat)
    requires AllHavePorts(all) && d < n <= |all| && FirstWithKey(all, d)
    ensures Filter(all, n, KeyOf(all[d])) != [] && Filter(all, n, KeyOf(all[d]))[0] == all[d]
    decreases n
  {
    if n - 1 == d {
      FilterEmpty(all, d, KeyOf(all[d]));
    } else {
      FilterFirst(all, n - 1, d);
    }
  }

  /** Before any configuration is placed there are no groups, and that is
      the shape. */
  lemma NoGroupsYet(all: seq<Config>)
    requires AllHavePorts(all)
    ensures DefaultsIn([], |all|) && GroupsOk([], all, 0)
  {
  }

  /** One step of `groupConfigs` keeps the shape: configuration `n` joins
      the first group with its address (`isGroupMember` is asked only when
      there are groups), or else starts a new group with no socket yet. */
  lemma PlaceKeepsGroups(groups: seq<ServerGroup>, all: seq<Config>, n: nat, joined: bool, r: seq<ServerGroup>)
    requires AllHavePorts(all) && DefaultsIn(groups, |all|) && n < |all|
    requires GroupsOk(groups, all, n)
    requires joined ==> Joined(groups, all, all[n]) == Some(r)
    requires !joined ==> (groups == [] || Joined(groups, all, all[n]).None?)
    requires !joined ==> r == groups + [ServerGroup(-1, [all[n]], n)]
    ensures DefaultsIn(r, |all|) && GroupsOk(r, all, n + 1)
  {
    match FirstIndex(Keys(groups, all), KeyOf(all[n]))
    case Some(g) => JoinKeepsGroups(groups, all, n, g, r);
    case None => NewKeepsGroups(groups, all, n, r);
  }

  /** Placing configuration `n` in group `g`, the first with its address,
      keeps the shape. */
  lemma JoinKeepsGroups(groups: seq<ServerGroup>, all: seq<Config>, n: nat, g: nat, r: seq<ServerGroup>)
    requires AllHavePorts(all) && DefaultsIn(groups, |all|) && n < |all|
    requires GroupsOk(groups, all, n)
    requires g < |groups| && Keys(groups, all)[g] == KeyOf(all[n])
    requires r == groups[g := groups[g].(configs := groups[g].configs + [all[n]])]
    ensures DefaultsIn(r, |all|) && GroupsOk(r, all, n + 1)
  {
    assert Keys(r, all) == Keys(groups, all);
    JoinFormed(groups, all, n, g, r);
    JoinCovered(groups, all, n, g, r);
    forall h1, h2 | 0 <= h1 < h2 < |r| ensures Ordered(r, h1, h2) {
      assert Ordered(groups, h1, h2);
    }
  }

  /** After the join every group still holds exactly its address's
      configurations, now among the first `n + 1`. */
  lemma JoinFormed(groups: seq<ServerGroup>, all: seq<Config>, n: nat, g: nat, r: seq<ServerGroup>)
    requires AllHavePorts(all) && DefaultsIn(groups, |all|) && n < |all|
    requires GroupsOk(groups, all, n)
    requires g < |groups| && Keys(groups, all)[g] == KeyOf(all[n])
    requires r == groups[g := groups[g].(configs := groups[g].configs + [all[n]])]
    ensures GroupsFormed(r, all, n + 1)
  {
    var ks := Keys(groups, all);
    KeysDistinct(groups, all, n);
    forall h | 0 <= h < |r|
      ensures r[h].configs == Filter(all, n + 1, KeyOf(all[r[h].defaultConf]))
    {
      if h != g {
        assert ks[h] != ks[g];
      }
    }
  }

  /** After the join every configuration up to `n` still has a group. */
  lemma JoinCovered(groups: seq<ServerGroup>, all: seq<Config>, n: nat, g: nat, r: seq<ServerGroup>)
    requires AllHavePorts(all) && DefaultsIn(groups, |all|) && n < |all|
    requires GroupsOk(groups, all, n)
    requires g < |groups| && Keys(groups, all)[g] == KeyOf(all[n])
    requires DefaultsIn(r, |all|) && Keys(r, all) == Keys(groups, all)
    ensures AllCovered(r, all, n + 1)
  {
    var ks := Keys(groups, all);
    forall j | 0 <= j < n + 1 ensures Covered(r, all, j) {
      if j < n {
        assert Covered(groups, all, j);
      } else {
        assert ks[g] in ks;
      }
    }
  }

  /** Starting a new group with configuration `n`, whose address has no
      group yet, keeps the shape. */
  lemma NewKeepsGroups(groups: seq<ServerGroup>, all: seq<Config>, n: nat, r: seq<ServerGroup>)
    requires AllHavePorts(all) && DefaultsIn(groups, |all|) && n < |all|
    requires GroupsOk(groups, all, n)
    requires KeyOf(all[n]) !in Keys(groups, all)
    requires r == groups + [ServerGroup(-1, [all[n]], n)]
    ensures DefaultsIn(r, |all|) && GroupsOk(r, all, n + 1)
  {
    var k := KeyOf(all[n]);
    var ks := Keys(groups, all);
    assert Keys(r, all) == ks + [k];
    forall j | 0 <= j < n ensures KeyOf(all[j]) != k {
      assert Covered(groups, all, j);
    }
    FilterEmpty(all, n, k);
    forall h | 0 <= h < |groups|
      ensures r[h].configs == Filter(all, n + 1, KeyOf(all[r[h].defaultConf]))
    {
      assert ks[h] in ks;
    }
    forall j | 0 <= j < n + 1 ensures Covered(r, all, j) {
      if j < n {
        assert Covered(groups, all, j);
      }
    }
    forall h1, h2 | 0 <= h1 < h2 < |r| ensures Ordered(r, h1, h2) {
      if h2 < |groups| {
        assert Ordered(groups, h1, h2);
      }
    }
  }

  /** What `groupConfigs` leaves, from no groups: every group starts with
      its default configuration and has no socket yet; groups come in the
      order of their first configuration; no two share an address; every
      configuration is in the group with its address and in no other, in
      its original order. */
  lemma {:induction false} GroupConfigsPartition(all: seq<Config>, groups: seq<ServerGroup>)
    requires AllHavePorts(all) && DefaultsIn(groups, |all|)
    requires GroupsOk(groups, all, |all|)
    ensures
      (forall g :: 0 <= g < |groups| ==>
        groups[g].fd == -1 && groups[g].configs != [] &&
        groups[g].configs[0] == all[groups[g].defaultConf] &&
        FirstWithKey(all, groups[g].defaultConf) &&
        groups[g].configs == Filter(all, |all|, Keys(groups, all)[g])) &&
      (forall g, h :: 0 <= g < h < |groups| ==>
        groups[g].defaultConf < groups[h].defaultConf && Keys(groups, all)[g] != Keys(groups, all)[h]) &&
      (forall j :: 0 <= j < |all| ==> KeyOf(all[j]) in Keys(groups, all)) &&
      (forall j, g :: 0 <= j < |all| && 0 <= g < |groups| ==>
        (all[j] in groups[g].configs <==> KeyOf(all[j]) == Keys(groups, all)[g]))
  {
    KeysDistinct(groups, all, |all|);
    forall g, h | 0 <= g < h < |groups| ensures groups[g].defaultConf < groups[h].defaultConf {
      assert Ordered(groups, g, h);
    }
    forall j | 0 <= j < |all| ensures KeyOf(all[j]) in Keys(groups, all) {
      assert Covered(groups, all, j);
    }
    forall g | 0 <= g < |groups|
      ensures groups[g].configs != [] && groups[g].configs[0] == all[groups[g].defaultConf]
    {
      FilterFirst(all, |all|, groups[g].defaultConf);
    }
    forall j, g | 0 <= j < |all| && 0 <= g < |groups|
      ensures all[j] in groups[g].configs <==> KeyOf(all[j]) == Keys(groups, all)[g]
    {
      var k := Keys(groups, all)[g];
      FilterKeys(all, |all|, k);
      if KeyOf(all[j]) == k {
        FilterHas(all, |all|, k, j);
      }
    }
  }

  // ------------------------------------------------------- swap-removal

  /** The poll list without entry `i`, the last entry moved into its slot. */
  function SwapRemove<T>(s: seq<T>, i: nat): seq<T>
    requires i < |s|
  {
    if i == |s| - 1 then s[..i] else s[..i] + [s[|s| - 1]] + s[i + 1..|s| - 1]
  }

  /** The removal drops exactly one copy of entry `i`, keeps the entries
      before `i` in place, and leaves every entry not yet visited by a scan
      at position `i` or later, so decrementing the index skips nothing. */
  lemma SwapRemoveFacts<T>(s: seq<T>, i: nat)
    requires i < |s|
    ensures var r := SwapRemove(s, i);
      |r| == |s| - 1 && r[..i] == s[..i] &&
      (i < |r| ==> r[i] == s[|s| - 1]) &&
      multiset(r) == multiset(s) - multiset{s[i]} &&
      multiset(r[i..]) == multiset(s[i + 1..])
  {
    SwapRemoveShape(s, i);
    SwapRemoveTail(s, i);
    var r := SwapRemove(s, i);
    SplitAt(r, i);
    SplitAround(s, i);
  }

  lemma SwapRemoveShape<T>(s: seq<T>, i: nat)
    requires i < |s|
    ensures var r := SwapRemove(s, i);
      |r| == |s| - 1 && r[..i] == s[..i] && (i < |r| ==> r[i] == s[|s| - 1])
  {
  }

  /** From position `i` on, the removal holds the same entries as the old
      list after `i`, the last one moved to the front. */
  lemma SwapRemoveTail<T>(s: seq<T>, i: nat)
    requires i < |s|
    ensures multiset(SwapRemove(s, i)[i..]) == multiset(s[i + 1..])
  {
    var r := SwapRemove(s, i);
    if i < |s| - 1 {
      var mid := s[i + 1..|s| - 1];
      var last := s[|s| - 1];
      assert r[i..] == [last] + mid;
      assert s[i + 1..] == mid + [last];
    }
  }

  lemma SplitAt<T>(s: seq<T>, i: nat)
    requires i <= |s|
    ensures multiset(s) == multiset(s[..i]) + multiset(s[i..])
  {
    assert s == s[..i] + s[i..];
  }

  lemma SplitAround<T>(s: seq<T>, i: nat)
    requires i < |s|
    ensures multiset(s) == multiset(s[..i]) + multiset{s[i]} + multiset(s[i + 1..])
  {
    assert s == s[..i] + [s[i]] + s[i + 1..];
  }

  /** `Server`: its configurations, their groups and the poll list. */
  class Server {
    var configs: seq<Config>
    var serverGroups: seq<ServerGroup>
    var pfds: seq<PollFd>

    predicate Valid()
      reads this
    {
      AllHavePorts(configs) && DefaultsIn(serverGroups, |configs|)
    }

    /** `Server(parser)`: the configurations fetched, then grouped. */
    constructor(fetched: seq<Config>)
      requires AllHavePorts(fetched)
      ensures configs == fetched && pfds == []
      ensures Valid() && GroupsOk(serverGroups, fetched, |fetched|)
    {
      configs := fetched;
      serverGroups := [];
      pfds := [];
      new;
      GroupConfigs();
    }

    /** `isGroupMember`: appends `conf` to the first group whose default has
        the same host and first port and answers true; otherwise answers
        false and changes nothing. */
    method IsGroupMember(conf: Config) returns (found: bool)
      requires Valid() && conf.ports != []
      modifies this
      ensures configs == old(configs) && pfds == old(pfds) && Valid()
      ensures var r := Joined(old(serverGroups), configs, conf);
        (found <==> r.Some?) &&
        (found ==> r == Some(serverGroups)) &&
        (!found ==> serverGroups == old(serverGroups))
    {
      var g := 0;
      while g < |serverGroups|
        invariant 0 <= g <= |serverGroups|
        invariant configs == old(configs) && pfds == old(pfds) && serverGroups == old(serverGroups)
        invariant forall h :: 0 <= h < g ==> Keys(serverGroups, configs)[h] != KeyOf(conf)
      {
        var grp := serverGroups[g];
        var def := configs[grp.defaultConf];
        if def.host == conf.host && def.ports[0] == conf.ports[0] {
          serverGroups := serverGroups[g := grp.(configs := grp.configs + [conf])];
          return true;
        }
        g := g + 1;
      }
      return false;
    }

    /** `groupConfigs`, run once by the constructor before any group
        exists: each configuration, in order, joins the first group with its
        address, or (always when there are no groups yet) starts a new one
        with socket -1 and itself as default. */
    method GroupConfigs()
      requires Valid() && serverGroups == []
      modifies this
      ensures configs == old(configs) && pfds == old(pfds) && Valid()
      ensures GroupsOk(serverGroups, configs, |configs|)
    {
      NoGroupsYet(configs);
      for i := 0 to |configs|
        invariant configs == old(configs) && pfds == old(pfds) && Valid()
        invariant GroupsOk(serverGroups, configs, i)
      {
        PlaceConfig(i);
      }
    }

    /** The body of `groupConfigs`' loop for configuration `i`: with no
        groups, or when `isGroupMember` finds no group with its address, a
        new group with socket -1 and `i` as default is pushed. */
    method PlaceConfig(i: nat)
      requires Valid() && i < |configs|
      requires GroupsOk(serverGroups, configs, i)
      modifies this
      ensures configs == old(configs) && pfds == old(pfds) && Valid()
      ensures GroupsOk(serverGroups, configs, i + 1)
    {
      ghost var before := serverGroups;
      var member := false;
      if serverGroups != [] {
        member := IsGroupMember(configs[i]);
      }
      if !member {
        serverGroups := serverGroups + [ServerGroup(-1, [configs[i]], i)];
      }
      PlaceKeepsGroups(before, configs, i, member, serverGroups);
    }

    /** The removal of poll entry `i` in `handleClientData` and
        `sendResponse`: when `i` is not last, the last entry overwrites slot
        `i`; the back is popped; the index steps back by one (for `i` = 0
        the unsigned index wraps, and the scan's increment brings it back
        to 0). */
    method RemovePollFd(i: nat) returns (next: int)
      requires i < |pfds|
      modifies this
      ensures pfds == SwapRemove(old(pfds), i)
      ensures next == i - 1
      ensures configs == old(configs) && serverGroups == old(serverGroups)
    {
      if |pfds| > i + 1 {
        pfds := pfds[i := pfds[|pfds| - 1]];
        pfds := pfds[..|pfds| - 1];
        return i - 1;
      }
      pfds := pfds[..|pfds| - 1];
      return i - 1;
    }
  }
}
