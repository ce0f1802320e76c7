/** The grouping of `srcs/Server.cpp`'s configurations by listening
    address: what a group is, and the shape `groupConfigs` gives the groups
    after each configuration it has placed. */
module ServerGroups {
  import opened Text
  import opened HttpTypes

  /** `ServerGroup`: the listening socket, the configurations that share it,
      and the position in the server's configuration list of the one the
      group was started with (`defaultConf` points into `_configs`). */
  datatype ServerGroup = ServerGroup(fd: int, configs: seq<Config>, defaultConf: nat)

  /** Every configuration names at least one port (`ports.front()` is read). */
  predicate AllHavePorts(all: seq<Config>) {
    forall i :: 0 <= i < |all| ==> all[i].ports != []
  }

  /** The listening address of a configuration: its host and first port. */
  function KeyOf(c: Config): (string, int)
    requires c.ports != []
  {
    (c.host, c.ports[0])
  }

  /** Every group's default lies among the first `n` configurations. */
  predicate DefaultsIn(groups: seq<ServerGroup>, n: nat) {
    forall g :: 0 <= g < |groups| ==> groups[g].defaultConf < n
  }

  /** The address of each group, read through its default configuration. */
  function Keys(groups: seq<ServerGroup>, all: seq<Config>): (ks: seq<(string, int)>)
    requires AllHavePorts(all) && DefaultsIn(groups, |all|)
    ensures |ks| == |groups|
    ensures forall g :: 0 <= g < |groups| ==> ks[g] == KeyOf(all[groups[g].defaultConf])
  {
    seq(|groups|, g requires 0 <= g < |groups| => KeyOf(all[groups[g].defaultConf]))
  }

  /** The first position holding `x`, if any. */
  function FirstIndex<T(==)>(s: seq<T>, x: T): (r: Option<nat>)
    ensures r.Some? ==> r.value < |s| && s[r.value] == x && forall j :: 0 <= j < r.value ==> s[j] != x
    ensures r.None? <==> x !in s
    decreases |s|
  {
    if s == [] then None
    else if s[0] == x then Some(0)
    else match FirstIndex(s[1..], x)
      case None => None
      case Some(j) => Some(j + 1)
  }

  // ------------------------------------------------------------ grouping

  /** The groups after `conf` joins the first group whose default has its
      address, or None when no group has it. */
  function Joined(groups: seq<ServerGroup>, all: seq<Config>, conf: Config): (r: Option<seq<ServerGroup>>)
    requires AllHavePorts(all) && DefaultsIn(groups, |all|) && conf.ports != []
    ensures r.Some? ==> DefaultsIn(r.value, |all|)
  {
    match FirstIndex(Keys(groups, all), KeyOf(conf))
    case Some(g) => Some(groups[g := groups[g].(configs := groups[g].configs + [conf])])
    case None => None
  }

  /** The configurations among the first `n` that have address `k`, in order. */
  function Filter(all: seq<Config>, n: nat, k: (string, int)): seq<Config>
    requires AllHavePorts(all) && n <= |all|
    decreases n
  {
    if n == 0 then []
    else Filter(all, n - 1, k) + (if KeyOf(all[n - 1]) == k then [all[n - 1]] else [])
  }

  /** Configuration `d` is the first with its address. */
  predicate FirstWithKey(all: seq<Config>, d: nat)
    requires AllHavePorts(all) && d < |all|
  {
    forall j :: 0 <= j < d ==> KeyOf(all[j]) != KeyOf(all[d])
  }

  /** The shape of the groups once the first `n` configurations are
      placed, starting from no groups: every group
      has no socket yet, is started by the first configuration with its
      address and holds exactly the configurations with that address in
      order; groups appear in order of their first configuration; and every
      configuration's address has a group. */
  predicate GroupsOk(groups: seq<ServerGroup>, all: seq<Config>, n: nat)
    requires AllHavePorts(all) && DefaultsIn(groups, |all|) && n <= |all|
  {
    GroupsFormed(groups, all, n) && DefaultsAscending(groups) && AllCovered(groups, all, n)
  }

  predicate GroupsFormed(groups: seq<ServerGroup>, all: seq<Config>, n: nat)
    requires AllHavePorts(all) && n <= |all|
  {
    forall g {:trigger groups[g]} :: 0 <= g < |groups| ==> GroupFormed(groups[g], all, n)
  }

  /** A group has no socket yet, is started by the first configuration with
      its address among the first `n`, and holds exactly those with that
      address, in order. */
  predicate GroupFormed(grp: ServerGroup, all: seq<Config>, n: nat)
    requires AllHavePorts(all) && n <= |all|
  {
    grp.fd == -1 && grp.defaultConf < n && FirstWithKey(all, grp.defaultConf) &&
    grp.configs == Filter(all, n, KeyOf(all[grp.defaultConf]))
  }

  predicate DefaultsAscending(groups: seq<ServerGroup>) {
    forall g, h {:trigger Ordered(groups, g, h)} :: 0 <= g < h < |groups| ==> Ordered(groups, g, h)
  }

  /** Group `g` was started before group `h`. */
  predicate Ordered(groups: seq<ServerGroup>, g: nat, h: nat)
    requires g < |groups| && h < |groups|
  {
    groups[g].defaultConf < groups[h].defaultConf
  }

  predicate AllCovered(groups: seq<ServerGroup>, all: seq<Config>, n: nat)
    requires AllHavePorts(all) && DefaultsIn(groups, |all|) && n <= |all|
  {
    forall j {:trigger Covered(groups, all, j)} :: 0 <= j < n ==> Covered(groups, all, j)
  }

  /** Configuration `j`'s address has a group. */
  predicate Covered(groups: seq<ServerGroup>, all: seq<Config>, j: nat)
    requires AllHavePorts(all) && DefaultsIn(groups, |all|) && j < |all|
  {
    KeyOf(all[j]) in Keys(groups, all)
  }
}
