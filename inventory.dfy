/** The controller's view of the cluster (cmd/controller/main.go): the node
    and pod records it reads, node indexing (`getNodes`), subscriber ports
    (`getPodPort`) and the grouping of eligible pods by topic and by node. */
module Inventory {
  import opened Bytes
  import opened Decimal

  /** One entry of a node's status addresses; `kind` is the address type
      ("InternalIP", "ExternalIP", "Hostname", ...). */
  datatype NodeAddress = NodeAddress(kind: string, address: string)

  datatype Node = Node(name: string, addresses: seq<NodeAddress>)

  datatype EnvVar = EnvVar(name: string, value: string)

  datatype Container = Container(env: seq<EnvVar>)

  /** The fields of a subscriber pod the controller looks at. */
  datatype Pod = Pod(podIP: string, nodeName: string, labels: map<string, string>, containers: seq<Container>)

  const INTERNAL_IP: string := "InternalIP"
  const PORT_ENV: string := "PS_UDP_PORT"
  const DEFAULT_PORT: int := 31001
  const TOPIC_LABEL: string := "ps/topic"
  const DEFAULT_TOPIC: u32 := 1

  // ---------------------------------------------------------------------
  // Go's string order: byte-wise lexicographic, which for UTF-8 is the
  // lexicographic order of code points.

  predicate Below(a: string, b: string)
    decreases |a|
  {
    if b == [] then false
    else if a == [] then true
    else if a[0] != b[0] then a[0] < b[0]
    else Below(a[1..], b[1..])
  }

  lemma {:induction false} BelowIrreflexive(a: string)
    ensures !Below(a, a)
    decreases |a|
  {
    if a != [] {
      BelowIrreflexive(a[1..]);
    }
  }

  lemma {:induction false} BelowTransitive(a: string, b: string, c: string)
    requires Below(a, b) && Below(b, c)
    ensures Below(a, c)
    decreases |a|
  {
    if a != [] && a[0] == b[0] && b[0] == c[0] {
      BelowTransitive(a[1..], b[1..], c[1..]);
    }
  }

  lemma {:induction false} BelowTotal(a: string, b: string)
    ensures a == b || Below(a, b) || Below(b, a)
    decreases |a|
  {
    if a != [] && b != [] && a[0] == b[0] {
      BelowTotal(a[1..], b[1..]);
      if a[1..] == b[1..] {
        assert a == [a[0]] + a[1..] && b == [b[0]] + b[1..];
      }
    }
  }

  /** "Not below" is transitive: a ≤ b and b ≤ c give a ≤ c. */
  lemma AtMostTransitive(a: string, b: string, c: string)
    requires !Below(b, a) && !Below(c, b)
    ensures !Below(c, a)
  {
    BelowTotal(a, b);
    BelowTotal(b, c);
    if Below(c, a) {
      if a == b {
      } else if b == c {
      } else {
        BelowTransitive(a, b, c);
        BelowTransitive(c, a, c);
        BelowIrreflexive(c);
      }
    }
  }

  // ---------------------------------------------------------------------
  // sort.Slice(nodes, by name)

  predicate SortedByName(ns: seq<Node>)
  {
    forall i, j :: 0 <= i < j < |ns| ==> !Below(ns[j].name, ns[i].name)
  }

  function Insert(x: Node, s: seq<Node>): (r: seq<Node>)
    ensures multiset(r) == multiset(s) + multiset{x}
  {
    if s == [] || !Below(s[0].name, x.name) then [x] + s
    else
      assert s == [s[0]] + s[1..];
      [s[0]] + Insert(x, s[1..])
  }

  lemma {:induction false} InsertSorted(x: Node, s: seq<Node>)
    requires SortedByName(s)
    ensures SortedByName(Insert(x, s))
    decreases |s|
  {
    var r := Insert(x, s);
    if s == [] || !Below(s[0].name, x.name) {
      forall i, j | 0 <= i < j < |r|
        ensures !Below(r[j].name, r[i].name)
      {
        if i == 0 {
          if j > 1 {
            AtMostTransitive(x.name, s[0].name, s[j - 1].name);
          }
        }
      }
    } else {
      InsertSorted(x, s[1..]);
      var t := Insert(x, s[1..]);
      assert r == [s[0]] + t;
      forall j | 0 < j < |r|
        ensures !Below(r[j].name, s[0].name)
      {
        assert r[j] in multiset(t);
        if r[j] == x {
          BelowTotal(x.name, s[0].name);
          if Below(x.name, s[0].name) {
            BelowTransitive(x.name, s[0].name, x.name);
            BelowIrreflexive(x.name);
          }
        } else {
          assert r[j] in multiset(s[1..]);
          var k :| 0 <= k < |s[1..]| && s[1..][k] == r[j];
          assert s[k + 1] == r[j];
        }
      }
    }
  }

  /** The node list sorted by name, built by insertion. */
  function SortByName(ns: seq<Node>): (r: seq<Node>)
    ensures multiset(r) == multiset(ns)
  {
    if ns == [] then []
    else
      assert ns == [ns[0]] + ns[1..];
      Insert(ns[0], SortByName(ns[1..]))
  }

  lemma {:induction false} SortByNameSorted(ns: seq<Node>)
    ensures SortedByName(SortByName(ns))
  {
    if ns != [] {
      SortByNameSorted(ns[1..]);
      InsertSorted(ns[0], SortByName(ns[1..]));
    }
  }

  // ---------------------------------------------------------------------
  // getNodes

  /** The first address of type InternalIP, or "" when there is none. */
  function InternalIP(addrs: seq<NodeAddress>): string
  {
    if addrs == [] then ""
    else if addrs[0].kind == INTERNAL_IP then addrs[0].address
    else InternalIP(addrs[1..])
  }

  lemma {:induction false} InternalIPIsFirst(addrs: seq<NodeAddress>, j: nat)
    requires j < |addrs| && addrs[j].kind == INTERNAL_IP
    requires forall k :: 0 <= k < j ==> addrs[k].kind != INTERNAL_IP
    ensures InternalIP(addrs) == addrs[j].address
  {
    if j > 0 {
      assert addrs[0].kind != INTERNAL_IP;
      InternalIPIsFirst(addrs[1..], j - 1);
    }
  }

  lemma {:induction false} InternalIPAbsent(addrs: seq<NodeAddress>)
    requires forall k :: 0 <= k < |addrs| ==> addrs[k].kind != INTERNAL_IP
    ensures InternalIP(addrs) == ""
  {
    if addrs != [] {
      assert addrs[0].kind != INTERNAL_IP;
      InternalIPAbsent(addrs[1..]);
    }
  }

  /** Node `i` is the last node in `ns` with its name. */
  predicate LastWithName(ns: seq<Node>, i: nat)
    requires i < |ns|
  {
    forall j :: i < j < |ns| ==> ns[j].name != ns[i].name
  }

  predicate DistinctNames(ns: seq<Node>)
  {
    forall i, j :: 0 <= i < j < |ns| ==> ns[i].name != ns[j].name
  }

  function Names(ns: seq<Node>): set<string>
  {
    set i | 0 <= i < |ns| :: ns[i].name
  }

  /** What `getNodes` promises about its two maps: every listed name is a
      key, and a name maps to the position (as a u32) and the InternalIP of
      the last node carrying it. */
  predicate Indexed(ns: seq<Node>, idx: map<string, u32>, ip: map<string, string>)
  {
    idx.Keys == Names(ns) && ip.Keys == Names(ns)
    && forall i :: 0 <= i < |ns| && LastWithName(ns, i) ==>
         idx[ns[i].name] == Wrap32(i) && ip[ns[i].name] == InternalIP(ns[i].addresses)
  }

  /** `getNodes`: sorts the listed nodes by name, then numbers them in that
      order and records each one's InternalIP. */
  method GetNodes(list: seq<Node>) returns (nodes: seq<Node>, idx: map<string, u32>, ip: map<string, string>)
    ensures SortedByName(nodes) && multiset(nodes) == multiset(list)
    ensures Indexed(nodes, idx, ip)
  {
    nodes := SortByName(list);
    SortByNameSorted(list);
    idx := map[];
    ip := map[];
    var i := 0;
    while i < |nodes|
      invariant i <= |nodes|
      invariant Indexed(nodes[..i], idx, ip)
    {
      var n := nodes[i];
      var a := "";
      var j := 0;
      while j < |n.addresses|
        invariant j <= |n.addresses|
        invariant InternalIP(n.addresses[j..]) == InternalIP(n.addresses)
      {
        assert n.addresses[j..][1..] == n.addresses[j + 1..];
        if n.addresses[j].kind == INTERNAL_IP {
          a := n.addresses[j].address;
          break;
        }
        j := j + 1;
      }
      if j == |n.addresses| {
        a := "";
      }
      assert a == InternalIP(n.addresses);
      IndexedStep(nodes, i, idx, ip, a);
      idx := idx[n.name := Wrap32(i)];
      ip := ip[n.name := a];
      i := i + 1;
    }
    assert nodes[..|nodes|] == nodes;
  }

  /** The names of a one-longer prefix. */
  lemma NamesSnoc(ns: seq<Node>, i: nat)
    requires i < |ns|
    ensures Names(ns[..i + 1]) == Names(ns[..i]) + {ns[i].name}
  {
    var p := ns[..i + 1];
    forall x | x in Names(p) ensures x in Names(ns[..i]) + {ns[i].name} {
      var k :| 0 <= k < |p| && p[k].name == x;
      if k < i {
        assert ns[..i][k] == p[k];
      }
    }
    forall x | x in Names(ns[..i]) ensures x in Names(p) {
      var k :| 0 <= k < i && ns[..i][k].name == x;
      assert p[k] == ns[..i][k];
    }
  }

  /** A node before `i` that is last with its name in the longer prefix is
      last in the shorter one, and does not share the new node's name. */
  lemma LastWithNameShorter(ns: seq<Node>, i: nat, k: nat)
    requires k < i < |ns| && LastWithName(ns[..i + 1], k)
    ensures LastWithName(ns[..i], k) && ns[k].name != ns[i].name
  {
    var p := ns[..i + 1];
    assert p[i] == ns[i] && p[k] == ns[k];
    forall j | k < j < i ensures ns[..i][j].name != ns[..i][k].name {
      assert p[j] == ns[..i][j];
    }
  }

  /** One iteration of the numbering loop keeps `Indexed` for the longer prefix. */
  lemma IndexedStep(ns: seq<Node>, i: nat, idx: map<string, u32>, ip: map<string, string>, a: string)
    requires i < |ns| && Indexed(ns[..i], idx, ip) && a == InternalIP(ns[i].addresses)
    ensures Indexed(ns[..i + 1], idx[ns[i].name := Wrap32(i)], ip[ns[i].name := a])
  {
    var p := ns[..i + 1];
    NamesSnoc(ns, i);
    forall k | 0 <= k < |p| && LastWithName(p, k)
      ensures idx[ns[i].name := Wrap32(i)][p[k].name] == Wrap32(k)
      ensures ip[ns[i].name := a][p[k].name] == InternalIP(p[k].addresses)
    {
      if k < i {
        LastWithNameShorter(ns, i, k);
        assert ns[..i][k] == p[k];
      }
    }
  }

  /** With distinct names (and fewer than 2^32 nodes) the indices are
      exactly 0..M-1, one per node. */
  lemma DenseIndices(ns: seq<Node>, idx: map<string, u32>, ip: map<string, string>)
    requires Indexed(ns, idx, ip) && DistinctNames(ns) && |ns| <= 0x1_0000_0000
    ensures forall i :: 0 <= i < |ns| ==> idx[ns[i].name] == i
    ensures forall v: u32 :: v in idx.Values <==> v < |ns|
    ensures forall x, y :: x in idx && y in idx && x != y ==> idx[x] != idx[y]
  {
    forall i | 0 <= i < |ns| ensures idx[ns[i].name] == i {
      assert LastWithName(ns, i);
    }
    forall v | v in idx.Values ensures v < |ns| {
      var x :| x in idx && idx[x] == v;
      var k :| 0 <= k < |ns| && ns[k].name == x;
      assert idx[ns[k].name] == k;
    }
    forall v: u32 | v < |ns| ensures v in idx.Values {
      assert ns[v].name in idx && idx[ns[v].name] == v;
    }
    forall x, y | x in idx && y in idx && x != y ensures idx[x] != idx[y] {
      var i :| 0 <= i < |ns| && ns[i].name == x;
      var j :| 0 <= j < |ns| && ns[j].name == y;
    }
  }

  // ---------------------------------------------------------------------
  // getPodPort

  /** An environment entry `getPodPort` accepts. */
  predicate PortEntry(e: EnvVar)
  {
    e.name == PORT_ENV && Atoi(e.value).Some?
  }

  /** The first accepted entry of one container's environment, if any. */
  function EnvPort(env: seq<EnvVar>): Option<int>
  {
    if env == [] then None
    else if PortEntry(env[0]) then Atoi(env[0].value)
    else EnvPort(env[1..])
  }

  /** The first accepted entry over the containers in order, if any. */
  function ContainersPort(cs: seq<Container>): Option<int>
  {
    if cs == [] then None
    else if EnvPort(cs[0].env).Some? then EnvPort(cs[0].env)
    else ContainersPort(cs[1..])
  }

  function PodPort(p: Pod): int
  {
    if ContainersPort(p.containers).Some? then ContainersPort(p.containers).value else DEFAULT_PORT
  }

  /** Entry `e` of container `c` comes before entry `e'` of container `c'`. */
  predicate Earlier(c: nat, e: nat, c': nat, e': nat)
  {
    c < c' || (c == c' && e < e')
  }

  lemma {:induction false} EnvPortIsFirst(env: seq<EnvVar>)
    ensures EnvPort(env).None? <==> forall k :: 0 <= k < |env| ==> !PortEntry(env[k])
    ensures EnvPort(env).Some? ==> exists k :: (0 <= k < |env| && PortEntry(env[k])
      && EnvPort(env) == Atoi(env[k].value) && forall k' :: 0 <= k' < k ==> !PortEntry(env[k']))
  {
    if env != [] {
      EnvPortIsFirst(env[1..]);
      if !PortEntry(env[0]) {
        assert forall k :: 0 < k < |env| ==> env[k] == env[1..][k - 1];
        if EnvPort(env).Some? {
          var k :| 0 <= k < |env[1..]| && PortEntry(env[1..][k]) && EnvPort(env) == Atoi(env[1..][k].value)
            && forall k' :: 0 <= k' < k ==> !PortEntry(env[1..][k']);
          assert PortEntry(env[k + 1]);
        }
      } else {
        assert PortEntry(env[0]);
      }
    }
  }

  /** `getPodPort` falls back to 31001 exactly when no container has a
      `PS_UDP_PORT` entry that parses. */
  lemma {:induction false} PodPortDefault(cs: seq<Container>)
    ensures ContainersPort(cs).None? <==>
      forall c, k :: 0 <= c < |cs| && 0 <= k < |cs[c].env| ==> !PortEntry(cs[c].env[k])
  {
    if cs != [] {
      PodPortDefault(cs[1..]);
      EnvPortIsFirst(cs[0].env);
      if EnvPort(cs[0].env).None? {
        forall c, k | 0 < c < |cs| && 0 <= k < |cs[c].env|
          ensures PortEntry(cs[c].env[k]) == PortEntry(cs[1..][c - 1].env[k])
        {
        }
      }
    }
  }

  /** Otherwise its result is the value of the first `PS_UDP_PORT` entry that
      parses, scanning containers in order and each one's environment in
      order. */
  lemma {:induction false} PodPortIsFirst(cs: seq<Container>)
    ensures ContainersPort(cs).Some? ==> exists c, k :: (0 <= c < |cs| && 0 <= k < |cs[c].env|
      && PortEntry(cs[c].env[k]) && ContainersPort(cs) == Atoi(cs[c].env[k].value)
      && forall c', k' :: 0 <= c' < |cs| && 0 <= k' < |cs[c'].env| && Earlier(c', k', c, k)
           ==> !PortEntry(cs[c'].env[k']))
  {
    if cs != [] {
      EnvPortIsFirst(cs[0].env);
      if EnvPort(cs[0].env).Some? {
        var k :| 0 <= k < |cs[0].env| && PortEntry(cs[0].env[k])
          && EnvPort(cs[0].env) == Atoi(cs[0].env[k].value) && forall k' :: 0 <= k' < k ==> !PortEntry(cs[0].env[k']);
        assert PortEntry(cs[0].env[k]);
      } else if ContainersPort(cs).Some? {
        PodPortIsFirst(cs[1..]);
        var c, k :| 0 <= c < |cs[1..]| && 0 <= k < |cs[1..][c].env|
          && PortEntry(cs[1..][c].env[k]) && ContainersPort(cs[1..]) == Atoi(cs[1..][c].env[k].value)
          && forall c', k' :: 0 <= c' < |cs[1..]| && 0 <= k' < |cs[1..][c'].env| && Earlier(c', k', c, k)
               ==> !PortEntry(cs[1..][c'].env[k']);
        assert cs[c + 1] == cs[1..][c];
        forall c', k' | 0 <= c' < |cs| && 0 <= k' < |cs[c'].env| && Earlier(c', k', c + 1, k)
          ensures !PortEntry(cs[c'].env[k'])
        {
          if c' > 0 {
            assert cs[c'] == cs[1..][c' - 1];
            assert Earlier(c' - 1, k', c, k);
          }
        }
      }
    }
  }

  /** `getPodPort`: returns from inside the two loops at the first entry
      that parses, and falls back to 31001. */
  method GetPodPort(p: Pod) returns (port: int)
    ensures port == PodPort(p)
  {
    var cs := p.containers;
    var c := 0;
    while c < |cs|
      invariant c <= |cs|
      invariant ContainersPort(cs[c..]) == ContainersPort(cs)
    {
      assert cs[c..][1..] == cs[c + 1..];
      var env := cs[c].env;
      var e := 0;
      while e < |env|
        invariant e <= |env|
        invariant EnvPort(env[e..]) == EnvPort(env)
      {
        assert env[e..][1..] == env[e + 1..];
        if env[e].name == PORT_ENV {
          var v := Atoi(env[e].value);
          if v.Some? {
            return v.value;
          }
        }
        e := e + 1;
      }
      c := c + 1;
    }
    return DEFAULT_PORT;
  }

  // ---------------------------------------------------------------------
  // Filtering and grouping of the listed subscriber pods.

  /** Pods without an IP or a node are skipped. */
  predicate Eligible(p: Pod)
  {
    p.podIP != "" && p.nodeName != ""
  }

  /** The `ps/topic` label as a u32 when it parses, 1 otherwise. */
  function TopicIdOf(p: Pod): u32
  {
    if TOPIC_LABEL in p.labels && Atoi(p.labels[TOPIC_LABEL]).Some?
    then Wrap32(Atoi(p.labels[TOPIC_LABEL]).value)
    else DEFAULT_TOPIC
  }

  /** The topic → node-set table after the pods of `ps` have been inserted. */
  function TopicGroups(ps: seq<Pod>): map<u32, set<string>>
  {
    if ps == [] then map[]
    else
      var g := TopicGroups(ps[..|ps| - 1]);
      var p := ps[|ps| - 1];
      if !Eligible(p) then g
      else
        var t := TopicIdOf(p);
        g[t := (if t in g then g[t] else {}) + {p.nodeName}]
  }

  /** The node → pod-list table after the pods of `ps` have been appended. */
  function NodeGroups(ps: seq<Pod>): map<string, seq<Pod>>
  {
    if ps == [] then map[]
    else
      var g := NodeGroups(ps[..|ps| - 1]);
      var p := ps[|ps| - 1];
      if !Eligible(p) then g
      else g[p.nodeName := (if p.nodeName in g then g[p.nodeName] else []) + [p]]
  }

  /** The eligible pods of `ps` placed on node `n`, in listing order. */
  function PodsOn(ps: seq<Pod>, n: string): seq<Pod>
  {
    if ps == [] then []
    else PodsOn(ps[..|ps| - 1], n) + (if Eligible(ps[|ps| - 1]) && ps[|ps| - 1].nodeName == n then [ps[|ps| - 1]] else [])
  }

  /** Some eligible pod of `ps` placed on node `n` carries topic `t`. */
  predicate Hosts(ps: seq<Pod>, t: u32, n: string)
  {
    exists i :: 0 <= i < |ps| && Eligible(ps[i]) && TopicIdOf(ps[i]) == t && ps[i].nodeName == n
  }

  /** The topic table holds node `n` under topic `t` exactly when some
      eligible pod on `n` carries `t`, and no topic has an empty node set. */
  lemma {:induction false} TopicGroupsMeaning(ps: seq<Pod>)
    ensures forall t, n :: (t in TopicGroups(ps) && n in TopicGroups(ps)[t]) <==> Hosts(ps, t, n)
    ensures forall t :: t in TopicGroups(ps) ==> TopicGroups(ps)[t] != {}
  {
    if ps != [] {
      var q := ps[..|ps| - 1];
      var p := ps[|ps| - 1];
      TopicGroupsMeaning(q);
      var g := TopicGroups(q);
      var G := TopicGroups(ps);
      forall t, n ensures (t in G && n in G[t]) <==> Hosts(ps, t, n) {
        if Eligible(p) && TopicIdOf(p) == t && p.nodeName == n {
          assert t in G && n in G[t];
          assert Hosts(ps, t, n) by {
            assert Eligible(ps[|ps| - 1]) && TopicIdOf(ps[|ps| - 1]) == t && ps[|ps| - 1].nodeName == n;
          }
        } else {
          assert (t in G && n in G[t]) <==> (t in g && n in g[t]);
          if Hosts(ps, t, n) {
            var i :| 0 <= i < |ps| && Eligible(ps[i]) && TopicIdOf(ps[i]) == t && ps[i].nodeName == n;
            assert i < |q| && q[i] == ps[i];
          }
          if Hosts(q, t, n) {
            var i :| 0 <= i < |q| && Eligible(q[i]) && TopicIdOf(q[i]) == t && q[i].nodeName == n;
            assert ps[i] == q[i];
          }
        }
      }
    }
  }

  /** A node has a pod list exactly when some eligible pod is placed on it,
      and the list holds those pods in listing order. */
  lemma {:induction false} NodeGroupsMeaning(ps: seq<Pod>)
    ensures forall n :: n in NodeGroups(ps) <==> PodsOn(ps, n) != []
    ensures forall n :: n in NodeGroups(ps) ==> NodeGroups(ps)[n] == PodsOn(ps, n)
  {
    if ps != [] {
      NodeGroupsMeaning(ps[..|ps| - 1]);
    }
  }

  /** Every pod of `PodsOn(ps, n)` is an eligible pod of `ps` on `n`, and
      there are no more of them than pods listed. */
  lemma {:induction false} PodsOnSound(ps: seq<Pod>, n: string)
    ensures forall p :: p in PodsOn(ps, n) ==> p in ps && Eligible(p) && p.nodeName == n
    ensures |PodsOn(ps, n)| <= |ps|
  {
    if ps != [] {
      var q := ps[..|ps| - 1];
      var last := ps[|ps| - 1];
      PodsOnSound(q, n);
      forall p | p in PodsOn(ps, n) ensures p in ps && Eligible(p) && p.nodeName == n {
        if p in PodsOn(q, n) {
          var i :| 0 <= i < |q| && q[i] == p;
          assert ps[i] == p;
        } else {
          assert p == last;
        }
      }
    }
  }

  /** Each eligible pod of `ps` on `n` is in `PodsOn(ps, n)`. */
  lemma {:induction false} PodsOnComplete(ps: seq<Pod>, n: string)
    ensures forall i :: 0 <= i < |ps| && Eligible(ps[i]) && ps[i].nodeName == n ==> ps[i] in PodsOn(ps, n)
  {
    if ps != [] {
      var q := ps[..|ps| - 1];
      PodsOnComplete(q, n);
      forall i | 0 <= i < |ps| && Eligible(ps[i]) && ps[i].nodeName == n ensures ps[i] in PodsOn(ps, n) {
        if i < |q| {
          assert q[i] == ps[i];
          assert ps[i] in PodsOn(q, n);
        }
      }
    }
  }

  /** Ineligible pods reach neither table: node sets never hold "" and the
      node table has no "" key. */
  lemma SkippedPodsAbsent(ps: seq<Pod>)
    ensures "" !in NodeGroups(ps)
    ensures forall t :: t in TopicGroups(ps) ==> "" !in TopicGroups(ps)[t]
  {
    TopicGroupsMeaning(ps);
    NodeGroupsMeaning(ps);
    PodsOnSound(ps, "");
  }

  /** The grouping loop of the controller's cycle. */
  method Group(ps: seq<Pod>) returns (topicNodes: map<u32, set<string>>, nodeSubs: map<string, seq<Pod>>)
    ensures topicNodes == TopicGroups(ps) && nodeSubs == NodeGroups(ps)
  {
    topicNodes := map[];
    nodeSubs := map[];
    var i := 0;
    while i < |ps|
      invariant i <= |ps|
      invariant topicNodes == TopicGroups(ps[..i]) && nodeSubs == NodeGroups(ps[..i])
    {
      var p := ps[i];
      assert ps[..i + 1][..i] == ps[..i];
      if Eligible(p) {
        var t := TopicIdOf(p);
        if t !in topicNodes {
          topicNodes := topicNodes[t := {}];
        }
        topicNodes := topicNodes[t := topicNodes[t] + {p.nodeName}];
        var l := if p.nodeName in nodeSubs then nodeSubs[p.nodeName] else [];
        nodeSubs := nodeSubs[p.nodeName := l + [p]];
      }
      i := i + 1;
    }
    assert ps[..|ps|] == ps;
  }
}
