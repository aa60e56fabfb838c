/** The fanout-table controller's reconciliation cycle (cmd/controller/main.go,
    lines 109-237): read the active generation, group the subscriber pods,
    write the topic and node tables of the other generation, then flip the
    active-generation pointer. */
module Controller {
  import opened Bytes
  import opened Commons
  import opened Decimal
  import opened Inventory
  import Kern

  /** Port of the tier-1 receiver on every node. */
  const FIRST_TIER_PORT: u16 := 32000

  /** A slot of a freshly created inner array: all zero. */
  const NO_NODE: NodeDest := NodeDest(0, 0, 0, 0)
  const NO_SUB: SubDest := SubDest(0, 0, 0, 0)

  /** `nodeID[n]`: nodes missing from the inventory read as 0. */
  function NodeIdOf(nodeID: map<string, u32>, n: string): u32
  {
    if n in nodeID then nodeID[n] else 0
  }

  /** `nodeIP[n]`: nodes missing from the inventory read as "". */
  function NodeIPOf(nodeIP: map<string, string>, n: string): string
  {
    if n in nodeIP then nodeIP[n] else ""
  }

  /** The tier-1 destination written for node `n`. */
  function NodeDestFor(n: string, nodeID: map<string, u32>, nodeIP: map<string, string>): NodeDest
  {
    NodeDest(NodeIdOf(nodeID, n), ToNBO(NodeIPOf(nodeIP, n)), FIRST_TIER_PORT, 0)
  }

  /** The tier-2 destination written for pod `p`: ifindex 0 (use the local
      route interface), the pod's IP and its port truncated to 16 bits. */
  function SubDestFor(p: Pod): SubDest
  {
    SubDest(0, ToNBO(p.podIP), Wrap16(PodPort(p)), 0)
  }

  /** `e` lists the elements of `s`, each once. */
  predicate Enumerates(e: seq<string>, s: set<string>)
  {
    |e| == |s|
    && (forall j :: 0 <= j < |e| ==> e[j] in s)
    && (forall x :: x in s ==> x in e)
    && (forall i, j :: 0 <= i < j < |e| ==> e[i] != e[j])
  }

  /** An inner node array holding one entry per node of `nodes`, in some
      order, followed by untouched slots. */
  ghost predicate NodesListed(inner: seq<NodeDest>, nodes: set<string>, nodeID: map<string, u32>, nodeIP: map<string, string>)
  {
    |inner| == MAX_FANOUT
    && exists e :: Enumerates(e, nodes) && |e| <= MAX_FANOUT
         && (forall j :: 0 <= j < |e| ==> inner[j] == NodeDestFor(e[j], nodeID, nodeIP))
         && (forall j :: |e| <= j < MAX_FANOUT ==> inner[j] == NO_NODE)
  }

  /** The inner subscriber array for the pods `ps`: entry `i` for the
      `i`-th pod, followed by untouched slots. */
  function SubsArray(ps: seq<Pod>): (inner: seq<SubDest>)
    requires |ps| <= MAX_LOCAL_SUB
    ensures |inner| == MAX_LOCAL_SUB
  {
    seq(MAX_LOCAL_SUB, j requires 0 <= j < MAX_LOCAL_SUB => if j < |ps| then SubDestFor(ps[j]) else NO_SUB)
  }

  /** Topic `t` of generation `g` lists `nodes`, and its count is their number. */
  ghost predicate TopicWritten(g: Generation, t: u32, nodes: set<string>, nodeID: map<string, u32>, nodeIP: map<string, string>)
  {
    t in g.topicNodes && t in g.topicCnt && g.topicCnt[t] == |nodes|
    && NodesListed(g.topicNodes[t], nodes, nodeID, nodeIP)
  }

  /** Node key `k` of generation `g` lists `ps`, and its count is their number. */
  predicate NodeWritten(g: Generation, k: u32, ps: seq<Pod>)
  {
    |ps| <= MAX_LOCAL_SUB && k in g.nodeSubs && k in g.nodeCnt && g.nodeCnt[k] == |ps| && g.nodeSubs[k] == SubsArray(ps)
  }

  /** `m` and `m0` agree on every key outside `written`. */
  ghost predicate Agree<V>(m: map<u32, V>, m0: map<u32, V>, written: set<u32>)
  {
    forall k :: k !in written ==> (k in m <==> k in m0) && (k in m ==> m[k] == m0[k])
  }

  lemma AgreeTrans<V>(a: map<u32, V>, b: map<u32, V>, c: map<u32, V>, s1: set<u32>, s2: set<u32>)
    requires Agree(a, b, s1) && Agree(b, c, s2)
    ensures Agree(a, c, s1 + s2)
  {
  }

  /** The array capacities the writes run into: outer topic keys below
      MAX_TOPICS, at most MAX_FANOUT nodes per topic, outer node keys below
      MAX_NODES and at most MAX_LOCAL_SUB pods per node. */
  predicate TopicFits(t: u32, nodes: set<string>)
  {
    t < MAX_TOPICS && |nodes| <= MAX_FANOUT
  }

  predicate NodeFits(k: u32, ps: seq<Pod>)
  {
    k < MAX_NODES && |ps| <= MAX_LOCAL_SUB
  }

  predicate TopicsFit(topics: map<u32, set<string>>)
  {
    forall t :: t in topics ==> TopicFits(t, topics[t])
  }

  predicate NodesFit(subs: map<string, seq<Pod>>, nodeID: map<string, u32>)
  {
    forall n :: n in subs ==> NodeFits(NodeIdOf(nodeID, n), subs[n])
  }

  /** The node-table keys a cycle writes. */
  function NodeKeys(subs: map<string, seq<Pod>>, nodeID: map<string, u32>): set<u32>
  {
    set n | n in subs :: NodeIdOf(nodeID, n)
  }

  /** Generation `g` holds every topic of `topics`, and the topic tables are
      otherwise as in `g0` (stale keys survive). */
  ghost predicate TopicsBuilt(g: Generation, g0: Generation, topics: map<u32, set<string>>,
                        nodeID: map<string, u32>, nodeIP: map<string, string>)
  {
    (forall t :: t in topics ==> TopicWritten(g, t, topics[t], nodeID, nodeIP))
    && Agree(g.topicNodes, g0.topicNodes, topics.Keys)
    && Agree(g.topicCnt, g0.topicCnt, topics.Keys)
  }

  /** Generation `g` holds, under each node's key, the pods of a node with
      that key (the one written last when several nodes share a key), and
      the node tables are otherwise as in `g0`. */
  ghost predicate NodesBuilt(g: Generation, g0: Generation, subs: map<string, seq<Pod>>, nodeID: map<string, u32>)
  {
    (forall n :: n in subs ==> exists m :: m in subs && NodeIdOf(nodeID, m) == NodeIdOf(nodeID, n)
                                          && NodeWritten(g, NodeIdOf(nodeID, n), subs[m]))
    && Agree(g.nodeSubs, g0.nodeSubs, NodeKeys(subs, nodeID))
    && Agree(g.nodeCnt, g0.nodeCnt, NodeKeys(subs, nodeID))
  }

  /** The node loop leaves the topic tables written by the topic loop alone. */
  lemma TopicsBuiltKept(g1: Generation, g: Generation, g0: Generation, topics: map<u32, set<string>>,
                        nodeID: map<string, u32>, nodeIP: map<string, string>)
    requires TopicsBuilt(g1, g0, topics, nodeID, nodeIP)
    requires g.topicNodes == g1.topicNodes && g.topicCnt == g1.topicCnt
    ensures TopicsBuilt(g, g0, topics, nodeID, nodeIP)
  {
    forall t | t in topics ensures TopicWritten(g, t, topics[t], nodeID, nodeIP) {
      assert TopicWritten(g1, t, topics[t], nodeID, nodeIP);
    }
  }

  /** Each key in `owner` holds the pods of the node it names, one of the
      nodes in `done`. */
  ghost predicate Owned(g: Generation, subs: map<string, seq<Pod>>, nodeID: map<string, u32>,
                        done: set<string>, owner: map<u32, string>)
  {
    forall k :: k in owner ==>
      owner[k] in done && owner[k] in subs && NodeIdOf(nodeID, owner[k]) == k && NodeWritten(g, k, subs[owner[k]])
  }

  /** Writing node `n` under its key keeps `Owned` with `n` as that key's owner. */
  lemma OwnedStep(g: Generation, before: Generation, subs: map<string, seq<Pod>>, nodeID: map<string, u32>,
                  done: set<string>, owner: map<u32, string>, n: string)
    requires n in subs && Owned(before, subs, nodeID, done, owner)
    requires NodeWritten(g, NodeIdOf(nodeID, n), subs[n])
    requires Agree(g.nodeSubs, before.nodeSubs, {NodeIdOf(nodeID, n)})
    requires Agree(g.nodeCnt, before.nodeCnt, {NodeIdOf(nodeID, n)})
    ensures Owned(g, subs, nodeID, done + {n}, owner[NodeIdOf(nodeID, n) := n])
  {
    var k := NodeIdOf(nodeID, n);
    forall k' | k' in owner && k' != k
      ensures NodeWritten(g, k', subs[owner[k']])
    {
      assert g.nodeSubs[k'] == before.nodeSubs[k'] && g.nodeCnt[k'] == before.nodeCnt[k'];
    }
  }

  /** `g` is `g0` with topic `t` (array and count) set to list `nodes`. */
  ghost predicate TopicStored(g: Generation, g0: Generation, t: u32, nodes: set<string>,
                              nodeID: map<string, u32>, nodeIP: map<string, string>)
  {
    TopicWritten(g, t, nodes, nodeID, nodeIP)
    && Agree(g.topicNodes, g0.topicNodes, {t}) && Agree(g.topicCnt, g0.topicCnt, {t})
    && g.nodeSubs == g0.nodeSubs && g.nodeCnt == g0.nodeCnt
  }

  /** The topic loop's invariant while the topics in `todo` are still to be
      written: the topics already written fit and are listed, the topic
      tables are otherwise as in `g0`, and the node tables are untouched. */
  ghost predicate TopicsSoFar(g: Generation, g0: Generation, topics: map<u32, set<string>>,
                              nodeID: map<string, u32>, nodeIP: map<string, string>, todo: set<u32>)
  {
    todo <= topics.Keys
    && (forall t :: t in topics && t !in todo ==> TopicFits(t, topics[t]) && TopicWritten(g, t, topics[t], nodeID, nodeIP))
    && Agree(g.topicNodes, g0.topicNodes, topics.Keys - todo) && Agree(g.topicCnt, g0.topicCnt, topics.Keys - todo)
    && g.nodeSubs == g0.nodeSubs && g.nodeCnt == g0.nodeCnt
  }

  /** Writing one more topic keeps the loop invariant. */
  lemma TopicsSoFarStep(g: Generation, before: Generation, g0: Generation, topics: map<u32, set<string>>,
                        nodeID: map<string, u32>, nodeIP: map<string, string>, todo: set<u32>, t: u32)
    requires t in todo && TopicsSoFar(before, g0, topics, nodeID, nodeIP, todo)
    requires TopicFits(t, topics[t]) && TopicStored(g, before, t, topics[t], nodeID, nodeIP)
    ensures TopicsSoFar(g, g0, topics, nodeID, nodeIP, todo - {t})
  {
    var done := topics.Keys - todo;
    AgreeTrans(g.topicNodes, before.topicNodes, g0.topicNodes, {t}, done);
    AgreeTrans(g.topicCnt, before.topicCnt, g0.topicCnt, {t}, done);
    forall u | u in topics && u !in todo
      ensures TopicWritten(g, u, topics[u], nodeID, nodeIP)
    {
      assert TopicWritten(before, u, topics[u], nodeID, nodeIP);
    }
    assert {t} + done == topics.Keys - (todo - {t});
  }

  /** When the loop ends, every topic fits and the tables are built. */
  lemma TopicsSoFarBuilt(g: Generation, g0: Generation, topics: map<u32, set<string>>,
                         nodeID: map<string, u32>, nodeIP: map<string, string>, todo: set<u32>)
    requires todo == {} && TopicsSoFar(g, g0, topics, nodeID, nodeIP, todo)
    ensures TopicsBuilt(g, g0, topics, nodeID, nodeIP) && TopicsFit(topics)
  {
    assert topics.Keys - todo == topics.Keys;
  }

  /** `g` is `g0` with node key `k` (array and count) set to list `ps`. */
  ghost predicate NodeStored(g: Generation, g0: Generation, k: u32, ps: seq<Pod>)
  {
    NodeWritten(g, k, ps)
    && Agree(g.nodeSubs, g0.nodeSubs, {k}) && Agree(g.nodeCnt, g0.nodeCnt, {k})
    && g.topicNodes == g0.topicNodes && g.topicCnt == g0.topicCnt
  }

  /** The node loop's invariant while the nodes in `todo` are still to be
      written: the nodes already written fit and own a key, each owned key
      holds its owner's pods, the node tables are otherwise as in `g0`, and
      the topic tables are untouched. */
  ghost predicate NodesSoFar(g: Generation, g0: Generation, subs: map<string, seq<Pod>>, nodeID: map<string, u32>,
                             todo: set<string>, owner: map<u32, string>)
  {
    todo <= subs.Keys
    && (forall n :: n in subs && n !in todo ==> NodeFits(NodeIdOf(nodeID, n), subs[n]) && NodeIdOf(nodeID, n) in owner)
    && Owned(g, subs, nodeID, subs.Keys - todo, owner)
    && Agree(g.nodeSubs, g0.nodeSubs, owner.Keys) && Agree(g.nodeCnt, g0.nodeCnt, owner.Keys)
    && g.topicNodes == g0.topicNodes && g.topicCnt == g0.topicCnt
  }

  /** Writing one more node keeps the loop invariant. */
  lemma NodesSoFarStep(g: Generation, before: Generation, g0: Generation, subs: map<string, seq<Pod>>,
                       nodeID: map<string, u32>, todo: set<string>, owner: map<u32, string>, n: string)
    requires n in todo && NodesSoFar(before, g0, subs, nodeID, todo, owner)
    requires NodeFits(NodeIdOf(nodeID, n), subs[n]) && NodeStored(g, before, NodeIdOf(nodeID, n), subs[n])
    ensures NodesSoFar(g, g0, subs, nodeID, todo - {n}, owner[NodeIdOf(nodeID, n) := n])
  {
    var k := NodeIdOf(nodeID, n);
    AgreeTrans(g.nodeSubs, before.nodeSubs, g0.nodeSubs, {k}, owner.Keys);
    AgreeTrans(g.nodeCnt, before.nodeCnt, g0.nodeCnt, {k}, owner.Keys);
    OwnedStep(g, before, subs, nodeID, subs.Keys - todo, owner, n);
    assert (subs.Keys - todo) + {n} == subs.Keys - (todo - {n});
    assert {k} + owner.Keys == owner[k := n].Keys;
  }

  /** Once every node has been written, `Owned` gives `NodesBuilt`. */
  lemma OwnedBuilt(g: Generation, g0: Generation, subs: map<string, seq<Pod>>, nodeID: map<string, u32>,
                   owner: map<u32, string>)
    requires Owned(g, subs, nodeID, subs.Keys, owner)
    requires forall n :: n in subs ==> NodeIdOf(nodeID, n) in owner
    requires Agree(g.nodeSubs, g0.nodeSubs, owner.Keys) && Agree(g.nodeCnt, g0.nodeCnt, owner.Keys)
    ensures NodesBuilt(g, g0, subs, nodeID)
  {
    assert owner.Keys == NodeKeys(subs, nodeID);
    forall n | n in subs
      ensures exists m :: m in subs && NodeIdOf(nodeID, m) == NodeIdOf(nodeID, n)
                          && NodeWritten(g, NodeIdOf(nodeID, n), subs[m])
    {
      var m := owner[NodeIdOf(nodeID, n)];
      assert m in subs && NodeWritten(g, NodeIdOf(nodeID, n), subs[m]);
    }
  }

  /** When the loop ends, every node fits and the tables are built. */
  lemma NodesSoFarBuilt(g: Generation, g0: Generation, subs: map<string, seq<Pod>>, nodeID: map<string, u32>,
                        todo: set<string>, owner: map<u32, string>)
    requires todo == {} && NodesSoFar(g, g0, subs, nodeID, todo, owner)
    ensures NodesBuilt(g, g0, subs, nodeID) && NodesFit(subs, nodeID)
  {
    assert subs.Keys - todo == subs.Keys;
    OwnedBuilt(g, g0, subs, nodeID, owner);
  }

  /** When node keys are distinct, each node's own pods are under its key. */
  lemma NodesBuiltDistinct(g: Generation, g0: Generation, subs: map<string, seq<Pod>>, nodeID: map<string, u32>)
    requires NodesBuilt(g, g0, subs, nodeID)
    requires forall n, m :: n in subs && m in subs && n != m ==> NodeIdOf(nodeID, n) != NodeIdOf(nodeID, m)
    ensures forall n :: n in subs ==> NodeWritten(g, NodeIdOf(nodeID, n), subs[n])
  {
  }

  /** The generation the cycle writes: `1 - active` wrapped to a u32, and
      then "0 selects the gen0 maps, anything else the gen1 maps". */
  function WriteIndex(ag: u32): nat
  {
    if Wrap32(1 - ag as int) == 0 then 0 else 1
  }

  /** The generation the data plane reads for a pointer value. */
  function ReadIndex(ag: u32): nat
  {
    if ag != 0 then 1 else 0
  }

  lemma ReadIndexSelects(gens: Gens, ag: u32)
    ensures Kern.Select(gens, ag) == gens[ReadIndex(ag)]
  {
  }

  /** The cycle writes the generation the data plane is not reading exactly
      when the pointer holds 0 or 1; from 2 upwards both are generation 1. */
  lemma WriteAvoidsRead(ag: u32)
    ensures WriteIndex(ag) != ReadIndex(ag) <==> ag <= 1
    ensures ag <= 1 ==> WriteIndex(ag) == 1 - ag
  {
  }

  /** After the flip the data plane reads the generation just written. */
  lemma FlipSelectsWritten(ag: u32)
    ensures ReadIndex(Wrap32(1 - ag as int)) == WriteIndex(ag)
    ensures ag <= 1 ==> Wrap32(1 - ag as int) <= 1
  {
  }

  /** The generations written by `n` successive cycles when the pointer the
      controller flips is not the one the data plane reads: the controller
      starts from its own pointer `ptr` and moves only that one. */
  function WrittenBySplit(ptr: u32, n: nat): (ws: seq<nat>)
    ensures |ws| == n
    ensures forall i :: 0 <= i < n ==> ws[i] <= 1
    ensures n > 0 ==> ws[0] == WriteIndex(ptr)
    decreases n
  {
    if n == 0 then [] else [WriteIndex(ptr)] + WrittenBySplit(Wrap32(1 - ptr as int), n - 1)
  }

  /** With two separate pointers, whatever value the data plane's pointer
      `c` holds, one of any two consecutive cycles writes the generation the
      data plane is reading. */
  lemma {:induction false} SplitPointerOverwritesRead(ptr: u32, c: u32, n: nat)
    requires ptr <= 1 && n >= 2
    ensures WrittenBySplit(ptr, n)[0] == ReadIndex(c) || WrittenBySplit(ptr, n)[1] == ReadIndex(c)
  {
    var next := Wrap32(1 - ptr as int);
    assert WrittenBySplit(ptr, n)[1] == WrittenBySplit(next, n - 1)[0] == WriteIndex(next);
    WriteAvoidsRead(ptr);
    WriteAvoidsRead(next);
  }

  /** The double buffer of fanout tables and the active-generation pointer
      shared by the controller (writer) and the data plane (reader). */
  class GenerationBuffer {
    var gens: Gens
    var active: u32

    /** The pointer holds 0 or 1. */
    ghost predicate Valid()
      reads this
    {
      active <= 1
    }

    /** What the data plane sees. */
    function Visible(): Generation
      reads this
    {
      Kern.Select(gens, active)
    }

    /** Empty tables and pointer 0, as the loader leaves them. */
    constructor ()
      ensures gens == [EMPTY_GENERATION, EMPTY_GENERATION] && active == 0 && Valid()
    {
      gens := [EMPTY_GENERATION, EMPTY_GENERATION];
      active := 0;
    }

    /** Writes topic `t` into generation `w`: fills a fresh inner array with
        one entry per node (in the set's iteration order), then stores it and
        the count. An index past the inner array or a topic key past the
        outer array fails before anything is stored. */
    method WriteTopic(w: nat, t: u32, nodes: set<string>, nodeID: map<string, u32>, nodeIP: map<string, string>)
      returns (ok: bool)
      requires w <= 1
      modifies this
      ensures active == old(active)
      ensures ok <==> TopicFits(t, nodes)
      ensures !ok ==> gens == old(gens)
      ensures ok ==> gens[1 - w] == old(gens[1 - w])
      ensures ok ==> TopicStored(gens[w], old(gens[w]), t, nodes, nodeID, nodeIP)
    {
      var inner := seq(MAX_FANOUT, _ => NO_NODE);
      var i: nat := 0;
      var rest := nodes;
      ghost var e: seq<string> := [];
      while rest != {}
        invariant rest <= nodes && i == |e| && |e| + |rest| == |nodes| && i <= MAX_FANOUT
        invariant forall j :: 0 <= j < |e| ==> e[j] in nodes && e[j] !in rest
        invariant forall x :: x in nodes ==> x in rest || x in e
        invariant forall a, b :: 0 <= a < b < |e| ==> e[a] != e[b]
        invariant |inner| == MAX_FANOUT
        invariant forall j :: 0 <= j < i ==> inner[j] == NodeDestFor(e[j], nodeID, nodeIP)
        invariant forall j :: i <= j < MAX_FANOUT ==> inner[j] == NO_NODE
        decreases |rest|
      {
        var n :| n in rest;
        if i >= MAX_FANOUT {
          return false;
        }
        inner := inner[i := NodeDestFor(n, nodeID, nodeIP)];
        e := e + [n];
        rest := rest - {n};
        i := i + 1;
      }
      if t >= MAX_TOPICS {
        return false;
      }
      assert Enumerates(e, nodes);
      var g := gens[w];
      gens := gens[w := g.(topicNodes := g.topicNodes[t := inner], topicCnt := g.topicCnt[t := i])];
      ok := true;
    }

    /** Writes node `n`'s pods into generation `w` under its key: entry `i`
        of a fresh inner array is the `i`-th pod, then the array and the
        count are stored. An index past the inner array or a node key past
        the outer array fails before anything is stored. */
    method WriteNode(w: nat, n: string, ps: seq<Pod>, nodeID: map<string, u32>) returns (ok: bool)
      requires w <= 1
      modifies this
      ensures active == old(active)
      ensures ok <==> NodeFits(NodeIdOf(nodeID, n), ps)
      ensures !ok ==> gens == old(gens)
      ensures ok ==> gens[1 - w] == old(gens[1 - w])
      ensures ok ==> NodeStored(gens[w], old(gens[w]), NodeIdOf(nodeID, n), ps)
    {
      var nid := NodeIdOf(nodeID, n);
      var inner := seq(MAX_LOCAL_SUB, _ => NO_SUB);
      var i: nat := 0;
      while i < |ps|
        invariant active == old(active) && gens == old(gens)
        invariant i <= |ps| && i <= MAX_LOCAL_SUB && |inner| == MAX_LOCAL_SUB
        invariant forall j :: 0 <= j < i ==> inner[j] == SubDestFor(ps[j])
        invariant forall j :: i <= j < MAX_LOCAL_SUB ==> inner[j] == NO_SUB
      {
        if i >= MAX_LOCAL_SUB {
          return false;
        }
        var port := GetPodPort(ps[i]);
        inner := inner[i := SubDest(0, ToNBO(ps[i].podIP), Wrap16(port), 0)];
        i := i + 1;
      }
      if nid >= MAX_NODES {
        return false;
      }
      assert inner == SubsArray(ps);
      var g := gens[w];
      gens := gens[w := g.(nodeSubs := g.nodeSubs[nid := inner], nodeCnt := g.nodeCnt[nid := |ps|])];
      ok := true;
    }

    /** The topic loop: every topic of `topics`, in map iteration order. */
    method WriteTopics(w: nat, topics: map<u32, set<string>>, nodeID: map<string, u32>, nodeIP: map<string, string>)
      returns (ok: bool)
      requires w <= 1
      modifies this
      ensures active == old(active) && gens[1 - w] == old(gens[1 - w])
      ensures ok <==> TopicsFit(topics)
      ensures ok ==> TopicsBuilt(gens[w], old(gens[w]), topics, nodeID, nodeIP)
      ensures ok ==> gens[w].nodeSubs == old(gens[w].nodeSubs) && gens[w].nodeCnt == old(gens[w].nodeCnt)
    {
      ghost var g0 := gens[w];
      var todo := topics.Keys;
      while todo != {}
        invariant active == old(active) && gens[1 - w] == old(gens[1 - w])
        invariant TopicsSoFar(gens[w], g0, topics, nodeID, nodeIP, todo)
        decreases |todo|
      {
        var t :| t in todo;
        ghost var before := gens[w];
        ok := WriteTopic(w, t, topics[t], nodeID, nodeIP);
        if !ok {
          return;
        }
        TopicsSoFarStep(gens[w], before, g0, topics, nodeID, nodeIP, todo, t);
        todo := todo - {t};
      }
      TopicsSoFarBuilt(gens[w], g0, topics, nodeID, nodeIP, todo);
      ok := true;
    }

    /** The node loop: every node of `subs`, in map iteration order. */
    method WriteNodes(w: nat, subs: map<string, seq<Pod>>, nodeID: map<string, u32>) returns (ok: bool)
      requires w <= 1
      modifies this
      ensures active == old(active) && gens[1 - w] == old(gens[1 - w])
      ensures ok <==> NodesFit(subs, nodeID)
      ensures ok ==> NodesBuilt(gens[w], old(gens[w]), subs, nodeID)
      ensures ok ==> gens[w].topicNodes == old(gens[w].topicNodes) && gens[w].topicCnt == old(gens[w].topicCnt)
    {
      ghost var g0 := gens[w];
      var todo := subs.Keys;
      // which node's pods each written key holds
      ghost var owner: map<u32, string> := map[];
      while todo != {}
        invariant active == old(active) && gens[1 - w] == old(gens[1 - w])
        invariant NodesSoFar(gens[w], g0, subs, nodeID, todo, owner)
        decreases |todo|
      {
        var n :| n in todo;
        ghost var before := gens[w];
        ok := WriteNode(w, n, subs[n], nodeID);
        if !ok {
          return;
        }
        NodesSoFarStep(gens[w], before, g0, subs, nodeID, todo, owner, n);
        owner := owner[NodeIdOf(nodeID, n) := n];
        todo := todo - {n};
      }
      NodesSoFarBuilt(gens[w], g0, subs, nodeID, todo, owner);
      ok := true;
    }

    /** One reconciliation cycle over the listed subscriber pods, with the
        node inventory read at start-up. The generation the data plane is
        reading is never written; the pointer moves only after every write
        has succeeded, and a failed write leaves it where it was. */
    method Cycle(pods: seq<Pod>, nodeID: map<string, u32>, nodeIP: map<string, string>) returns (ok: bool)
      modifies this
      ensures gens[1 - WriteIndex(old(active))] == old(gens[1 - WriteIndex(active)])
      ensures ok <==> TopicsFit(TopicGroups(pods)) && NodesFit(NodeGroups(pods), nodeID)
      ensures !ok ==> active == old(active)
      ensures ok ==> active == Wrap32(1 - old(active) as int) && Visible() == gens[WriteIndex(old(active))]
      ensures ok ==> TopicsBuilt(gens[WriteIndex(old(active))], old(gens[WriteIndex(active)]), TopicGroups(pods), nodeID, nodeIP)
      ensures ok ==> NodesBuilt(gens[WriteIndex(old(active))], old(gens[WriteIndex(active)]), NodeGroups(pods), nodeID)
      ensures old(Valid()) ==> Valid() && Kern.Select(gens, old(active)) == old(Visible())
    {
      var ag := active;
      var inactive := Wrap32(1 - ag as int);
      var w := if inactive == 0 then 0 else 1;
      assert w == WriteIndex(ag);
      WriteAvoidsRead(ag);
      FlipSelectsWritten(ag);
      ghost var other := gens[1 - w];
      ghost var g0 := gens[w];
      ghost var seen := Kern.Select(gens, ag);
      ReadIndexSelects(gens, ag);
      var topics, subs := Group(pods);
      ok := WriteTopics(w, topics, nodeID, nodeIP);
      if !ok {
        assert !TopicsFit(TopicGroups(pods));
        ReadIndexSelects(gens, ag);
        return;
      }
      ghost var g1 := gens[w];
      ok := WriteNodes(w, subs, nodeID);
      if !ok {
        assert !NodesFit(NodeGroups(pods), nodeID);
        ReadIndexSelects(gens, ag);
        return;
      }
      TopicsBuiltKept(g1, gens[w], g0, topics, nodeID, nodeIP);
      active := inactive;
      ReadIndexSelects(gens, ag);
      ReadIndexSelects(gens, active);
    }
  }
}
