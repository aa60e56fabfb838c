# psbench fanout core in Dafny

psbench replicates publish/subscribe datagrams through a two-tier tree.

1. A publisher sends a UDP datagram whose payload starts with an 8-byte
   topic header: topic id, flags and hop.
2. On the source host the tc classifier `tc_hier_pubsub` sees the packet
   at hop 0. It looks up the set of nodes that host subscribers of the
   topic and sets the hop to 1. It rewrites the IPv4 destination address
   and UDP destination port for each node in turn. It clones the packet
   to the egress device for every node but the last; the original packet
   carries on to the last node.
3. On each node the same classifier sees hop 1. It fans the packet out to
   the node's local subscribers with hop 2.
4. At hop 2 and above the packet passes through unchanged.

The fanout tables come in two generations, and a pointer says which one
the data plane reads. A Kubernetes controller does the following in each
cycle:

1. It reads the pointer.
2. It groups the subscriber pods by topic and by node.
3. It writes the topic and node tables of the other generation.
4. It flips the pointer.

There are also three more pieces:

- a user-space broker that relays each datagram to a fixed list of
  subscribers with the hop forced to 1;
- the Go-side serialisation of the topic header;
- the subscribers' quickselect, used to compute latency quantiles.

The model is split into these modules (one file each):

- `Bytes`: fixed-width integers, byte orders and big-endian
  serialisation.
- `Commons`: the shared records, constants and table layout of
  `bpf/commons.h`.
- `Kern`: the classifier.
  - `TcHierPubsub` is the C control flow, with the fanout loops as
    methods.
  - `Forward` is the same decision stated as a function; the method is
    proved equal to it.
  - The packet is a byte sequence, and the success of each
    `bpf_clone_redirect` is an input.
- `Decimal`: `strconv.Atoi`, the `%d.%d.%d.%d` scan and `toNBO`.
- `Inventory`: `getNodes`, `getPodPort` and the pod grouping loop.
- `Controller`: the controller cycle as a class, `GenerationBuffer`.
  - Its two generations and its pointer are fields.
  - Its methods write one topic, one node, all topics and all nodes, and
    run a whole cycle.
  - Go's random map iteration order is modelled by picking any remaining
    key.
- `Wire`: `TopicHdr.MarshalTo` writing into an array.
- `Broker`: `parseHdr`, packet building and the relay loop.
- `Selection`: `partition`, `quickselect` and `quantile` on an array of
  samples. The three subscriber programs carry identical copies of this
  code, and it is modelled once.

## Model

| member | source | states |
|---|---|---|
| Bytes.Wrap16 | cmd/controller/main.go:215 | `uint16(x)` differs from x by a multiple of 2^16 (it wraps modulo 2^16) and is the identity on values that fit |
| Bytes.Wrap32 | cmd/controller/main.go:134 | `uint32(x)` differs from x by a multiple of 2^32 (it wraps modulo 2^32) and is the identity on values that fit |
| Bytes.Be32Inverse | pkg/proto/wire.go:14 | reading back a big-endian `PutUint32` gives the value |
| Bytes.Be16Inverse | pkg/proto/wire.go:15-16 | reading back a big-endian `PutUint16` gives the value |
| Bytes.ReadBe32Inverse | cmd/broker/main.go:23 | writing back a big-endian `Uint32` read gives the same four bytes |
| Bytes.ReadBe16Inverse | cmd/broker/main.go:24-25 | writing back a big-endian `Uint16` read gives the same two bytes |
| Bytes.Decode32Encode32 | bpf/commons.h:38-42 | a 32-bit header field stored in either byte order loads back as the same value |
| Bytes.Decode16Encode16 | bpf/commons.h:38-42 | a 16-bit header field stored in either byte order loads back as the same value |
| Bytes.Encode32Decode32 | bpf/tc_hier_pubsub_kern.c:253 | storing a loaded 32-bit field writes back the bytes it came from |
| Bytes.Encode16Decode16 | bpf/tc_hier_pubsub_kern.c:254 | storing a loaded 16-bit field writes back the bytes it came from |
| Bytes.SpliceAt | bpf/tc_hier_pubsub_kern.c:258-262 | a field store changes exactly the bytes of its window, to the stored bytes |
| Bytes.SpliceRead32 | bpf/tc_hier_pubsub_kern.c:258 | the stored destination address reads back |
| Bytes.SpliceRead16 | bpf/tc_hier_pubsub_kern.c:262 | the stored destination port reads back |
| Bytes.SplicePairAbsorbs | bpf/tc_hier_pubsub_kern.c:248-274 | rewriting both destination fields again erases the previous rewrite |
| Commons.TopicHdrRoundTrip | bpf/commons.h:38-42 | a packed `topic_hdr` written and read back in the same byte order is the same header |
| Commons.ReadTopicHdrInverse | bpf/commons.h:38-42 | writing back a header that was read gives its 8 bytes |
| Commons.ReadTopicHdrLocal | bpf/tc_hier_pubsub_kern.c:216-217 | the header read depends only on its own 8 bytes |
| Commons.NodeDestRoundTrip | bpf/commons.h:45-50 | a `node_dest` laid out as u32, u32, u16, u16 decodes back to itself |
| Commons.SubDestRoundTrip | bpf/commons.h:52-57 | a `sub_dest` laid out as u32, u32, u16, u16 decodes back to itself |
| Commons.ReadDestInverse | bpf/commons.h:45-57 | writing back the four fields of a destination record read from 12 bytes gives those bytes |
| Kern.ParseHeaders | bpf/tc_hier_pubsub_kern.c:128-188 | succeeds iff the frame is long enough, has ethertype 0x0800 and protocol 17, has IHL·4 ≥ 20, and has room for the UDP and topic headers; offsets are 14 and 14 + IHL·4; the fields lie inside the packet |
| Kern.CountDrop | bpf/tc_hier_pubsub_kern.c:111-116 | bumps exactly the counter of a reason below `DR_MAX`; ignores the others |
| Kern.CountClone | bpf/tc_hier_pubsub_kern.c:118-126 | bumps the tier-1 or tier-2 clone counter; other tiers change nothing |
| Kern.Forward | bpf/tc_hier_pubsub_kern.c:192-325 | every path returns `TC_ACT_OK` and keeps the packet length |
| Kern.TcHierPubsub | bpf/tc_hier_pubsub_kern.c:192-325 | the classifier, loops and all, computes exactly `Forward` |
| Kern.FanOut | bpf/tc_hier_pubsub_kern.c:247-274 | the bounded loop (stops at the count or at the bound) computes the loop-free `FanOutSpec` |
| Kern.Visit | bpf/tc_hier_pubsub_kern.c:294-319 | one iteration advances `FanOutSpec` from i to i + 1 entries |
| Kern.ForwardParseFailure | bpf/tc_hier_pubsub_kern.c:196-210 | no config: packet untouched, nothing counted; unparsable: untouched, counts `DR_NOT_UDP` |
| Kern.ForwardReadsOnlyActiveGeneration | bpf/tc_hier_pubsub_kern.c:220-228 | the verdict depends only on the generation `active_gen` selects |
| Kern.ForwardNoFanout | bpf/tc_hier_pubsub_kern.c:230-242 | hop 0 without a node set, or hop 1 without a local set, passes the packet unchanged and counts `DR_NO_NODESET` / `DR_NO_LOCALSET`; hop ≥ 2 passes uncounted |
| Kern.ForwardDispatch | bpf/tc_hier_pubsub_kern.c:206-228 | a parsed packet is dispatched on the selected generation |
| Kern.DispatchTier1 | bpf/tc_hier_pubsub_kern.c:230-275 | hop 0 with a non-empty node set fans out over the topic's nodes with hop set to 1 |
| Kern.DispatchTier2 | bpf/tc_hier_pubsub_kern.c:276-320 | hop 1 with a non-empty local set fans out over this node's subscribers with hop set to 2 |
| Kern.Tier1Packet | bpf/tc_hier_pubsub_kern.c:244-262 | after tier 1 the original packet has hop 1 and the last visited node's address and port; every other byte is as it arrived |
| Kern.Tier1Clones | bpf/tc_hier_pubsub_kern.c:264-271 | tier 1 clones entries 0 … min(n, cnt − 1) − 1 in order to the egress device; each delivered clone adds one to `tier1_clones` and each failed clone one to `drops[DR_CLONE_FAIL]`; nothing else is counted |
| Kern.Tier2Packet | bpf/tc_hier_pubsub_kern.c:291-308 | after tier 2 the original packet has hop 2 and the last visited subscriber's address and port; every other byte is as it arrived |
| Kern.Tier2Clones | bpf/tc_hier_pubsub_kern.c:310-316 | tier 2 clones entries in order to their interface; each delivered clone adds one to `tier2_clones` and each failed clone one to `drops[DR_CLONE_FAIL]`; nothing else is counted |
| Kern.FanOutPacket | bpf/tc_hier_pubsub_kern.c:248-262 | the packet left by a fanout holds the last visited destination (or is unchanged when none is visited); nothing outside the two fields changes |
| Kern.HopFanOutPacket | bpf/tc_hier_pubsub_kern.c:245-262 | the same after a hop store: the new hop is set and the other header fields are kept |
| Kern.FanOutClones | bpf/tc_hier_pubsub_kern.c:265-271 | clone j goes to entry j; the number of clones is the visited entries minus the last of the count; delivered clones are added to the tier's clone counter and failed ones to `drops[DR_CLONE_FAIL]` |
| Kern.RewrittenIsLast | bpf/tc_hier_pubsub_kern.c:253-262 | after several rewrites only the last one shows |
| Kern.RewriteTwice | bpf/tc_hier_pubsub_kern.c:258-262 | a second rewrite overwrites the first completely |
| Kern.RewriteFacts | bpf/tc_hier_pubsub_kern.c:258-262 | a rewrite stores the target's address and port and no other byte |
| Kern.SetHopFacts | bpf/tc_hier_pubsub_kern.c:245 | storing the hop changes the header's hop and no other byte |
| Kern.DeliveredPlusFailed | bpf/tc_hier_pubsub_kern.c:267-270 | every clone is counted exactly once |
| Kern.ClonesOfIndex | bpf/tc_hier_pubsub_kern.c:265-266 | clone j is made from entry j |
| Decimal.ValueItoa | cmd/controller/main.go:77 | a decimal spelling reads back as its value |
| Decimal.Atoi | cmd/controller/main.go:134 | `strconv.Atoi` succeeds only on an optional sign and digits, with a value within 64-bit `int` |
| Decimal.AtoiFormatInt | cmd/controller/main.go:134 | `Atoi` reads back every `int` spelled in decimal |
| Decimal.AtoiRejects | cmd/controller/main.go:134 | a non-digit (other than a leading sign) makes `Atoi` fail |
| Decimal.AtoiRejectsEmpty | cmd/controller/main.go:134 | the empty string and a lone sign make `Atoi` fail |
| Decimal.DigitRun | cmd/controller/main.go:77 | `%d` takes the longest digit prefix |
| Decimal.ScanFrom | cmd/controller/main.go:76-77 | scanning stops at the first failed field; earlier fields keep their values, later bytes keep theirs |
| Decimal.ScanQuadDotted | cmd/controller/main.go:75-78 | "a.b.c.d" scans to the four bytes |
| Decimal.ToNBODotted | cmd/controller/main.go:75-78 | `toNBO("a.b.c.d")` is a·2^24 + b·2^16 + c·2^8 + d |
| Decimal.ToNBONoDigits | cmd/controller/main.go:75-78 | an empty or non-numeric IP gives 0 |
| Decimal.ScanQuadStops | cmd/controller/main.go:76-77 | bytes after the first failed field stay 0 |
| Inventory.BelowIrreflexive | cmd/controller/main.go:60 | the name order is irreflexive |
| Inventory.BelowTransitive | cmd/controller/main.go:60 | the name order is transitive |
| Inventory.BelowTotal | cmd/controller/main.go:60 | any two distinct names are ordered |
| Inventory.SortByName | cmd/controller/main.go:60 | sorting permutes the node list |
| Inventory.SortByNameSorted | cmd/controller/main.go:60 | the sorted list is ordered by name |
| Inventory.InsertSorted | cmd/controller/main.go:60 | inserting into a sorted list keeps it sorted |
| Inventory.InternalIPIsFirst | cmd/controller/main.go:66-69 | the node IP is the first `InternalIP` address |
| Inventory.InternalIPAbsent | cmd/controller/main.go:66-69 | a node without `InternalIP` gets "" |
| Inventory.GetNodes | cmd/controller/main.go:56-73 | the nodes come back sorted and permuted; every name maps to the index and IP of its last occurrence |
| Inventory.DenseIndices | cmd/controller/main.go:63-64 | with distinct names, node i gets index i, the indices are exactly 0 … n − 1, and distinct names get distinct indices |
| Inventory.EnvPortIsFirst | cmd/controller/main.go:83-85 | within a container, the first `PS_UDP_PORT` entry that parses wins |
| Inventory.PodPortDefault | cmd/controller/main.go:81-89 | the port is 31001 exactly when no container has a `PS_UDP_PORT` entry that parses |
| Inventory.PodPortIsFirst | cmd/controller/main.go:81-88 | otherwise it is the first parsing entry over containers in order |
| Inventory.GetPodPort | cmd/controller/main.go:81-90 | the nested early-return loops compute `PodPort` |
| Inventory.TopicGroupsMeaning | cmd/controller/main.go:129-137 | node n is under topic t iff an eligible pod with topic t runs on n; no topic has an empty set |
| Inventory.NodeGroupsMeaning | cmd/controller/main.go:129-138 | a node has a pod list iff an eligible pod runs on it, and the list is those pods in listing order |
| Inventory.PodsOnSound | cmd/controller/main.go:138 | each listed pod is an eligible pod of that node |
| Inventory.PodsOnComplete | cmd/controller/main.go:138 | every eligible pod of the node is listed |
| Inventory.SkippedPodsAbsent | cmd/controller/main.go:130 | pods without an IP or node never reach the tables |
| Inventory.Group | cmd/controller/main.go:125-139 | the grouping loop builds exactly those two tables |
| Controller.ReadIndexSelects | bpf/tc_hier_pubsub_kern.c:220-228 | the data plane reads generation 1 for any nonzero pointer, 0 otherwise |
| Controller.WriteAvoidsRead | cmd/controller/main.go:114 | the written generation differs from the read one iff the pointer is 0 or 1; then it is the other one |
| Controller.FlipSelectsWritten | cmd/controller/main.go:231-233 | after the flip the data plane reads the generation just written |
| Controller.SplitPointerOverwritesRead | cmd/controller/main.go:231 | with the flipped pointer separate from the one the data plane reads, one of any two consecutive cycles writes the generation being read |
| Controller.GenerationBuffer.constructor | cmd/loader/main.go:72-78 | empty generations and pointer 0 |
| Controller.GenerationBuffer.WriteTopic | cmd/controller/main.go:167-195 | succeeds iff the topic key and node count fit. On success, topic t lists each node once (in some order) followed by zero slots, its count is the number of nodes, and nothing else changes. On failure nothing changes |
| Controller.GenerationBuffer.WriteNode | cmd/controller/main.go:198-227 | succeeds iff the node key and pod count fit. On success, the key holds pod i's destination in slot i and the pod count, and nothing else changes. On failure nothing changes |
| Controller.GenerationBuffer.WriteTopics | cmd/controller/main.go:167-195 | succeeds iff every topic fits; then every topic is written, other topic keys keep their old (stale) values, and the node tables and the other generation are untouched |
| Controller.GenerationBuffer.WriteNodes | cmd/controller/main.go:198-228 | succeeds iff every node fits; then every node key holds the pods of a node with that key, other keys are kept, and the topic tables are untouched |
| Controller.GenerationBuffer.Cycle | cmd/controller/main.go:109-233 | the generation the data plane reads is never written. Success is exactly "all groups fit"; only then does the pointer flip, and the data plane then sees the freshly built tables. On failure the pointer stays |
| Wire.MarshalTo | pkg/proto/wire.go:13-17 | bytes 0–3, 4–5 and 6–7 are topic, flags and hop big-endian; bytes from 8 on are kept |
| Broker.ParseHdr | cmd/broker/main.go:20-28 | fails iff shorter than 8 bytes; otherwise the header and payload re-serialise to the input |
| Broker.ParseInvertsMarshal | cmd/broker/main.go:20-28 | parsing a marshalled header plus payload gives both back |
| Broker.BuildPacket | cmd/broker/main.go:48-52 | the built packet is 8 + payload bytes and parses back to the header and payload |
| Broker.Resolved | cmd/broker/main.go:45-47 | unresolvable subscribers are skipped; the result is no longer than the subscriber list |
| Broker.ResolvedMembers | cmd/broker/main.go:45-47 | an address is sent to if and only if some subscriber resolved to it |
| Broker.ResolvedAll | cmd/broker/main.go:45-47 | when every subscriber resolves, every one of them is sent to, in configuration order |
| Broker.Relay | cmd/broker/main.go:42-54 | nothing is sent for a short datagram. Otherwise each resolved subscriber, in order, gets one packet with the same topic, flags and payload and hop 1 |
| Selection.Partition | cmd/subscriber/main.go:86-93 | returns the pivot's final index: smaller elements before it, the rest after it, the original `a[r]` at it. The range is permuted and nothing outside it moves |
| Selection.Quickselect | cmd/subscriber/main.go:77-84 | permutes the samples; for an index k of the array, `a[k]` has no larger element before it and no smaller one after it |
| Selection.SplitRank | cmd/subscriber/main.go:77-84 | such an element has rank k: fewer than k+1 elements are smaller and more than k are at most it |
| Selection.CountPerm | cmd/subscriber/main.go:77-84 | rank counts are invariant under permutation |
| Selection.Quantile | cmd/subscriber/main.go:71-75 | 0 for no samples; otherwise a sample whose rank among the original samples is k; the samples are left permuted |

## Findings

| source | as written | input that shows it | evidently intended | confidence | as-written member | corrected member |
|---|---|---|---|---|---|---|
| cmd/controller/main.go:107 | The controller reads and flips the pointer map `m_active_gen`, which `bpf/tc_hier_pubsub_kern.c` does not declare. The data plane reads `cfg_rec.active_gen` (bpf/tc_hier_pubsub_kern.c:220), which the loader sets to 0 (cmd/loader/main.go:78) and nothing updates. Because the object file declares no `m_active_gen`, the loader's lookup of it (cmd/loader/main.go:84) yields a nil map, so its update at cmd/loader/main.go:86 most likely fails and the loader stops before attaching | pointers 0 and 0 at start-up: the first cycle writes generation 1, which is never read; the second writes generation 0 while the data plane is reading it | one pointer, read by the data plane and flipped by the controller after the inactive generation is written | not executed; high | Controller.SplitPointerOverwritesRead | Controller.GenerationBuffer.Cycle |

## Left out

- Kubernetes API calls, the pinned-map file system and `log.Fatalf`. The node and pod lists are inputs. A failed map update returns `false` from the write methods and stops the cycle without a flip; the process exit that follows is not modelled.
- `ebpf.NewMap` for the inner arrays is assumed to give a fresh, zeroed array. Its own failure modes, including the pinning options, are not modelled. The only write failure modelled is an index beyond an array's capacity.
- The close and re-open of the outer maps (cmd/controller/main.go:150-159) clears nothing. Topic and node keys not rewritten in a cycle keep their old values, and the model states exactly that.
- The controller writes a topic's inner array before it stores the outer entry and the count. Packets forwarded between those updates are not modelled; the data plane and the controller are not run concurrently.
- Checksum updates (`bpf_l3_csum_replace`, `bpf_l4_csum_replace`) and `bpf_skb_pull_data` are not modelled. The packet is a linear byte sequence.
- Per-CPU metrics are one value passed in and out. Atomic adds are plain increments, and the counters are unbounded.
- `bpf_clone_redirect` is an emitted clone whose success is an input. What the kernel does with the clone is not modelled.
- The ring buffer map is declared but never used by the classifier, and is not modelled.
- Byte order of the host is a parameter. The stored address and port are copied as raw bytes, as in the source.
- Controller.GenerationBuffer.WriteNode: the pod count is not truncated to 32 bits (`uint32(len(pods))`); the two differ only beyond 2^32 pods.
- Decimal.ScanFrom: the white space that `fmt.Sscanf` accepts before a number are not modelled; a field must start with a digit.
- Inventory.SortByName: fixes one order among nodes with equal names (insertion sort, which keeps listing order), where `sort.Slice` leaves that order unspecified; with duplicate names, which node's index and IP `GetNodes` records may differ from the source.
- Broker address resolution is an input (`Option` per subscriber). Send errors are ignored by the source, and every send is recorded.
- Selection.Quantile takes the index `k` rather than `q`. The float64 computation `ceil(q·n) − 1` is left out. Its precondition (k within the array when it is non-empty) is where the source would index out of range.
- Samples are real numbers. Float64 rounding, NaN and the ±0 distinction are not modelled.
- JSON output, clocks, rates and the publisher programs are not modelled.
- The loader is not modelled beyond the initial state (empty generations, pointer 0).
