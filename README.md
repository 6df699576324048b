# Combustion system builder and texture formats, in Dafny

This project models two parts of the Combustion game engine and proves properties of them.

**The ECS system builder** (`combustion_ecs/src/builder.rs`, module `Builder`, specified in module `Systems`).
- A `SystemBuilder` collects named system constructors into a directed graph.
  - Node 0 is a root with no payload.
  - Every other node holds either a registered constructor or a placeholder for a dependency nobody registered yet.
  - A name table maps system names to nodes.
- `add_system` registers a system and hangs it off the root.
- `add_system_with_deps` registers a system and adds an edge from each dependency to it.
  - An unknown dependency gets a placeholder node that hangs off the root and fails when it is run.
  - A known dependency whose node already reaches the new system is refused with `WouldCycle`.
- `build` walks the graph depth-first from the root. It invokes every payload it meets once, with priorities counting down from the largest `i32`, and stops at the first failure.

The class `Builder.SystemBuilder` keeps the builder's fields and updates them in place. Each of its methods is proved to move the builder from `State()` to the state computed by the matching function of `Systems`:
- `Upsert`, `Register`, `LinkOne`, `LinkDeps`, `RegisterWithDeps`.
- Lemmas about those functions state what the operations promise.

Module `Graphs` holds two pieces:
- The graph vocabulary: paths and reachability over an edge list.
- A depth-first walker class `Dfs`, and the reachability test `HasPathConnecting`. Both are used the way the source uses petgraph's `Dfs` and `has_path_connecting`.

Module `BuilderTests` replays the source's two test scenarios, `basic` and `test_cycle`, on the class.

**Texture format descriptions** (`combustion_protocols/src/texture/data/format.rs`, module `TextureFormat`). A `GenericFormat` holds four properties: channels, sRGB, signed and float. It can be turned into a `SpecificFormat` of one of five kinds: uncompressed, RGTC, S3TC, BPTC or ASTC. A specific format can be turned back into a generic one.
- The protocol enumerations are declared outside this file. Their variants are modelled as far as the conversions match on them.
  - Catch-all constructors (`OtherDataType`, `OtherBptc`) stand for the variants matched only by a `_` arm.
  - Two variants are renamed because Dafny would confuse them with `Channels` variants of the same name: the RGTC variant `Rg` is `RgFormat`, and the BPTC variant `Rgba` is `BptcRgba`.
- The Rust methods become datatype member functions:
  - `Which::channels`, `signed`, `float` and `data_type` become `GetChannels`, `IsSigned`, `IsFloat` and `GetDataType`.
  - The constructors `none`, `rgtc`, `s3tc`, `bptc` and `astc` become `AsNone`, `AsRgtc`, `AsS3tc`, `AsBptc` and `AsAstc`.
- The two `Default` impls become the functions `DefaultDxtVersion` (DXT5) and `DefaultGenericFormat` (RGBA, with all flags false).

**How the builder behaves, as the code is written.** The module header calls it an acyclic dependency graph builder (builder.rs:1). The cycle check at builder.rs:90 asks whether the *dependency* already reaches the *dependent*, so not every cycle is refused:
- Depending on oneself is refused (`Systems.SelfDependencyRefused`).
- A mutual dependency built over two calls is accepted (`BuilderTests.CycleAccepted`). This is why `test_cycle` fails only at its third call.
- A dependency list that names a system before one of that system's own dependencies is refused (`Systems.RedundantDependencyRefused`). The check runs before each edge is added, so the same two names in the other order are not refused for this reason.

Other facts about `add_system_with_deps` that the model records:
- It adds a root edge only for new placeholders, never for the system it registers.
- A refused dependency does not undo the registration or the dependencies linked before it.
- A placeholder is a node whose payload fails with `MissingDependentSystem`, not an empty node.

## Model

| member | source | states |
|---|---|---|
| Systems.Initial | combustion_ecs/src/builder.rs:26-31 | the empty builder: only the root, with no payload, no names, no edges; it is well formed |
| Builder.SystemBuilder.constructor | combustion_ecs/src/builder.rs:26-31 | a new builder has only the root node, no names and no edges, and satisfies the builder invariant |
| Builder.SystemBuilder.AddSystemImpl | combustion_ecs/src/builder.rs:33-58 | the builder moves exactly as `Systems.Upsert` says, and the invariant is kept |
| Systems.Upsert | combustion_ecs/src/builder.rs:33-58 | fails with DuplicateSystem(name) exactly when the name's node is missing from the arena, changing nothing then; otherwise a known name keeps its node and gets the new payload, an unknown name gets the next node; other nodes, names and all edges are unchanged |
| Systems.UpsertWellFormed | combustion_ecs/src/builder.rs:33-58 | on a well-formed builder registration always succeeds, never yields the root, and keeps the builder well formed |
| Builder.SystemBuilder.AddSystem | combustion_ecs/src/builder.rs:60-67 | the builder moves exactly as `Systems.Register` says, and the invariant is kept |
| Systems.Register | combustion_ecs/src/builder.rs:60-67 | same result, names and nodes as the upsert; on success exactly one edge root -> node is appended; on failure nothing changes |
| Systems.RegisterWellFormed | combustion_ecs/src/builder.rs:60-67 | add_system on a well-formed builder succeeds and keeps it well formed |
| Systems.RegisteredReachable | combustion_ecs/src/builder.rs:63-64 | a system registered by add_system is reachable from the root |
| Systems.RegisterWithDeps | combustion_ecs/src/builder.rs:69-102 | a failed upsert is returned as is; otherwise the result is the registered node or WouldCycle; on success at least one edge per dependency was added |
| Systems.LinkDeps | combustion_ecs/src/builder.rs:72-99 | the only error is WouldCycle; on success at least one edge per dependency is added; at most two edges and one node per dependency are ever added |
| Builder.SystemBuilder.AddSystemWithDeps | combustion_ecs/src/builder.rs:69-102 | the builder moves exactly as `Systems.RegisterWithDeps` says: upsert, then the dependencies linked in order up to the first refusal, then the node or the refusal's error; the invariant is kept |
| Builder.SystemBuilder.LinkDependency | combustion_ecs/src/builder.rs:72-98 | one iteration of the dependency loop moves the builder exactly as `Systems.LinkOne` says |
| Systems.LinkOne | combustion_ecs/src/builder.rs:73-98 | an unknown dependency gets a new placeholder node naming it, with edges root -> placeholder and placeholder -> node; a known dependency is refused with WouldCycle, changing nothing, exactly when its node already reaches the dependent; otherwise the one edge dependency -> node is appended |
| Systems.LinkOneWellFormed | combustion_ecs/src/builder.rs:73-98 | linking one dependency keeps the builder well formed |
| Systems.LinkDepsWellFormed | combustion_ecs/src/builder.rs:72-99 | linking a whole dependency list keeps the builder well formed and the dependent a node |
| Systems.LinkDepsAppendOnly | combustion_ecs/src/builder.rs:72-99 | linking only appends nodes and edges and only adds names; the only error it can report is WouldCycle |
| Systems.LinkDepsNoRootEdgeToNode | combustion_ecs/src/builder.rs:77-98 | no edge added while linking goes from the root to the dependent itself |
| Systems.LinkDepsLinksAll | combustion_ecs/src/builder.rs:73-98 | when linking succeeds, every dependency has an edge into the dependent, and every previously unknown one is a placeholder failing with its own name and hanging off the root |
| Systems.LinkDepsConcat | combustion_ecs/src/builder.rs:72-99 | dependencies are handled in order and never rolled back: linking a + b is linking a and then, unless a is refused, linking b |
| Systems.LinkDepsRefusal | combustion_ecs/src/builder.rs:87-96 | a refused list has a dependency that reaches the dependent in the state the earlier dependencies left, and that state is the final one: nothing linked before is undone |
| Systems.RegisterWithDepsEffect | combustion_ecs/src/builder.rs:69-102 | on a well-formed builder: keeps the invariant, returns the registered node or WouldCycle, keeps the new payload under its name even on refusal, keeps every earlier edge, and adds no edge from the root to the registered node |
| Systems.SelfDependencyRefused | combustion_ecs/src/builder.rs:87-92 | a dependency of a system on itself is always refused with WouldCycle and changes nothing |
| Systems.RedundantDependencyRefused | combustion_ecs/src/builder.rs:87-98 | if dependency b already reaches dependency a, the list [a, b] is refused at b, with a's edge kept |
| Systems.FreshWithKnownDep | combustion_ecs/src/builder.rs:69-102 | a new system with one known dependency gets the next node and exactly one edge dependency -> node |
| Systems.FreshWithUnknownDep | combustion_ecs/src/builder.rs:69-102 | a new system with one unknown dependency gets the next node; the dependency gets the node after it as a placeholder, with edges root -> placeholder -> system |
| Systems.KnownWithKnownDep | combustion_ecs/src/builder.rs:69-102 | re-registering a known name with a known dependency that does not reach it replaces the payload in place and appends one edge |
| Systems.FreshWithoutDepsUnreachable | combustion_ecs/src/builder.rs:69-102 | a new system registered with an empty dependency list is not reachable from the root, so build never runs it |
| Systems.Invoke | combustion_ecs/src/builder.rs:77-79 | a placeholder fails with MissingDependentSystem naming its dependency; a registered constructor returns what it returns for the priority it is given |
| Graphs.HasPathConnecting | combustion_ecs/src/builder.rs:90 | returns true exactly when a path leads from the first node to the second, the node itself included |
| Graphs.Dfs.Next | combustion_ecs/src/builder.rs:108-110 | each step emits an unvisited node reachable from the start, or reports that the walk is over, keeping the walker's invariant |
| Graphs.WalkSummary | combustion_ecs/src/builder.rs:108-116 | the emitted nodes are distinct and reachable from the start, the start comes first, each later one has an edge from an earlier one, and a finished walk has emitted every reachable node |
| Builder.SystemBuilder.Build | combustion_ecs/src/builder.rs:104-119 | gives `Builder.BuildOutcome`, and fewer invocations than nodes: the root is visited first and only nodes reachable from it are visited, each once; there is one invocation per visited node after the root, in order, the k-th with priority MAX - k; every invocation but the last succeeded; a failure returns the last invocation's error; success means every reachable node was visited and none is a placeholder |
| Builder.WalkLoop | combustion_ecs/src/builder.rs:108-116 | the loop keeps the walker's invariant and one invocation per emitted node after the root; on success the stack is empty and every invocation succeeded; on failure the last invocation failed with the returned error and all earlier ones succeeded |
| Builder.Visit | combustion_ecs/src/builder.rs:111-115 | the root is skipped; any other node's payload is invoked with the current priority, which drops by one only after a success |
| Builder.BuildFinished | combustion_ecs/src/builder.rs:110-118 | a walk that ran out of nodes with every invocation successful meets the success half of the build outcome |
| Builder.BuildFailed | combustion_ecs/src/builder.rs:111-112 | a walk stopped by a failed invocation returns that invocation's error |
| Builder.BuildSucceedsWhenAllRun | combustion_ecs/src/builder.rs:104-119 | without placeholders, and with every constructor succeeding, build succeeds |
| Builder.CallsMatchExtend | combustion_ecs/src/builder.rs:111-114 | invoking the payload of the node just emitted, at the current priority, keeps invocations in step with the walk |
| BuilderTests.TestBasic | combustion_ecs/src/builder.rs:140-159 | every call in the basic scenario succeeds with the nodes the arena hands out (the early-named test2 keeps its placeholder's node 6); build succeeds, visits all eleven systems, and hands out priorities MAX, MAX - 1, ... |
| BuilderTests.BasicBuilt | combustion_ecs/src/builder.rs:156-158 | however the walk orders the nodes, building the finished basic builder succeeds with eleven invocations, visits every node and hands out priorities MAX - k |
| BuilderTests.TestCycle | combustion_ecs/src/builder.rs:163-173 | in test_cycle the first two calls succeed and the third, a self-dependency, is refused with WouldCycle after registering its system |
| BuilderTests.CycleAccepted | combustion_ecs/src/builder.rs:166-167 | after the first two calls of test_cycle, test1 and test4 reach each other: the builder accepted a cycle |
| TextureFormat.DefaultDxtVersion | combustion_protocols/src/texture/data/format.rs:22-26 | the default DXT version is the one numbered 5 |
| TextureFormat.DefaultGenericFormat | combustion_protocols/src/texture/data/format.rs:193-202 | the default properties have four channels and are not sRGB, not signed and not float |
| TextureFormat.DxtVersion.Discriminant | combustion_protocols/src/texture/data/format.rs:13-20 | DXT1, DXT3 and DXT5 carry the numbers 1, 3 and 5 |
| TextureFormat.Channels.NumChannels | combustion_protocols/src/texture/data/format.rs:55-62 | R, RG, RGB and RGBA have 1, 2, 3 and 4 channels |
| TextureFormat.GenericFormat.NumChannels | combustion_protocols/src/texture/data/format.rs:220-222 | the channel count of the properties' channels, between 1 and 4, and 4 exactly for RGBA |
| TextureFormat.Which.GetChannels | combustion_protocols/src/texture/data/format.rs:104-129 | uncompressed formats keep their channels; RGTC gives R or RG by variant, BPTC gives RGBA only for its RGBA variant and RGB otherwise, S3TC gives RGB only for RGB1 and RGBA otherwise, ASTC gives RGBA |
| TextureFormat.Which.IsSigned | combustion_protocols/src/texture/data/format.rs:132-151 | signed exactly for signed RGTC variants, signed-float BPTC, and uncompressed byte, short, int or float data |
| TextureFormat.Which.IsFloat | combustion_protocols/src/texture/data/format.rs:154-167 | float exactly for the two float BPTC variants and uncompressed float data |
| TextureFormat.Which.GetDataType | combustion_protocols/src/texture/data/format.rs:170-175 | the uncompressed data type, and Unspecified for every compressed format |
| TextureFormat.GenericFormat.AsNone | combustion_protocols/src/texture/data/format.rs:228-237 | fails with MismatchedTypes(dt, Float) exactly when the properties are float and dt is not Float; otherwise an uncompressed format with these channels, dt and sRGB, whose generic form keeps channels and sRGB, and float and signed when float was set |
| TextureFormat.GenericFormat.AsRgtc | combustion_protocols/src/texture/data/format.rs:240-258 | fails with InvalidFormat exactly for RGB and RGBA properties; otherwise an RGTC format without sRGB whose generic form has the same channels and signed flag and is not float |
| TextureFormat.GenericFormat.AsS3tc | combustion_protocols/src/texture/data/format.rs:261-276 | DXT1 gives RGBA1 for RGBA properties and RGB1 otherwise, DXT3 gives RGBA3, DXT5 gives RGBA5; sRGB is kept; the result is neither signed nor float |
| TextureFormat.GenericFormat.AsBptc | combustion_protocols/src/texture/data/format.rs:279-292 | sRGB and the float flag are kept; a float format keeps the signed flag and has RGB channels; a non-float one is RGBA, unsigned |
| TextureFormat.GenericFormat.AsAstc | combustion_protocols/src/texture/data/format.rs:295-300 | an ASTC format with this block size and sRGB, whose generic form is RGBA, unsigned and not float |
| TextureFormat.SpecificFormat.IntoGeneric | combustion_protocols/src/texture/data/format.rs:315-322 | sRGB is kept; a generic form is float and unsigned exactly when it comes from unsigned-float BPTC; a float one is RGB unless uncompressed; RGTC, S3TC and ASTC are never float |
| TextureFormat.SpecificFormat.ToGeneric | combustion_protocols/src/texture/data/format.rs:325-327 | the same as IntoGeneric |
| TextureFormat.SpecificFormat.IsCompressed | combustion_protocols/src/texture/data/format.rs:330-335 | compressed exactly when not uncompressed, and a compressed format reports the Unspecified data type |
| TextureFormat.UncompressedFloatIsSigned | combustion_protocols/src/texture/data/format.rs:143-164 | an uncompressed float format is signed and has the Float data type |
| TextureFormat.NoneRoundTrip | combustion_protocols/src/texture/data/format.rs:228-237 | an uncompressed format rebuilt from its generic form with its own data type is the same format |
| TextureFormat.RgtcRoundTrip | combustion_protocols/src/texture/data/format.rs:240-258 | an RGTC format rebuilt from its generic form is the same format |
| TextureFormat.S3tcRoundTrip | combustion_protocols/src/texture/data/format.rs:261-276 | an S3TC format rebuilt from its generic form with its own DXT version is the same format |
| TextureFormat.BptcRoundTrip | combustion_protocols/src/texture/data/format.rs:279-292 | each of the three BPTC formats the constructor builds is rebuilt from its generic form unchanged |
| TextureFormat.AstcRoundTrip | combustion_protocols/src/texture/data/format.rs:295-300 | an ASTC format rebuilt from its generic form with its block size is the same format |
| TextureFormat.SpecificFromGeneric | combustion_protocols/src/texture/data/format.rs:228-322 | every specific format, except sRGB RGTC and BPTC variants no constructor builds, is the matching constructor applied to its own generic form |

## Left out

- The `DfsSpace` scratch space (`cycle_state`) that `has_path_connecting` reuses between calls is not modelled. It is a cache and does not change the answer.
- Builder.SystemBuilder.Build, Graphs.Dfs.Next, Graphs.WalkSummary: depth-first pre-order is not proved. These contracts state a search order only: every visited node after the root follows some earlier visited node that has an edge to it. A breadth-first order also meets that. The walker itself is petgraph's stack discipline. It pushes successors by scanning the edge list from the end, because petgraph lists a node's successors newest edge first. Only properties that hold for any successor order are proved.
- Constructors are boxed `FnMut` closures with access to a `Planner`. The model gives each registered constructor an identity (`SystemId`) and takes its outcome as a parameter `run(system, priority)`. The closure's own state and side effects on the planner are not modelled.
- `Planner`, the `specs` crate and the world it schedules are not part of this model. `specs::Priority` is modelled as a signed 32-bit integer with its maximum.
- Builder.SystemBuilder.Build: requires at most 2^32 nodes, so that counting priorities down from the `i32` maximum never wraps. The source would overflow past that.
- `FnvHashMap` is modelled as a Dafny `map`; hashing is left out.
- Builder.SystemBuilder.Build: the source's `build(mut self, ...)` consumes the builder, so it can be built only once. The model's `Build` leaves the builder in place and usable.
- The `println!` inside the test closures is output only and is left out.
- The `Display` impls of `Which` and `SpecificFormat` and all serde attributes are left out. They depend on formatting of protocol types that are not part of this model.
- `Uncompressed::new` is the datatype constructor `Uncompressed`. `GenericFormat::new` is the constructor `GenericFormat`. `GenericFormat::default` and `DXTVersion::default` are the functions above.
- The DuplicateSystem error of add_system_impl is reachable only on a broken table. The model reaches it when a name maps past the arena. `UpsertWellFormed` shows that it never happens on a well-formed builder.
- The rest of the repository (renderer, scene, material and game code) is not part of this model.
