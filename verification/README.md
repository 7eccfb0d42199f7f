# Azkaban job-flow builder, modelled in Dafny

Azkaban-azusa is a Python 2 library for building Azkaban projects in code.
A **Command** is a job of type `command`. A **Flow** is a directed graph of
jobs, and a flow can also be used as a job of type `flow` inside another
flow. A **Project** is a set of flows that is packed into a zip file of
`.job` and `.properties` files. Every job file lists its predecessors'
basenames in a `dependencies` parameter.

Each flow owns a synthetic **finish command**, named after the flow. After
every registration and every `set_dependencies`, the flow re-arranges the
finish command's incoming edges: it ends up following exactly the other jobs
that have no successor. As a result, a flow built only by registration and
`set_dependencies` has a single last node, unless the finish command is
made a predecessor of another job: registering `c` and then calling
`set_dependencies(finish, c)` closes the cycle `finish -> c -> finish` and
leaves no last node at all. The archive writer refuses any flow without
exactly one last node.

The model is split into modules that follow the source:

- `Errors`: the `Result`/`Option` types and one constructor per exception
  the builder raises or lets escape.
- `Seqs`: distinctness, filtering, and join/split of strings.
- `Parameters`: the `Params` mapping, kept as an ordered list of entries with
  distinct keys. It also holds the dependency encoder, which appends a
  basename to the `dependencies` list and removes one from it.
- `AzkabanFile`: rendering a value into the right-hand side of `key=value`,
  the text of a job or properties file, file names, and the handling of the
  `properties` argument.
- `Flows`: job identities, the nodes and the flow graph. It covers the graph
  queries, the edge mutations with their `dependencies` bookkeeping, the
  finish re-arrangement, registration, and `set_dependencies` /
  `remove_dependencies`.
- `FlowInvariants`: the two properties the engine maintains. Consistency
  means every node's `dependencies` list holds, as a multiset, the basenames
  of exactly its graph predecessors. The finish wiring means the finish
  command follows exactly the nodes with no other successor.
- `Archive`: the project and the ordered list of zip entries that
  `create_zipfile` writes.
- `Batch`: the two example flows of the batch script, `flowA` and `flowB`,
  and the project that holds them.

Object identity is modelled explicitly. A `Job` is an object number paired
with its name, and the graph is keyed by `Job`, the way networkx keys nodes
by the Python objects themselves. Two different Command objects with the same
name are two nodes. A node record carries the node's current parameters.
A sub-flow node carries a snapshot of the sub-flow.

## Model

| member | source | states |
|---|---|---|
| Parameters.GetItem | Azusa/AzkabanJobBase.py:24-25 | a lookup fails with KeyError exactly when the key is absent; otherwise it returns the value stored under that key |
| Parameters.Len | Azusa/AzkabanJobBase.py:15-16 | the length of a parameter set is the number of its distinct keys |
| Parameters.Update | Azusa/AzkabanJobBase.py:142 | `dict.update` with one key stores the new value under that key and leaves every other key's value alone; an existing key keeps its place, a new key is added at the end, and keys stay distinct |
| Parameters.AddDependency | Azusa/AzkabanJobBase.py:27-35 | succeeds exactly when `dependencies` is absent or a list, and raises AttributeError otherwise; on success the list is the old one with the basename appended, and no other key changes |
| Parameters.RemoveDependency | Azusa/AzkabanJobBase.py:37-43 | KeyError when there is no `dependencies` entry, AttributeError when it is not a list, ValueError when the basename is not in it; otherwise the first occurrence is removed (one copy fewer as a multiset), the key remains and no other key changes |
| Parameters.RemoveFirstMultiset | Azusa/AzkabanJobBase.py:43 | `list.remove` of an element that occurs takes exactly one copy of it away |
| Parameters.AttachThenDetach | Azusa/AzkabanJobBase.py:27-43 | attaching a predecessor and then detaching it restores the dependency list as a multiset, and, when the basename was not listed before, exactly the same list; the `dependencies` key stays and no other key changes |
| Parameters.ContainsAsWrittenNeverAnswers | Azusa/AzkabanJobBase.py:21-22 | the membership test as written calls itself on the same object, so for every recursion limit it fails with RuntimeError instead of answering |
| Parameters.ContainsAsWrittenFailsOnPresentKey | Azusa/AzkabanJobBase.py:21-22 | a parameter set holding `type` makes the membership test as written fail at Python's default recursion limit of 1000, while the intended test answers true |
| Parameters.ContainsKey | Azusa/AzkabanJobBase.py:21-25 | membership as evidently intended: a key is contained exactly when it is among the keys, which is exactly when `__getitem__` succeeds |
| AzkabanFile.RenderValue | Azusa/AzkabanJobBase.py:114-122 | strings and integers render as themselves; lists render as the comma-joined `str` of their items (strings, integers or any other item's text); dicts render as their comma-joined keys; any other value, and a dict with a non-string key, is a TypeError |
| AzkabanFile.IntToStringSpec | Azusa/AzkabanJobBase.py:116-123 | the decimal rendering of an integer is canonical: a '-' exactly for negatives, then at least one digit, with no leading zero (and no "-0"), reading back as its magnitude |
| AzkabanFile.LinesOfSpec | Azusa/AzkabanJobBase.py:113-123 | the lines fail exactly when some value cannot be rendered; otherwise line i is the i-th key, '=', and the rendering of its value |
| AzkabanFile.TextFailsIffUnrenderable | Azusa/AzkabanJobBase.py:96-124 | a file's text raises TypeError exactly when some parameter's value is of a kind the converter cannot render |
| AzkabanFile.TextLinesRoundTrip | Azusa/AzkabanJobBase.py:104-124 | when no key or rendered value holds a newline, splitting the text at newlines gives back one `key=value` line per parameter, in order |
| AzkabanFile.FileNameSplits | Azusa/AzkabanJobBase.py:80-86 | a file name `<basename>.<ext>` splits at its last '.' back into the basename and the extension |
| AzkabanFile.ResolveProperties | Azusa/AzkabanJob.py:63-70 | no properties stay none; a dict becomes a Properties named after its owner; a Properties object is kept; anything else is a TypeError |
| Flows.JobParams | Azusa/AzkabanJobBase.py:135-143 | a job's `type` parameter is forced to its kind, and every other parameter is the caller's |
| Flows.NewCommand | Azusa/AzkabanJob.py:36-44 | a Command has type `command`, its basename is its name, its file is `<name>.job`, and it keeps every other parameter |
| Flows.FlowParams | Azusa/AzkabanJob.py:60-62 | a flow's own job parameters have type `flow` and `flow.name` equal to its name, and keep every other parameter |
| Flows.NewFlow | Azusa/AzkabanJob.py:51-73 | a new flow fails with TypeError exactly for an unsupported properties argument; otherwise its graph holds only the finish command, named after the flow, with no edges |
| Flows.AsNode | Azusa/AzkabanJob.py:75-81 | a flow used as a job has basename `flow_<name>` and job file `flow_<name>.job` |
| Flows.QueriesSpec | Azusa/AzkabanJob.py:107-129 | `first_jobs` lists exactly the registered nodes without a predecessor, `last_nodes` those without a successor, and `jobs_before_last` the predecessors of the finish command, each without repetition |
| Flows.AttachEdge | Azusa/AzkabanJob.py:184-193 | attaching `a -> b` fails with AttributeError exactly when `b`'s `dependencies` is not a list; otherwise it adds the edge and appends `a`'s basename to `b`'s dependencies; no other node changes, and `b` keeps every parameter but `dependencies` |
| Flows.DetachEdge | Azusa/AzkabanJob.py:195-204 | detaching `a -> b` removes one copy of `a`'s basename from `b`'s dependencies and removes the edge; it succeeds whenever the edge and the listed basename are both present, and only if the edge is present; no other node changes, and `b` keeps every parameter but `dependencies` |
| Flows.UnwireAll | Azusa/AzkabanJob.py:217-218 | the first re-arrangement loop removes exactly the edges from the listed jobs into the finish command, and changes no node but the finish command |
| Flows.WireAll | Azusa/AzkabanJob.py:219-221 | the second re-arrangement loop adds exactly the edges from the listed jobs other than the finish command into it, and changes no node but the finish command |
| Flows.Admit | Azusa/AzkabanJob.py:193 | an edge endpoint not yet in the graph is added after the existing nodes; one already there is left as it is |
| Flows.SetDependencies | Azusa/AzkabanJob.py:159-170 | an existing edge is refused with DuplicatedDependenciesError; on success both endpoints are in the graph, every other node was there before, and the flow's own identity, parameters and properties are unchanged; the nodes already there keep their places, none has a parameter but `dependencies` changed, and every one but `b` and the finish command is as it was |
| Flows.RegisterCommand | Azusa/AzkabanJob.py:131-143 | a node already in the graph (the finish command included) is a DuplicatedJobError, checked before the kind; a Flow is a TypeError; on success the command is appended to the nodes, the flow's name, parameters and properties are kept, every earlier node but the finish command is as it was, and the finish command changes only in its `dependencies` |
| Flows.RegisterSubflow | Azusa/AzkabanJob.py:145-157 | a node already in the graph is a DuplicatedJobError, checked before the kind; a Command is a TypeError; on success the sub-flow is appended to the nodes, the flow's name, parameters and properties are kept, every earlier node but the finish command is as it was, and the finish command changes only in its `dependencies` |
| Flows.RemoveDependencies | Azusa/AzkabanJob.py:172-182 | removing an edge into the finish command is a FinishCommandError; on success exactly the edge `a -> b` is gone and it was present; a missing edge is an error, and it is a graph error once `b`'s dependency list accepts the removal; on success every node but `b` is as it was, and `b` keeps every parameter but `dependencies` |
| FlowInvariants.ArrangeSpec | Azusa/AzkabanJob.py:214-221 | the re-arrangement succeeds on a consistent flow and keeps it consistent; afterwards the finish command's predecessors are exactly the other nodes without another successor, and every other edge is unchanged |
| FlowInvariants.ArrangeWiresFinish | Azusa/AzkabanJob.py:214-221 | after the re-arrangement the finish wiring holds, and, when no edge leaves the finish command, the finish command is the single last node |
| FlowInvariants.WiredSingleLast | Azusa/AzkabanJob.py:115-121 | in a well-formed flow with the finish wiring and no edge leaving the finish command, `last_nodes` is exactly the finish command |
| FlowInvariants.ConnectSpec | Azusa/AzkabanJob.py:159-170 | a new edge between registered nodes always succeeds, keeps consistency and the finish wiring, adds exactly that edge among the edges not into the finish command, and appends `a`'s basename to `b`'s dependencies; the flow keeps its attributes and node order, no parameter but `dependencies` changes, and every node but `b` and the finish command is as it was |
| FlowInvariants.SetDependenciesSpec | Azusa/AzkabanJob.py:159-170 | on a consistent flow, `set_dependencies` of a new edge succeeds, with fresh endpoints admitted; afterwards the flow is consistent and finish-wired, and the edges not into the finish command are the old ones plus `a -> b`; unless `a` is the finish command, the invariant holds and the finish command is the single last node; the flow keeps its attributes, the nodes already there keep their places, no parameter but `dependencies` changes, and every node but `b` and the finish command is as it was |
| FlowInvariants.SetDependenciesAppends | Azusa/AzkabanJob.py:184-193 | after `set_dependencies(a, b)` with `b` not the finish command, `b`'s dependency list is its previous list with `a`'s basename appended |
| FlowInvariants.AddNodeSpec | Azusa/AzkabanJob.py:206-212 | appending a fresh node wires it to the finish command; the invariant and the finish wiring hold, the node has no predecessor and an empty dependency list, no other edge changes, and the finish command is the single last node |
| FlowInvariants.RegisterCommandSpec | Azusa/AzkabanJob.py:131-143 | for a Command without dependencies of its own, registration succeeds exactly when it is not yet in the graph; it keeps the invariant and the finish wiring, appends the command as a first job wired to the finish command, leaves every other edge alone, leaves every earlier node but the finish command as it was (and the finish command's parameters but `dependencies`), keeps the flow's attributes, and leaves the finish command the single last node |
| FlowInvariants.RegisterSubflowSpec | Azusa/AzkabanJob.py:145-157 | for a Flow without dependencies of its own, registration succeeds exactly when it is not yet in the graph, with the same guarantees as for a command: invariant, finish wiring, the node appended and wired, every earlier node but the finish command unchanged |
| FlowInvariants.RemoveDependenciesSpec | Azusa/AzkabanJob.py:172-204 | removal of an edge not into the finish command succeeds exactly when the edge exists; it keeps the invariant and removes the first occurrence of `a`'s basename from `b`'s dependency list; every node but `b` is as it was, `b` keeps every parameter but `dependencies`, and the flow keeps its attributes and node order |
| FlowInvariants.RemoveCanLeaveSeveralLastNodes | Azusa/AzkabanJob.py:172-182 | removing the only outgoing edge of a node does not re-arrange the finish command, so that node and the finish command are both last nodes afterwards |
| FlowInvariants.NewFlowEstablishes | Azusa/AzkabanJob.py:51-73 | a newly constructed flow satisfies the invariant and the finish wiring; its finish command is both its only first job and its only last node |
| Archive.PathJoinSpec | Azusa/AzkabanJob.py:358-361 | `os.path.join(a, b)` is `b` when `b` is absolute; otherwise it is `a`, then a '/' unless `a` is empty or already ends in one, then `b` |
| Archive.RenderSpec | Azusa/AzkabanJob.py:344-379 | writing succeeds exactly when every last-node check and every file text succeeds; the entries are then the written files in order, each at its path with its text |
| Archive.MultipleLastNodesRefused | Azusa/AzkabanJob.py:354-355 | a flow with more than one last node, or none, is a MultipleLastJobError |
| Archive.FlowEntriesSpec | Azusa/AzkabanJob.py:344-365 | a flow can be written exactly when it and every nested sub-flow have a single last node and renderable texts; it then yields one entry per job, per nested job and per properties file, all inside its base directory (under `<basedir>/`, not merely starting with the same characters) when names are relative |
| Archive.JobFileWritten | Azusa/AzkabanJob.py:356-361 | every job of a written flow appears as `<basedir>/<job filename>` with its rendered text |
| Archive.PropertiesWrittenLast | Azusa/AzkabanJob.py:364-379 | a flow's properties file is the last entry written for it, at `<basedir>/<name>.properties` |
| Archive.DirCons | Azusa/AzkabanJob.py:361 | joining the base directory with a sub-flow's name and then with the inner directories gives the same path as joining all of them at once |
| Archive.RenderUnder | Azusa/AzkabanJob.py:361 | writing steps one directory further down, in `d`, under a base directory is writing them under `os.path.join(basedir, d)` |
| Archive.RenderConcat | Azusa/AzkabanJob.py:344-365 | writing two runs of steps one after the other succeeds exactly when each does, and the entries are those of the first run followed by those of the second |
| Archive.FlowEntriesUnder | Azusa/AzkabanJob.py:359-361 | a flow written one directory further down, in `d`, under `basedir` yields exactly its entries written under `os.path.join(basedir, d)` |
| Archive.SubflowEntriesNested | Azusa/AzkabanJob.py:356-361 | in a written flow, the job file of the sub-flow at position `i` comes right after the files of the jobs before it, and is followed at once by the sub-flow's complete entries as written under `os.path.join(basedir, <sub-flow name>)` |
| Archive.NewProject | Azusa/AzkabanJob.py:243-263 | a new project has no flows and fails with TypeError exactly for an unsupported properties argument; a properties dict becomes a Properties named after the project |
| Archive.Len | Azusa/AzkabanJob.py:304-305 | the size of a project is the number of distinct flows it holds |
| Archive.AddFlow | Azusa/AzkabanJob.py:313-321 | adding anything but a Flow is a TypeError; otherwise the project holds exactly the flow identities it held plus this one, holds the flow itself, keeps every flow of another identity unchanged, holds no other new flow, and grows by one only when the flow is new |
| Archive.AddFlowIdempotent | Azusa/AzkabanJob.py:313-321 | adding the same flow twice is the same as adding it once |
| Archive.CreateZipfile | Azusa/AzkabanJob.py:323-342 | an existing target without overwrite is an IOError; on success the returned path is `<out_dir>/<project>.zip` |
| Archive.CreateZipfileSpec | Azusa/AzkabanJob.py:323-342 | the archive is written exactly when overwriting is allowed or the target is new, every flow can be written and the project's properties render; it then holds one entry per file of every flow plus the project's properties, all inside the project's directory (under `<project>/`) when names are relative |
| Archive.FlowsStepsSpec | Azusa/AzkabanJob.py:337-339 | the writing steps of the project's flows all succeed exactly when every flow can be written, write as many files as the flows hold together, and have only relative names when the flows do |
| Archive.CreateZipfileLayout | Azusa/AzkabanJob.py:337-339 | in a written archive, the entries of the `k`-th flow form one block, starting after the files of the flows before it, and the block is exactly that flow's entries written under `os.path.join(<project>, <flow name>)` |
| Archive.CreateZipfilePropertiesLast | Azusa/AzkabanJob.py:340-341 | a project with properties has its properties file as the archive's last entry, at `<project>/<name>.properties` with its rendered text |
| Batch.RegisterAllShaped | Azusa/AzkabanJob.py:131-143 | registering fresh commands one after another keeps the invariant and the finish wiring, appends their identities to the nodes in order, and adds no edge other than finish edges |
| Batch.LinkAllShaped | Azusa/AzkabanJob.py:159-170 | applying new, distinct `set_dependencies` links between registered non-finish nodes keeps the invariant and the finish wiring; afterwards the non-finish edges are exactly the old ones plus those links |
| Batch.BuildDiamondShape | test/Azusa/batch.py:50-54 | on a fresh flow, five fresh commands linked as the diamond `1 -> {2, 3} -> 4 -> 5` give exactly these edges besides the finish wiring; the first command is the only first job, the fifth is the finish command's only predecessor, and the finish command is the single last node |
| Batch.CreateFlowAShape | test/Azusa/batch.py:18-55 | after `create_flowA`, the flow holds `flowA` (the finish command) and `commA_1` to `commA_5` in that order, with the diamond's five edges; `commA_5` is the finish command's only predecessor, `commA_1` the only node without predecessors, and the finish command the single last node |
| Batch.BuildTriangleShape | test/Azusa/batch.py:76-78 | on a fresh flow, three fresh commands linked `1 -> 2`, `1 -> 3`, `2 -> 3` give exactly these edges besides the finish wiring, with the first command the only first job and the third the finish command's only predecessor |
| Batch.CreateFlowBsubShape | test/Azusa/batch.py:59-79 | after `create_flowBsub`, the flow holds `flowBsub` (the finish command) and `commBsub_1` to `commBsub_3`, with the triangle's three edges; `commBsub_3` is the finish command's only predecessor and `commBsub_1` the only first job |
| Batch.CreateFlowBsubNode | test/Azusa/batch.py:60-63 | the sub-flow used as a job is the flow `flowBsub`, whose properties dict became a Properties named `flowBsub`, and it lists no dependencies |
| Batch.BuildFlowBShape | test/Azusa/batch.py:97-100 | linking three fresh commands and a sub-flow that was never registered as `1 -> 2`, `1 -> sub`, `2 -> 3`, `sub -> 3` adds the sub-flow to the graph after the commands; these four edges are the only ones besides the finish wiring, `1` is the only first job and `3` the finish command's only predecessor |
| Batch.CreateFlowBShape | test/Azusa/batch.py:58-101 | after `create_flowB`, the flow holds `flowB` (the finish command), `commB_1` to `commB_3` and the sub-flow `flowBsub`, with the four edges of the batch script; `commB_3` is the finish command's only predecessor, `commB_1` the only first job, and the finish command the single last node |
| Batch.BuildProjectSpec | test/Azusa/batch.py:121-133 | a project built from a properties dict with two flows of different identities holds exactly those two flows; its properties are named after it and its archive is `<name>.zip` |

## Left out

- Iteration order: networkx graphs and Python 2 dicts and sets iterate in an
  unspecified order. The model uses registration order for nodes, insertion
  order for parameters and addition order for flows. Contracts that depend
  on order (the position of zip entries, the order of `first_jobs`) hold for
  that choice only.
- State after an exception: when an operation raises halfway, for example
  inside the re-arrangement loops, the Python objects keep the partial
  mutation. The model returns the error without a state.
- Aliasing: `Params` wraps the caller's dict without copying it, and a
  sub-flow object can change after it joins another flow. The model keeps a
  node's parameters in the flow that owns the node and snapshots a sub-flow
  when it becomes a node. Changes made through outside references are not
  modelled.
- I/O: creating the output directory, the existence test of the target and
  the zip file itself are left out. Whether the target exists is an input of
  `Archive.CreateZipfile`, and the archive is modelled as its ordered list of
  `(path, text)` entries.
- The network client (`AzkabanWeb.py`) and the upload and scheduling part of
  the batch script's `main` are not part of this model.
- The batch script's debugging printer `print_check_proj` is left out because
  it only prints.
- Python 2 `str` versus `unicode` and the `isinstance(value, int)` check on
  `bool` and `long` are left out. Values are classified as string, integer,
  list, dict or other.
- A list item or dict key that is neither a string nor an integer (a float,
  `None`, a tuple, ...) is carried as the text `str` gives it. Two such
  items are equal when their texts are. Python's cross-type equalities,
  such as `1.0 == 1`, are therefore not modelled for `dependencies` lists.
- The `TypeError` raised by `__add_flow_to_zip` for a job that is neither a
  Command nor a Flow cannot arise in the model, because every node is one
  of the two.
- Batch.CreateFlowAShape: the command parameters are arbitrary dicts without
  a `dependencies` key, rather than the script's literal dicts. The literal
  dicts are one instance of these.
- Batch.CreateFlowBShape: as for `flowA`, the command parameters are any
  dicts without a `dependencies` key.
- FlowInvariants.SetDependenciesSpec: it is stated for a consistent flow and
  fresh new endpoints. A node that arrives with dependencies of its own is
  not covered.
- FlowInvariants.AddNodeSpec: it is stated for a node whose parameters list
  no dependencies (or an empty list). A node that arrives with dependencies
  of its own leaves the flow inconsistent, so the finish wiring is not
  promised for it.
- FlowInvariants.RegisterCommandSpec: `register_command` accepts any Command
  not yet in the graph, but the success and wiring guarantees are stated only
  for a Command whose parameters list no dependencies (or an empty list). For
  any node, `Flows.RegisterCommand` itself still gives the two failure cases,
  the node ids and the frames.
- FlowInvariants.RegisterSubflowSpec: as for `RegisterCommandSpec`, stated
  only for a Flow whose parameters list no dependencies (or an empty list);
  `Flows.RegisterSubflow` gives the failure cases and frames for any Flow.
- Flows.SetDependencies: its own contract does not say that the edge is
  present afterwards. With `b` the finish command and `a` having another
  successor, the re-arrangement removes the new edge again.
  `FlowInvariants.SetDependenciesSpec` states the edges precisely.

## Where the code and its documented behaviour differ

- Duplicate registration is decided by object identity, as networkx
  decides node membership, not by job name. A second Command object with
  an existing name is accepted.
- The text converter rejects a dict value whose keys are not all strings,
  because joining the keys with commas raises TypeError. So "a TypeError
  exactly for values that are not strings, integers, lists or dicts" does
  not hold. The model follows the code.
- `set_dependencies` with an endpoint that was never registered adds that
  endpoint to the graph, as networkx's `add_edge` does. `create_flowB`
  relies on this for its sub-flow.

## Findings

| source | as written | input that shows it | evidently intended | confidence | as-written member | corrected member |
|---|---|---|---|---|---|---|
| Azusa/AzkabanJobBase.py:21-22 | `Params.__contains__` tests membership in the object itself, which calls `__contains__` again, so the recursion never ends | `'type' in Command('c', {}).params` exceeds the recursion limit and raises RuntimeError instead of returning True | membership among the keys of the wrapped dict | high; not executed | Parameters.ContainsAsWrittenFailsOnPresentKey | Parameters.ContainsKey |
