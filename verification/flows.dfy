/**
 * The flow graph engine (class `Flow`): a directed graph of jobs, each a
 * Command or a nested Flow, with a synthetic finish Command that the engine
 * keeps wired after every node that has no other successor.
 *
 * Nodes are keyed by object identity (`Job`), as networkx keys them by the
 * Python objects themselves. Every edge is recorded twice: in the edge set
 * and as the predecessor's basename in the successor's `dependencies`
 * parameter. The nodes are kept in registration order, which is the model's
 * iteration order.
 */
module Flows {
  import opened Errors
  import opened Seqs
  import opened Parameters
  import opened AzkabanFile

  /** The identity of a Command or Flow object, with its immutable name. */
  datatype Job = Job(oid: nat, name: string)

  /** `(previous_job, next_job)`: `next_job` runs after `previous_job`. */
  type Edge = (Job, Job)

  /** A node of a flow graph: a Command with its parameters, or a nested Flow
      with the parameters of its flow-typed job file. */
  datatype Node =
    | CmdNode(job: Job, params: Params)
    | SubNode(params: Params, flow: Flow)
  {
    function Id(): Job {
      match this
      case CmdNode(j, _) => j
      case SubNode(_, f) => f.self
    }

    /** `basename`: a Command's name; `flow_<name>` for a Flow. */
    function Basename(): string {
      match this
      case CmdNode(j, _) => j.name
      case SubNode(_, f) => FlowBasename(f.self.name)
    }

    /** `filename` of a job: `<basename>.job`. */
    function JobFileName(): string {
      FileName(Basename(), "job")
    }

    function WithParams(p: Params): (r: Node)
      ensures r.Id() == Id() && r.Basename() == Basename() && r.params == p
      ensures r.CmdNode? == CmdNode?
    {
      match this
      case CmdNode(j, _) => CmdNode(j, p)
      case SubNode(_, f) => SubNode(p, f)
    }
  }

  /** A flow: its own job identity and parameters (used when it is registered
      as a sub-flow), optional properties, the finish command's identity, the
      registered nodes and the edges between them. */
  datatype Flow = Flow(
    self: Job,
    params: Params,
    properties: Option<Properties>,
    finish: Job,
    nodes: seq<Node>,
    edges: set<Edge>)

  /** `Flow.basename`. */
  function FlowBasename(name: string): string {
    "flow_" + name
  }

  // ---------------------------------------------------------------- constructors

  /** `AzkabanJobAbstruct.__init__`: the `type` parameter is forced. */
  function JobParams(typeName: string, p: Params): (r: Params)
    ensures Get(r, "type") == Some(VStr(typeName))
    ensures forall k :: k != "type" ==> Get(r, k) == Get(p, k)
    ensures ValidParams(p) ==> ValidParams(r)
  {
    Update(p, "type", VStr(typeName))
  }

  /** `Command(name, params)`: a command job whose `type` is `command`. */
  function NewCommand(job: Job, p: Params): (n: Node)
    ensures n.CmdNode? && n.Id() == job && n.Basename() == job.name
    ensures n.JobFileName() == job.name + ".job"
    ensures Get(n.params, "type") == Some(VStr("command"))
    ensures forall k :: k != "type" ==> Get(n.params, k) == Get(p, k)
    ensures ValidParams(p) ==> ValidParams(n.params)
  {
    JobFileNameIs(job.name);
    CmdNode(job, JobParams("command", Update(p, "type", VStr("command"))))
  }

  /** The parameters of the finish command of the flow named `name`. */
  function FinishCommandParams(name: string): Params {
    Params([Entry("command", VStr("echo \"Finish " + name + " at $(date)\""))])
  }

  /** The parameters of a flow's own job file: `type` is `flow` and
      `flow.name` the flow's name; every other key is the caller's. */
  function FlowParams(name: string, p: Params): (r: Params)
    ensures Get(r, "type") == Some(VStr("flow"))
    ensures Get(r, "flow.name") == Some(VStr(name))
    ensures forall k :: k != "type" && k != "flow.name" ==> Get(r, k) == Get(p, k)
    ensures ValidParams(p) ==> ValidParams(r)
  {
    var q := Update(Update(p, "type", VStr("flow")), "flow.name", VStr(name));
    assert "flow.name" != "type" by { assert "flow.name"[0] != "type"[0]; }
    JobParams("flow", q)
  }

  /** `Flow(name, params, properties)`: a flow-typed job whose graph holds only
      its finish command, a Command named after the flow. */
  function NewFlow(self: Job, finishOid: nat, p: Params, props: PropertiesArg): (r: Result<Flow>)
    ensures r.Failure? <==> props.OtherArg?
    ensures r.Failure? ==> r.error == TypeError
    ensures r.Success? ==> var f := r.value;
      && f.self == self
      && f.finish == Job(finishOid, self.name)
      && f.nodes == [NewCommand(f.finish, FinishCommandParams(self.name))]
      && f.edges == {}
      && Get(f.params, "type") == Some(VStr("flow"))
      && Get(f.params, "flow.name") == Some(VStr(self.name))
      && (forall k :: k != "type" && k != "flow.name" ==> Get(f.params, k) == Get(p, k))
      && (ValidParams(p) ==> ValidParams(f.params))
      && (props.PropertiesDict? ==> f.properties == Some(Properties(self.name, props.dict)))
  {
    match ResolveProperties(self.name, props)
    case Failure(e) => Failure(e)
    case Success(properties) =>
      var finish := NewCommand(Job(finishOid, self.name), FinishCommandParams(self.name));
      Success(Flow(self, FlowParams(self.name, p), properties, finish.Id(), [finish], {}))
  }

  /** A flow used as a node of another flow (the argument of `register_subflow`). */
  function AsNode(f: Flow): (n: Node)
    ensures n.SubNode? && n.Id() == f.self && n.params == f.params
    ensures n.Basename() == "flow_" + f.self.name
    ensures n.JobFileName() == "flow_" + f.self.name + ".job"
  {
    JobFileNameIs("flow_" + f.self.name);
    SubNode(f.params, f)
  }

  // ---------------------------------------------------------------- graph views

  function Ids(ns: seq<Node>): (r: seq<Job>)
    ensures |r| == |ns|
    ensures forall i :: 0 <= i < |ns| ==> r[i] == ns[i].Id()
  {
    seq(|ns|, i requires 0 <= i < |ns| => ns[i].Id())
  }

  /** Nodes are registered once, the finish command is one of them, and
      every edge joins two registered nodes. */
  predicate WellFormed(f: Flow) {
    && Distinct(Ids(f.nodes))
    && f.finish in Ids(f.nodes)
    && forall e :: e in f.edges ==> e.0 in Ids(f.nodes) && e.1 in Ids(f.nodes)
  }

  predicate HasSucc(edges: set<Edge>, j: Job) {
    exists e :: e in edges && e.0 == j
  }

  predicate HasPred(edges: set<Edge>, j: Job) {
    exists e :: e in edges && e.1 == j
  }

  /** `first_jobs`: the nodes without predecessors. */
  function FirstJobs(f: Flow): seq<Job> {
    Filter(Ids(f.nodes), j => !HasPred(f.edges, j))
  }

  /** `last_nodes`: the nodes without successors. */
  function LastNodes(f: Flow): seq<Job> {
    Filter(Ids(f.nodes), j => !HasSucc(f.edges, j))
  }

  /** `jobs_before_last`: the predecessors of the finish command. */
  function JobsBeforeLast(f: Flow): seq<Job> {
    Filter(Ids(f.nodes), j => (j, f.finish) in f.edges)
  }

  /** What the three graph queries return, as membership: `first_jobs` the
      registered nodes without a predecessor, `last_nodes` those without a
      successor, `jobs_before_last` the predecessors of the finish command;
      none of them lists a node twice. */
  lemma QueriesSpec(f: Flow)
    requires WellFormed(f)
    ensures forall j :: j in FirstJobs(f) <==> j in Ids(f.nodes) && !HasPred(f.edges, j)
    ensures forall j :: j in LastNodes(f) <==> j in Ids(f.nodes) && !HasSucc(f.edges, j)
    ensures forall j :: j in JobsBeforeLast(f) <==> (j, f.finish) in f.edges
    ensures Distinct(FirstJobs(f)) && Distinct(LastNodes(f)) && Distinct(JobsBeforeLast(f))
  {
    var ids := Ids(f.nodes);
    forall j | j in ids
      ensures !HasPred(f.edges, j) ==> j in FirstJobs(f)
      ensures !HasSucc(f.edges, j) ==> j in LastNodes(f)
      ensures (j, f.finish) in f.edges ==> j in JobsBeforeLast(f)
    {
      var k :| 0 <= k < |ids| && ids[k] == j;
    }
    forall j | j in FirstJobs(f)
      ensures j in ids && !HasPred(f.edges, j)
    {
      var k :| 0 <= k < |FirstJobs(f)| && FirstJobs(f)[k] == j;
    }
    forall j | j in LastNodes(f)
      ensures j in ids && !HasSucc(f.edges, j)
    {
      var k :| 0 <= k < |LastNodes(f)| && LastNodes(f)[k] == j;
    }
    forall j | j in JobsBeforeLast(f)
      ensures (j, f.finish) in f.edges
    {
      var k :| 0 <= k < |JobsBeforeLast(f)| && JobsBeforeLast(f)[k] == j;
    }
  }

  /** The position of the node with identity `j`. */
  function IndexOf(ns: seq<Node>, j: Job): (i: nat)
    requires j in Ids(ns)
    ensures i < |ns| && ns[i].Id() == j
    ensures Distinct(Ids(ns)) ==> forall k :: 0 <= k < |ns| && ns[k].Id() == j ==> k == i
  {
    var ids := Ids(ns);
    if ns[0].Id() == j then 0
    else
      assert ids[1..] == Ids(ns[1..]);
      1 + IndexOf(ns[1..], j)
  }

  /** The node with identity `j`. */
  function Find(ns: seq<Node>, j: Job): Node
    requires j in Ids(ns)
  {
    ns[IndexOf(ns, j)]
  }

  /** Replaces the parameters of the node with identity `j`. */
  function SetParams(ns: seq<Node>, j: Job, p: Params): (r: seq<Node>)
    ensures |r| == |ns|
    ensures forall i :: 0 <= i < |ns| ==> r[i] == (if ns[i].Id() == j then ns[i].WithParams(p) else ns[i])
  {
    seq(|ns|, i requires 0 <= i < |ns| => if ns[i].Id() == j then ns[i].WithParams(p) else ns[i])
  }

  /** `g` differs from `f` at most in the nodes' parameters and in the edges. */
  predicate SameJobs(f: Flow, g: Flow) {
    && g.self == f.self
    && g.params == f.params
    && g.properties == f.properties
    && g.finish == f.finish
    && |g.nodes| == |f.nodes|
    && (forall i :: 0 <= i < |f.nodes| ==> g.nodes[i] == f.nodes[i].WithParams(g.nodes[i].params))
    && Ids(g.nodes) == Ids(f.nodes)
  }

  /** Every node of `f` other than `j` is the same in `g`. */
  predicate Untouched(f: Flow, g: Flow, j: Job)
    requires |f.nodes| <= |g.nodes|
  {
    forall i :: 0 <= i < |f.nodes| && f.nodes[i].Id() != j ==> g.nodes[i] == f.nodes[i]
  }

  /** Every node of `f` other than `j` and `k` is the same in `g`. */
  predicate UntouchedBut(f: Flow, g: Flow, j: Job, k: Job)
    requires |f.nodes| <= |g.nodes|
  {
    forall i :: 0 <= i < |f.nodes| && f.nodes[i].Id() != j && f.nodes[i].Id() != k ==> g.nodes[i] == f.nodes[i]
  }

  /** No node of `f` has any parameter but `dependencies` changed in `g`. */
  ghost predicate OnlyDepsChange(f: Flow, g: Flow)
    requires |f.nodes| <= |g.nodes|
  {
    forall i, k :: 0 <= i < |f.nodes| && k != DependenciesKey ==> Get(g.nodes[i].params, k) == Get(f.nodes[i].params, k)
  }

  lemma OnlyDepsChangeTransitive(f: Flow, g: Flow, h: Flow)
    requires |f.nodes| <= |g.nodes| <= |h.nodes|
    requires OnlyDepsChange(f, g) && OnlyDepsChange(g, h)
    ensures OnlyDepsChange(f, h)
  {
  }

  /** Replacing the parameters of node `j` by `p`, which agrees with `j`'s
      parameters on every key but `dependencies`, changes nothing else. */
  lemma SetParamsFrame(f: Flow, j: Job, p: Params, edges: set<Edge>)
    requires j in Ids(f.nodes)
    requires forall k :: k != DependenciesKey ==> Get(p, k) == Get(Find(f.nodes, j).params, k)
    ensures var g := f.(nodes := SetParams(f.nodes, j, p), edges := edges);
      Distinct(Ids(f.nodes)) ==> OnlyDepsChange(f, g)
  {
    var g := f.(nodes := SetParams(f.nodes, j, p), edges := edges);
    forall i, k | Distinct(Ids(f.nodes)) && 0 <= i < |f.nodes| && k != DependenciesKey
      ensures Get(g.nodes[i].params, k) == Get(f.nodes[i].params, k)
    {
      if f.nodes[i].Id() == j {
        assert i == IndexOf(f.nodes, j);
      }
    }
  }

  lemma SameJobsTransitive(f: Flow, g: Flow, h: Flow)
    requires SameJobs(f, g) && SameJobs(g, h)
    ensures SameJobs(f, h)
  {
    forall i | 0 <= i < |f.nodes|
      ensures h.nodes[i] == f.nodes[i].WithParams(h.nodes[i].params)
    {
      assert h.nodes[i] == g.nodes[i].WithParams(h.nodes[i].params);
    }
  }

  lemma SetParamsSameJobs(f: Flow, j: Job, p: Params, edges: set<Edge>)
    ensures SameJobs(f, f.(nodes := SetParams(f.nodes, j, p), edges := edges))
  {
    var g := f.(nodes := SetParams(f.nodes, j, p), edges := edges);
    forall i | 0 <= i < |f.nodes|
      ensures g.nodes[i] == f.nodes[i].WithParams(g.nodes[i].params)
    {
    }
    assert Ids(g.nodes) == Ids(f.nodes);
  }

  // ---------------------------------------------------------------- mutation

  /** `__set_dependencies(a, b)`: `b` lists `a`'s basename as a dependency,
      then the edge `(a, b)` is added. */
  function AttachEdge(f: Flow, a: Job, b: Job): (r: Result<Flow>)
    requires a in Ids(f.nodes) && b in Ids(f.nodes)
    ensures r.Success? <==> DepsShaped(Find(f.nodes, b).params)
    ensures r.Failure? ==> r.error == AttributeError
    ensures r.Success? ==> SameJobs(f, r.value) && r.value.edges == f.edges + {(a, b)}
    ensures r.Success? ==> Untouched(f, r.value, b)
    ensures r.Success? && Distinct(Ids(f.nodes)) ==> OnlyDepsChange(f, r.value)
    ensures r.Success? ==> var q := r.value.nodes[IndexOf(f.nodes, b)].params;
      && DepsShaped(q)
      && DepAtoms(q) == DepAtoms(Find(f.nodes, b).params) + [AStr(Find(f.nodes, a).Basename())]
  {
    var p :- AddDependency(Find(f.nodes, b).params, Find(f.nodes, a).Basename());
    assert forall k :: k != DependenciesKey ==> Get(p, k) == Get(Find(f.nodes, b).params, k);
    SetParamsSameJobs(f, b, p, f.edges + {(a, b)});
    SetParamsFrame(f, b, p, f.edges + {(a, b)});
    Success(f.(nodes := SetParams(f.nodes, b, p), edges := f.edges + {(a, b)}))
  }

  /** `__remove_dependencies(a, b)`: `a`'s basename leaves `b`'s dependencies,
      then the edge `(a, b)` is removed (a graph error when it is absent). */
  function DetachEdge(f: Flow, a: Job, b: Job): (r: Result<Flow>)
    requires a in Ids(f.nodes) && b in Ids(f.nodes)
    ensures r.Success? ==> SameJobs(f, r.value) && r.value.edges == f.edges - {(a, b)}
    ensures r.Success? ==> (a, b) in f.edges
    ensures r.Success? ==> Untouched(f, r.value, b)
    ensures r.Success? && Distinct(Ids(f.nodes)) ==> OnlyDepsChange(f, r.value)
    ensures (a, b) in f.edges && DepsShaped(Find(f.nodes, b).params) && AStr(Find(f.nodes, a).Basename()) in DepAtoms(Find(f.nodes, b).params) ==> r.Success?
    ensures r.Success? ==> var q := r.value.nodes[IndexOf(f.nodes, b)].params;
      && DepsShaped(q)
      && multiset(DepAtoms(q)) == multiset(DepAtoms(Find(f.nodes, b).params)) - multiset{AStr(Find(f.nodes, a).Basename())}
  {
    var p :- RemoveDependency(Find(f.nodes, b).params, Find(f.nodes, a).Basename());
    if (a, b) !in f.edges then Failure(GraphError)
    else
      SetParamsSameJobs(f, b, p, f.edges - {(a, b)});
      SetParamsFrame(f, b, p, f.edges - {(a, b)});
      Success(f.(nodes := SetParams(f.nodes, b, p), edges := f.edges - {(a, b)}))
  }

  /** One step of the first loop of `__arrange_finish_command`. */
  function UnwireOne(f: Flow, j: Job): (r: Result<Flow>)
    requires WellFormed(f)
    requires j in Ids(f.nodes)
    ensures r.Success? ==> SameJobs(f, r.value) && WellFormed(r.value)
    ensures r.Success? ==> r.value.edges == f.edges - {(j, f.finish)}
    ensures r.Success? ==> Untouched(f, r.value, f.finish) && OnlyDepsChange(f, r.value)
  {
    DetachEdge(f, j, f.finish)
  }

  /** First loop of `__arrange_finish_command`: detaches each listed job from
      the finish command. */
  function UnwireAll(f: Flow, js: seq<Job>): (r: Result<Flow>)
    requires WellFormed(f)
    requires forall i :: 0 <= i < |js| ==> js[i] in Ids(f.nodes)
    ensures r.Success? ==> SameJobs(f, r.value) && WellFormed(r.value)
    ensures r.Success? ==> forall e :: e in r.value.edges <==> e in f.edges && !(e.1 == f.finish && e.0 in js)
    ensures r.Success? ==> Untouched(f, r.value, f.finish) && OnlyDepsChange(f, r.value)
    decreases |js|
  {
    if |js| == 0 then Success(f)
    else
      match UnwireOne(f, js[0])
      case Failure(e) => Failure(e)
      case Success(g) =>
        var r := UnwireAll(g, js[1..]);
        if r.Success? then
          SameJobsTransitive(f, g, r.value);
          UntouchedTransitive(f, g, r.value, f.finish);
          OnlyDepsChangeTransitive(f, g, r.value);
          UnwireEdges(f.edges, g.edges, r.value.edges, f.finish, js);
          r
        else r
  }

  lemma UnwireEdges(fe: set<Edge>, ge: set<Edge>, he: set<Edge>, fin: Job, js: seq<Job>)
    requires |js| > 0
    requires ge == fe - {(js[0], fin)}
    requires forall e :: e in he <==> e in ge && !(e.1 == fin && e.0 in js[1..])
    ensures forall e :: e in he <==> e in fe && !(e.1 == fin && e.0 in js)
  {
    assert forall j :: j in js <==> j == js[0] || j in js[1..];
  }

  /** One step of the second loop of `__arrange_finish_command`: a job other
      than the finish command is attached to it. */
  function WireOne(f: Flow, j: Job): (r: Result<Flow>)
    requires WellFormed(f)
    requires j in Ids(f.nodes)
    ensures r.Success? ==> SameJobs(f, r.value) && WellFormed(r.value)
    ensures r.Success? ==> r.value.edges == if j == f.finish then f.edges else f.edges + {(j, f.finish)}
    ensures r.Success? ==> Untouched(f, r.value, f.finish) && OnlyDepsChange(f, r.value)
  {
    if j == f.finish then Success(f) else AttachEdge(f, j, f.finish)
  }

  lemma UntouchedTransitive(f: Flow, g: Flow, h: Flow, j: Job)
    requires SameJobs(f, g) && SameJobs(g, h)
    requires Untouched(f, g, j) && Untouched(g, h, j)
    ensures Untouched(f, h, j)
  {
  }

  /** Second loop of `__arrange_finish_command`: attaches each listed job
      other than the finish command itself to the finish command. */
  function WireAll(f: Flow, js: seq<Job>): (r: Result<Flow>)
    requires WellFormed(f)
    requires forall i :: 0 <= i < |js| ==> js[i] in Ids(f.nodes)
    ensures r.Success? ==> SameJobs(f, r.value) && WellFormed(r.value)
    ensures r.Success? ==> forall e :: e in r.value.edges <==> e in f.edges || (e.1 == f.finish && e.0 in js && e.0 != f.finish)
    ensures r.Success? ==> Untouched(f, r.value, f.finish) && OnlyDepsChange(f, r.value)
    decreases |js|
  {
    if |js| == 0 then Success(f)
    else
      match WireOne(f, js[0])
      case Failure(e) => Failure(e)
      case Success(g) =>
        var r := WireAll(g, js[1..]);
        if r.Success? then
          SameJobsTransitive(f, g, r.value);
          UntouchedTransitive(f, g, r.value, f.finish);
          OnlyDepsChangeTransitive(f, g, r.value);
          WireEdges(f.edges, g.edges, r.value.edges, f.finish, js);
          r
        else r
  }

  lemma WireEdges(fe: set<Edge>, ge: set<Edge>, he: set<Edge>, fin: Job, js: seq<Job>)
    requires |js| > 0
    requires ge == if js[0] == fin then fe else fe + {(js[0], fin)}
    requires forall e :: e in he <==> e in ge || (e.1 == fin && e.0 in js[1..] && e.0 != fin)
    ensures forall e :: e in he <==> e in fe || (e.1 == fin && e.0 in js && e.0 != fin)
  {
    assert forall j :: j in js <==> j == js[0] || j in js[1..];
  }

  /** `__arrange_finish_command`: unwire every predecessor of the finish
      command, then wire every other node that has no successor to it. */
  function ArrangeFinish(f: Flow): (r: Result<Flow>)
    requires WellFormed(f)
    ensures r.Success? ==> SameJobs(f, r.value) && WellFormed(r.value)
    ensures r.Success? ==> Untouched(f, r.value, f.finish) && OnlyDepsChange(f, r.value)
  {
    var g :- UnwireAll(f, JobsBeforeLast(f));
    var r := WireAll(g, LastNodes(g));
    if r.Success? then
      SameJobsTransitive(f, g, r.value);
      UntouchedTransitive(f, g, r.value, f.finish);
      OnlyDepsChangeTransitive(f, g, r.value);
      r
    else r
  }

  /** `set_dependencies(a, b)` once both endpoints are in the graph: an
      existing edge is refused; otherwise the edge is attached and the finish
      command re-arranged. */
  function Connect(f: Flow, a: Job, b: Job): (r: Result<Flow>)
    requires WellFormed(f)
    requires a in Ids(f.nodes) && b in Ids(f.nodes)
    ensures (a, b) in f.edges ==> r == Failure(DuplicatedDependenciesError)
    ensures r.Success? ==> SameJobs(f, r.value) && WellFormed(r.value)
    ensures r.Success? ==> OnlyDepsChange(f, r.value) && UntouchedBut(f, r.value, b, f.finish)
  {
    if (a, b) in f.edges then Failure(DuplicatedDependenciesError)
    else
      var g :- AttachEdge(f, a, b);
      var r := ArrangeFinish(g);
      if r.Success? then
        SameJobsTransitive(f, g, r.value);
        OnlyDepsChangeTransitive(f, g, r.value);
        r
      else r
  }

  /** networkx's `add_edge` adds an endpoint that is not yet in the graph,
      after the nodes already there; a node already there is kept as it is. */
  function Admit(f: Flow, x: Node): (g: Flow)
    requires WellFormed(f)
    ensures WellFormed(g) && Ids(g.nodes) == Ids(f.nodes) + (if x.Id() in Ids(f.nodes) then [] else [x.Id()])
    ensures g.edges == f.edges && g.finish == f.finish && g.self == f.self
    ensures g.params == f.params && g.properties == f.properties
    ensures |f.nodes| <= |g.nodes| && g.nodes[..|f.nodes|] == f.nodes
    ensures x.Id() !in Ids(f.nodes) ==> g.nodes[|f.nodes|] == x
  {
    if x.Id() in Ids(f.nodes) then
      assert f.nodes[..|f.nodes|] == f.nodes;
      f
    else
      var g := f.(nodes := f.nodes + [x]);
      assert Ids(g.nodes) == Ids(f.nodes) + [x.Id()];
      DistinctSnoc(Ids(f.nodes), x.Id());
      g
  }

  /** `set_dependencies(a, b)`: an existing edge is refused; otherwise an
      endpoint not yet in the graph is added to it, `b` lists `a`'s basename
      as a dependency, the edge is added and the finish command re-arranged. */
  function SetDependencies(f: Flow, a: Node, b: Node): (r: Result<Flow>)
    requires WellFormed(f)
    ensures (a.Id(), b.Id()) in f.edges ==> r == Failure(DuplicatedDependenciesError)
    ensures r.Success? ==> WellFormed(r.value) && r.value.finish == f.finish && r.value.self == f.self
    ensures r.Success? ==> r.value.params == f.params && r.value.properties == f.properties
    ensures r.Success? ==> a.Id() in Ids(r.value.nodes) && b.Id() in Ids(r.value.nodes)
    ensures r.Success? ==> forall j :: j in Ids(r.value.nodes) <==> j in Ids(f.nodes) || j == a.Id() || j == b.Id()
    ensures r.Success? && a.Id() in Ids(f.nodes) && b.Id() in Ids(f.nodes) ==> Ids(r.value.nodes) == Ids(f.nodes)
    ensures r.Success? ==> |f.nodes| <= |r.value.nodes| && Ids(r.value.nodes)[..|f.nodes|] == Ids(f.nodes)
    ensures r.Success? ==> OnlyDepsChange(f, r.value) && UntouchedBut(f, r.value, b.Id(), f.finish)
  {
    var g := Admit(Admit(f, a), b);
    assert forall j :: j in Ids(g.nodes) <==> j in Ids(f.nodes) || j == a.Id() || j == b.Id();
    assert forall i :: 0 <= i < |f.nodes| ==> g.nodes[i] == f.nodes[i];
    assert Ids(g.nodes)[..|f.nodes|] == Ids(f.nodes);
    var r := Connect(g, a.Id(), b.Id());
    if r.Success? then
      assert Ids(r.value.nodes) == Ids(g.nodes);
      r
    else r
  }

  /** `register_command` and `register_subflow` after their checks: the node
      is added and `__append_finish_command` wires it to the finish command. */
  function AddNode(f: Flow, x: Node): (r: Result<Flow>)
    requires WellFormed(f)
    requires x.Id() !in Ids(f.nodes)
    ensures r.Success? ==> WellFormed(r.value) && Ids(r.value.nodes) == Ids(f.nodes) + [x.Id()]
    ensures r.Success? ==> r.value.finish == f.finish && r.value.self == f.self
    ensures r.Success? ==> r.value.params == f.params && r.value.properties == f.properties
    ensures r.Success? ==> OnlyDepsChange(f, r.value) && Untouched(f, r.value, f.finish)
  {
    var g := Admit(f, x);
    assert forall i :: 0 <= i < |f.nodes| ==> g.nodes[i] == f.nodes[i];
    Connect(g, x.Id(), f.finish)
  }

  /** `register_command`: a node already in the graph (the finish command
      included) is a DuplicatedJobError, checked before the kind; a Flow is a
      TypeError. */
  function RegisterCommand(f: Flow, x: Node): (r: Result<Flow>)
    requires WellFormed(f)
    ensures x.Id() in Ids(f.nodes) ==> r == Failure(DuplicatedJobError)
    ensures x.Id() !in Ids(f.nodes) && !x.CmdNode? ==> r == Failure(TypeError)
    ensures r.Success? ==> x.CmdNode? && WellFormed(r.value) && Ids(r.value.nodes) == Ids(f.nodes) + [x.Id()]
    ensures r.Success? ==> r.value.self == f.self && r.value.params == f.params && r.value.properties == f.properties
    ensures r.Success? ==> OnlyDepsChange(f, r.value) && Untouched(f, r.value, f.finish)
  {
    if x.Id() in Ids(f.nodes) then Failure(DuplicatedJobError)
    else if !x.CmdNode? then Failure(TypeError)
    else AddNode(f, x)
  }

  /** `register_subflow`: as `register_command`, for Flow nodes. */
  function RegisterSubflow(f: Flow, x: Node): (r: Result<Flow>)
    requires WellFormed(f)
    ensures x.Id() in Ids(f.nodes) ==> r == Failure(DuplicatedJobError)
    ensures x.Id() !in Ids(f.nodes) && !x.SubNode? ==> r == Failure(TypeError)
    ensures r.Success? ==> x.SubNode? && WellFormed(r.value) && Ids(r.value.nodes) == Ids(f.nodes) + [x.Id()]
    ensures r.Success? ==> r.value.self == f.self && r.value.params == f.params && r.value.properties == f.properties
    ensures r.Success? ==> OnlyDepsChange(f, r.value) && Untouched(f, r.value, f.finish)
  {
    if x.Id() in Ids(f.nodes) then Failure(DuplicatedJobError)
    else if !x.SubNode? then Failure(TypeError)
    else AddNode(f, x)
  }

  /** The node `x` stands for in `f`: its registered node, or `x` itself when
      it is not in the graph. */
  function CurrentNode(f: Flow, x: Node): (n: Node)
    ensures n.Id() == x.Id()
  {
    if x.Id() in Ids(f.nodes) then Find(f.nodes, x.Id()) else x
  }

  /** `remove_dependencies(a, b)`: the finish command's incoming edges are
      managed by the engine, so `b` must not be the finish command; `a`'s
      basename leaves `b`'s dependencies and the edge is removed, without
      re-arranging the finish command. A missing edge is a graph error once
      the dependency list has been dealt with. */
  function RemoveDependencies(f: Flow, a: Node, b: Node): (r: Result<Flow>)
    requires WellFormed(f)
    ensures b.Id() == f.finish ==> r == Failure(FinishCommandError)
    ensures r.Success? ==> SameJobs(f, r.value) && WellFormed(r.value)
    ensures r.Success? ==> (a.Id(), b.Id()) in f.edges && r.value.edges == f.edges - {(a.Id(), b.Id())}
    ensures r.Success? ==> OnlyDepsChange(f, r.value) && Untouched(f, r.value, b.Id())
    ensures (a.Id(), b.Id()) !in f.edges && b.Id() != f.finish ==>
              r.Failure? && (RemoveDependency(CurrentNode(f, b).params, a.Basename()).Success? ==> r.error == GraphError)
  {
    if b.Id() == f.finish then Failure(FinishCommandError)
    else if (a.Id(), b.Id()) in f.edges then DetachEdge(f, a.Id(), b.Id())
    else
      var _ :- RemoveDependency(CurrentNode(f, b).params, a.Basename());
      Failure(GraphError)
  }
}
