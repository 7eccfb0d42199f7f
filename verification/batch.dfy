/**
 * The two example flows of the repository's batch script: `flowA`, a
 * diamond of five commands, and `flowB`, which runs a three-command
 * sub-flow between its commands.
 */
module Batch {
  import opened Errors
  import opened Parameters
  import opened AzkabanFile
  import opened Flows
  import opened FlowInvariants
  import opened Archive

  // ---------------------------------------------------------------- building blocks

  /** A flow state described by its node identities (finish command first)
      and by its edges that do not end at the finish command. */
  ghost predicate Shaped(f: Flow, ids: seq<Job>, links: set<Edge>) {
    Invariant(f) && Laid(f, ids, links)
  }

  /** The finish wiring, the node order and the other edges of a flow. */
  ghost predicate Laid(f: Flow, ids: seq<Job>, links: set<Edge>) {
    && FinishWired(f)
    && Ids(f.nodes) == ids
    && |ids| > 0 && f.finish == ids[0]
    && forall e: Edge :: e.1 != f.finish ==> (e in f.edges <==> e in links)
  }

  /** A successful outcome whose flow is shaped so. */
  ghost predicate Yields(r: Result<Flow>, ids: seq<Job>, links: set<Edge>) {
    match r
    case Success(f) => Shaped(f, ids, links)
    case Failure(_) => false
  }

  /** A successful outcome whose flow keeps the invariant, has `finish` as
      its finish command, `first` as its only node without predecessors and
      `last` as the finish command's only predecessor, and whose single last
      node is the finish command. */
  ghost predicate EndsAt(r: Result<Flow>, finish: Job, first: Job, last: Job) {
    match r
    case Success(f) =>
      && Invariant(f)
      && f.finish == finish
      && FirstJobs(f) == [first]
      && JobsBeforeLast(f) == [last]
      && LastNodes(f) == [finish]
    case Failure(_) => false
  }

  /** A command whose parameters hold no `dependencies` entry. */
  function Cmd(oid: nat, name: string, p: Params): (n: Node)
    requires DependenciesKey !in Keys(p)
    ensures n.CmdNode? && n.Id() == Job(oid, name) && FreshNode(n)
  {
    var n := NewCommand(Job(oid, name), p);
    assert Get(n.params, DependenciesKey) == Get(p, DependenciesKey);
    n
  }

  /** Commands about to be registered, none listing dependencies. */
  predicate FreshCommands(xs: seq<Node>) {
    forall i :: 0 <= i < |xs| ==> xs[i].CmdNode? && FreshNode(xs[i])
  }

  /** Registering a fresh command on a shaped flow adds it after the other
      nodes and adds no edge outside the finish wiring. */
  lemma RegisterStep(f: Flow, x: Node, ids: seq<Job>, links: set<Edge>)
    requires Shaped(f, ids, links)
    requires x.CmdNode? && FreshNode(x) && x.Id() !in ids
    ensures RegisterCommand(f, x).Success?
    ensures Shaped(RegisterCommand(f, x).value, ids + [x.Id()], links)
  {
    RegisterCommandSpec(f, x);
    AddNodeSpec(f, x);
  }

  /** `set_dependencies(a, b)` between registered nodes of a shaped flow, `b`
      not the finish command, adds `(a, b)` to the edges outside the finish
      wiring. */
  lemma SetStep(f: Flow, a: Node, b: Node, ids: seq<Job>, links: set<Edge>)
    requires Shaped(f, ids, links)
    requires a.Id() in ids && b.Id() in ids && a.Id() != f.finish && b.Id() != f.finish
    requires (a.Id(), b.Id()) !in links
    ensures SetDependencies(f, a, b).Success?
    ensures Shaped(SetDependencies(f, a, b).value, ids, links + {(a.Id(), b.Id())})
  {
    SetDependenciesSpec(f, a, b);
  }

  /** `set_dependencies(a, b)` where `b` is a fresh node not yet in the
      graph: `b` is added after the other nodes. */
  lemma SetStepAdding(f: Flow, a: Node, b: Node, ids: seq<Job>, links: set<Edge>)
    requires Shaped(f, ids, links)
    requires a.Id() in ids && a.Id() != f.finish
    requires b.Id() !in ids && FreshNode(b)
    ensures SetDependencies(f, a, b).Success?
    ensures Shaped(SetDependencies(f, a, b).value, ids + [b.Id()], links + {(a.Id(), b.Id())})
  {
    SetDependenciesSpec(f, a, b);
    var g := Admit(Admit(f, a), b);
    assert Ids(SetDependencies(f, a, b).value.nodes) == Ids(g.nodes);
  }

  /** `register_command` of each node in turn. */
  function RegisterAll(f: Flow, xs: seq<Node>): (r: Result<Flow>)
    requires WellFormed(f)
    ensures r.Success? ==> WellFormed(r.value)
    ensures r.Success? ==> r.value.self == f.self && r.value.params == f.params && r.value.properties == f.properties
    decreases |xs|
  {
    if |xs| == 0 then Success(f)
    else
      match RegisterCommand(f, xs[0])
      case Failure(e) => Failure(e)
      case Success(g) => RegisterAll(g, xs[1..])
  }

  /** `set_dependencies(a, b)` for each pair in turn. */
  function LinkAll(f: Flow, ps: seq<(Node, Node)>): (r: Result<Flow>)
    requires WellFormed(f)
    ensures r.Success? ==> WellFormed(r.value)
    ensures r.Success? ==> r.value.self == f.self && r.value.params == f.params && r.value.properties == f.properties
    decreases |ps|
  {
    if |ps| == 0 then Success(f)
    else
      match SetDependencies(f, ps[0].0, ps[0].1)
      case Failure(e) => Failure(e)
      case Success(g) => LinkAll(g, ps[1..])
  }

  /** The `set_dependencies` calls `ps` after a step that may have failed. */
  function Then(r: Result<Flow>, ps: seq<(Node, Node)>): (r': Result<Flow>)
    requires r.Success? ==> WellFormed(r.value)
    ensures r'.Success? ==> r.Success? && WellFormed(r'.value)
    ensures r'.Success? ==> r'.value.self == r.value.self && r'.value.params == r.value.params && r'.value.properties == r.value.properties
  {
    var f :- r;
    LinkAll(f, ps)
  }

  /** The edges a sequence of `set_dependencies` calls asks for, in order. */
  function Pairs(ps: seq<(Node, Node)>): (r: seq<Edge>)
    ensures |r| == |ps|
    ensures forall i :: 0 <= i < |ps| ==> r[i] == (ps[i].0.Id(), ps[i].1.Id())
  {
    seq(|ps|, i requires 0 <= i < |ps| => (ps[i].0.Id(), ps[i].1.Id()))
  }

  function PairEdges(ps: seq<(Node, Node)>): set<Edge>
    decreases |ps|
  {
    if |ps| == 0 then {} else {(ps[0].0.Id(), ps[0].1.Id())} + PairEdges(ps[1..])
  }

  /** Registering fresh commands of new identities one after the other
      appends them in order and adds no edge outside the finish wiring. */
  lemma {:induction false} RegisterAllShaped(f: Flow, xs: seq<Node>, ids: seq<Job>, links: set<Edge>)
    requires Shaped(f, ids, links)
    requires FreshCommands(xs)
    requires Seqs.Distinct(ids + Ids(xs))
    ensures RegisterAll(f, xs).Success?
    ensures Shaped(RegisterAll(f, xs).value, ids + Ids(xs), links)
    decreases |xs|
  {
    if |xs| == 0 {
      assert ids + Ids(xs) == ids;
      assert RegisterAll(f, xs) == Success(f);
    } else {
      RegisterAllStep(f, xs, ids, links);
      RegisterAllUnfold(f, xs);
      var g := RegisterCommand(f, xs[0]).value;
      RegisterAllShaped(g, xs[1..], ids + [xs[0].Id()], links);
    }
  }

  /** The first registration of a sequence of fresh commands, and what is
      left to do. */
  lemma RegisterAllStep(f: Flow, xs: seq<Node>, ids: seq<Job>, links: set<Edge>)
    requires Shaped(f, ids, links)
    requires FreshCommands(xs)
    requires Seqs.Distinct(ids + Ids(xs))
    requires |xs| > 0
    ensures RegisterCommand(f, xs[0]).Success?
    ensures var g := RegisterCommand(f, xs[0]).value;
      && Shaped(g, ids + [xs[0].Id()], links)
      && FreshCommands(xs[1..])
      && Seqs.Distinct((ids + [xs[0].Id()]) + Ids(xs[1..]))
      && (ids + [xs[0].Id()]) + Ids(xs[1..]) == ids + Ids(xs)
  {
    var x := xs[0];
    var after := ids + [x.Id()];
    assert x.Id() !in ids && after + Ids(xs[1..]) == ids + Ids(xs) by {
      MoveHead(ids, Ids(xs));
      assert Ids(xs[1..]) == Ids(xs)[1..];
    }
    assert FreshCommands(xs[1..]) by {
      assert forall i :: 0 <= i < |xs| - 1 ==> xs[1..][i] == xs[i + 1];
    }
    RegisterStep(f, x, ids, links);
  }

  lemma RegisterAllUnfold(f: Flow, xs: seq<Node>)
    requires WellFormed(f) && |xs| > 0 && RegisterCommand(f, xs[0]).Success?
    ensures RegisterAll(f, xs) == RegisterAll(RegisterCommand(f, xs[0]).value, xs[1..])
  {
  }

  /** Moving the head of the second part of a duplicate-free concatenation
      to the end of the first. */
  lemma MoveHead<T>(s: seq<T>, t: seq<T>)
    requires Seqs.Distinct(s + t) && |t| > 0
    ensures t[0] !in s
    ensures (s + [t[0]]) + t[1..] == s + t
  {
    var all := s + t;
    assert all[|s|] == t[0];
    forall k | 0 <= k < |s|
      ensures s[k] != t[0]
    {
      assert all[k] == s[k];
    }
  }

  /** A sequence of `set_dependencies` calls between registered nodes other
      than the finish command, each asking for a new edge, adds exactly those
      edges outside the finish wiring. */
  lemma {:induction false} LinkAllShaped(f: Flow, ps: seq<(Node, Node)>, ids: seq<Job>, links: set<Edge>)
    requires Shaped(f, ids, links)
    requires forall e :: e in Pairs(ps) ==> e.0 in ids && e.1 in ids && e.0 != ids[0] && e.1 != ids[0] && e !in links
    requires Seqs.Distinct(Pairs(ps))
    ensures LinkAll(f, ps).Success?
    ensures Shaped(LinkAll(f, ps).value, ids, links + PairEdges(ps))
    decreases |ps|
  {
    if |ps| == 0 {
      assert links + PairEdges(ps) == links;
    } else {
      LinkStep(f, ps, ids, links);
      var g := SetDependencies(f, ps[0].0, ps[0].1).value;
      LinkAllShaped(g, ps[1..], ids, links + {(ps[0].0.Id(), ps[0].1.Id())});
    }
  }

  /** The first link of a sequence of new links, and what is left to do. */
  lemma LinkStep(f: Flow, ps: seq<(Node, Node)>, ids: seq<Job>, links: set<Edge>)
    requires Shaped(f, ids, links)
    requires forall e :: e in Pairs(ps) ==> e.0 in ids && e.1 in ids && e.0 != ids[0] && e.1 != ids[0] && e !in links
    requires Seqs.Distinct(Pairs(ps))
    requires |ps| > 0
    ensures SetDependencies(f, ps[0].0, ps[0].1).Success?
    ensures var g := SetDependencies(f, ps[0].0, ps[0].1).value;
      var e := (ps[0].0.Id(), ps[0].1.Id());
      && Shaped(g, ids, links + {e})
      && (forall d :: d in Pairs(ps[1..]) ==> d.0 in ids && d.1 in ids && d.0 != ids[0] && d.1 != ids[0] && d !in links + {e})
      && Seqs.Distinct(Pairs(ps[1..]))
      && LinkAll(f, ps) == LinkAll(g, ps[1..])
      && links + {e} + PairEdges(ps[1..]) == links + PairEdges(ps)
  {
    PairsTail(ps, ids, links);
    SetStep(f, ps[0].0, ps[0].1, ids, links);
    LinkAllUnfold(f, ps);
  }

  /** What the rest of a sequence of new links asks for once its first link
      is made. */
  lemma PairsTail(ps: seq<(Node, Node)>, ids: seq<Job>, links: set<Edge>)
    requires |ps| > 0 && |ids| > 0
    requires forall e :: e in Pairs(ps) ==> e.0 in ids && e.1 in ids && e.0 != ids[0] && e.1 != ids[0] && e !in links
    requires Seqs.Distinct(Pairs(ps))
    ensures var e := (ps[0].0.Id(), ps[0].1.Id());
      && e.0 in ids && e.1 in ids && e.0 != ids[0] && e.1 != ids[0] && e !in links
      && (forall d :: d in Pairs(ps[1..]) ==> d.0 in ids && d.1 in ids && d.0 != ids[0] && d.1 != ids[0] && d !in links + {e})
      && Seqs.Distinct(Pairs(ps[1..]))
  {
    var es := Pairs(ps);
    assert es[0] in es;
    assert Pairs(ps[1..]) == es[1..];
    Seqs.DistinctTail(es);
  }

  lemma LinkAllUnfold(f: Flow, ps: seq<(Node, Node)>)
    requires WellFormed(f) && |ps| > 0 && SetDependencies(f, ps[0].0, ps[0].1).Success?
    ensures LinkAll(f, ps) == LinkAll(SetDependencies(f, ps[0].0, ps[0].1).value, ps[1..])
  {
  }

  /** `register_command` of each node in turn, after a step that may have
      failed. */
  function Enlist(r: Result<Flow>, xs: seq<Node>): (r': Result<Flow>)
    requires r.Success? ==> WellFormed(r.value)
    ensures r'.Success? ==> r.Success? && WellFormed(r'.value)
    ensures r'.Success? ==> r'.value.self == r.value.self && r'.value.params == r.value.params && r'.value.properties == r.value.properties
  {
    var f :- r;
    RegisterAll(f, xs)
  }

  /** Registering fresh commands of new identities on a flow holding its
      finish command alone. */
  lemma RegisterNew(r: Result<Flow>, fin: Job, xs: seq<Node>, ids: seq<Job>)
    requires Yields(r, [fin], {})
    requires FreshCommands(xs)
    requires ids == [fin] + Ids(xs) && Seqs.Distinct(ids)
    ensures Yields(Enlist(r, xs), ids, {})
  {
    RegisterAllShaped(r.value, xs, [fin], {});
  }

  /** Further `set_dependencies` calls, each asking for a new edge between
      registered nodes other than the finish command, after a shaped
      outcome. */
  lemma LinkMore(r: Result<Flow>, ps: seq<(Node, Node)>, ids: seq<Job>, links: set<Edge>, links': set<Edge>)
    requires Yields(r, ids, links)
    requires forall e :: e in Pairs(ps) ==> e.0 in ids && e.1 in ids && e.0 != ids[0] && e.1 != ids[0] && e !in links
    requires Seqs.Distinct(Pairs(ps))
    requires links + PairEdges(ps) == links'
    ensures Yields(Then(r, ps), ids, links')
  {
    LinkAllShaped(r.value, ps, ids, links);
  }

  /** `set_dependencies(a, b)` after a shaped outcome, where `b` is a fresh
      node not yet in the graph: `b` is added after the other nodes. */
  lemma LinkAdding(r: Result<Flow>, a: Node, b: Node, ids: seq<Job>, links: set<Edge>)
    requires Yields(r, ids, links)
    requires a.Id() in ids && a.Id() != ids[0]
    requires b.Id() !in ids && FreshNode(b)
    ensures Yields(Then(r, [(a, b)]), ids + [b.Id()], links + {(a.Id(), b.Id())})
  {
    var f := r.value;
    SetStepAdding(f, a, b, ids, links);
    LinkAllUnfold(f, [(a, b)]);
    assert [(a, b)][1..] == [];
  }

  /** Running a sequence of `set_dependencies` calls in two parts, one after
      the other, is running the whole sequence. */
  lemma {:induction false} LinkAllAppend(f: Flow, ps: seq<(Node, Node)>, qs: seq<(Node, Node)>)
    requires WellFormed(f)
    ensures LinkAll(f, ps + qs) == Then(LinkAll(f, ps), qs)
    decreases |ps|
  {
    if |ps| == 0 {
      assert ps + qs == qs;
    } else {
      assert (ps + qs)[0] == ps[0];
      assert (ps + qs)[1..] == ps[1..] + qs;
      match SetDependencies(f, ps[0].0, ps[0].1)
      case Failure(_) =>
      case Success(g) => LinkAllAppend(g, ps[1..], qs);
    }
  }

  lemma ThenAppend(r: Result<Flow>, ps: seq<(Node, Node)>, qs: seq<(Node, Node)>)
    requires r.Success? ==> WellFormed(r.value)
    ensures Then(r, ps + qs) == Then(Then(r, ps), qs)
  {
    if r.Success? {
      LinkAllAppend(r.value, ps, qs);
    }
  }

  /** A new flow is shaped: its finish command alone, no edge. */
  lemma NewFlowShaped(self: Job, finishOid: nat, p: Params, props: PropertiesArg)
    requires !props.OtherArg?
    ensures Yields(NewFlow(self, finishOid, p, props), [Job(finishOid, self.name)], {})
  {
    NewFlowEstablishes(self, finishOid, p, props);
  }

  /** What a set of links between nodes says about their ends: `last` is
      the only node other than the finish command `ids[0]` that starts no
      link, and `first` the only one that ends none. */
  predicate EndsOf(ids: seq<Job>, links: set<Edge>, first: Job, last: Job) {
    |ids| > 0 && LinksWithin(ids, links) && OnlyLast(ids, links, last) && OnlyFirst(ids, links, first)
  }

  /** `last` is the only node other than the finish command that starts no
      link. */
  predicate OnlyLast(ids: seq<Job>, links: set<Edge>, last: Job)
    requires |ids| > 0
  {
    && last in ids && last != ids[0]
    && (forall e :: e in links ==> e.0 != last)
    && (forall j :: j in ids && j != ids[0] && j != last ==> exists e :: e in links && e.0 == j)
  }

  /** `first` is the only node other than the finish command that ends no
      link. */
  predicate OnlyFirst(ids: seq<Job>, links: set<Edge>, first: Job)
    requires |ids| > 0
  {
    && first in ids && first != ids[0]
    && (forall e :: e in links ==> e.1 != first)
    && (forall j :: j in ids && j != ids[0] && j != first ==> exists e :: e in links && e.1 == j)
  }

  /** The ends of a shaped outcome, read off its links; its single last node
      is the finish command. */
  lemma YieldsEnds(r: Result<Flow>, ids: seq<Job>, links: set<Edge>, first: Job, last: Job)
    requires Yields(r, ids, links) && EndsOf(ids, links, first, last)
    ensures EndsAt(r, ids[0], first, last)
  {
    var f := r.value;
    ShapedBeforeLast(f, ids, links, last);
    ShapedFirst(f, ids, links, first, last);
    WiredSingleLast(f);
  }

  // ---------------------------------------------------------------- flowA

  /** The body of `create_flowA` after the flow's constructor, on any five
      commands. */
  function BuildDiamond(r: Result<Flow>, n1: Node, n2: Node, n3: Node, n4: Node, n5: Node): (r': Result<Flow>)
    requires r.Success? ==> WellFormed(r.value)
    ensures r'.Success? ==> r.Success? && r'.value.self == r.value.self && r'.value.properties == r.value.properties
  {
    Then(Enlist(r, [n1, n2, n3, n4, n5]), [(n1, n2), (n1, n3), (n2, n4), (n3, n4), (n4, n5)])
  }

  /** Building the diamond on a new flow from five fresh commands of
      distinct identities registers them in order and links them as the
      diamond. */
  lemma BuildDiamondShaped(r: Result<Flow>, fin: Job, n1: Node, n2: Node, n3: Node, n4: Node, n5: Node)
    requires Yields(r, [fin], {})
    requires FreshCommands([n1, n2, n3, n4, n5])
    requires Seqs.Distinct([fin, n1.Id(), n2.Id(), n3.Id(), n4.Id(), n5.Id()])
    ensures Yields(BuildDiamond(r, n1, n2, n3, n4, n5), [fin, n1.Id(), n2.Id(), n3.Id(), n4.Id(), n5.Id()],
                   {(n1.Id(), n2.Id()), (n1.Id(), n3.Id()), (n2.Id(), n4.Id()), (n3.Id(), n4.Id()), (n4.Id(), n5.Id())})
  {
    DiamondIds(fin, n1, n2, n3, n4, n5);
    RegisterNew(r, fin, [n1, n2, n3, n4, n5], [fin, n1.Id(), n2.Id(), n3.Id(), n4.Id(), n5.Id()]);
    DiamondLinked(Enlist(r, [n1, n2, n3, n4, n5]), fin, n1, n2, n3, n4, n5);
  }

  lemma DiamondIds(fin: Job, n1: Node, n2: Node, n3: Node, n4: Node, n5: Node)
    ensures [fin] + Ids([n1, n2, n3, n4, n5]) == [fin, n1.Id(), n2.Id(), n3.Id(), n4.Id(), n5.Id()]
  {
  }

  /** The five `set_dependencies` calls of the diamond on its registered
      commands. */
  lemma DiamondLinked(r: Result<Flow>, fin: Job, n1: Node, n2: Node, n3: Node, n4: Node, n5: Node)
    requires Seqs.Distinct([fin, n1.Id(), n2.Id(), n3.Id(), n4.Id(), n5.Id()])
    requires Yields(r, [fin, n1.Id(), n2.Id(), n3.Id(), n4.Id(), n5.Id()], {})
    ensures Yields(Then(r, [(n1, n2), (n1, n3), (n2, n4), (n3, n4), (n4, n5)]), [fin, n1.Id(), n2.Id(), n3.Id(), n4.Id(), n5.Id()],
                   {(n1.Id(), n2.Id()), (n1.Id(), n3.Id()), (n2.Id(), n4.Id()), (n3.Id(), n4.Id()), (n4.Id(), n5.Id())})
  {
    var ids := [fin, n1.Id(), n2.Id(), n3.Id(), n4.Id(), n5.Id()];
    var ps := [(n1, n2), (n1, n3), (n2, n4), (n3, n4), (n4, n5)];
    DiamondPairs(ps, ids);
    LinkMore(r, ps, ids, {}, {(ids[1], ids[2]), (ids[1], ids[3]), (ids[2], ids[4]), (ids[3], ids[4]), (ids[4], ids[5])});
  }

  /** The five `set_dependencies` calls of the diamond ask for five distinct
      edges between the five commands. */
  lemma DiamondPairs(ps: seq<(Node, Node)>, ids: seq<Job>)
    requires |ids| == 6 && Seqs.Distinct(ids)
    requires |ps| == 5
    requires ps[0].0.Id() == ids[1] && ps[0].1.Id() == ids[2]
    requires ps[1].0.Id() == ids[1] && ps[1].1.Id() == ids[3]
    requires ps[2].0.Id() == ids[2] && ps[2].1.Id() == ids[4]
    requires ps[3].0.Id() == ids[3] && ps[3].1.Id() == ids[4]
    requires ps[4].0.Id() == ids[4] && ps[4].1.Id() == ids[5]
    ensures forall e :: e in Pairs(ps) ==> e.0 in ids && e.1 in ids && e.0 != ids[0] && e.1 != ids[0] && e !in {}
    ensures Seqs.Distinct(Pairs(ps))
    ensures {} + PairEdges(ps) == {(ids[1], ids[2]), (ids[1], ids[3]), (ids[2], ids[4]), (ids[3], ids[4]), (ids[4], ids[5])}
  {
    var es := Pairs(ps);
    assert es == [(ids[1], ids[2]), (ids[1], ids[3]), (ids[2], ids[4]), (ids[3], ids[4]), (ids[4], ids[5])];
    assert ids[1] != ids[0] && ids[2] != ids[0] && ids[3] != ids[0] && ids[4] != ids[0] && ids[5] != ids[0];
    assert ids[1] != ids[2] && ids[2] != ids[3] && ids[3] != ids[4] && ids[4] != ids[5] && ids[1] != ids[3];
    assert PairEdges(ps[4..]) == {(ids[4], ids[5])};
    assert PairEdges(ps[3..]) == {(ids[3], ids[4]), (ids[4], ids[5])};
    assert PairEdges(ps[2..]) == {(ids[2], ids[4]), (ids[3], ids[4]), (ids[4], ids[5])};
    assert PairEdges(ps[1..]) == {(ids[1], ids[3]), (ids[2], ids[4]), (ids[3], ids[4]), (ids[4], ids[5])};
  }

  /** The diamond's links seen from its nodes: every command but the last
      starts a link, every command but the first ends one. */
  lemma DiamondEnds(j0: Job, j1: Job, j2: Job, j3: Job, j4: Job, j5: Job)
    requires Seqs.Distinct([j0, j1, j2, j3, j4, j5])
    ensures EndsOf([j0, j1, j2, j3, j4, j5], {(j1, j2), (j1, j3), (j2, j4), (j3, j4), (j4, j5)}, j1, j5)
  {
    DiamondWithin(j0, j1, j2, j3, j4, j5);
    DiamondLast(j0, j1, j2, j3, j4, j5);
    DiamondFirst(j0, j1, j2, j3, j4, j5);
  }

  lemma DiamondWithin(j0: Job, j1: Job, j2: Job, j3: Job, j4: Job, j5: Job)
    requires Seqs.Distinct([j0, j1, j2, j3, j4, j5])
    ensures LinksWithin([j0, j1, j2, j3, j4, j5], {(j1, j2), (j1, j3), (j2, j4), (j3, j4), (j4, j5)})
  {
    var ids := [j0, j1, j2, j3, j4, j5];
    assert ids[1] != ids[0] && ids[2] != ids[0] && ids[3] != ids[0] && ids[4] != ids[0] && ids[5] != ids[0];
  }

  lemma DiamondLast(j0: Job, j1: Job, j2: Job, j3: Job, j4: Job, j5: Job)
    requires Seqs.Distinct([j0, j1, j2, j3, j4, j5])
    ensures OnlyLast([j0, j1, j2, j3, j4, j5], {(j1, j2), (j1, j3), (j2, j4), (j3, j4), (j4, j5)}, j5)
  {
    var ids := [j0, j1, j2, j3, j4, j5];
    var links := {(j1, j2), (j1, j3), (j2, j4), (j3, j4), (j4, j5)};
    assert ids[5] != ids[0] && ids[5] != ids[1] && ids[5] != ids[2] && ids[5] != ids[3] && ids[5] != ids[4];
    assert (j1, j2) in links && (j2, j4) in links && (j3, j4) in links && (j4, j5) in links;
  }

  lemma DiamondFirst(j0: Job, j1: Job, j2: Job, j3: Job, j4: Job, j5: Job)
    requires Seqs.Distinct([j0, j1, j2, j3, j4, j5])
    ensures OnlyFirst([j0, j1, j2, j3, j4, j5], {(j1, j2), (j1, j3), (j2, j4), (j3, j4), (j4, j5)}, j1)
  {
    var ids := [j0, j1, j2, j3, j4, j5];
    var links := {(j1, j2), (j1, j3), (j2, j4), (j3, j4), (j4, j5)};
    assert ids[1] != ids[0] && ids[1] != ids[2] && ids[1] != ids[3] && ids[1] != ids[4] && ids[1] != ids[5];
    assert (j1, j2) in links && (j1, j3) in links && (j2, j4) in links && (j4, j5) in links;
  }

  /** Building the diamond on a new flow from five fresh commands of distinct
      identities: the finish command's only predecessor is `n5`, `n1` is the
      only node without predecessors, and the finish command is the single
      last node. */
  lemma BuildDiamondShape(r: Result<Flow>, fin: Job, n1: Node, n2: Node, n3: Node, n4: Node, n5: Node)
    requires Yields(r, [fin], {})
    requires FreshCommands([n1, n2, n3, n4, n5])
    requires Seqs.Distinct([fin, n1.Id(), n2.Id(), n3.Id(), n4.Id(), n5.Id()])
    ensures Yields(BuildDiamond(r, n1, n2, n3, n4, n5), [fin, n1.Id(), n2.Id(), n3.Id(), n4.Id(), n5.Id()],
                   {(n1.Id(), n2.Id()), (n1.Id(), n3.Id()), (n2.Id(), n4.Id()), (n3.Id(), n4.Id()), (n4.Id(), n5.Id())})
    ensures EndsAt(BuildDiamond(r, n1, n2, n3, n4, n5), fin, n1.Id(), n5.Id())
  {
    BuildDiamondShaped(r, fin, n1, n2, n3, n4, n5);
    DiamondEnds(fin, n1.Id(), n2.Id(), n3.Id(), n4.Id(), n5.Id());
    YieldsEnds(BuildDiamond(r, n1, n2, n3, n4, n5), [fin, n1.Id(), n2.Id(), n3.Id(), n4.Id(), n5.Id()],
               {(n1.Id(), n2.Id()), (n1.Id(), n3.Id()), (n2.Id(), n4.Id()), (n3.Id(), n4.Id()), (n4.Id(), n5.Id())}, n1.Id(), n5.Id());
  }

  /** The constructor call of `create_flowA`. */
  function FlowA(): (r: Result<Flow>)
    ensures Yields(r, [Job(1, "flowA")], {})
  {
    NewFlowShaped(Job(0, "flowA"), 1, EmptyParams(), NoProperties);
    NewFlow(Job(0, "flowA"), 1, EmptyParams(), NoProperties)
  }

  /** `create_flowA`: a flow named `flowA` and five commands `commA_1` to
      `commA_5` with parameters `p1` to `p5`, then the diamond
      `commA_1 -> {commA_2, commA_3} -> commA_4 -> commA_5`. */
  function CreateFlowA(p1: Params, p2: Params, p3: Params, p4: Params, p5: Params): Result<Flow>
    requires DependenciesKey !in Keys(p1) && DependenciesKey !in Keys(p2) && DependenciesKey !in Keys(p3)
    requires DependenciesKey !in Keys(p4) && DependenciesKey !in Keys(p5)
  {
    BuildDiamond(FlowA(), Cmd(2, "commA_1", p1), Cmd(3, "commA_2", p2), Cmd(4, "commA_3", p3), Cmd(5, "commA_4", p4), Cmd(6, "commA_5", p5))
  }

  /** The five commands of `create_flowA` are fresh and, with the finish
      command, of distinct identities. */
  lemma FlowACommands(p1: Params, p2: Params, p3: Params, p4: Params, p5: Params)
    requires DependenciesKey !in Keys(p1) && DependenciesKey !in Keys(p2) && DependenciesKey !in Keys(p3)
    requires DependenciesKey !in Keys(p4) && DependenciesKey !in Keys(p5)
    ensures FreshCommands([Cmd(2, "commA_1", p1), Cmd(3, "commA_2", p2), Cmd(4, "commA_3", p3), Cmd(5, "commA_4", p4), Cmd(6, "commA_5", p5)])
    ensures Seqs.Distinct([Job(1, "flowA"), Job(2, "commA_1"), Job(3, "commA_2"), Job(4, "commA_3"), Job(5, "commA_4"), Job(6, "commA_5")])
  {
    var ids := [Job(1, "flowA"), Job(2, "commA_1"), Job(3, "commA_2"), Job(4, "commA_3"), Job(5, "commA_4"), Job(6, "commA_5")];
    assert forall i :: 0 <= i < 6 ==> ids[i].oid == i + 1;
  }

  /** After `create_flowA`, whatever the commands' parameters, the flow holds
      the finish command `flowA` and `commA_1` to `commA_5` in that order and
      the diamond's five edges besides the finish wiring; `flowA` has
      `commA_5` as its only predecessor, `commA_1` is the only node without
      predecessors, and `flowA` is the single last node. */
  lemma CreateFlowAShape(p1: Params, p2: Params, p3: Params, p4: Params, p5: Params)
    requires DependenciesKey !in Keys(p1) && DependenciesKey !in Keys(p2) && DependenciesKey !in Keys(p3)
    requires DependenciesKey !in Keys(p4) && DependenciesKey !in Keys(p5)
    ensures Yields(CreateFlowA(p1, p2, p3, p4, p5),
                   [Job(1, "flowA"), Job(2, "commA_1"), Job(3, "commA_2"), Job(4, "commA_3"), Job(5, "commA_4"), Job(6, "commA_5")],
                   {(Job(2, "commA_1"), Job(3, "commA_2")), (Job(2, "commA_1"), Job(4, "commA_3")), (Job(3, "commA_2"), Job(5, "commA_4")),
                    (Job(4, "commA_3"), Job(5, "commA_4")), (Job(5, "commA_4"), Job(6, "commA_5"))})
    ensures EndsAt(CreateFlowA(p1, p2, p3, p4, p5), Job(1, "flowA"), Job(2, "commA_1"), Job(6, "commA_5"))
  {
    FlowACommands(p1, p2, p3, p4, p5);
    BuildDiamondShape(FlowA(), Job(1, "flowA"), Cmd(2, "commA_1", p1), Cmd(3, "commA_2", p2), Cmd(4, "commA_3", p3), Cmd(5, "commA_4", p4), Cmd(6, "commA_5", p5));
  }

  // ---------------------------------------------------------------- flowB

  /** The body of `create_flowBsub` after the flow's constructor, on any
      three commands: `n1 -> {n2, n3}` and `n2 -> n3`. */
  function BuildTriangle(r: Result<Flow>, n1: Node, n2: Node, n3: Node): (r': Result<Flow>)
    requires r.Success? ==> WellFormed(r.value)
    ensures r'.Success? ==> r.Success? && r'.value.self == r.value.self && r'.value.params == r.value.params && r'.value.properties == r.value.properties
  {
    Then(Enlist(r, [n1, n2, n3]), [(n1, n2), (n1, n3), (n2, n3)])
  }

  /** Building the triangle on a new flow from three fresh commands of
      distinct identities registers them in order and links them as the
      triangle. */
  lemma BuildTriangleShaped(r: Result<Flow>, fin: Job, n1: Node, n2: Node, n3: Node)
    requires Yields(r, [fin], {})
    requires FreshCommands([n1, n2, n3])
    requires Seqs.Distinct([fin, n1.Id(), n2.Id(), n3.Id()])
    ensures Yields(BuildTriangle(r, n1, n2, n3), [fin, n1.Id(), n2.Id(), n3.Id()],
                   {(n1.Id(), n2.Id()), (n1.Id(), n3.Id()), (n2.Id(), n3.Id())})
  {
    TriangleIds(fin, n1, n2, n3);
    RegisterNew(r, fin, [n1, n2, n3], [fin, n1.Id(), n2.Id(), n3.Id()]);
    TriangleLinked(Enlist(r, [n1, n2, n3]), fin, n1, n2, n3);
  }

  lemma TriangleIds(fin: Job, n1: Node, n2: Node, n3: Node)
    ensures [fin] + Ids([n1, n2, n3]) == [fin, n1.Id(), n2.Id(), n3.Id()]
  {
  }

  /** The three `set_dependencies` calls of the triangle on its registered
      commands. */
  lemma TriangleLinked(r: Result<Flow>, fin: Job, n1: Node, n2: Node, n3: Node)
    requires Seqs.Distinct([fin, n1.Id(), n2.Id(), n3.Id()])
    requires Yields(r, [fin, n1.Id(), n2.Id(), n3.Id()], {})
    ensures Yields(Then(r, [(n1, n2), (n1, n3), (n2, n3)]), [fin, n1.Id(), n2.Id(), n3.Id()],
                   {(n1.Id(), n2.Id()), (n1.Id(), n3.Id()), (n2.Id(), n3.Id())})
  {
    var ids := [fin, n1.Id(), n2.Id(), n3.Id()];
    var ps := [(n1, n2), (n1, n3), (n2, n3)];
    TrianglePairs(ps, ids);
    LinkMore(r, ps, ids, {}, {(ids[1], ids[2]), (ids[1], ids[3]), (ids[2], ids[3])});
  }

  /** The three `set_dependencies` calls of the triangle ask for three
      distinct edges between its commands. */
  lemma TrianglePairs(ps: seq<(Node, Node)>, ids: seq<Job>)
    requires |ids| == 4 && Seqs.Distinct(ids)
    requires |ps| == 3
    requires ps[0].0.Id() == ids[1] && ps[0].1.Id() == ids[2]
    requires ps[1].0.Id() == ids[1] && ps[1].1.Id() == ids[3]
    requires ps[2].0.Id() == ids[2] && ps[2].1.Id() == ids[3]
    ensures forall e :: e in Pairs(ps) ==> e.0 in ids && e.1 in ids && e.0 != ids[0] && e.1 != ids[0] && e !in {}
    ensures Seqs.Distinct(Pairs(ps))
    ensures {} + PairEdges(ps) == {(ids[1], ids[2]), (ids[1], ids[3]), (ids[2], ids[3])}
  {
    var es := Pairs(ps);
    assert es == [(ids[1], ids[2]), (ids[1], ids[3]), (ids[2], ids[3])];
    assert ids[1] != ids[0] && ids[2] != ids[0] && ids[3] != ids[0];
    assert ids[1] != ids[2] && ids[2] != ids[3] && ids[1] != ids[3];
    assert PairEdges(ps[2..]) == {(ids[2], ids[3])};
    assert PairEdges(ps[1..]) == {(ids[1], ids[3]), (ids[2], ids[3])};
  }

  /** The triangle's links seen from its nodes. */
  lemma TriangleEnds(j0: Job, j1: Job, j2: Job, j3: Job)
    requires Seqs.Distinct([j0, j1, j2, j3])
    ensures EndsOf([j0, j1, j2, j3], {(j1, j2), (j1, j3), (j2, j3)}, j1, j3)
  {
    TriangleWithin(j0, j1, j2, j3);
    TriangleLast(j0, j1, j2, j3);
    TriangleFirst(j0, j1, j2, j3);
  }

  lemma TriangleWithin(j0: Job, j1: Job, j2: Job, j3: Job)
    requires Seqs.Distinct([j0, j1, j2, j3])
    ensures LinksWithin([j0, j1, j2, j3], {(j1, j2), (j1, j3), (j2, j3)})
  {
    var ids := [j0, j1, j2, j3];
    assert ids[1] != ids[0] && ids[2] != ids[0] && ids[3] != ids[0];
  }

  lemma TriangleLast(j0: Job, j1: Job, j2: Job, j3: Job)
    requires Seqs.Distinct([j0, j1, j2, j3])
    ensures OnlyLast([j0, j1, j2, j3], {(j1, j2), (j1, j3), (j2, j3)}, j3)
  {
    var ids := [j0, j1, j2, j3];
    var links := {(j1, j2), (j1, j3), (j2, j3)};
    assert ids[3] != ids[0] && ids[3] != ids[1] && ids[3] != ids[2];
    assert (j1, j2) in links && (j2, j3) in links;
  }

  lemma TriangleFirst(j0: Job, j1: Job, j2: Job, j3: Job)
    requires Seqs.Distinct([j0, j1, j2, j3])
    ensures OnlyFirst([j0, j1, j2, j3], {(j1, j2), (j1, j3), (j2, j3)}, j1)
  {
    var ids := [j0, j1, j2, j3];
    var links := {(j1, j2), (j1, j3), (j2, j3)};
    assert ids[1] != ids[0] && ids[1] != ids[2] && ids[1] != ids[3];
    assert (j1, j2) in links && (j1, j3) in links;
  }

  /** Building the triangle on a new flow: the finish command's only
      predecessor is `n3`, `n1` is the only node without predecessors, and
      the finish command is the single last node. */
  lemma BuildTriangleShape(r: Result<Flow>, fin: Job, n1: Node, n2: Node, n3: Node)
    requires Yields(r, [fin], {})
    requires FreshCommands([n1, n2, n3])
    requires Seqs.Distinct([fin, n1.Id(), n2.Id(), n3.Id()])
    ensures Yields(BuildTriangle(r, n1, n2, n3), [fin, n1.Id(), n2.Id(), n3.Id()],
                   {(n1.Id(), n2.Id()), (n1.Id(), n3.Id()), (n2.Id(), n3.Id())})
    ensures EndsAt(BuildTriangle(r, n1, n2, n3), fin, n1.Id(), n3.Id())
  {
    BuildTriangleShaped(r, fin, n1, n2, n3);
    TriangleEnds(fin, n1.Id(), n2.Id(), n3.Id());
    YieldsEnds(BuildTriangle(r, n1, n2, n3), [fin, n1.Id(), n2.Id(), n3.Id()],
               {(n1.Id(), n2.Id()), (n1.Id(), n3.Id()), (n2.Id(), n3.Id())}, n1.Id(), n3.Id());
  }

  /** The body of `create_flowB` after the flow's constructor, on any three
      commands and a sub-flow node: `n1 -> n2`, then `n1 -> sub` (which
      brings the never registered sub-flow into the graph), then `n2 -> n3`
      and `sub -> n3`. */
  function BuildFlowB(r: Result<Flow>, n1: Node, n2: Node, n3: Node, sub: Node): (r': Result<Flow>)
    requires r.Success? ==> WellFormed(r.value)
    ensures r'.Success? ==> r.Success? && r'.value.self == r.value.self && r'.value.params == r.value.params && r'.value.properties == r.value.properties
  {
    Then(Enlist(r, [n1, n2, n3]), [(n1, n2), (n1, sub), (n2, n3), (sub, n3)])
  }

  /** The first part of `create_flowB`: three commands and `n1 -> n2`. */
  lemma FlowBStart(r: Result<Flow>, fin: Job, n1: Node, n2: Node, n3: Node)
    requires Yields(r, [fin], {})
    requires FreshCommands([n1, n2, n3])
    requires Seqs.Distinct([fin, n1.Id(), n2.Id(), n3.Id()])
    ensures Yields(Then(Enlist(r, [n1, n2, n3]), [(n1, n2)]), [fin, n1.Id(), n2.Id(), n3.Id()], {(n1.Id(), n2.Id())})
  {
    var ids := [fin, n1.Id(), n2.Id(), n3.Id()];
    TriangleIds(fin, n1, n2, n3);
    RegisterNew(r, fin, [n1, n2, n3], ids);
    FlowBFirstPair(n1, n2, ids);
    LinkMore(Enlist(r, [n1, n2, n3]), [(n1, n2)], ids, {}, {(ids[1], ids[2])});
  }

  /** The first `set_dependencies` call of `create_flowB` asks for one new
      edge between two of its commands. */
  lemma FlowBFirstPair(n1: Node, n2: Node, ids: seq<Job>)
    requires |ids| == 4 && Seqs.Distinct(ids)
    requires n1.Id() == ids[1] && n2.Id() == ids[2]
    ensures forall e :: e in Pairs([(n1, n2)]) ==> e.0 in ids && e.1 in ids && e.0 != ids[0] && e.1 != ids[0] && e !in {}
    ensures Seqs.Distinct(Pairs([(n1, n2)]))
    ensures {} + PairEdges([(n1, n2)]) == {(ids[1], ids[2])}
  {
    assert Pairs([(n1, n2)]) == [(ids[1], ids[2])];
    assert ids[1] != ids[0] && ids[2] != ids[0];
  }

  /** `n1 -> sub` on the first part of `create_flowB`: the sub-flow node,
      not yet in the graph, is added after the other nodes. */
  lemma FlowBAdding(r: Result<Flow>, fin: Job, n1: Node, n2: Node, n3: Node, sub: Node)
    requires Seqs.Distinct([fin, n1.Id(), n2.Id(), n3.Id(), sub.Id()]) && FreshNode(sub)
    requires Yields(r, [fin, n1.Id(), n2.Id(), n3.Id()], {(n1.Id(), n2.Id())})
    ensures Yields(Then(r, [(n1, sub)]), [fin, n1.Id(), n2.Id(), n3.Id(), sub.Id()], {(n1.Id(), n2.Id()), (n1.Id(), sub.Id())})
  {
    FlowBSubIds(fin, n1.Id(), n2.Id(), n3.Id(), sub.Id());
    LinkAdding(r, n1, sub, [fin, n1.Id(), n2.Id(), n3.Id()], {(n1.Id(), n2.Id())});
  }

  /** The identities of `flowB`'s nodes once the sub-flow joins them. */
  lemma FlowBSubIds(fin: Job, a: Job, b: Job, c: Job, d: Job)
    requires Seqs.Distinct([fin, a, b, c, d])
    ensures a in [fin, a, b, c] && a != [fin, a, b, c][0] && d !in [fin, a, b, c]
    ensures [fin, a, b, c] + [d] == [fin, a, b, c, d]
    ensures {(a, b)} + {(a, d)} == {(a, b), (a, d)}
  {
    var all := [fin, a, b, c, d];
    assert all[1] != all[0] && all[4] != all[0] && all[4] != all[1] && all[4] != all[2] && all[4] != all[3];
  }

  /** The last two `set_dependencies` calls of `create_flowB`:
      `n2 -> n3` and `sub -> n3`. */
  lemma FlowBEnd(r: Result<Flow>, fin: Job, n1: Node, n2: Node, n3: Node, sub: Node)
    requires Seqs.Distinct([fin, n1.Id(), n2.Id(), n3.Id(), sub.Id()])
    requires Yields(r, [fin, n1.Id(), n2.Id(), n3.Id(), sub.Id()], {(n1.Id(), n2.Id()), (n1.Id(), sub.Id())})
    ensures Yields(Then(r, [(n2, n3), (sub, n3)]), [fin, n1.Id(), n2.Id(), n3.Id(), sub.Id()],
                   {(n1.Id(), n2.Id()), (n1.Id(), sub.Id()), (n2.Id(), n3.Id()), (sub.Id(), n3.Id())})
  {
    var ids := [fin, n1.Id(), n2.Id(), n3.Id(), sub.Id()];
    var ps := [(n2, n3), (sub, n3)];
    FlowBPairs(ps, ids, {(ids[1], ids[2]), (ids[1], ids[4])});
    LinkMore(r, ps, ids, {(ids[1], ids[2]), (ids[1], ids[4])}, {(ids[1], ids[2]), (ids[1], ids[4]), (ids[2], ids[3]), (ids[4], ids[3])});
  }

  /** The last two `set_dependencies` calls of `create_flowB` ask for two new
      edges. */
  lemma FlowBPairs(ps: seq<(Node, Node)>, ids: seq<Job>, l: set<Edge>)
    requires |ids| == 5 && Seqs.Distinct(ids)
    requires |ps| == 2
    requires ps[0].0.Id() == ids[2] && ps[0].1.Id() == ids[3]
    requires ps[1].0.Id() == ids[4] && ps[1].1.Id() == ids[3]
    requires l == {(ids[1], ids[2]), (ids[1], ids[4])}
    ensures forall e :: e in Pairs(ps) ==> e.0 in ids && e.1 in ids && e.0 != ids[0] && e.1 != ids[0] && e !in l
    ensures Seqs.Distinct(Pairs(ps))
    ensures l + PairEdges(ps) == {(ids[1], ids[2]), (ids[1], ids[4]), (ids[2], ids[3]), (ids[4], ids[3])}
  {
    var es := Pairs(ps);
    assert es == [(ids[2], ids[3]), (ids[4], ids[3])];
    assert ids[1] != ids[0] && ids[2] != ids[0] && ids[3] != ids[0] && ids[4] != ids[0];
    assert ids[1] != ids[2] && ids[2] != ids[3] && ids[2] != ids[4] && ids[3] != ids[4] && ids[1] != ids[4];
    assert PairEdges(ps[1..]) == {(ids[4], ids[3])};
  }

  /** Building `flowB` on a new flow registers its three commands, and the
      sub-flow node joins the graph after them through `set_dependencies`
      alone. */
  lemma BuildFlowBShaped(r: Result<Flow>, fin: Job, n1: Node, n2: Node, n3: Node, sub: Node)
    requires Yields(r, [fin], {})
    requires FreshCommands([n1, n2, n3]) && FreshNode(sub)
    requires Seqs.Distinct([fin, n1.Id(), n2.Id(), n3.Id(), sub.Id()])
    ensures Yields(BuildFlowB(r, n1, n2, n3, sub), [fin, n1.Id(), n2.Id(), n3.Id(), sub.Id()],
                   {(n1.Id(), n2.Id()), (n1.Id(), sub.Id()), (n2.Id(), n3.Id()), (sub.Id(), n3.Id())})
  {
    FlowBCommandIds(fin, n1.Id(), n2.Id(), n3.Id(), sub.Id());
    FlowBSplit(Enlist(r, [n1, n2, n3]), n1, n2, n3, sub);
    FlowBStart(r, fin, n1, n2, n3);
    FlowBAdding(Then(Enlist(r, [n1, n2, n3]), [(n1, n2)]), fin, n1, n2, n3, sub);
    FlowBEnd(Then(Then(Enlist(r, [n1, n2, n3]), [(n1, n2)]), [(n1, sub)]), fin, n1, n2, n3, sub);
  }

  /** Leaving the sub-flow's identity out of `flowB`'s distinct identities. */
  lemma FlowBCommandIds(fin: Job, a: Job, b: Job, c: Job, d: Job)
    requires Seqs.Distinct([fin, a, b, c, d])
    ensures Seqs.Distinct([fin, a, b, c])
  {
    var all := [fin, a, b, c, d];
    assert forall i :: 0 <= i < 4 ==> [fin, a, b, c][i] == all[i];
  }

  /** The four `set_dependencies` calls of `create_flowB`, one, one and two
      at a time. */
  lemma FlowBSplit(r: Result<Flow>, n1: Node, n2: Node, n3: Node, sub: Node)
    requires r.Success? ==> WellFormed(r.value)
    ensures Then(r, [(n1, n2), (n1, sub), (n2, n3), (sub, n3)])
         == Then(Then(Then(r, [(n1, n2)]), [(n1, sub)]), [(n2, n3), (sub, n3)])
  {
    assert [(n1, n2), (n1, sub), (n2, n3), (sub, n3)] == [(n1, n2)] + ([(n1, sub)] + [(n2, n3), (sub, n3)]);
    ThenAppend(r, [(n1, n2)], [(n1, sub)] + [(n2, n3), (sub, n3)]);
    ThenAppend(Then(r, [(n1, n2)]), [(n1, sub)], [(n2, n3), (sub, n3)]);
  }

  /** The links of `flowB` seen from its nodes. */
  lemma FlowBEnds(j0: Job, j1: Job, j2: Job, j3: Job, j4: Job)
    requires Seqs.Distinct([j0, j1, j2, j3, j4])
    ensures EndsOf([j0, j1, j2, j3, j4], {(j1, j2), (j1, j4), (j2, j3), (j4, j3)}, j1, j3)
  {
    FlowBWithin(j0, j1, j2, j3, j4);
    FlowBLast(j0, j1, j2, j3, j4);
    FlowBFirst(j0, j1, j2, j3, j4);
  }

  lemma FlowBWithin(j0: Job, j1: Job, j2: Job, j3: Job, j4: Job)
    requires Seqs.Distinct([j0, j1, j2, j3, j4])
    ensures LinksWithin([j0, j1, j2, j3, j4], {(j1, j2), (j1, j4), (j2, j3), (j4, j3)})
  {
    var ids := [j0, j1, j2, j3, j4];
    assert ids[1] != ids[0] && ids[2] != ids[0] && ids[3] != ids[0] && ids[4] != ids[0];
  }

  lemma FlowBLast(j0: Job, j1: Job, j2: Job, j3: Job, j4: Job)
    requires Seqs.Distinct([j0, j1, j2, j3, j4])
    ensures OnlyLast([j0, j1, j2, j3, j4], {(j1, j2), (j1, j4), (j2, j3), (j4, j3)}, j3)
  {
    var ids := [j0, j1, j2, j3, j4];
    var links := {(j1, j2), (j1, j4), (j2, j3), (j4, j3)};
    assert ids[3] != ids[0] && ids[3] != ids[1] && ids[3] != ids[2] && ids[3] != ids[4];
    assert (j1, j2) in links && (j2, j3) in links && (j4, j3) in links;
  }

  lemma FlowBFirst(j0: Job, j1: Job, j2: Job, j3: Job, j4: Job)
    requires Seqs.Distinct([j0, j1, j2, j3, j4])
    ensures OnlyFirst([j0, j1, j2, j3, j4], {(j1, j2), (j1, j4), (j2, j3), (j4, j3)}, j1)
  {
    var ids := [j0, j1, j2, j3, j4];
    var links := {(j1, j2), (j1, j4), (j2, j3), (j4, j3)};
    assert ids[1] != ids[0] && ids[1] != ids[2] && ids[1] != ids[3] && ids[1] != ids[4];
    assert (j1, j2) in links && (j1, j4) in links && (j2, j3) in links;
  }

  /** Building `flowB`: the finish command's only predecessor is `n3`, `n1`
      is the only node without predecessors, and the finish command is the
      single last node. */
  lemma BuildFlowBShape(r: Result<Flow>, fin: Job, n1: Node, n2: Node, n3: Node, sub: Node)
    requires Yields(r, [fin], {})
    requires FreshCommands([n1, n2, n3]) && FreshNode(sub)
    requires Seqs.Distinct([fin, n1.Id(), n2.Id(), n3.Id(), sub.Id()])
    ensures Yields(BuildFlowB(r, n1, n2, n3, sub), [fin, n1.Id(), n2.Id(), n3.Id(), sub.Id()],
                   {(n1.Id(), n2.Id()), (n1.Id(), sub.Id()), (n2.Id(), n3.Id()), (sub.Id(), n3.Id())})
    ensures EndsAt(BuildFlowB(r, n1, n2, n3, sub), fin, n1.Id(), n3.Id())
  {
    BuildFlowBShaped(r, fin, n1, n2, n3, sub);
    FlowBEnds(fin, n1.Id(), n2.Id(), n3.Id(), sub.Id());
    YieldsEnds(BuildFlowB(r, n1, n2, n3, sub), [fin, n1.Id(), n2.Id(), n3.Id(), sub.Id()],
               {(n1.Id(), n2.Id()), (n1.Id(), sub.Id()), (n2.Id(), n3.Id()), (sub.Id(), n3.Id())}, n1.Id(), n3.Id());
  }

  const FlowBsubProperties := Params([Entry("FLOW_NAME", VStr("flowBsub"))])
  const FlowBProperties := Params([Entry("FLOW_NAME", VStr("flowB"))])

  /** The constructor call of `create_flowBsub`. */
  function FlowBsub(): (r: Result<Flow>)
    ensures Yields(r, [Job(11, "flowBsub")], {})
  {
    NewFlowShaped(Job(10, "flowBsub"), 11, EmptyParams(), PropertiesDict(FlowBsubProperties));
    NewFlow(Job(10, "flowBsub"), 11, EmptyParams(), PropertiesDict(FlowBsubProperties))
  }

  /** The flow `flowBsub` as constructed: its identity, its properties dict
      become a Properties named after it, and no dependencies of its own. */
  lemma FlowBsubFacts()
    ensures FlowBsub().Success?
    ensures var f := FlowBsub().value;
      && f.self == Job(10, "flowBsub")
      && f.properties == Some(Properties("flowBsub", FlowBsubProperties))
      && Get(f.params, DependenciesKey) == None
  {
    var f := FlowBsub().value;
    assert Get(f.params, DependenciesKey) == Get(EmptyParams(), DependenciesKey);
  }

  /** `create_flowBsub`: a flow named `flowBsub` with the properties
      `FLOW_NAME=flowBsub` and three commands `commBsub_1` to `commBsub_3`,
      then `commBsub_1 -> {commBsub_2, commBsub_3}` and
      `commBsub_2 -> commBsub_3`. */
  function CreateFlowBsub(q1: Params, q2: Params, q3: Params): (r: Result<Flow>)
    requires DependenciesKey !in Keys(q1) && DependenciesKey !in Keys(q2) && DependenciesKey !in Keys(q3)
  {
    BuildTriangle(FlowBsub(), Cmd(12, "commBsub_1", q1), Cmd(13, "commBsub_2", q2), Cmd(14, "commBsub_3", q3))
  }

  /** The three commands of `create_flowBsub` are fresh and, with the finish
      command, of distinct identities. */
  lemma FlowBsubCommands(q1: Params, q2: Params, q3: Params)
    requires DependenciesKey !in Keys(q1) && DependenciesKey !in Keys(q2) && DependenciesKey !in Keys(q3)
    ensures FreshCommands([Cmd(12, "commBsub_1", q1), Cmd(13, "commBsub_2", q2), Cmd(14, "commBsub_3", q3)])
    ensures Seqs.Distinct([Job(11, "flowBsub"), Job(12, "commBsub_1"), Job(13, "commBsub_2"), Job(14, "commBsub_3")])
  {
    var ids := [Job(11, "flowBsub"), Job(12, "commBsub_1"), Job(13, "commBsub_2"), Job(14, "commBsub_3")];
    assert forall i :: 0 <= i < 4 ==> ids[i].oid == i + 11;
  }

  /** After `create_flowBsub`, the flow holds the finish command `flowBsub`
      and `commBsub_1` to `commBsub_3` in that order and the triangle's three
      edges besides the finish wiring; `flowBsub` has `commBsub_3` as its only
      predecessor, `commBsub_1` is the only node without predecessors, and
      `flowBsub` is the single last node. */
  lemma CreateFlowBsubShape(q1: Params, q2: Params, q3: Params)
    requires DependenciesKey !in Keys(q1) && DependenciesKey !in Keys(q2) && DependenciesKey !in Keys(q3)
    ensures Yields(CreateFlowBsub(q1, q2, q3),
                   [Job(11, "flowBsub"), Job(12, "commBsub_1"), Job(13, "commBsub_2"), Job(14, "commBsub_3")],
                   {(Job(12, "commBsub_1"), Job(13, "commBsub_2")), (Job(12, "commBsub_1"), Job(14, "commBsub_3")),
                    (Job(13, "commBsub_2"), Job(14, "commBsub_3"))})
    ensures EndsAt(CreateFlowBsub(q1, q2, q3), Job(11, "flowBsub"), Job(12, "commBsub_1"), Job(14, "commBsub_3"))
  {
    FlowBsubCommands(q1, q2, q3);
    BuildTriangleShape(FlowBsub(), Job(11, "flowBsub"), Cmd(12, "commBsub_1", q1), Cmd(13, "commBsub_2", q2), Cmd(14, "commBsub_3", q3));
  }

  /** `flowBsub` as a node of another flow: the flow of that identity, whose
      properties dict became a Properties named after it, listing no
      dependencies. */
  lemma CreateFlowBsubNode(q1: Params, q2: Params, q3: Params)
    requires DependenciesKey !in Keys(q1) && DependenciesKey !in Keys(q2) && DependenciesKey !in Keys(q3)
    ensures CreateFlowBsub(q1, q2, q3).Success?
    ensures var f := CreateFlowBsub(q1, q2, q3).value;
      && AsNode(f).Id() == Job(10, "flowBsub")
      && f.properties == Some(Properties("flowBsub", FlowBsubProperties))
      && FreshNode(AsNode(f))
  {
    CreateFlowBsubShape(q1, q2, q3);
    FlowBsubFacts();
  }

  /** The constructor call of `create_flowB`. */
  function FlowB(): (r: Result<Flow>)
    ensures Yields(r, [Job(21, "flowB")], {})
  {
    NewFlowShaped(Job(20, "flowB"), 21, EmptyParams(), PropertiesDict(FlowBProperties));
    NewFlow(Job(20, "flowB"), 21, EmptyParams(), PropertiesDict(FlowBProperties))
  }

  /** `create_flowB`: the sub-flow, then a flow named `flowB` with the
      properties `FLOW_NAME=flowB` and three commands `commB_1` to `commB_3`,
      then `commB_1 -> commB_2`, `commB_1 -> flowBsub`,
      `commB_2 -> commB_3` and `flowBsub -> commB_3`; the sub-flow is never
      registered. */
  function CreateFlowB(q1: Params, q2: Params, q3: Params, p1: Params, p2: Params, p3: Params): Result<Flow>
    requires DependenciesKey !in Keys(q1) && DependenciesKey !in Keys(q2) && DependenciesKey !in Keys(q3)
    requires DependenciesKey !in Keys(p1) && DependenciesKey !in Keys(p2) && DependenciesKey !in Keys(p3)
  {
    var sub :- CreateFlowBsub(q1, q2, q3);
    BuildFlowB(FlowB(), Cmd(22, "commB_1", p1), Cmd(23, "commB_2", p2), Cmd(24, "commB_3", p3), AsNode(sub))
  }

  /** The three commands of `create_flowB` are fresh and, with the finish
      command and the sub-flow, of distinct identities. */
  lemma FlowBCommands(p1: Params, p2: Params, p3: Params)
    requires DependenciesKey !in Keys(p1) && DependenciesKey !in Keys(p2) && DependenciesKey !in Keys(p3)
    ensures FreshCommands([Cmd(22, "commB_1", p1), Cmd(23, "commB_2", p2), Cmd(24, "commB_3", p3)])
    ensures Seqs.Distinct([Job(21, "flowB"), Job(22, "commB_1"), Job(23, "commB_2"), Job(24, "commB_3"), Job(10, "flowBsub")])
  {
    var ids := [Job(21, "flowB"), Job(22, "commB_1"), Job(23, "commB_2"), Job(24, "commB_3"), Job(10, "flowBsub")];
    assert forall i :: 0 <= i < 5 ==> ids[i].oid == [21, 22, 23, 24, 10][i];
  }

  /** `create_flowB` is the body of `flowB` on the sub-flow's outcome. */
  lemma CreateFlowBIs(q1: Params, q2: Params, q3: Params, p1: Params, p2: Params, p3: Params)
    requires DependenciesKey !in Keys(q1) && DependenciesKey !in Keys(q2) && DependenciesKey !in Keys(q3)
    requires DependenciesKey !in Keys(p1) && DependenciesKey !in Keys(p2) && DependenciesKey !in Keys(p3)
    requires CreateFlowBsub(q1, q2, q3).Success?
    ensures CreateFlowB(q1, q2, q3, p1, p2, p3)
         == BuildFlowB(FlowB(), Cmd(22, "commB_1", p1), Cmd(23, "commB_2", p2), Cmd(24, "commB_3", p3), AsNode(CreateFlowBsub(q1, q2, q3).value))
  {
  }

  /** After `create_flowB`, the sub-flow is a node of `flowB`, after the
      three commands, although only `set_dependencies` ever named it; the
      edges besides the finish wiring are the four the script asks for;
      the finish command `flowB` has `commB_3` as its only predecessor,
      `commB_1` is the only node without predecessors, and `flowB` is the
      single last node. */
  lemma CreateFlowBShape(q1: Params, q2: Params, q3: Params, p1: Params, p2: Params, p3: Params)
    requires DependenciesKey !in Keys(q1) && DependenciesKey !in Keys(q2) && DependenciesKey !in Keys(q3)
    requires DependenciesKey !in Keys(p1) && DependenciesKey !in Keys(p2) && DependenciesKey !in Keys(p3)
    ensures Yields(CreateFlowB(q1, q2, q3, p1, p2, p3),
                   [Job(21, "flowB"), Job(22, "commB_1"), Job(23, "commB_2"), Job(24, "commB_3"), Job(10, "flowBsub")],
                   {(Job(22, "commB_1"), Job(23, "commB_2")), (Job(22, "commB_1"), Job(10, "flowBsub")),
                    (Job(23, "commB_2"), Job(24, "commB_3")), (Job(10, "flowBsub"), Job(24, "commB_3"))})
    ensures EndsAt(CreateFlowB(q1, q2, q3, p1, p2, p3), Job(21, "flowB"), Job(22, "commB_1"), Job(24, "commB_3"))
  {
    CreateFlowBsubNode(q1, q2, q3);
    CreateFlowBIs(q1, q2, q3, p1, p2, p3);
    FlowBCommands(p1, p2, p3);
    BuildFlowBShape(FlowB(), Job(21, "flowB"), Cmd(22, "commB_1", p1), Cmd(23, "commB_2", p2), Cmd(24, "commB_3", p3),
                    AsNode(CreateFlowBsub(q1, q2, q3).value));
  }

  // ---------------------------------------------------------------- the project

  /** The project of the batch script (there named `test_new_upload_script`,
      with the properties dict `PROJECT_NAME=test_new_upload_script`), with
      its two flows added. */
  function BuildProject(name: string, description: string, props: Params, fa: Flow, fb: Flow): Result<Project> {
    match NewProject(name, description, PropertiesDict(props))
    case Failure(e) => Failure(e)
    case Success(p0) =>
      match AddFlow(p0, AsNode(fa))
      case Failure(e) => Failure(e)
      case Success(p1) => AddFlow(p1, AsNode(fb))
  }

  /** Two flows of different identities make a project of two flows, whose
      archive is named after the project and whose properties dict became a
      Properties named after it. */
  lemma BuildProjectSpec(name: string, description: string, props: Params, fa: Flow, fb: Flow)
    requires fa.self != fb.self
    ensures BuildProject(name, description, props, fa, fb).Success?
    ensures var p := BuildProject(name, description, props, fa, fb).value;
      && Archive.Len(p) == 2
      && (forall j :: Contains(p, j) <==> j == fa.self || j == fb.self)
      && fa in p.flows && fb in p.flows
      && p.properties == Some(Properties(name, props))
      && ProjectFileName(p) == name + ".zip"
  {
    var p0 := NewProject(name, description, PropertiesDict(props)).value;
    assert Archive.Len(p0) == 0;
    var p1 := AddFlow(p0, AsNode(fa)).value;
    assert !Contains(p1, fb.self);
    var p2 := AddFlow(p1, AsNode(fb)).value;
    assert fa in p2.flows by {
      var k :| 0 <= k < |p1.flows| && p1.flows[k] == fa;
      assert p1.flows[k].self == fa.self;
    }
  }

  // ---------------------------------------------------------------- queries on a shaped flow

  /** Every link joins two registered nodes other than the finish command. */
  predicate LinksWithin(ids: seq<Job>, links: set<Edge>)
    requires |ids| > 0
  {
    forall e :: e in links ==> e.0 in ids && e.1 in ids && e.0 != ids[0] && e.1 != ids[0]
  }

  /** In a shaped flow, `jobs_before_last` is `[x]` when `x` is the only
      node other than the finish command that starts no link. */
  lemma ShapedBeforeLast(f: Flow, ids: seq<Job>, links: set<Edge>, x: Job)
    requires Shaped(f, ids, links) && LinksWithin(ids, links)
    requires x in ids && x != ids[0]
    requires forall e :: e in links ==> e.0 != x
    requires forall j :: j in ids && j != ids[0] && j != x ==> exists e :: e in links && e.0 == j
    ensures JobsBeforeLast(f) == [x]
  {
    var fin := ids[0];
    forall e | e in links
      ensures e in f.edges && e.1 != fin
    {
    }
    forall i | 0 <= i < |ids| && (ids[i], fin) in f.edges
      ensures ids[i] == x
    {
      assert ids[i] != fin by {
        assert !HasSucc(f.edges, fin);
      }
      assert !HasOtherSucc(f.edges, ids[i], fin);
    }
    assert !HasOtherSucc(f.edges, x, fin);
    Seqs.FilterSingle(ids, j => (j, f.finish) in f.edges, x);
  }

  /** In a shaped flow, `first_jobs` is `[x]` when `x` is the only node other
      than the finish command that ends no link, and some node `y` other than
      the finish command starts none (so the finish command has a
      predecessor). */
  lemma ShapedFirst(f: Flow, ids: seq<Job>, links: set<Edge>, x: Job, y: Job)
    requires Shaped(f, ids, links) && LinksWithin(ids, links)
    requires x in ids && x != ids[0]
    requires forall e :: e in links ==> e.1 != x
    requires forall j :: j in ids && j != ids[0] && j != x ==> exists e :: e in links && e.1 == j
    requires y in ids && y != ids[0]
    requires forall e :: e in links ==> e.0 != y
    ensures FirstJobs(f) == [x]
  {
    var fin := ids[0];
    forall e | e in links
      ensures e in f.edges && e.1 != fin
    {
    }
    assert !HasOtherSucc(f.edges, y, fin);
    assert HasPred(f.edges, fin) by {
      assert (y, fin) in f.edges;
    }
    forall j | j in ids && j != fin && j != x
      ensures HasPred(f.edges, j)
    {
      var e :| e in links && e.1 == j;
      assert e in f.edges;
    }
    assert !HasPred(f.edges, x);
    Seqs.FilterSingle(ids, j => !HasPred(f.edges, j), x);
  }
}
