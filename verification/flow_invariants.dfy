/**
 * What the flow graph engine maintains:
 *  - consistency: every node's `dependencies` list holds, as a multiset, the
 *    basenames of exactly its graph predecessors;
 *  - the finish wiring: after any registration or `set_dependencies`, the
 *    predecessors of the finish command are exactly the other nodes with no
 *    other successor, so the finish command is the single last node.
 */
module FlowInvariants {
  import opened Errors
  import opened Seqs
  import opened Parameters
  import opened AzkabanFile
  import opened Flows

  // ---------------------------------------------------------------- predecessor bags

  /** The basenames of the nodes of `ns` that have an edge into `n`. */
  function PredBag(ns: seq<Node>, edges: set<Edge>, n: Job): multiset<Atom> {
    if |ns| == 0 then multiset{}
    else
      (if (ns[0].Id(), n) in edges then multiset{AStr(ns[0].Basename())} else multiset{})
      + PredBag(ns[1..], edges, n)
  }

  /** The dependency list of the node at position `i` matches its
      predecessors in `f`. */
  predicate ConsistentAt(f: Flow, i: nat)
    requires i < |f.nodes|
  {
    && DepsShaped(f.nodes[i].params)
    && multiset(DepAtoms(f.nodes[i].params)) == PredBag(f.nodes, f.edges, f.nodes[i].Id())
  }

  /** The graph and the `dependencies` parameters record the same edges. */
  predicate Consistent(f: Flow) {
    forall i :: 0 <= i < |f.nodes| ==> ConsistentAt(f, i)
  }

  /** Some edge leaves `j` towards a node other than `finish`. */
  predicate HasOtherSucc(edges: set<Edge>, j: Job, finish: Job) {
    exists e :: e in edges && e.0 == j && e.1 != finish
  }

  /** The finish command follows exactly the nodes with no other successor. */
  predicate FinishWired(f: Flow) {
    forall j :: j in Ids(f.nodes) && j != f.finish ==> ((j, f.finish) in f.edges <==> !HasOtherSucc(f.edges, j, f.finish))
  }

  /** What every reachable flow state satisfies, removals included. */
  predicate Invariant(f: Flow) {
    && WellFormed(f)
    && Consistent(f)
    && !HasSucc(f.edges, f.finish)
  }

  lemma {:induction false} PredBagCongruent(ns: seq<Node>, ms: seq<Node>, e1: set<Edge>, e2: set<Edge>, n: Job)
    requires |ns| == |ms|
    requires forall i :: 0 <= i < |ns| ==> ms[i].Id() == ns[i].Id() && ms[i].Basename() == ns[i].Basename()
    requires forall i :: 0 <= i < |ns| ==> ((ns[i].Id(), n) in e1 <==> (ns[i].Id(), n) in e2)
    ensures PredBag(ns, e1, n) == PredBag(ms, e2, n)
  {
    if |ns| > 0 {
      PredBagCongruent(ns[1..], ms[1..], e1, e2, n);
    }
  }

  lemma SameJobsPredBag(f: Flow, g: Flow, n: Job)
    requires SameJobs(f, g)
    requires forall m :: (m, n) in f.edges <==> (m, n) in g.edges
    ensures PredBag(f.nodes, f.edges, n) == PredBag(g.nodes, g.edges, n)
  {
    PredBagCongruent(f.nodes, g.nodes, f.edges, g.edges, n);
  }

  /** Adding the edge `(a, b)` adds `a`'s basename to `b`'s predecessor bag. */
  lemma {:induction false} PredBagAddEdge(ns: seq<Node>, edges: set<Edge>, a: Job, b: Job)
    requires Distinct(Ids(ns))
    requires a in Ids(ns)
    requires (a, b) !in edges
    ensures PredBag(ns, edges + {(a, b)}, b) == PredBag(ns, edges, b) + multiset{AStr(Find(ns, a).Basename())}
  {
    var tail := ns[1..];
    assert Ids(tail) == Ids(ns)[1..];
    if ns[0].Id() == a {
      assert a !in Ids(tail);
      PredBagCongruent(tail, tail, edges + {(a, b)}, edges, b);
    } else {
      assert a in Ids(tail);
      assert IndexOf(ns, a) == 1 + IndexOf(tail, a);
      PredBagAddEdge(tail, edges, a, b);
    }
  }

  /** A node that is in no edge of `edges` appended to the nodes leaves every
      predecessor bag as it was. */
  lemma {:induction false} PredBagAppend(ns: seq<Node>, x: Node, edges: set<Edge>, n: Job)
    requires (x.Id(), n) !in edges
    ensures PredBag(ns + [x], edges, n) == PredBag(ns, edges, n)
  {
    if |ns| == 0 {
      assert PredBag([x], edges, n) == PredBag([x][1..], edges, n);
    } else {
      assert (ns + [x])[1..] == ns[1..] + [x];
      PredBagAppend(ns[1..], x, edges, n);
    }
  }

  /** No edge into `n` means an empty predecessor bag. */
  lemma {:induction false} PredBagEmpty(ns: seq<Node>, edges: set<Edge>, n: Job)
    requires forall i :: 0 <= i < |ns| ==> (ns[i].Id(), n) !in edges
    ensures PredBag(ns, edges, n) == multiset{}
  {
    if |ns| > 0 {
      PredBagEmpty(ns[1..], edges, n);
    }
  }

  // ---------------------------------------------------------------- single edges

  /** Adding or removing the single edge `(a, b)`, together with a change to
      the parameters of `b` alone, keeps a flow consistent once `b` itself is
      consistent. */
  lemma ConsistentExceptAt(f: Flow, g: Flow, a: Job, b: Job)
    requires WellFormed(f) && Consistent(f) && SameJobs(f, g) && Untouched(f, g, b)
    requires g.edges == f.edges - {(a, b)} || g.edges == f.edges + {(a, b)}
    requires b in Ids(f.nodes) && ConsistentAt(g, IndexOf(f.nodes, b))
    ensures Consistent(g)
  {
    forall i | 0 <= i < |g.nodes|
      ensures ConsistentAt(g, i)
    {
      var n := f.nodes[i].Id();
      assert Ids(g.nodes)[i] == n;
      if n != b {
        assert ConsistentAt(f, i);
        assert forall m :: (m, n) in f.edges <==> (m, n) in g.edges;
        SameJobsPredBag(f, g, n);
      }
    }
  }

  /** `__set_dependencies` on a new edge keeps the graph and the dependency
      lists in step. */
  lemma AttachConsistent(f: Flow, a: Job, b: Job)
    requires WellFormed(f) && Consistent(f)
    requires a in Ids(f.nodes) && b in Ids(f.nodes)
    requires (a, b) !in f.edges
    ensures AttachEdge(f, a, b).Success?
    ensures Consistent(AttachEdge(f, a, b).value)
  {
    var ib := IndexOf(f.nodes, b);
    assert ConsistentAt(f, ib);
    var g := AttachEdge(f, a, b).value;
    PredBagAddEdge(f.nodes, f.edges, a, b);
    SameJobsPredBag(f.(edges := f.edges + {(a, b)}), g, b);
    assert ConsistentAt(g, ib);
    ConsistentExceptAt(f, g, a, b);
  }

  /** The predecessor bag of `b` holds `a`'s basename once more than it
      does without the edge `(a, b)`. */
  lemma PredBagRemoveEdge(f: Flow, a: Job, b: Job)
    requires WellFormed(f)
    requires a in Ids(f.nodes) && (a, b) in f.edges
    ensures PredBag(f.nodes, f.edges, b) == PredBag(f.nodes, f.edges - {(a, b)}, b) + multiset{AStr(Find(f.nodes, a).Basename())}
  {
    var smaller := f.edges - {(a, b)};
    assert f.edges == smaller + {(a, b)};
    PredBagAddEdge(f.nodes, smaller, a, b);
  }

  /** Detaching an existing edge `(a, b)` succeeds when `b` is consistent:
      `a`'s basename is then among `b`'s dependencies. */
  lemma DetachSucceeds(f: Flow, a: Job, b: Job)
    requires WellFormed(f)
    requires a in Ids(f.nodes) && b in Ids(f.nodes)
    requires (a, b) in f.edges
    requires ConsistentAt(f, IndexOf(f.nodes, b))
    ensures DetachEdge(f, a, b).Success?
  {
    var p := Find(f.nodes, b).params;
    var bn := AStr(Find(f.nodes, a).Basename());
    PredBagRemoveEdge(f, a, b);
    assert bn in multiset(DepAtoms(p));
  }

  /** Detaching an existing edge `(a, b)` succeeds and leaves `b` consistent. */
  lemma DetachTarget(f: Flow, a: Job, b: Job)
    requires WellFormed(f)
    requires a in Ids(f.nodes) && b in Ids(f.nodes)
    requires (a, b) in f.edges
    requires ConsistentAt(f, IndexOf(f.nodes, b))
    ensures DetachEdge(f, a, b).Success?
    ensures ConsistentAt(DetachEdge(f, a, b).value, IndexOf(f.nodes, b))
  {
    DetachSucceeds(f, a, b);
    PredBagRemoveEdge(f, a, b);
    var g := DetachEdge(f, a, b).value;
    SameJobsIndex(f, g, b);
    SameJobsPredBag(f.(edges := f.edges - {(a, b)}), g, b);
  }

  /** `__remove_dependencies` on an existing edge keeps the graph and the
      dependency lists in step. */
  lemma DetachConsistent(f: Flow, a: Job, b: Job)
    requires WellFormed(f) && Consistent(f)
    requires a in Ids(f.nodes) && b in Ids(f.nodes)
    requires (a, b) in f.edges
    ensures DetachEdge(f, a, b).Success?
    ensures Consistent(DetachEdge(f, a, b).value)
  {
    assert ConsistentAt(f, IndexOf(f.nodes, b));
    DetachTarget(f, a, b);
    ConsistentExceptAt(f, DetachEdge(f, a, b).value, a, b);
  }

  // ---------------------------------------------------------------- the two loops

  /** One turn of the first loop: the flow stays well formed and consistent,
      and the rest of the loop continues from it. */
  lemma UnwireStep(f: Flow, js: seq<Job>)
    requires WellFormed(f) && Consistent(f)
    requires |js| > 0 && Distinct(js)
    requires forall i :: 0 <= i < |js| ==> js[i] in Ids(f.nodes) && (js[i], f.finish) in f.edges
    ensures UnwireOne(f, js[0]).Success?
    ensures var g := UnwireOne(f, js[0]).value;
      && WellFormed(g) && Consistent(g) && Distinct(js[1..])
      && (forall i :: 0 <= i < |js[1..]| ==> js[1..][i] in Ids(g.nodes) && (js[1..][i], g.finish) in g.edges)
      && UnwireAll(f, js) == UnwireAll(g, js[1..])
  {
    DetachConsistent(f, js[0], f.finish);
    DistinctTail(js);
    var g := UnwireOne(f, js[0]).value;
    var rest := js[1..];
    forall i | 0 <= i < |rest|
      ensures rest[i] in Ids(g.nodes) && (rest[i], g.finish) in g.edges
    {
      assert rest[i] == js[i + 1];
    }
  }

  lemma {:induction false} UnwireAllConsistent(f: Flow, js: seq<Job>)
    requires WellFormed(f) && Consistent(f)
    requires Distinct(js)
    requires forall i :: 0 <= i < |js| ==> js[i] in Ids(f.nodes) && (js[i], f.finish) in f.edges
    ensures UnwireAll(f, js).Success?
    ensures Consistent(UnwireAll(f, js).value)
    decreases |js|
  {
    if |js| > 0 {
      UnwireStep(f, js);
      UnwireAllConsistent(UnwireOne(f, js[0]).value, js[1..]);
    }
  }

  /** One turn of the second loop, as for the first. */
  lemma WireStep(f: Flow, js: seq<Job>)
    requires WellFormed(f) && Consistent(f)
    requires |js| > 0 && Distinct(js)
    requires forall i :: 0 <= i < |js| ==> js[i] in Ids(f.nodes) && (js[i], f.finish) !in f.edges
    ensures WireOne(f, js[0]).Success?
    ensures var g := WireOne(f, js[0]).value;
      && WellFormed(g) && Consistent(g) && Distinct(js[1..])
      && (forall i :: 0 <= i < |js[1..]| ==> js[1..][i] in Ids(g.nodes) && (js[1..][i], g.finish) !in g.edges)
      && WireAll(f, js) == WireAll(g, js[1..])
  {
    if js[0] != f.finish {
      AttachConsistent(f, js[0], f.finish);
    }
    DistinctTail(js);
    var g := WireOne(f, js[0]).value;
    var rest := js[1..];
    forall i | 0 <= i < |rest|
      ensures rest[i] in Ids(g.nodes) && (rest[i], g.finish) !in g.edges
    {
      assert rest[i] == js[i + 1];
    }
  }

  lemma {:induction false} WireAllConsistent(f: Flow, js: seq<Job>)
    requires WellFormed(f) && Consistent(f)
    requires Distinct(js)
    requires forall i :: 0 <= i < |js| ==> js[i] in Ids(f.nodes) && (js[i], f.finish) !in f.edges
    ensures WireAll(f, js).Success?
    ensures Consistent(WireAll(f, js).value)
    decreases |js|
  {
    if |js| > 0 {
      WireStep(f, js);
      WireAllConsistent(WireOne(f, js[0]).value, js[1..]);
    }
  }

  // ---------------------------------------------------------------- arrangement

  /** The flow between the two loops of `__arrange_finish_command`. */
  function Unwired(f: Flow): (g: Flow)
    requires WellFormed(f) && Consistent(f)
    ensures UnwireAll(f, JobsBeforeLast(f)) == Success(g)
    ensures SameJobs(f, g) && WellFormed(g) && Consistent(g)
    ensures forall e :: e in g.edges <==> e in f.edges && e.1 != f.finish
  {
    var before := JobsBeforeLast(f);
    QueriesSpec(f);
    UnwireAllConsistent(f, before);
    UnwireAll(f, before).value
  }

  /** `__arrange_finish_command` succeeds on a consistent flow and keeps it
      consistent. */
  lemma ArrangeConsistent(f: Flow)
    requires WellFormed(f) && Consistent(f)
    ensures ArrangeFinish(f).Success?
    ensures ArrangeFinish(f).value == WireAll(Unwired(f), LastNodes(Unwired(f))).value
    ensures Consistent(ArrangeFinish(f).value)
  {
    var g := Unwired(f);
    QueriesSpec(g);
    WireAllConsistent(g, LastNodes(g));
    assert ArrangeFinish(f) == WireAll(g, LastNodes(g));
  }

  /** A node has a successor once the edges into the finish command are gone
      exactly when it had a successor other than the finish command. */
  lemma UnwiredSucc(f: Flow, j: Job)
    requires WellFormed(f) && Consistent(f)
    ensures HasSucc(Unwired(f).edges, j) <==> HasOtherSucc(f.edges, j, f.finish)
  {
    var g := Unwired(f);
    if HasOtherSucc(f.edges, j, f.finish) {
      var e :| e in f.edges && e.0 == j && e.1 != f.finish;
      assert e in g.edges;
    }
  }

  /** `__arrange_finish_command` leaves every edge not into the finish command
      alone, and puts the finish command after exactly the other nodes that
      have no successor besides it. */
  lemma ArrangeSpec(f: Flow)
    requires WellFormed(f) && Consistent(f)
    ensures ArrangeFinish(f).Success?
    ensures Consistent(ArrangeFinish(f).value)
    ensures forall e :: e in ArrangeFinish(f).value.edges <==>
              || (e in f.edges && e.1 != f.finish)
              || (e.1 == f.finish && e.0 in Ids(f.nodes) && e.0 != f.finish && !HasOtherSucc(f.edges, e.0, f.finish))
  {
    ArrangeConsistent(f);
    var g := Unwired(f);
    QueriesSpec(g);
    forall j
      ensures j in LastNodes(g) <==> j in Ids(f.nodes) && !HasOtherSucc(f.edges, j, f.finish)
    {
      UnwiredSucc(f, j);
    }
  }

  /** After the arrangement the finish command's predecessors are exactly
      the other nodes with no other successor; if no edge leaves the finish
      command, it is then the one and only last node. */
  lemma ArrangeWiresFinish(f: Flow)
    requires WellFormed(f) && Consistent(f)
    ensures ArrangeFinish(f).Success?
    ensures FinishWired(ArrangeFinish(f).value)
    ensures !HasSucc(f.edges, f.finish) ==> !HasSucc(ArrangeFinish(f).value.edges, f.finish)
    ensures !HasSucc(f.edges, f.finish) ==> LastNodes(ArrangeFinish(f).value) == [f.finish]
  {
    ArrangeSpec(f);
    var h := ArrangeFinish(f).value;
    var ids := Ids(f.nodes);
    assert Ids(h.nodes) == ids && h.finish == f.finish;
    forall j | j in ids && j != f.finish
      ensures (j, f.finish) in h.edges <==> !HasOtherSucc(h.edges, j, f.finish)
      ensures HasSucc(h.edges, j)
    {
      if HasOtherSucc(f.edges, j, f.finish) {
        var e :| e in f.edges && e.0 == j && e.1 != f.finish;
        assert e in h.edges;
      }
      if HasOtherSucc(h.edges, j, f.finish) {
        var e :| e in h.edges && e.0 == j && e.1 != f.finish;
        assert e in f.edges;
      } else {
        assert (j, f.finish) in h.edges;
      }
    }
    if !HasSucc(f.edges, f.finish) {
      assert !HasSucc(h.edges, f.finish) by {
        forall e | e in h.edges
          ensures e.0 != f.finish
        {
          if e in f.edges && e.1 != f.finish {
            assert e.0 != f.finish;
          }
        }
      }
      FilterSingle(ids, j => !HasSucc(h.edges, j), f.finish);
    }
  }

  /** Whenever the finish command is wired and has no successor, it is the
      single last node. */
  lemma WiredSingleLast(f: Flow)
    requires WellFormed(f) && !HasSucc(f.edges, f.finish) && FinishWired(f)
    ensures LastNodes(f) == [f.finish]
  {
    var ids := Ids(f.nodes);
    forall j | j in ids && j != f.finish
      ensures HasSucc(f.edges, j)
    {
      if HasOtherSucc(f.edges, j, f.finish) {
        var e :| e in f.edges && e.0 == j && e.1 != f.finish;
      } else {
        assert (j, f.finish) in f.edges;
      }
    }
    FilterSingle(ids, j => !HasSucc(f.edges, j), f.finish);
  }

  // ---------------------------------------------------------------- operations

  /** A node about to enter a graph: its `dependencies` entry is absent or an
      empty list, as it has no predecessor yet. */
  predicate FreshNode(x: Node) {
    DepsShaped(x.params) && DepAtoms(x.params) == []
  }

  /** Adding a fresh node keeps a flow consistent. */
  lemma AdmitConsistent(f: Flow, x: Node)
    requires WellFormed(f) && Consistent(f)
    requires x.Id() !in Ids(f.nodes) ==> FreshNode(x)
    ensures Consistent(Admit(f, x))
  {
    var g := Admit(f, x);
    if x.Id() !in Ids(f.nodes) {
      var n := |f.nodes|;
      assert g.nodes == f.nodes + [x] by {
        assert g.nodes == g.nodes[..n] + [g.nodes[n]];
      }
      forall i | 0 <= i < |g.nodes|
        ensures ConsistentAt(g, i)
      {
        if i < n {
          assert ConsistentAt(f, i);
          assert (x.Id(), f.nodes[i].Id()) !in f.edges;
          PredBagAppend(f.nodes, x, f.edges, f.nodes[i].Id());
        } else {
          assert (x.Id(), x.Id()) !in f.edges;
          PredBagAppend(f.nodes, x, f.edges, x.Id());
          PredBagEmpty(f.nodes, f.edges, x.Id());
        }
      }
    }
  }

  /** `Connect` is the arrangement of the flow with the edge attached. */
  lemma ConnectUnfold(f: Flow, a: Job, b: Job)
    requires WellFormed(f) && Consistent(f)
    requires a in Ids(f.nodes) && b in Ids(f.nodes)
    requires (a, b) !in f.edges
    ensures AttachEdge(f, a, b).Success? && Consistent(AttachEdge(f, a, b).value)
    ensures ArrangeFinish(AttachEdge(f, a, b).value).Success?
    ensures Connect(f, a, b) == ArrangeFinish(AttachEdge(f, a, b).value)
  {
    AttachConsistent(f, a, b);
    ArrangeConsistent(AttachEdge(f, a, b).value);
  }

  /** With no edge out of the finish command and `a` not the finish command,
      none leaves it after attaching `(a, b)` either. */
  lemma AttachKeepsFinishLast(f: Flow, a: Job, b: Job)
    requires WellFormed(f) && a in Ids(f.nodes) && b in Ids(f.nodes)
    requires AttachEdge(f, a, b).Success?
    requires a != f.finish && !HasSucc(f.edges, f.finish)
    ensures !HasSucc(AttachEdge(f, a, b).value.edges, f.finish)
  {
    var g := AttachEdge(f, a, b).value;
    forall e | e in g.edges
      ensures e.0 != f.finish
    {
      if e != (a, b) {
        assert e in f.edges;
      }
    }
  }

  lemma ConnectWires(f: Flow, a: Job, b: Job)
    requires WellFormed(f) && Consistent(f)
    requires a in Ids(f.nodes) && b in Ids(f.nodes)
    requires (a, b) !in f.edges
    ensures Connect(f, a, b).Success?
    ensures Consistent(Connect(f, a, b).value) && FinishWired(Connect(f, a, b).value)
    ensures forall e: Edge :: e.1 != f.finish ==> (e in Connect(f, a, b).value.edges <==> e in f.edges || e == (a, b))
  {
    ConnectUnfold(f, a, b);
    var g := AttachEdge(f, a, b).value;
    ArrangeSpec(g);
    ArrangeWiresFinish(g);
  }

  lemma ConnectAppends(f: Flow, a: Job, b: Job)
    requires WellFormed(f) && Consistent(f)
    requires a in Ids(f.nodes) && b in Ids(f.nodes)
    requires (a, b) !in f.edges
    requires b != f.finish
    ensures Connect(f, a, b).Success?
    ensures DepAtoms(Connect(f, a, b).value.nodes[IndexOf(f.nodes, b)].params) == DepAtoms(Find(f.nodes, b).params) + [AStr(Find(f.nodes, a).Basename())]
  {
    ConnectUnfold(f, a, b);
    var g := AttachEdge(f, a, b).value;
    assert IndexOf(g.nodes, b) == IndexOf(f.nodes, b);
  }

  lemma ConnectKeepsFinishLast(f: Flow, a: Job, b: Job)
    requires WellFormed(f) && Consistent(f)
    requires a in Ids(f.nodes) && b in Ids(f.nodes)
    requires (a, b) !in f.edges
    requires a != f.finish && !HasSucc(f.edges, f.finish)
    ensures Connect(f, a, b).Success?
    ensures !HasSucc(Connect(f, a, b).value.edges, f.finish) && LastNodes(Connect(f, a, b).value) == [f.finish]
  {
    ConnectUnfold(f, a, b);
    var g := AttachEdge(f, a, b).value;
    AttachKeepsFinishLast(f, a, b);
    ArrangeWiresFinish(g);
  }

  /** `set_dependencies(a, b)` between registered nodes, on an edge not yet
      there: it succeeds and keeps the flow consistent; among the edges not
      into the finish command exactly `(a, b)` is new; `b`'s dependency list
      gains `a`'s basename at its end; the finish command ends up after
      exactly the other nodes with no other successor; and, unless `a` is
      the finish command itself, a finish command without successors stays
      the single last node. Nothing else changes: the flow keeps its own
      attributes and its nodes in order, no node has a parameter but
      `dependencies` changed, and every node but `b` and the finish command
      is as it was. */
  lemma ConnectSpec(f: Flow, a: Job, b: Job)
    requires WellFormed(f) && Consistent(f)
    requires a in Ids(f.nodes) && b in Ids(f.nodes)
    requires (a, b) !in f.edges
    ensures Connect(f, a, b).Success?
    ensures Consistent(Connect(f, a, b).value) && FinishWired(Connect(f, a, b).value)
    ensures forall e: Edge :: e.1 != f.finish ==> (e in Connect(f, a, b).value.edges <==> e in f.edges || e == (a, b))
    ensures b != f.finish ==> DepAtoms(Connect(f, a, b).value.nodes[IndexOf(f.nodes, b)].params) == DepAtoms(Find(f.nodes, b).params) + [AStr(Find(f.nodes, a).Basename())]
    ensures a != f.finish && !HasSucc(f.edges, f.finish) ==> Invariant(Connect(f, a, b).value) && LastNodes(Connect(f, a, b).value) == [f.finish]
    ensures var h := Connect(f, a, b).value;
      SameJobs(f, h) && OnlyDepsChange(f, h) && UntouchedBut(f, h, b, f.finish)
  {
    ConnectWires(f, a, b);
    if b != f.finish {
      ConnectAppends(f, a, b);
    }
    if a != f.finish && !HasSucc(f.edges, f.finish) {
      ConnectKeepsFinishLast(f, a, b);
    }
  }

  /** `set_dependencies(a, b)` on a consistent flow and a new edge succeeds,
      adds whichever endpoint is not yet in the graph after the nodes already
      there, and then behaves as `ConnectSpec` describes. */
  lemma SetDependenciesSpec(f: Flow, a: Node, b: Node)
    requires WellFormed(f) && Consistent(f)
    requires a.Id() !in Ids(f.nodes) ==> FreshNode(a)
    requires b.Id() !in Ids(f.nodes) && b.Id() != a.Id() ==> FreshNode(b)
    requires (a.Id(), b.Id()) !in f.edges
    ensures SetDependencies(f, a, b).Success?
    ensures var h := SetDependencies(f, a, b).value;
      && Consistent(h) && FinishWired(h)
      && (forall e: Edge :: e.1 != f.finish ==> (e in h.edges <==> e in f.edges || e == (a.Id(), b.Id())))
      && (a.Id() != f.finish && !HasSucc(f.edges, f.finish) ==> Invariant(h) && LastNodes(h) == [f.finish])
      && h.self == f.self && h.params == f.params && h.properties == f.properties
      && |f.nodes| <= |h.nodes| && Ids(h.nodes)[..|f.nodes|] == Ids(f.nodes)
      && OnlyDepsChange(f, h) && UntouchedBut(f, h, b.Id(), f.finish)
  {
    var g1 := Admit(f, a);
    AdmitConsistent(f, a);
    var g2 := Admit(g1, b);
    AdmitConsistent(g1, b);
    ConnectSpec(g2, a.Id(), b.Id());
  }


  /** `set_dependencies(a, b)` with `b` not the finish command appends `a`'s
      basename to `b`'s dependency list; `a` and `b` are the nodes the
      arguments stand for, registered or about to be. */
  lemma SetDependenciesAppends(f: Flow, a: Node, b: Node)
    requires WellFormed(f) && Consistent(f)
    requires a.Id() !in Ids(f.nodes) ==> FreshNode(a)
    requires b.Id() !in Ids(f.nodes) && b.Id() != a.Id() ==> FreshNode(b)
    requires a.Id() == b.Id() ==> a == b
    requires (a.Id(), b.Id()) !in f.edges
    requires b.Id() != f.finish
    ensures SetDependencies(f, a, b).Success?
    ensures b.Id() in Ids(SetDependencies(f, a, b).value.nodes)
    ensures DepAtoms(Find(SetDependencies(f, a, b).value.nodes, b.Id()).params)
            == DepAtoms(CurrentNode(f, b).params) + [AStr(CurrentNode(f, a).Basename())]
  {
    var g2 := Admit(Admit(f, a), b);
    AdmitConsistent(f, a);
    AdmitConsistent(Admit(f, a), b);
    ConnectAppends(g2, a.Id(), b.Id());
    AdmitFind(f, a, b);
    AdmitFind(f, a, a);
    SetDependenciesIs(f, a, b);
    SameJobsIndex(g2, Connect(g2, a.Id(), b.Id()).value, b.Id());
  }

  lemma SetDependenciesIs(f: Flow, a: Node, b: Node)
    requires WellFormed(f)
    ensures SetDependencies(f, a, b) == Connect(Admit(Admit(f, a), b), a.Id(), b.Id())
  {
  }

  /** Nodes keep their positions across a change that keeps the jobs. */
  lemma SameJobsIndex(f: Flow, g: Flow, j: Job)
    requires SameJobs(f, g) && Distinct(Ids(f.nodes)) && j in Ids(f.nodes)
    ensures j in Ids(g.nodes) && IndexOf(g.nodes, j) == IndexOf(f.nodes, j)
  {
  }

  /** After admitting `a` and then `b`, the node registered for `y` (one of
      them) is the one `y` stood for before. */
  lemma AdmitFind(f: Flow, a: Node, y: Node)
    requires WellFormed(f)
    requires a.Id() == y.Id() ==> a == y
    ensures y.Id() in Ids(Admit(Admit(f, a), y).nodes)
    ensures Find(Admit(Admit(f, a), y).nodes, y.Id()) == CurrentNode(f, y)
  {
    var g1 := Admit(f, a);
    var g2 := Admit(g1, y);
    var ids := Ids(f.nodes);
    if y.Id() in ids {
      var k := IndexOf(f.nodes, y.Id());
      assert g2.nodes[k] == f.nodes[k] by {
        assert g2.nodes[..|g1.nodes|] == g1.nodes;
        assert g1.nodes[..|f.nodes|] == f.nodes;
      }
      assert Ids(g2.nodes)[k] == y.Id();
    } else if y.Id() == a.Id() {
      assert g2 == g1;
      assert g1.nodes[|f.nodes|] == a;
      assert Ids(g1.nodes)[|f.nodes|] == y.Id();
    } else {
      assert g2.nodes[|g1.nodes|] == y;
      assert Ids(g2.nodes)[|g1.nodes|] == y.Id();
    }
  }

  /** Registering a fresh node on an invariant-keeping flow succeeds, keeps
      the invariant, wires the node to the finish command, and leaves the
      finish command the single last node. */
  lemma AddNodeSpec(f: Flow, x: Node)
    requires Invariant(f)
    requires x.Id() !in Ids(f.nodes) && FreshNode(x)
    ensures AddNode(f, x).Success?
    ensures var h := AddNode(f, x).value;
      && Invariant(h) && FinishWired(h)
      && (x.Id(), f.finish) in h.edges
      && x.Id() in FirstJobs(h)
      && LastNodes(h) == [f.finish]
      && DepAtoms(h.nodes[|f.nodes|].params) == []
      && (forall e: Edge :: e.1 != f.finish ==> (e in h.edges <==> e in f.edges))
  {
    var g := Admit(f, x);
    AdmitConsistent(f, x);
    ConnectSpec(g, x.Id(), f.finish);
    var h := AddNode(f, x).value;
    assert !HasOtherSucc(h.edges, x.Id(), f.finish) by {
      forall e | e in h.edges && e.0 == x.Id()
        ensures e.1 == f.finish
      {
        assert e !in f.edges;
      }
    }
    assert h.nodes[|f.nodes|] == g.nodes[|f.nodes|].WithParams(h.nodes[|f.nodes|].params);
    assert !HasPred(h.edges, x.Id()) by {
      forall e | e in h.edges
        ensures e.1 != x.Id()
      {
        assert e in f.edges ==> e.1 != x.Id();
      }
    }
    QueriesSpec(h);
  }

  /** `register_command` on an invariant-keeping flow: it succeeds exactly for
      a Command not yet in the graph, and then keeps the invariant, lists the
      command among the first jobs and wires it to the finish command, which
      stays the single last node; the other nodes keep their places, and
      every one but the finish command is as it was. */
  lemma RegisterCommandSpec(f: Flow, x: Node)
    requires Invariant(f)
    requires x.Id() !in Ids(f.nodes) ==> FreshNode(x)
    ensures RegisterCommand(f, x).Success? <==> x.Id() !in Ids(f.nodes) && x.CmdNode?
    ensures RegisterCommand(f, x).Success? ==> var h := RegisterCommand(f, x).value;
      && Invariant(h) && FinishWired(h)
      && h.self == f.self && h.params == f.params && h.properties == f.properties
      && Ids(h.nodes) == Ids(f.nodes) + [x.Id()] && h.nodes[|f.nodes|] == x.WithParams(h.nodes[|f.nodes|].params)
      && OnlyDepsChange(f, h) && Untouched(f, h, f.finish)
      && (forall e: Edge :: e.1 != f.finish ==> (e in h.edges <==> e in f.edges))
      && (x.Id(), f.finish) in h.edges
      && x.Id() in FirstJobs(h)
      && LastNodes(h) == [f.finish]
  {
    if x.Id() !in Ids(f.nodes) && x.CmdNode? {
      AddNodeSpec(f, x);
    }
  }

  /** `register_subflow`: as `RegisterCommandSpec`, for Flow nodes. */
  lemma RegisterSubflowSpec(f: Flow, x: Node)
    requires Invariant(f)
    requires x.Id() !in Ids(f.nodes) ==> FreshNode(x)
    ensures RegisterSubflow(f, x).Success? <==> x.Id() !in Ids(f.nodes) && x.SubNode?
    ensures RegisterSubflow(f, x).Success? ==> var h := RegisterSubflow(f, x).value;
      && Invariant(h) && FinishWired(h)
      && h.self == f.self && h.params == f.params && h.properties == f.properties
      && Ids(h.nodes) == Ids(f.nodes) + [x.Id()] && h.nodes[|f.nodes|] == x.WithParams(h.nodes[|f.nodes|].params)
      && OnlyDepsChange(f, h) && Untouched(f, h, f.finish)
      && (forall e: Edge :: e.1 != f.finish ==> (e in h.edges <==> e in f.edges))
      && (x.Id(), f.finish) in h.edges
      && x.Id() in FirstJobs(h)
      && LastNodes(h) == [f.finish]
  {
    if x.Id() !in Ids(f.nodes) && x.SubNode? {
      AddNodeSpec(f, x);
    }
  }

  /** `remove_dependencies(a, b)` with `b` not the finish command succeeds
      exactly when the edge is there; it then keeps the invariant and removes
      the first occurrence of `a`'s basename from `b`'s dependency list;
      every node but `b` is as it was, and `b` keeps every other parameter. */
  lemma RemoveDependenciesSpec(f: Flow, a: Node, b: Node)
    requires Invariant(f)
    requires b.Id() != f.finish
    ensures RemoveDependencies(f, a, b).Success? <==> (a.Id(), b.Id()) in f.edges
    ensures RemoveDependencies(f, a, b).Success? ==> var h := RemoveDependencies(f, a, b).value;
      && Invariant(h)
      && DepAtoms(h.nodes[IndexOf(f.nodes, b.Id())].params)
         == RemoveFirst(DepAtoms(Find(f.nodes, b.Id()).params), AStr(Find(f.nodes, a.Id()).Basename()))
      && SameJobs(f, h) && OnlyDepsChange(f, h) && Untouched(f, h, b.Id())
  {
    if (a.Id(), b.Id()) in f.edges {
      DetachConsistent(f, a.Id(), b.Id());
      var h := RemoveDependencies(f, a, b).value;
      assert !HasSucc(h.edges, f.finish) by {
        forall e | e in h.edges
          ensures e.0 != f.finish
        {
          assert e in f.edges;
        }
      }
    }
  }

  /** `remove_dependencies` does not re-arrange the finish command: removing
      the only outgoing edge of a node leaves that node without successor, so
      the flow then has at least two last nodes. */
  lemma RemoveCanLeaveSeveralLastNodes(f: Flow, a: Node, b: Node)
    requires Invariant(f)
    requires b.Id() != f.finish && (a.Id(), b.Id()) in f.edges
    requires forall e :: e in f.edges && e.0 == a.Id() ==> e.1 == b.Id()
    ensures RemoveDependencies(f, a, b).Success?
    ensures var h := RemoveDependencies(f, a, b).value;
      && a.Id() in LastNodes(h) && f.finish in LastNodes(h) && |LastNodes(h)| >= 2
  {
    DetachConsistent(f, a.Id(), b.Id());
    var h := RemoveDependencies(f, a, b).value;
    forall e | e in h.edges
      ensures e.0 != a.Id() && e.0 != f.finish
    {
      assert e in f.edges && e != (a.Id(), b.Id());
    }
    QueriesSpec(h);
    var last := LastNodes(h);
    var i :| 0 <= i < |last| && last[i] == a.Id();
    var k :| 0 <= k < |last| && last[k] == f.finish;
    assert i != k;
  }

  /** A flow whose only node is a fresh finish command. */
  lemma LoneFinish(f: Flow)
    requires |f.nodes| == 1 && f.nodes[0].Id() == f.finish && f.edges == {}
    requires FreshNode(f.nodes[0])
    ensures Invariant(f) && FinishWired(f)
    ensures FirstJobs(f) == [f.finish] && LastNodes(f) == [f.finish]
  {
    assert Ids(f.nodes) == [f.finish];
    assert ConsistentAt(f, 0);
  }

  /** A new flow satisfies the invariant: its only node is the finish
      command, which is both its single first and its single last job. */
  lemma NewFlowEstablishes(self: Job, finishOid: nat, p: Params, props: PropertiesArg)
    requires !props.OtherArg?
    ensures NewFlow(self, finishOid, p, props).Success?
    ensures var f := NewFlow(self, finishOid, p, props).value;
      && Invariant(f) && FinishWired(f)
      && FirstJobs(f) == [f.finish] && LastNodes(f) == [f.finish]
  {
    var f := NewFlow(self, finishOid, p, props).value;
    assert Keys(FinishCommandParams(self.name)) == ["command"];
    assert Get(f.nodes[0].params, DependenciesKey) == None;
    LoneFinish(f);
  }
}
