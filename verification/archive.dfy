/**
 * The project archive (class `Project`): a set of flows with a name, a
 * description and optional properties, and the entries its zip file holds.
 * Each flow's job files go under `<project>/<flow>/`, each sub-flow's under
 * its parent's directory joined with the sub-flow's name, and each
 * properties file after the jobs of its directory.
 */
module Archive {
  import opened Errors
  import opened Seqs
  import opened Parameters
  import opened AzkabanFile
  import opened Flows

  /** One file written into the zip: its path inside the archive and text. */
  datatype ZipEntry = ZipEntry(path: string, text: string)

  // ---------------------------------------------------------------- paths

  predicate StartsWithSlash(s: string) {
    |s| > 0 && s[0] == '/'
  }

  predicate IsPrefix(p: string, s: string) {
    |p| <= |s| && s[..|p|] == p
  }

  /** `os.path.join(a, b)` on POSIX: an absolute `b` replaces `a`; otherwise
      `b` is appended, after a '/' unless `a` is empty or already ends in one. */
  function PathJoin(a: string, b: string): (r: string)
    ensures !StartsWithSlash(b) ==> IsPrefix(a, r)
  {
    if StartsWithSlash(b) then b
    else if |a| == 0 || a[|a| - 1] == '/' then a + b
    else a + "/" + b
  }

  /** A relative `b` is appended to `a`, with exactly one '/' between them
      unless `a` is empty or already ends in one; an absolute `b` is kept. */
  lemma PathJoinSpec(a: string, b: string)
    ensures StartsWithSlash(b) ==> PathJoin(a, b) == b
    ensures !StartsWithSlash(b) ==> var r := PathJoin(a, b);
      && IsPrefix(a, r) && r[|r| - |b|..] == b
      && (if |a| == 0 || a[|a| - 1] == '/' then |r| == |a| + |b| else |r| == |a| + |b| + 1 && r[|a|] == '/')
  {
  }

  lemma PrefixTransitive(a: string, b: string, c: string)
    requires IsPrefix(a, b) && IsPrefix(b, c)
    ensures IsPrefix(a, c)
  {
    assert c[..|a|] == c[..|b|][..|a|];
  }

  // ---------------------------------------------------------------- writing

  /** One step of writing an archive, in the order the source takes them: the
      check that a flow has a single last node, or the writing of a job file
      or a properties file. `dirs` lists the directories, below the archive's
      base directory, that the file goes in: one per enclosing sub-flow. */
  datatype Step =
    | CheckLast(flow: Flow)
    | WriteJob(dirs: seq<string>, node: Node)
    | WriteProperties(dirs: seq<string>, props: Properties)

  /** The directory `root/dirs[0]/dirs[1]/...`, joined one component at a time
      as the recursion of the source does. */
  function Dir(root: string, dirs: seq<string>): string {
    if |dirs| == 0 then root else PathJoin(Dir(root, dirs[..|dirs| - 1]), dirs[|dirs| - 1])
  }

  function StepFileName(st: Step): string
    requires !st.CheckLast?
  {
    match st
    case WriteJob(_, x) => x.JobFileName()
    case WriteProperties(_, pr) => PropertiesFileName(pr)
  }

  function FileParams(st: Step): Params
    requires !st.CheckLast?
  {
    match st
    case WriteJob(_, x) => x.params
    case WriteProperties(_, pr) => pr.params
  }

  /** Where a file step writes under the base directory `root`. */
  function FilePath(root: string, st: Step): string
    requires !st.CheckLast?
  {
    PathJoin(Dir(root, st.dirs), StepFileName(st))
  }

  /** Carries out the steps in order under the base directory `root`: a
      failed check is a MultipleLastJobError, a file whose text cannot be
      rendered a TypeError; the first failure ends the writing. */
  function Render(root: string, steps: seq<Step>): (r: Result<seq<ZipEntry>>)
    ensures r.Failure? ==> r.error == MultipleLastJobError || r.error == TypeError
  {
    if |steps| == 0 then Success([])
    else if steps[0].CheckLast? then
      if |LastNodes(steps[0].flow)| == 1 then Render(root, steps[1..]) else Failure(MultipleLastJobError)
    else
      match Text(FileParams(steps[0]))
      case Failure(e) => Failure(e)
      case Success(text) =>
        match Render(root, steps[1..])
        case Failure(e) => Failure(e)
        case Success(rest) => Success([ZipEntry(FilePath(root, steps[0]), text)] + rest)
  }

  predicate StepOk(st: Step) {
    if st.CheckLast? then |LastNodes(st.flow)| == 1 else Text(FileParams(st)).Success?
  }

  /** Every step of the sequence succeeds. */
  predicate StepsOk(steps: seq<Step>) {
    |steps| == 0 || (StepOk(steps[0]) && StepsOk(steps[1..]))
  }

  /** The files the steps write, in order. */
  function Writes(steps: seq<Step>): (r: seq<Step>)
    ensures forall k :: 0 <= k < |r| ==> !r[k].CheckLast? && r[k] in steps
  {
    if |steps| == 0 then []
    else if steps[0].CheckLast? then Writes(steps[1..])
    else [steps[0]] + Writes(steps[1..])
  }

  lemma {:induction false} WritesConcat(a: seq<Step>, b: seq<Step>)
    ensures Writes(a + b) == Writes(a) + Writes(b)
  {
    if |a| > 0 {
      assert (a + b)[0] == a[0];
      assert (a + b)[1..] == a[1..] + b;
      WritesConcat(a[1..], b);
    } else {
      assert a + b == b;
    }
  }

  lemma {:induction false} WritesHas(steps: seq<Step>, st: Step)
    requires st in steps && !st.CheckLast?
    ensures st in Writes(steps)
  {
    if steps[0] != st {
      WritesHas(steps[1..], st);
    }
  }

  /** The writing succeeds exactly when every check passes and every text
      renders. */
  lemma {:induction false} RenderOk(root: string, steps: seq<Step>)
    ensures Render(root, steps).Success? <==> StepsOk(steps)
  {
    if |steps| > 0 {
      RenderOk(root, steps[1..]);
    }
  }

  /** A successful writing has one entry per file, in order, each at the
      file's path with the text of its parameters. */
  lemma {:induction false} RenderEntries(root: string, steps: seq<Step>)
    requires Render(root, steps).Success?
    ensures var es := Render(root, steps).value;
            var ws := Writes(steps);
            && |es| == |ws|
            && forall k :: 0 <= k < |es| ==>
                 es[k].path == FilePath(root, ws[k]) && Text(FileParams(ws[k])) == Success(es[k].text)
  {
    if |steps| > 0 {
      var tail := steps[1..];
      RenderEntries(root, tail);
      var es := Render(root, steps).value;
      var ws := Writes(steps);
      var rest := Render(root, tail).value;
      var wt := Writes(tail);
      if steps[0].CheckLast? {
        assert es == rest && ws == wt;
      } else {
        assert es == [ZipEntry(FilePath(root, steps[0]), Text(FileParams(steps[0])).value)] + rest;
        assert ws == [steps[0]] + wt;
        forall k | 0 < k < |es|
          ensures es[k].path == FilePath(root, ws[k]) && Text(FileParams(ws[k])) == Success(es[k].text)
        {
          assert es[k] == rest[k - 1];
          assert ws[k] == wt[k - 1];
        }
      }
    }
  }

  /** A successful writing has one entry per file. */
  lemma {:induction false} RenderCount(root: string, steps: seq<Step>)
    requires Render(root, steps).Success?
    ensures |Render(root, steps).value| == |Writes(steps)|
  {
    if |steps| > 0 {
      RenderCount(root, steps[1..]);
    }
  }

  /** The two halves together. */
  lemma RenderSpec(root: string, steps: seq<Step>)
    ensures Render(root, steps).Success? <==> StepsOk(steps)
    ensures Render(root, steps).Success? ==>
              var es := Render(root, steps).value;
              var ws := Writes(steps);
              && |es| == |ws|
              && forall k :: 0 <= k < |es| ==>
                   es[k].path == FilePath(root, ws[k]) && Text(FileParams(ws[k])) == Success(es[k].text)
  {
    RenderOk(root, steps);
    if Render(root, steps).Success? {
      RenderEntries(root, steps);
    }
  }

  lemma {:induction false} StepsOkConcat(a: seq<Step>, b: seq<Step>)
    ensures StepsOk(a + b) <==> StepsOk(a) && StepsOk(b)
  {
    if |a| > 0 {
      assert (a + b)[0] == a[0];
      assert (a + b)[1..] == a[1..] + b;
      StepsOkConcat(a[1..], b);
    } else {
      assert a + b == b;
    }
  }

  // ---------------------------------------------------------------- one flow

  /** The properties file of a flow or project, when it has one. */
  function PropertiesSteps(props: Option<Properties>, dirs: seq<string>): (r: seq<Step>)
    ensures |r| == (if props.Some? then 1 else 0)
  {
    match props
    case None => []
    case Some(pr) => [WriteProperties(dirs, pr)]
  }

  /** `__add_flow_to_zip(flow, basedir)`: the check that the flow has exactly
      one last node; then, for every job in turn, its job file, followed for
      a sub-flow by the sub-flow's own steps one directory further down, in
      the directory named after the sub-flow; the flow's properties file
      comes last. */
  function FlowSteps(f: Flow, dirs: seq<string>): (r: seq<Step>)
    ensures |r| >= 1 && r[0] == CheckLast(f)
    decreases f, 1, 0
  {
    [CheckLast(f)] + NodesSteps(f, 0, dirs) + PropertiesSteps(f.properties, dirs)
  }

  /** The steps of the jobs of `f` from position `i` on. */
  function NodesSteps(f: Flow, i: nat, dirs: seq<string>): seq<Step>
    decreases f, 0, |f.nodes| - i
  {
    if i >= |f.nodes| then []
    else
      var nested := match f.nodes[i]
        case CmdNode(_, _) => []
        case SubNode(_, sub) => FlowSteps(sub, dirs + [sub.self.name]);
      [WriteJob(dirs, f.nodes[i])] + nested + NodesSteps(f, i + 1, dirs)
  }

  /** The zip entries of one flow written under `basedir`. */
  function FlowEntries(f: Flow, basedir: string): Result<seq<ZipEntry>> {
    Render(basedir, FlowSteps(f, []))
  }

  /** A flow with more than one last node, or none, is refused before any
      of its files is written. */
  lemma MultipleLastNodesRefused(f: Flow, basedir: string)
    requires |LastNodes(f)| != 1
    ensures FlowEntries(f, basedir) == Failure(MultipleLastJobError)
  {
  }

  /** A flow can be archived: one last node, every job file and properties
      file renders, and so does every sub-flow, recursively. */
  predicate FlowReady(f: Flow)
    decreases f, 1, 0
  {
    && |LastNodes(f)| == 1
    && NodesReady(f, 0)
    && (f.properties.Some? ==> Text(f.properties.value.params).Success?)
  }

  predicate NodesReady(f: Flow, i: nat)
    decreases f, 0, |f.nodes| - i
  {
    i >= |f.nodes| ||
      (&& Text(f.nodes[i].params).Success?
       && (f.nodes[i].SubNode? ==> FlowReady(f.nodes[i].flow))
       && NodesReady(f, i + 1))
  }

  /** The number of files a flow contributes: one per job, those of every
      sub-flow, and one for its properties. */
  function FlowFiles(f: Flow): nat
    decreases f, 1, 0
  {
    NodesFiles(f, 0) + (if f.properties.Some? then 1 else 0)
  }

  function NodesFiles(f: Flow, i: nat): nat
    decreases f, 0, |f.nodes| - i
  {
    if i >= |f.nodes| then 0
    else 1 + (if f.nodes[i].SubNode? then FlowFiles(f.nodes[i].flow) else 0) + NodesFiles(f, i + 1)
  }

  /** No job, sub-flow or properties name of the flow starts with '/'. */
  predicate RelativeNames(f: Flow)
    decreases f, 1, 0
  {
    && NodesRelative(f, 0)
    && (f.properties.Some? ==> !StartsWithSlash(PropertiesFileName(f.properties.value)))
  }

  predicate NodesRelative(f: Flow, i: nat)
    decreases f, 0, |f.nodes| - i
  {
    i >= |f.nodes| ||
      (&& !StartsWithSlash(f.nodes[i].JobFileName())
       && (f.nodes[i].SubNode? ==> !StartsWithSlash(f.nodes[i].flow.self.name) && RelativeNames(f.nodes[i].flow))
       && NodesRelative(f, i + 1))
  }

  /** The nested steps of the node at position `i`. */
  function NestedSteps(f: Flow, i: nat, dirs: seq<string>): seq<Step>
    requires i < |f.nodes|
  {
    match f.nodes[i]
    case CmdNode(_, _) => []
    case SubNode(_, sub) => FlowSteps(sub, dirs + [sub.self.name])
  }

  lemma NodesStepsUnfold(f: Flow, i: nat, dirs: seq<string>)
    requires i < |f.nodes|
    ensures NodesSteps(f, i, dirs) == [WriteJob(dirs, f.nodes[i])] + NestedSteps(f, i, dirs) + NodesSteps(f, i + 1, dirs)
  {
  }

  // ---------------------------------------------------------------- readiness

  /** A flow's steps all succeed exactly when the flow is ready. */
  lemma {:induction false} FlowStepsOk(f: Flow, dirs: seq<string>)
    ensures StepsOk(FlowSteps(f, dirs)) <==> FlowReady(f)
    decreases f, 1, 0
  {
    var check := [CheckLast(f)];
    var nodes := NodesSteps(f, 0, dirs);
    var props := PropertiesSteps(f.properties, dirs);
    NodesStepsOk(f, 0, dirs);
    StepsOkConcat(check, nodes);
    StepsOkConcat(check + nodes, props);
    assert StepsOk(check) <==> |LastNodes(f)| == 1;
    assert StepsOk(props) <==> (f.properties.Some? ==> Text(f.properties.value.params).Success?);
  }

  lemma {:induction false} NodesStepsOk(f: Flow, i: nat, dirs: seq<string>)
    ensures StepsOk(NodesSteps(f, i, dirs)) <==> NodesReady(f, i)
    decreases f, 0, |f.nodes| - i
  {
    if i < |f.nodes| {
      var own := [WriteJob(dirs, f.nodes[i])];
      var nested := NestedSteps(f, i, dirs);
      var rest := NodesSteps(f, i + 1, dirs);
      NodesStepsUnfold(f, i, dirs);
      NodesStepsOk(f, i + 1, dirs);
      if f.nodes[i].SubNode? {
        FlowStepsOk(f.nodes[i].flow, dirs + [f.nodes[i].flow.self.name]);
      }
      StepsOkConcat(own, nested);
      StepsOkConcat(own + nested, rest);
      assert StepsOk(own) <==> Text(f.nodes[i].params).Success?;
      assert StepsOk(nested) <==> (f.nodes[i].SubNode? ==> FlowReady(f.nodes[i].flow));
    }
  }

  // ---------------------------------------------------------------- counting

  lemma {:induction false} FlowWrites(f: Flow, dirs: seq<string>)
    ensures |Writes(FlowSteps(f, dirs))| == FlowFiles(f)
    decreases f, 1, 0
  {
    var check := [CheckLast(f)];
    var nodes := NodesSteps(f, 0, dirs);
    var props := PropertiesSteps(f.properties, dirs);
    NodesWrites(f, 0, dirs);
    WritesConcat(check, nodes);
    WritesConcat(check + nodes, props);
    assert Writes(check) == [];
    assert |Writes(props)| == |props|;
  }

  lemma {:induction false} NodesWrites(f: Flow, i: nat, dirs: seq<string>)
    ensures |Writes(NodesSteps(f, i, dirs))| == NodesFiles(f, i)
    decreases f, 0, |f.nodes| - i
  {
    if i < |f.nodes| {
      var own := [WriteJob(dirs, f.nodes[i])];
      var nested := NestedSteps(f, i, dirs);
      var rest := NodesSteps(f, i + 1, dirs);
      NodesStepsUnfold(f, i, dirs);
      NodesWrites(f, i + 1, dirs);
      if f.nodes[i].SubNode? {
        FlowWrites(f.nodes[i].flow, dirs + [f.nodes[i].flow.self.name]);
      }
      WritesConcat(own, nested);
      WritesConcat(own + nested, rest);
      assert Writes(own) == own;
      assert |Writes(nested)| == (if f.nodes[i].SubNode? then FlowFiles(f.nodes[i].flow) else 0);
    }
  }

  // ---------------------------------------------------------------- containment

  /** A file step's directories and file name are all relative. */
  predicate StepRelative(st: Step) {
    st.CheckLast? || (RelativeDirs(st.dirs) && !StartsWithSlash(StepFileName(st)))
  }

  /** Every file the steps write has relative directories and name. */
  predicate AllStepsRelative(steps: seq<Step>) {
    |steps| == 0 || (StepRelative(steps[0]) && AllStepsRelative(steps[1..]))
  }

  predicate RelativeDirs(dirs: seq<string>) {
    forall k :: 0 <= k < |dirs| ==> !StartsWithSlash(dirs[k])
  }

  lemma {:induction false} AllStepsRelativeConcat(a: seq<Step>, b: seq<Step>)
    requires AllStepsRelative(a) && AllStepsRelative(b)
    ensures AllStepsRelative(a + b)
  {
    if |a| > 0 {
      assert (a + b)[0] == a[0];
      assert (a + b)[1..] == a[1..] + b;
      AllStepsRelativeConcat(a[1..], b);
    } else {
      assert a + b == b;
    }
  }

  lemma {:induction false} AllStepsRelativeHas(steps: seq<Step>, st: Step)
    requires AllStepsRelative(steps) && st in steps
    ensures StepRelative(st)
  {
    if steps[0] != st {
      AllStepsRelativeHas(steps[1..], st);
    }
  }

  /** When no name is absolute, every file of a flow has relative
      directories and name. */
  lemma {:induction false} FlowStepsRelative(f: Flow, dirs: seq<string>)
    requires RelativeNames(f) && RelativeDirs(dirs)
    ensures AllStepsRelative(FlowSteps(f, dirs))
    decreases f, 1, 0
  {
    var check := [CheckLast(f)];
    var nodes := NodesSteps(f, 0, dirs);
    var props := PropertiesSteps(f.properties, dirs);
    NodesStepsRelative(f, 0, dirs);
    AllStepsRelativeConcat(check, nodes);
    AllStepsRelativeConcat(check + nodes, props);
  }

  lemma {:induction false} NodesStepsRelative(f: Flow, i: nat, dirs: seq<string>)
    requires NodesRelative(f, i) && RelativeDirs(dirs)
    ensures AllStepsRelative(NodesSteps(f, i, dirs))
    decreases f, 0, |f.nodes| - i
  {
    if i < |f.nodes| {
      var own := [WriteJob(dirs, f.nodes[i])];
      var nested := NestedSteps(f, i, dirs);
      var rest := NodesSteps(f, i + 1, dirs);
      NodesStepsUnfold(f, i, dirs);
      NodesStepsRelative(f, i + 1, dirs);
      if f.nodes[i].SubNode? {
        var sub := f.nodes[i].flow;
        var d := dirs + [sub.self.name];
        assert RelativeDirs(d) by {
          assert forall k :: 0 <= k < |dirs| ==> d[k] == dirs[k];
        }
        FlowStepsRelative(sub, d);
      }
      assert StepRelative(own[0]);
      AllStepsRelativeConcat(own, nested);
      AllStepsRelativeConcat(own + nested, rest);
    }
  }

  /** `root` as a directory: followed by a '/' unless it is empty or already
      ends in one. A path inside `root` starts with it. */
  function DirPrefix(root: string): (r: string)
    ensures IsPrefix(root, r)
  {
    PathJoin(root, "")
  }

  /** Joining `a` with a relative `b` stays inside `a` as a directory. */
  lemma JoinedUnder(a: string, b: string)
    requires !StartsWithSlash(b)
    ensures IsPrefix(DirPrefix(a), PathJoin(a, b))
  {
  }

  /** A directory built from at least one relative component lies inside
      its root as a directory. */
  lemma {:induction false} DirInside(root: string, dirs: seq<string>)
    requires |dirs| > 0 && RelativeDirs(dirs)
    ensures IsPrefix(DirPrefix(root), Dir(root, dirs))
  {
    var front := dirs[..|dirs| - 1];
    var last := dirs[|dirs| - 1];
    if |front| == 0 {
      JoinedUnder(root, last);
    } else {
      assert RelativeDirs(front) by {
        assert forall k :: 0 <= k < |front| ==> front[k] == dirs[k];
      }
      DirInside(root, front);
      PathJoinSpec(Dir(root, front), last);
      PrefixTransitive(DirPrefix(root), Dir(root, front), Dir(root, dirs));
    }
  }

  /** A relative file step writes inside its root as a directory. */
  lemma FileUnder(root: string, st: Step)
    requires !st.CheckLast? && StepRelative(st)
    ensures IsPrefix(DirPrefix(root), FilePath(root, st))
  {
    if |st.dirs| == 0 {
      JoinedUnder(root, StepFileName(st));
    } else {
      DirInside(root, st.dirs);
      PathJoinSpec(Dir(root, st.dirs), StepFileName(st));
      PrefixTransitive(DirPrefix(root), Dir(root, st.dirs), FilePath(root, st));
    }
  }

  /** Once written, the entries of relative file steps all lie inside the
      root directory. */
  lemma RenderedUnder(root: string, steps: seq<Step>)
    requires Render(root, steps).Success? && AllStepsRelative(steps)
    ensures forall k :: 0 <= k < |Render(root, steps).value| ==> IsPrefix(DirPrefix(root), Render(root, steps).value[k].path)
  {
    RenderSpec(root, steps);
    var es := Render(root, steps).value;
    var ws := Writes(steps);
    forall k | 0 <= k < |es|
      ensures IsPrefix(DirPrefix(root), es[k].path)
    {
      AllStepsRelativeHas(steps, ws[k]);
      FileUnder(root, ws[k]);
    }
  }

  // ---------------------------------------------------------------- the flow's files

  /** A flow's files are written exactly when it is ready; there is then one
      entry per file, every one of them under `basedir` when no name is
      absolute (inside `basedir` as a directory, so a sibling such as
      `<basedir>x/...` does not count). */
  lemma FlowEntriesSpec(f: Flow, basedir: string)
    ensures FlowEntries(f, basedir).Success? <==> FlowReady(f)
    ensures FlowEntries(f, basedir).Success? ==> |FlowEntries(f, basedir).value| == FlowFiles(f)
    ensures FlowEntries(f, basedir).Success? && RelativeNames(f) ==>
              forall k :: 0 <= k < |FlowEntries(f, basedir).value| ==> IsPrefix(DirPrefix(basedir), FlowEntries(f, basedir).value[k].path)
  {
    var steps := FlowSteps(f, []);
    RenderSpec(basedir, steps);
    FlowStepsOk(f, []);
    FlowWrites(f, []);
    if FlowEntries(f, basedir).Success? && RelativeNames(f) {
      FlowStepsRelative(f, []);
      RenderedUnder(basedir, steps);
    }
  }

  /** The file of job `j` of `f` is among the steps of the jobs from `i` on. */
  lemma {:induction false} JobStepPlanned(f: Flow, i: nat, dirs: seq<string>, j: nat)
    requires i <= j < |f.nodes|
    ensures WriteJob(dirs, f.nodes[j]) in NodesSteps(f, i, dirs)
    decreases |f.nodes| - i
  {
    NodesStepsUnfold(f, i, dirs);
    if i < j {
      JobStepPlanned(f, i + 1, dirs, j);
    }
  }

  /** Every job of a written flow gets its job file, with its text, directly
      under `basedir`. */
  lemma JobFileWritten(f: Flow, basedir: string, j: nat)
    requires FlowEntries(f, basedir).Success?
    requires j < |f.nodes|
    ensures Text(f.nodes[j].params).Success?
    ensures ZipEntry(PathJoin(basedir, f.nodes[j].JobFileName()), Text(f.nodes[j].params).value) in FlowEntries(f, basedir).value
  {
    var steps := FlowSteps(f, []);
    var st := WriteJob([], f.nodes[j]);
    JobStepPlanned(f, 0, [], j);
    assert steps == [CheckLast(f)] + NodesSteps(f, 0, []) + PropertiesSteps(f.properties, []);
    assert st in steps;
    WritesHas(steps, st);
    RenderSpec(basedir, steps);
    var ws := Writes(steps);
    var es := FlowEntries(f, basedir).value;
    var k :| 0 <= k < |ws| && ws[k] == st;
    assert es[k].path == FilePath(basedir, st) && Text(f.nodes[j].params) == Success(es[k].text);
    assert es[k] == ZipEntry(PathJoin(basedir, f.nodes[j].JobFileName()), Text(f.nodes[j].params).value);
  }

  /** A flow with properties has its properties file written last, directly
      under `basedir`. */
  lemma PropertiesWrittenLast(f: Flow, basedir: string)
    requires FlowEntries(f, basedir).Success? && f.properties.Some?
    ensures Text(f.properties.value.params).Success?
    ensures var es := FlowEntries(f, basedir).value;
      && |es| >= 1
      && es[|es| - 1] == ZipEntry(PathJoin(basedir, PropertiesFileName(f.properties.value)), Text(f.properties.value.params).value)
  {
    var steps := FlowSteps(f, []);
    var props := PropertiesSteps(f.properties, []);
    var front := [CheckLast(f)] + NodesSteps(f, 0, []);
    assert steps == front + props;
    WritesConcat(front, props);
    assert Writes(props) == props;
    RenderSpec(basedir, steps);
    var ws := Writes(steps);
    var es := FlowEntries(f, basedir).value;
    assert ws[|ws| - 1] == props[0];
    assert es[|es| - 1].path == FilePath(basedir, props[0]) && Text(props[0].props.params) == Success(es[|es| - 1].text);
  }

  // ---------------------------------------------------------------- relocation

  /** Joining `root` with `d` and then with `ds` is joining `root` with
      `[d] + ds`. */
  lemma {:induction false} DirCons(root: string, d: string, ds: seq<string>)
    ensures Dir(root, [d] + ds) == Dir(PathJoin(root, d), ds)
  {
    if |ds| > 0 {
      var front := ds[..|ds| - 1];
      assert ([d] + ds)[..|ds|] == [d] + front;
      DirCons(root, d, front);
    } else {
      assert [d] + ds == [d];
      assert ([d] + ds)[..0] == [];
    }
  }

  /** The step `st` one directory further down, in `d`. */
  function Shift(d: string, st: Step): (r: Step)
    ensures r.CheckLast? == st.CheckLast? && (!st.CheckLast? ==> r.dirs == [d] + st.dirs)
  {
    match st
    case CheckLast(_) => st
    case WriteJob(ds, x) => WriteJob([d] + ds, x)
    case WriteProperties(ds, pr) => WriteProperties([d] + ds, pr)
  }

  /** Every step of `steps` one directory further down, in `d`. */
  function Under(d: string, steps: seq<Step>): (r: seq<Step>)
    ensures |r| == |steps| && forall k :: 0 <= k < |steps| ==> r[k] == Shift(d, steps[k])
  {
    seq(|steps|, k requires 0 <= k < |steps| => Shift(d, steps[k]))
  }

  lemma UnderConcat(d: string, a: seq<Step>, b: seq<Step>)
    ensures Under(d, a + b) == Under(d, a) + Under(d, b)
  {
  }

  /** The steps of a flow written with `d` prepended to its directories are
      its steps with `d` prepended. */
  lemma {:induction false} FlowStepsUnder(f: Flow, d: string, dirs: seq<string>)
    ensures FlowSteps(f, [d] + dirs) == Under(d, FlowSteps(f, dirs))
    decreases f, 1, 0
  {
    NodesStepsUnder(f, 0, d, dirs);
    UnderConcat(d, [CheckLast(f)], NodesSteps(f, 0, dirs));
    UnderConcat(d, [CheckLast(f)] + NodesSteps(f, 0, dirs), PropertiesSteps(f.properties, dirs));
    assert Under(d, PropertiesSteps(f.properties, dirs)) == PropertiesSteps(f.properties, [d] + dirs);
  }

  lemma {:induction false} NodesStepsUnder(f: Flow, i: nat, d: string, dirs: seq<string>)
    ensures NodesSteps(f, i, [d] + dirs) == Under(d, NodesSteps(f, i, dirs))
    decreases f, 0, |f.nodes| - i
  {
    if i < |f.nodes| {
      NodesStepsUnfold(f, i, dirs);
      NodesStepsUnfold(f, i, [d] + dirs);
      NodesStepsUnder(f, i + 1, d, dirs);
      if f.nodes[i].SubNode? {
        var sub := f.nodes[i].flow;
        assert [d] + dirs + [sub.self.name] == [d] + (dirs + [sub.self.name]);
        FlowStepsUnder(sub, d, dirs + [sub.self.name]);
      }
      var own := [WriteJob(dirs, f.nodes[i])];
      UnderConcat(d, own, NestedSteps(f, i, dirs));
      UnderConcat(d, own + NestedSteps(f, i, dirs), NodesSteps(f, i + 1, dirs));
    }
  }

  /** Writing steps one directory further down, in `d`, under `root` is
      writing them under `root` joined with `d`. */
  lemma {:induction false} RenderUnder(root: string, d: string, steps: seq<Step>)
    ensures Render(root, Under(d, steps)) == Render(PathJoin(root, d), steps)
  {
    if |steps| > 0 {
      assert Under(d, steps)[1..] == Under(d, steps[1..]);
      RenderUnder(root, d, steps[1..]);
      if !steps[0].CheckLast? {
        DirCons(root, d, steps[0].dirs);
      }
    }
  }

  /** Writing `a + b` succeeds exactly when writing `a` and writing `b` do,
      and then yields the entries of `a` followed by those of `b`. */
  lemma {:induction false} RenderConcat(root: string, a: seq<Step>, b: seq<Step>)
    ensures Render(root, a + b).Success? <==> Render(root, a).Success? && Render(root, b).Success?
    ensures Render(root, a + b).Success? ==> Render(root, a + b).value == Render(root, a).value + Render(root, b).value
  {
    if |a| > 0 {
      assert (a + b)[0] == a[0];
      assert (a + b)[1..] == a[1..] + b;
      RenderConcat(root, a[1..], b);
    } else {
      assert a + b == b;
    }
  }

  lemma SeqRegroup<T>(a: seq<T>, b: seq<T>, c: seq<T>, d: seq<T>, e: seq<T>, g: seq<T>)
    ensures a + (b + (c + d + e)) + g == (a + b) + (c + (d + (e + g)))
  {
  }

  lemma SeqAssoc<T>(a: seq<T>, b: seq<T>, c: seq<T>, d: seq<T>)
    ensures a + (b + c + d) == (a + b) + c + d
  {
  }

  lemma SeqAssocRight<T>(a: seq<T>, b: seq<T>, c: seq<T>, d: seq<T>)
    ensures a + b + c + d == a + (b + (c + d))
  {
  }

  /** The entries of `b`, written between `a` and `c`, form one block right
      after the entries of `a`. */
  lemma RenderBlock(root: string, a: seq<Step>, b: seq<Step>, c: seq<Step>)
    requires Render(root, a + (b + c)).Success?
    ensures Render(root, a).Success? && Render(root, b).Success?
    ensures var es := Render(root, a + (b + c)).value;
            var off := |Render(root, a).value|;
            var block := Render(root, b).value;
            && off + |block| <= |es|
            && es[off..off + |block|] == block
  {
    RenderConcat(root, a, b + c);
    RenderConcat(root, b, c);
    var es := Render(root, a + (b + c)).value;
    var ea := Render(root, a).value;
    var block := Render(root, b).value;
    assert es == ea + (block + Render(root, c).value);
    assert es[|ea|..|ea| + |block|] == block;
  }

  /** A flow's entries written one directory further down, in `d`, are its
      entries under `basedir` joined with `d`. */
  lemma FlowEntriesUnder(f: Flow, basedir: string, d: string)
    ensures Render(basedir, FlowSteps(f, [d])) == FlowEntries(f, PathJoin(basedir, d))
  {
    assert [d] + [] == [d];
    FlowStepsUnder(f, d, []);
    RenderUnder(basedir, d, FlowSteps(f, []));
  }

  /** The steps of the jobs from `j` on are those of the jobs from `j` to
      `i`, then those from `i` on. */
  lemma {:induction false} NodesStepsSplit(f: Flow, j: nat, i: nat, dirs: seq<string>) returns (pre: seq<Step>)
    requires j <= i <= |f.nodes|
    ensures NodesSteps(f, j, dirs) == pre + NodesSteps(f, i, dirs)
    ensures |Writes(pre)| == NodesFiles(f, j) - NodesFiles(f, i)
    decreases i - j
  {
    if j == i {
      pre := [];
    } else {
      NodesStepsUnfold(f, j, dirs);
      var rest := NodesStepsSplit(f, j + 1, i, dirs);
      var head := [WriteJob(dirs, f.nodes[j])] + NestedSteps(f, j, dirs);
      pre := head + rest;
      assert NodesSteps(f, j, dirs) == pre + NodesSteps(f, i, dirs);
      NodesWrites(f, j, dirs);
      NodesWrites(f, i, dirs);
      WritesConcat(pre, NodesSteps(f, i, dirs));
    }
  }

  /** A flow's steps around the job at position `i`, a sub-flow: those
      before it, which write the files of the jobs before it; its job file;
      the sub-flow's own steps in the directory named after it; the rest. */
  lemma FlowStepsAround(f: Flow, i: nat) returns (head: seq<Step>, tail: seq<Step>)
    requires i < |f.nodes| && f.nodes[i].SubNode?
    ensures var sub := f.nodes[i].flow;
      FlowSteps(f, []) == head + ([WriteJob([], f.nodes[i])] + (FlowSteps(sub, [sub.self.name]) + tail))
    ensures NodesFiles(f, i) <= NodesFiles(f, 0) && |Writes(head)| == NodesFiles(f, 0) - NodesFiles(f, i)
  {
    var sub := f.nodes[i].flow;
    var n := sub.self.name;
    var pre := NodesStepsSplit(f, 0, i, []);
    var own := [WriteJob([], f.nodes[i])];
    var nestedSteps := FlowSteps(sub, [n]);
    var rest := NodesSteps(f, i + 1, []);
    var props := PropertiesSteps(f.properties, []);
    head := [CheckLast(f)] + pre;
    tail := rest + props;
    assert NodesSteps(f, i, []) == own + nestedSteps + rest by {
      NodesStepsUnfold(f, i, []);
      assert [] + [n] == [n];
    }
    assert FlowSteps(f, []) == [CheckLast(f)] + (pre + (own + nestedSteps + rest)) + props;
    SeqRegroup([CheckLast(f)], pre, own, nestedSteps, rest, props);
    WritesConcat([CheckLast(f)], pre);
  }

  /** A file step written between `a` and `b + c` gives one entry right
      after those of `a`, followed at once by the block of `b`. */
  lemma RenderFileThenBlock(root: string, a: seq<Step>, st: Step, b: seq<Step>, c: seq<Step>)
    requires Render(root, a + ([st] + (b + c))).Success? && !st.CheckLast?
    ensures Render(root, a).Success? && Render(root, b).Success? && Text(FileParams(st)).Success?
    ensures var es := Render(root, a + ([st] + (b + c))).value;
            var k := |Render(root, a).value|;
            var block := Render(root, b).value;
            && k == |Writes(a)|
            && k + 1 + |block| <= |es|
            && es[k] == ZipEntry(FilePath(root, st), Text(FileParams(st)).value)
            && es[k + 1..k + 1 + |block|] == block
  {
    RenderBlock(root, a, [st], b + c);
    RenderCount(root, a);
    assert a + ([st] + (b + c)) == (a + [st]) + (b + c);
    RenderBlock(root, a + [st], b, c);
    RenderConcat(root, a, [st]);
    var es := Render(root, a + ([st] + (b + c))).value;
    var k := |Render(root, a).value|;
    var entry := ZipEntry(FilePath(root, st), Text(FileParams(st)).value);
    assert Render(root, [st]).value == [entry] by {
      assert [st][1..] == [];
    }
    assert es[k..k + 1][0] == es[k];
  }

  /** `SubflowEntriesNested` with the sub-flow's entries as its steps
      written one directory further down. */
  lemma SubflowStepsRendered(f: Flow, basedir: string, i: nat)
    requires Render(basedir, FlowSteps(f, [])).Success?
    requires i < |f.nodes| && f.nodes[i].SubNode?
    ensures NodesFiles(f, i) <= NodesFiles(f, 0) && Text(f.nodes[i].params).Success?
    ensures var sub := f.nodes[i].flow;
            var es := Render(basedir, FlowSteps(f, [])).value;
            var k := NodesFiles(f, 0) - NodesFiles(f, i);
            var block := Render(basedir, FlowSteps(sub, [sub.self.name]));
            && block.Success?
            && k + 1 + |block.value| <= |es|
            && es[k] == ZipEntry(PathJoin(basedir, f.nodes[i].JobFileName()), Text(f.nodes[i].params).value)
            && es[k + 1..k + 1 + |block.value|] == block.value
  {
    var sub := f.nodes[i].flow;
    var head, tail := FlowStepsAround(f, i);
    var st := WriteJob([], f.nodes[i]);
    var b := FlowSteps(sub, [sub.self.name]);
    assert FilePath(basedir, st) == PathJoin(basedir, f.nodes[i].JobFileName());
    RenderFileThenBlock(basedir, head, st, b, tail);
  }

  /** In a flow's entries the job file of a sub-flow at position `i` comes
      right after the files of the jobs before it, and is followed at once
      by the sub-flow's own entries, written in the directory named after
      the sub-flow. */
  lemma SubflowEntriesNested(f: Flow, basedir: string, i: nat)
    requires FlowEntries(f, basedir).Success?
    requires i < |f.nodes| && f.nodes[i].SubNode?
    ensures NodesFiles(f, i) <= NodesFiles(f, 0) && Text(f.nodes[i].params).Success?
    ensures var sub := f.nodes[i].flow;
            var es := FlowEntries(f, basedir).value;
            var k := NodesFiles(f, 0) - NodesFiles(f, i);
            && FlowEntries(sub, PathJoin(basedir, sub.self.name)).Success?
            && var nested := FlowEntries(sub, PathJoin(basedir, sub.self.name)).value;
            && k + 1 + |nested| <= |es|
            && es[k] == ZipEntry(PathJoin(basedir, f.nodes[i].JobFileName()), Text(f.nodes[i].params).value)
            && es[k + 1..k + 1 + |nested|] == nested
  {
    var sub := f.nodes[i].flow;
    SubflowStepsRendered(f, basedir, i);
    FlowEntriesUnder(sub, basedir, sub.self.name);
  }



  // ---------------------------------------------------------------- projects

  /** An Azkaban project: its flows are kept as a set of flow objects, here a
      sequence in which no flow identity occurs twice. */
  datatype Project = Project(name: string, description: string, properties: Option<Properties>, flows: seq<Flow>)

  function FlowIds(fs: seq<Flow>): (r: seq<Job>)
    ensures |r| == |fs|
    ensures forall i :: 0 <= i < |fs| ==> r[i] == fs[i].self
  {
    seq(|fs|, i requires 0 <= i < |fs| => fs[i].self)
  }

  predicate ValidProject(p: Project) {
    Distinct(FlowIds(p.flows))
  }

  /** `Project(name, description, properties)`: no flows yet; TypeError for
      properties that are neither a Properties nor a dict. */
  function NewProject(name: string, description: string, props: PropertiesArg): (r: Result<Project>)
    ensures r.Failure? <==> props.OtherArg?
    ensures r.Failure? ==> r.error == TypeError
    ensures r.Success? ==> ValidProject(r.value) && r.value.flows == [] && r.value.name == name && r.value.description == description
    ensures r.Success? && props.PropertiesDict? ==> r.value.properties == Some(Properties(name, props.dict))
  {
    var properties :- ResolveProperties(name, props);
    Success(Project(name, description, properties, []))
  }

  /** `Project.filename`: `<name>.zip`. */
  function ProjectFileName(p: Project): string {
    p.name + ".zip"
  }

  /** `len(project)`. */
  function Len(p: Project): (n: nat)
    ensures ValidProject(p) ==> n == |set i | 0 <= i < |p.flows| :: p.flows[i].self|
  {
    if ValidProject(p) then
      DistinctCard(FlowIds(p.flows));
      assert (set i | 0 <= i < |p.flows| :: p.flows[i].self) == (set j | j in FlowIds(p.flows));
      |p.flows|
    else |p.flows|
  }

  /** `flow in project`, by identity. */
  predicate Contains(p: Project, j: Job) {
    j in FlowIds(p.flows)
  }

  /** `add_flow`: TypeError for anything but a Flow; otherwise the flow joins
      the set, where adding a flow already there changes nothing but its
      current state; every other flow stays, and no flow but `x`'s joins. */
  function AddFlow(p: Project, x: Node): (r: Result<Project>)
    requires ValidProject(p)
    ensures r.Failure? <==> !x.SubNode?
    ensures r.Failure? ==> r.error == TypeError
    ensures r.Success? ==> var q := r.value;
      && ValidProject(q)
      && q.name == p.name && q.description == p.description && q.properties == p.properties
      && (forall j :: Contains(q, j) <==> Contains(p, j) || j == x.flow.self)
      && x.flow in q.flows
      && (forall i :: 0 <= i < |p.flows| && p.flows[i].self != x.flow.self ==> p.flows[i] in q.flows)
      && (forall g :: g in q.flows ==> g == x.flow || g in p.flows)
      && Len(q) == (if Contains(p, x.flow.self) then Len(p) else Len(p) + 1)
  {
    if !x.SubNode? then Failure(TypeError)
    else
      var g := x.flow;
      if g.self in FlowIds(p.flows) then
        var k :| 0 <= k < |p.flows| && p.flows[k].self == g.self;
        var q := p.(flows := p.flows[k := g]);
        assert FlowIds(q.flows) == FlowIds(p.flows);
        assert q.flows[k] == g;
        assert forall i :: 0 <= i < |p.flows| && i != k ==> q.flows[i] == p.flows[i];
        Success(q)
      else
        var q := p.(flows := p.flows + [g]);
        assert FlowIds(q.flows) == FlowIds(p.flows) + [g.self];
        DistinctSnoc(FlowIds(p.flows), g.self);
        assert q.flows[|p.flows|] == g;
        Success(q)
  }

  /** Adding the same flow twice is the same as adding it once. */
  lemma AddFlowIdempotent(p: Project, x: Node)
    requires ValidProject(p) && x.SubNode?
    ensures AddFlow(AddFlow(p, x).value, x) == AddFlow(p, x)
  {
    var q := AddFlow(p, x).value;
    var g := x.flow;
    var k :| 0 <= k < |q.flows| && q.flows[k] == g;
    assert g.self in FlowIds(q.flows);
    forall k' | 0 <= k' < |q.flows| && q.flows[k'].self == g.self
      ensures q.flows[k' := g] == q.flows
    {
      assert FlowIds(q.flows)[k'] == FlowIds(q.flows)[k];
    }
  }

  // ---------------------------------------------------------------- the zip file

  /** The steps of the given flows, each in the directory named after it. */
  function FlowsSteps(fs: seq<Flow>): seq<Step> {
    if |fs| == 0 then []
    else FlowSteps(fs[0], [fs[0].self.name]) + FlowsSteps(fs[1..])
  }

  /** What `create_zipfile(out_dir, overwrite)` writes and returns: IOError
      when the target exists and overwriting is off; otherwise the files of
      every flow under `<project>/<flow>/`, then the project's properties
      file under `<project>/`, and the target path `<out_dir>/<name>.zip`.
      Whether the target exists is given by the caller. */
  function CreateZipfile(p: Project, outDir: string, targetExists: bool, overwrite: bool): (r: Result<(string, seq<ZipEntry>)>)
    ensures targetExists && !overwrite ==> r == Failure(IOError)
    ensures r.Success? ==> r.value.0 == PathJoin(outDir, ProjectFileName(p))
  {
    var filepath := PathJoin(outDir, ProjectFileName(p));
    if targetExists && !overwrite then Failure(IOError)
    else
      match Render(p.name, FlowsSteps(p.flows) + PropertiesSteps(p.properties, []))
      case Failure(e) => Failure(e)
      case Success(entries) => Success((filepath, entries))
  }

  /** Every flow of the sequence can be archived. */
  predicate AllReady(fs: seq<Flow>) {
    |fs| == 0 || (FlowReady(fs[0]) && AllReady(fs[1..]))
  }

  function AllFiles(fs: seq<Flow>): nat {
    if |fs| == 0 then 0 else FlowFiles(fs[0]) + AllFiles(fs[1..])
  }

  /** Every flow and every name in it is relative. */
  predicate AllRelative(fs: seq<Flow>) {
    |fs| == 0 || (RelativeNames(fs[0]) && !StartsWithSlash(fs[0].self.name) && AllRelative(fs[1..]))
  }

  /** The steps of the flows before the `k`-th, then its own steps in the
      directory named after it, then those of the flows after it. */
  lemma {:induction false} FlowsStepsSplit(fs: seq<Flow>, k: nat)
    requires k < |fs|
    ensures FlowsSteps(fs) == FlowsSteps(fs[..k]) + FlowSteps(fs[k], [fs[k].self.name]) + FlowsSteps(fs[k + 1..])
  {
    if k > 0 {
      var t := fs[1..];
      var first := FlowSteps(fs[0], [fs[0].self.name]);
      FlowsStepsSplit(t, k - 1);
      assert t[..k - 1] == fs[..k][1..] && t[k - 1] == fs[k] && t[k..] == fs[k + 1..];
      assert FlowsSteps(fs[..k]) == first + FlowsSteps(t[..k - 1]);
      SeqAssoc(first, FlowsSteps(t[..k - 1]), FlowSteps(t[k - 1], [t[k - 1].self.name]), FlowsSteps(t[k..]));
    } else {
      assert fs[..0] == [];
    }
  }

  lemma {:induction false} FlowsStepsSpec(fs: seq<Flow>)
    ensures StepsOk(FlowsSteps(fs)) <==> AllReady(fs)
    ensures |Writes(FlowsSteps(fs))| == AllFiles(fs)
    ensures AllRelative(fs) ==> AllStepsRelative(FlowsSteps(fs))
  {
    if |fs| > 0 {
      var dirs := [fs[0].self.name];
      var first := FlowSteps(fs[0], dirs);
      var rest := FlowsSteps(fs[1..]);
      FlowsStepsSpec(fs[1..]);
      FlowStepsOk(fs[0], dirs);
      FlowWrites(fs[0], dirs);
      StepsOkConcat(first, rest);
      WritesConcat(first, rest);
      if AllRelative(fs) {
        FlowStepsRelative(fs[0], dirs);
        AllStepsRelativeConcat(first, rest);
      }
    }
  }

  /** `create_zipfile` writes the archive exactly when overwriting is allowed
      or the target is absent, every flow is ready and the project's
      properties render; it then writes one entry per file, every one of them
      inside the project's directory when no name is absolute. */
  lemma CreateZipfileSpec(p: Project, outDir: string, targetExists: bool, overwrite: bool)
    ensures var r := CreateZipfile(p, outDir, targetExists, overwrite);
      && (r.Success? <==>
            && (!targetExists || overwrite)
            && AllReady(p.flows)
            && (p.properties.Some? ==> Text(p.properties.value.params).Success?))
      && (r.Success? ==> |r.value.1| == AllFiles(p.flows) + (if p.properties.Some? then 1 else 0))
      && (r.Success? && AllRelative(p.flows)
            && (p.properties.Some? ==> !StartsWithSlash(PropertiesFileName(p.properties.value))) ==>
            forall k :: 0 <= k < |r.value.1| ==> IsPrefix(DirPrefix(p.name), r.value.1[k].path))
  {
    var flows := FlowsSteps(p.flows);
    var props := PropertiesSteps(p.properties, []);
    var steps := flows + props;
    FlowsStepsSpec(p.flows);
    StepsOkConcat(flows, props);
    WritesConcat(flows, props);
    RenderSpec(p.name, steps);
    assert |Writes(props)| == |props|;
    assert StepsOk(props) <==> (p.properties.Some? ==> Text(p.properties.value.params).Success?);
    var r := CreateZipfile(p, outDir, targetExists, overwrite);
    if r.Success? && AllRelative(p.flows) && (p.properties.Some? ==> !StartsWithSlash(PropertiesFileName(p.properties.value))) {
      assert AllStepsRelative(props);
      AllStepsRelativeConcat(flows, props);
      RenderedUnder(p.name, steps);
    }
  }

  /** `CreateZipfileLayout` with the flow's entries as its steps written in
      the directory named after it, and any steps `more` after the flows. */
  lemma FlowsBlockRendered(root: string, fs: seq<Flow>, more: seq<Step>, k: nat)
    requires Render(root, FlowsSteps(fs) + more).Success?
    requires k < |fs|
    ensures var es := Render(root, FlowsSteps(fs) + more).value;
            var off := AllFiles(fs[..k]);
            var block := Render(root, FlowSteps(fs[k], [fs[k].self.name]));
            && block.Success?
            && off + |block.value| <= |es|
            && es[off..off + |block.value|] == block.value
  {
    var before, after := FlowsStepsAround(fs, more, k);
    RenderBlock(root, before, FlowSteps(fs[k], [fs[k].self.name]), after);
    RenderCount(root, before);
  }

  /** The steps of the flows, followed by `more`, around the `k`-th flow's:
      those before it, which write the files of the flows before it; its
      own; the rest. */
  lemma FlowsStepsAround(fs: seq<Flow>, more: seq<Step>, k: nat) returns (before: seq<Step>, after: seq<Step>)
    requires k < |fs|
    ensures FlowsSteps(fs) + more == before + (FlowSteps(fs[k], [fs[k].self.name]) + after)
    ensures |Writes(before)| == AllFiles(fs[..k])
  {
    before := FlowsSteps(fs[..k]);
    var own := FlowSteps(fs[k], [fs[k].self.name]);
    var rest := FlowsSteps(fs[k + 1..]);
    after := rest + more;
    FlowsStepsSplit(fs, k);
    SeqAssocRight(before, own, rest, more);
    FlowsStepsSpec(fs[..k]);
  }


  /** In a written archive the entries of the `k`-th flow form one block,
      after the files of the flows before it: the flow's own entries, as
      written under `<project>/<flow>`. */
  lemma CreateZipfileLayout(p: Project, outDir: string, targetExists: bool, overwrite: bool, k: nat)
    requires CreateZipfile(p, outDir, targetExists, overwrite).Success?
    requires k < |p.flows|
    ensures var es := CreateZipfile(p, outDir, targetExists, overwrite).value.1;
            var f := p.flows[k];
            var off := AllFiles(p.flows[..k]);
            && FlowEntries(f, PathJoin(p.name, f.self.name)).Success?
            && var block := FlowEntries(f, PathJoin(p.name, f.self.name)).value;
            && off + |block| <= |es|
            && es[off..off + |block|] == block
  {
    var f := p.flows[k];
    var more := PropertiesSteps(p.properties, []);
    assert CreateZipfile(p, outDir, targetExists, overwrite).value.1 == Render(p.name, FlowsSteps(p.flows) + more).value;
    FlowsBlockRendered(p.name, p.flows, more, k);
    FlowEntriesUnder(f, p.name, f.self.name);
  }

  /** A project with properties has its properties file written last, in
      the project's directory. */
  lemma CreateZipfilePropertiesLast(p: Project, outDir: string, targetExists: bool, overwrite: bool)
    requires CreateZipfile(p, outDir, targetExists, overwrite).Success? && p.properties.Some?
    ensures Text(p.properties.value.params).Success?
    ensures var es := CreateZipfile(p, outDir, targetExists, overwrite).value.1;
      && |es| >= 1
      && es[|es| - 1] == ZipEntry(PathJoin(p.name, PropertiesFileName(p.properties.value)), Text(p.properties.value.params).value)
  {
    var props := PropertiesSteps(p.properties, []);
    RenderConcat(p.name, FlowsSteps(p.flows), props);
    assert Render(p.name, props).value == [ZipEntry(PathJoin(p.name, PropertiesFileName(p.properties.value)), Text(p.properties.value.params).value)];
  }
}
