/**
 Which table a thread comes to use: the one it asked for. A call asks for the table of a type and a
 descent for the one of the type that the field holds, and whatever happens on the way and whoever
 compiles the type, the thread goes on with that table on top of the ones it had.
 */
module CachePaths {
  import opened Bytes
  import opened Cache

  /** A thread on its way: what it was using, and the type it asked for. */
  datatype Aim = Aim(path: seq<nat>, t: nat)

  function AimOf(th: Thread): Option<Aim> {
    match th
    case Using(_) => None
    case Missed(path, t) => Some(Aim(path, t))
    case Entering(path, t) => Some(Aim(path, t))
    case Blocked(path, t) => Some(Aim(path, t))
    case Compiling(path, stack) => if stack == [] then None else Some(Aim(path, stack[0].t))
  }

  /** The thread is still after `aim`, or uses that table on top of the others. */
  predicate OnCourse(th: Thread, aim: Aim) {
    AimOf(th) == Some(aim) || th == Using(aim.path + [aim.t])
  }

  lemma LeaveCourse(s: State, i: nat)
    requires i < |s.threads| && s.threads[i].Compiling? && s.threads[i].stack != []
    ensures OnCourse(Leave(s, i, Top(s.threads[i].stack)).threads[i], AimOf(s.threads[i]).value)
  {
  }

  lemma CompileCourse(g: Graph, s: State, i: nat)
    requires GraphOk(g) && Inv(g, s) && i < |s.threads| && s.threads[i].Compiling? && Do(g, s, i, Go).Some?
    ensures AimOf(s.threads[i]).Some? && OnCourse(Do(g, s, i, Go).value.threads[i], AimOf(s.threads[i]).value)
  {
    var f, u := CompileShape(g, s, i);
    hide Do, Inv, GraphOk, FrameWork;
    LeaveCourse(s, i);
  }

  lemma WaitCourse(g: Graph, s: State, i: nat)
    requires i < |s.threads| && !s.threads[i].Compiling? && !s.threads[i].Using? && Do(g, s, i, Go).Some?
    ensures AimOf(s.threads[i]).Some? && OnCourse(Do(g, s, i, Go).value.threads[i], AimOf(s.threads[i]).value)
  {
    hide CompileStep;
  }

  /** A step of any thread leaves every thread on its course. */
  lemma StepsOnCourse(g: Graph, s: State, i: nat, a: Action, j: nat)
    requires GraphOk(g) && Inv(g, s) && i < |s.threads| && Do(g, s, i, a).Some? && j < |s.threads| && AimOf(s.threads[j]).Some?
    ensures |Do(g, s, i, a).value.threads| == |s.threads|
    ensures OnCourse(Do(g, s, i, a).value.threads[j], AimOf(s.threads[j]).value)
  {
    hide Do, Inv, GraphOk, OnCourse;
    OthersSame(g, s, i, a);
    if i != j {
      StaysOnCourse(s.threads[j]);
    } else {
      GoesOn(g, s, i, a);
      if s.threads[i].Compiling? {
        CompileCourse(g, s, i);
      } else {
        WaitCourse(g, s, i);
      }
    }
  }

  lemma StaysOnCourse(th: Thread)
    requires AimOf(th).Some?
    ensures OnCourse(th, AimOf(th).value)
  {
  }

  lemma GoesOn(g: Graph, s: State, i: nat, a: Action)
    requires i < |s.threads| && AimOf(s.threads[i]).Some? && Do(g, s, i, a).Some?
    ensures a == Go && !s.threads[i].Using?
  {
    hide CompileStep;
  }

  /** The type that a thread asks for: the one it calls for, or the one that the field of its innermost table holds. */
  ghost predicate Asks(g: Graph, path: seq<nat>, a: Action, t: nat) {
    match a
    case Call(u) => t == u
    case Descend(k) => path != [] && k < |g.items(path[|path| - 1])| && g.items(path[|path| - 1])[k] == Nested(t)
    case Return => false
    case Go => false
  }

  /** Asking for a table sets a thread on its course to it. */
  lemma AskedFor(g: Graph, s: State, i: nat, a: Action)
    requires GraphOk(g) && Inv(g, s) && i < |s.threads| && s.threads[i].Using? && Do(g, s, i, a).Some? && (a.Call? || a.Descend?)
    ensures exists t :: Asks(g, s.threads[i].path, a, t) && OnCourse(Do(g, s, i, a).value.threads[i], Aim(s.threads[i].path, t))
  {
    var path := s.threads[i].path;
    assert ThreadOk(g, s, i);
    if a.Descend? {
      var u := path[|path| - 1];
      assert u in s.cache && TableOk(g, s.cache, u);
      var fields := s.cache[u].fields;
      assert InstOk(s.cache, g.items(u)[a.field], fields[a.field]);
      assert TableOk(g, s.cache, fields[a.field].t);
      assert Asks(g, path, a, fields[a.field].t);
    } else {
      assert Asks(g, path, a, a.t);
    }
  }

  /** A field that leads to a table is compiled to wait for it exactly if that table was still open when it was looked at. */
  lemma WaitsIfOpen(g: Graph, s: State, i: nat)
    requires Inv(g, s) && i < |s.threads| && s.threads[i].Compiling? && s.threads[i].stack != [] && Do(g, s, i, Go).Some?
    ensures var f, th := Top(s.threads[i].stack), Do(g, s, i, Go).value.threads[i];
            && (f.phase.CheckDone? && s.cache[f.phase.t].done ==>
                  th.Compiling? && th.stack != [] && Top(th.stack).acc == f.acc + [MessageField(f.phase.t, false)])
            && (f.phase.CheckDone? && !s.cache[f.phase.t].done ==>
                  th.Compiling? && th.stack != [] && Top(th.stack) == f.(phase := CheckClosed(f.phase.t)))
            && (f.phase.CheckClosed? ==>
                  th.Compiling? && th.stack != [] && Top(th.stack).acc == f.acc + [MessageField(f.phase.t, !s.cache[f.phase.t].closed)])
  {
    AtTop(g, s, i);
    var f := Top(s.threads[i].stack);
    if f.phase.CheckDone? || f.phase.CheckClosed? {
      assert TableOk(g, s.cache, f.phase.t);
    }
    hide Inv, FieldStep, Publish, InstsOk, Complete;
  }

  // ---------------------------------------------------------------- runs

  lemma {:induction false} SameThreads(g: Graph, run: seq<State>, j: nat, k: nat)
    requires IsRun(g, run) && j <= k < |run|
    ensures |run[k].threads| == |run[j].threads|
    decreases k - j
  {
    hide Do, Init;
    if j < k {
      assert Step(g, run[j], run[j + 1]);
      var i: nat, a :| i < |run[j].threads| && Do(g, run[j], i, a) == Some(run[j + 1]);
      OthersSame(g, run[j], i, a);
      SameThreads(g, run, j + 1, k);
    }
  }

  /** A thread stays on its course until it uses a table. */
  lemma {:induction false} KeepsCourse(g: Graph, run: seq<State>, j: nat, k: nat, i: nat, aim: Aim)
    requires GraphOk(g) && IsRun(g, run) && j <= k < |run| && i < |run[j].threads| && OnCourse(run[j].threads[i], aim)
    requires forall l :: j <= l < k ==> i < |run[l].threads| && !run[l].threads[i].Using?
    ensures i < |run[k].threads| && OnCourse(run[k].threads[i], aim)
    decreases k - j
  {
    if j < k {
      RunInv(g, run, j);
      assert Step(g, run[j], run[j + 1]);
      var n: nat, a :| n < |run[j].threads| && Do(g, run[j], n, a) == Some(run[j + 1]);
      assert AimOf(run[j].threads[i]) == Some(aim);
      hide Do, Inv, GraphOk, IsRun, OnCourse;
      StepsOnCourse(g, run[j], n, a, i);
      KeepsCourse(g, run, j + 1, k, i, aim);
    }
  }

  /**
   The next table that a thread uses after it has called for a type, or descended into a field, is the
   one of that type, through misses, waits and compilations, and on top of those it was using.
   */
  lemma ReachesItsTable(g: Graph, run: seq<State>, j: nat, k: nat, i: nat, a: Action)
    requires GraphOk(g) && IsRun(g, run) && j < k < |run| && i < |run[j].threads| && run[j].threads[i].Using?
    requires (a.Call? || a.Descend?) && Do(g, run[j], i, a) == Some(run[j + 1])
    requires forall l :: j < l < k ==> i < |run[l].threads| && !run[l].threads[i].Using?
    requires i < |run[k].threads| && run[k].threads[i].Using?
    ensures exists t :: Asks(g, run[j].threads[i].path, a, t) && run[k].threads[i] == Using(run[j].threads[i].path + [t])
  {
    RunInv(g, run, j);
    SameThreads(g, run, j, j + 1);
    hide Do, Inv, GraphOk, IsRun, Asks;
    AskedFor(g, run[j], i, a);
    var t :| Asks(g, run[j].threads[i].path, a, t) && OnCourse(run[j + 1].threads[i], Aim(run[j].threads[i].path, t));
    KeepsCourse(g, run, j + 1, k, i, Aim(run[j].threads[i].path, t));
  }

  /** Behind that table the thread goes back to the tables it was using when it asked. */
  lemma ComesBack(g: Graph, run: seq<State>, j: nat, k: nat, i: nat, a: Action)
    requires GraphOk(g) && IsRun(g, run) && j < k < |run| - 1 && i < |run[j].threads| && run[j].threads[i].Using?
    requires (a.Call? || a.Descend?) && Do(g, run[j], i, a) == Some(run[j + 1])
    requires forall l :: j < l < k ==> i < |run[l].threads| && !run[l].threads[i].Using?
    requires i < |run[k].threads| && run[k].threads[i].Using? && Do(g, run[k], i, Return) == Some(run[k + 1])
    ensures i < |run[k + 1].threads| && run[k + 1].threads[i] == run[j].threads[i]
  {
    ReachesItsTable(g, run, j, k, i, a);
    hide Asks, IsRun, GraphOk;
    var path := run[j].threads[i].path;
    var t :| Asks(g, path, a, t) && run[k].threads[i] == Using(path + [t]);
    assert (path + [t])[..|path + [t]| - 1] == path;
  }

  // ---------------------------------------------------------------- linked paths

  /** A run together with who took each step and how. */
  ghost predicate IsTrace(g: Graph, run: seq<State>, steps: seq<(nat, Action)>) {
    && run != [] && Init(run[0]) && |steps| == |run| - 1
    && forall k :: 0 <= k < |steps| ==> steps[k].0 < |run[k].threads| && Do(g, run[k], steps[k].0, steps[k].1) == Some(run[k + 1])
  }

  /** Threads call for a table only where they use none: inner tables are reached through fields. */
  ghost predicate CallsAtTop(run: seq<State>, steps: seq<(nat, Action)>)
    requires |steps| < |run|
  {
    forall k :: 0 <= k < |steps| && steps[k].1.Call? ==> steps[k].0 < |run[k].threads| && run[k].threads[steps[k].0] == Using([])
  }

  /** A field of the type `t` leads to `u`. */
  ghost predicate LeadsTo(g: Graph, t: nat, u: nat) {
    exists k :: 0 <= k < |g.items(t)| && g.items(t)[k] == Nested(u)
  }

  /** Each table on the path is the one of a field of the table before. */
  ghost predicate Linked(g: Graph, path: seq<nat>) {
    forall p :: 0 <= p < |path| - 1 ==> LeadsTo(g, path[p], path[p + 1])
  }

  ghost predicate LinkedThread(g: Graph, th: Thread) {
    Linked(g, match AimOf(th) case Some(aim) => aim.path + [aim.t] case None => th.path)
  }

  lemma CourseLinked(g: Graph, th: Thread, aim: Aim)
    requires OnCourse(th, aim) && Linked(g, aim.path + [aim.t])
    ensures LinkedThread(g, th)
  {
    hide Linked;
  }

  lemma AskLinked(g: Graph, path: seq<nat>, a: Action, t: nat)
    requires Linked(g, path) && Asks(g, path, a, t) && (a.Call? ==> path == [])
    ensures Linked(g, path + [t])
  {
    if a.Descend? {
      var all := path + [t];
      assert LeadsTo(g, path[|path| - 1], t);
      forall p | 0 <= p < |all| - 1 ensures LeadsTo(g, all[p], all[p + 1]) {
        if p < |path| - 1 {
          assert LeadsTo(g, path[p], path[p + 1]);
        }
      }
    }
  }

  lemma ReturnLinked(g: Graph, s: State, i: nat)
    requires i < |s.threads| && s.threads[i].Using? && Do(g, s, i, Return).Some? && Linked(g, s.threads[i].path)
    ensures LinkedThread(g, Do(g, s, i, Return).value.threads[i])
  {
    hide LeadsTo;
  }

  lemma UsingGoesNowhere(g: Graph, s: State, i: nat)
    requires i < |s.threads| && s.threads[i].Using?
    ensures Do(g, s, i, Go).None?
  {
  }

  lemma StepLinked(g: Graph, s: State, i: nat, a: Action, j: nat)
    requires GraphOk(g) && Inv(g, s) && i < |s.threads| && Do(g, s, i, a).Some? && j < |s.threads|
    requires (a.Call? ==> s.threads[i] == Using([])) && LinkedThread(g, s.threads[j])
    ensures |Do(g, s, i, a).value.threads| == |s.threads| && LinkedThread(g, Do(g, s, i, a).value.threads[j])
  {
    hide Do, Inv, GraphOk, Linked, OnCourse, Asks;
    OthersSame(g, s, i, a);
    if i == j {
      if AimOf(s.threads[i]).Some? {
        StepsOnCourse(g, s, i, a, i);
        CourseLinked(g, Do(g, s, i, a).value.threads[i], AimOf(s.threads[i]).value);
      } else {
        NoAim(g, s, i);
        if a.Return? {
          ReturnLinked(g, s, i);
        } else if a.Go? {
          UsingGoesNowhere(g, s, i);
        } else {
          AskedFor(g, s, i, a);
          var t :| Asks(g, s.threads[i].path, a, t) && OnCourse(Do(g, s, i, a).value.threads[i], Aim(s.threads[i].path, t));
          AskLinked(g, s.threads[i].path, a, t);
          CourseLinked(g, Do(g, s, i, a).value.threads[i], Aim(s.threads[i].path, t));
        }
      }
    }
  }

  lemma NoAim(g: Graph, s: State, i: nat)
    requires Inv(g, s) && i < |s.threads| && AimOf(s.threads[i]).None?
    ensures s.threads[i].Using?
  {
    if s.threads[i].Compiling? {
      CompilingOk(g, s, i);
    }
  }

  lemma TraceIsRun(g: Graph, run: seq<State>, steps: seq<(nat, Action)>)
    requires IsTrace(g, run, steps)
    ensures IsRun(g, run)
  {
    hide Do, Init;
    forall k | 0 <= k < |run| - 1 ensures Step(g, run[k], run[k + 1]) {
      assert Do(g, run[k], steps[k].0, steps[k].1) == Some(run[k + 1]);
    }
  }

  lemma StartLinked(g: Graph, run: seq<State>, steps: seq<(nat, Action)>, i: nat)
    requires IsTrace(g, run, steps) && i < |run[0].threads|
    ensures LinkedThread(g, run[0].threads[i])
  {
    hide Do;
  }

  lemma TraceStep(g: Graph, run: seq<State>, steps: seq<(nat, Action)>, k: nat)
    requires IsTrace(g, run, steps) && CallsAtTop(run, steps) && k < |run| - 1
    ensures |steps| == |run| - 1 && steps[k].0 < |run[k].threads|
    ensures Do(g, run[k], steps[k].0, steps[k].1) == Some(run[k + 1])
    ensures steps[k].1.Call? ==> run[k].threads[steps[k].0] == Using([])
  {
    hide Do, Init;
  }

  /** Where calls are made at the top only, each table on a path is the one of a field of the table before. */
  lemma {:induction false} PathsLinked(g: Graph, run: seq<State>, steps: seq<(nat, Action)>, k: nat, i: nat)
    requires GraphOk(g) && IsTrace(g, run, steps) && CallsAtTop(run, steps) && k < |run| && i < |run[k].threads|
    ensures LinkedThread(g, run[k].threads[i])
  {
    hide *;
    if k == 0 {
      StartLinked(g, run, steps, i);
    } else {
      TraceStep(g, run, steps, k - 1);
      var n, a := steps[k - 1].0, steps[k - 1].1;
      TraceIsRun(g, run, steps);
      RunInv(g, run, k - 1);
      OthersSame(g, run[k - 1], n, a);
      PathsLinked(g, run, steps, k - 1, i);
      StepLinked(g, run[k - 1], n, a, i);
    }
  }
}
