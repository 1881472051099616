/**
 The cache of message tables as a protocol between threads. A thread that misses in the cache inserts
 a placeholder and compiles the type, descending into the types of its message fields; whoever else
 needs the table waits for it, unless it was complete when the field that leads to it was compiled.
 One step is what a thread does between two points where another may come in.
 */
module Cache {
  import opened Bytes

  /** What compiling one field comes to: a plain instruction, one that leads to a table, or a shape that is not supported. */
  datatype Item = Plain | Nested(t: nat) | Unsupported

  /** The message types; `proto` tells whether a struct type is a message at all. */
  datatype Graph = Graph(types: set<nat>, items: nat -> seq<Item>, proto: nat -> bool)

  ghost predicate GraphOk(g: Graph) {
    forall t, k :: t in g.types && 0 <= k < |g.items(t)| && g.items(t)[k].Nested? ==> g.items(t)[k].t in g.types
  }

  datatype Inst = PlainField | MessageField(t: nat, needsWait: bool)

  /** MessageTable; `closed` is the state of the `ready` channel. */
  datatype Table = Table(fields: seq<Inst>, useProtojson: bool, err: bool, done: bool, closed: bool)

  const PLACEHOLDER: Table := Table([], false, false, false, false)

  /** Where a compilation stands. The phases from `WriteFields` on run under the mutex. */
  datatype Phase =
    | Fields
    | CheckDone(t: nat)
    | CheckClosed(t: nat)
    | NeedLock
    | WriteFields
    | WriteErr
    | StoreDone
    | CloseReady
    | Unlock

  /** An activation of compileTable for type `t`, `next` fields on. */
  datatype Frame = Frame(t: nat, next: nat, acc: seq<Inst>, useProtojson: bool, failed: bool, phase: Phase)

  /** What a thread does; `path` lists the tables it is marshalling or unmarshalling with, outermost first. */
  datatype Thread =
    | Using(path: seq<nat>)
    | Missed(path: seq<nat>, t: nat)
    | Compiling(path: seq<nat>, stack: seq<Frame>)
    | Entering(path: seq<nat>, t: nat)
    | Blocked(path: seq<nat>, t: nat)

  /** `owner` remembers which thread started to compile each type. */
  datatype State = State(cache: map<nat, Table>, mutex: Option<nat>, threads: seq<Thread>, owner: map<nat, nat>)

  datatype Action = Call(t: nat) | Descend(field: nat) | Return | Go

  // ---------------------------------------------------------------- steps

  function NewFrame(g: Graph, t: nat): Frame {
    if g.proto(t) then Frame(t, 0, [], false, false, Fields) else Frame(t, 0, [], true, false, NeedLock)
  }

  function Top(stack: seq<Frame>): Frame
    requires stack != []
  {
    stack[|stack| - 1]
  }

  function SetTop(stack: seq<Frame>, f: Frame): (r: seq<Frame>)
    requires stack != []
    ensures |r| == |stack| && Top(r) == f
  {
    stack[|stack| - 1 := f]
  }

  /** Append the instruction of a nested field, unless the nested table has failed. */
  function Record(f: Frame, u: nat, ready: bool, err: bool): Frame {
    if ready && err then f.(failed := true, phase := NeedLock)
    else f.(acc := f.acc + [MessageField(u, !ready)], next := f.next + 1, phase := Fields)
  }

  function SetThread(s: State, i: nat, th: Thread): (r: State)
    requires i < |s.threads|
    ensures |r.threads| == |s.threads|
  {
    s.(threads := s.threads[i := th])
  }

  function SetTable(s: State, t: nat, table: Table): State {
    s.(cache := s.cache[t := table])
  }

  function Insert(s: State, i: nat, t: nat): State {
    s.(cache := s.cache[t := PLACEHOLDER], owner := s.owner[t := i])
  }

  /** The table after one publishing phase, and the phase that follows. */
  function Publish(f: Frame, table: Table): (Table, Phase) {
    if f.phase.WriteFields? then
      (if f.failed then table else table.(fields := f.acc, useProtojson := f.useProtojson), WriteErr)
    else if f.phase.WriteErr? then (table.(err := f.failed), StoreDone)
    else if f.phase.StoreDone? then (table.(done := true), CloseReady)
    else (table.(closed := true), Unlock)
  }

  function TurnTop(s: State, i: nat, f: Frame): State
    requires i < |s.threads| && s.threads[i].Compiling? && s.threads[i].stack != []
  {
    SetThread(s, i, s.threads[i].(stack := SetTop(s.threads[i].stack, f)))
  }

  /** The next field of the message type. */
  function FieldStep(g: Graph, s: State, i: nat, f: Frame): Option<State>
    requires i < |s.threads| && s.threads[i].Compiling? && s.threads[i].stack != []
  {
    if f.next >= |g.items(f.t)| then Some(TurnTop(s, i, f.(phase := NeedLock)))
    else
      match g.items(f.t)[f.next]
      case Plain => Some(TurnTop(s, i, f.(acc := f.acc + [PlainField], next := f.next + 1)))
      case Unsupported => Some(TurnTop(s, i, f.(useProtojson := true, phase := NeedLock)))
      case Nested(u) =>
        if s.mutex.Some? then None
        else
          var r := TurnTop(s, i, f.(phase := CheckDone(u)));
          if u in s.cache then Some(r)
          else Some(SetThread(Insert(r, i, u), i, r.threads[i].(stack := r.threads[i].stack + [NewFrame(g, u)])))
  }

  /** The thread gives up the mutex and returns to the field it came from, or from getTable. */
  function Leave(s: State, i: nat, f: Frame): State
    requires i < |s.threads| && s.threads[i].Compiling? && s.threads[i].stack != []
  {
    var path, stack := s.threads[i].path, s.threads[i].stack;
    SetThread(s.(mutex := None), i,
              if |stack| == 1 then Using(path + [f.t]) else Compiling(path, stack[..|stack| - 1]))
  }

  /** One step of the compilation whose stack this is. */
  function CompileStep(g: Graph, s: State, i: nat): Option<State>
    requires i < |s.threads| && s.threads[i].Compiling? && s.threads[i].stack != []
  {
    var f := Top(s.threads[i].stack);
    match f.phase
    case Fields => FieldStep(g, s, i, f)
    case CheckDone(u) =>
      if u !in s.cache then None
      else if s.cache[u].done then Some(TurnTop(s, i, Record(f, u, true, s.cache[u].err)))
      else Some(TurnTop(s, i, f.(phase := CheckClosed(u))))
    case CheckClosed(u) =>
      if u !in s.cache then None else Some(TurnTop(s, i, Record(f, u, s.cache[u].closed, s.cache[u].err)))
    case NeedLock =>
      if s.mutex.Some? then None else Some(TurnTop(s.(mutex := Some(i)), i, f.(phase := WriteFields)))
    case Unlock => Some(Leave(s, i, f))
    case _ =>
      if f.t !in s.cache then None
      else
        var (table, phase) := Publish(f, s.cache[f.t]);
        Some(TurnTop(SetTable(s, f.t, table), i, f.(phase := phase)))
  }

  /** What thread `i` can do next, if anything. */
  function Do(g: Graph, s: State, i: nat, a: Action): Option<State>
    requires i < |s.threads|
  {
    match s.threads[i]
    case Using(path) =>
      (match a
       case Call(t) =>
         if s.mutex.Some? || t !in g.types then None
         else Some(SetThread(s, i, if t in s.cache then Entering(path, t) else Missed(path, t)))
       case Descend(k) =>
         if path == [] || path[|path| - 1] !in s.cache then None
         else
           var fields := s.cache[path[|path| - 1]].fields;
           if k >= |fields| || fields[k].PlainField? then None
           else if fields[k].needsWait then Some(SetThread(s, i, Entering(path, fields[k].t)))
           else if fields[k].t in s.cache && s.cache[fields[k].t].err then Some(s)
           else Some(SetThread(s, i, Using(path + [fields[k].t])))
       case Return => if path == [] then None else Some(SetThread(s, i, Using(path[..|path| - 1])))
       case Go => None)
    case Missed(path, t) =>
      if a != Go || s.mutex.Some? then None
      else if t in s.cache then Some(SetThread(s, i, Entering(path, t)))
      else Some(SetThread(Insert(s, i, t), i, Compiling(path, [Frame(t, 0, [], false, false, Fields)])))
    case Entering(path, t) =>
      if a != Go || t !in s.cache then None
      else if s.cache[t].done then Some(SetThread(s, i, Using(path + [t])))
      else Some(SetThread(s, i, Blocked(path, t)))
    case Blocked(path, t) =>
      if a != Go || t !in s.cache || !s.cache[t].closed then None
      else Some(SetThread(s, i, Using(path + [t])))
    case Compiling(_, stack) => if a != Go || stack == [] then None else CompileStep(g, s, i)
  }

  ghost predicate Step(g: Graph, s: State, s': State) {
    exists i: nat, a :: i < |s.threads| && Do(g, s, i, a) == Some(s')
  }

  ghost predicate Init(s: State) {
    s.cache == map[] && s.owner == map[] && s.mutex == None && forall i :: 0 <= i < |s.threads| ==> s.threads[i] == Using([])
  }

  ghost predicate IsRun(g: Graph, run: seq<State>) {
    run != [] && Init(run[0]) && forall k :: 0 <= k < |run| - 1 ==> Step(g, run[k], run[k + 1])
  }

  // ---------------------------------------------------------------- invariant

  /** The instruction stands for this item, and a field that need not wait leads to a complete table. */
  predicate InstOk(cache: map<nat, Table>, item: Item, inst: Inst) {
    match inst
    case PlainField => item.Plain?
    case MessageField(t, needsWait) => item == Nested(t) && t in cache && (!needsWait ==> cache[t].done)
  }

  predicate InstsOk(g: Graph, cache: map<nat, Table>, t: nat, insts: seq<Inst>) {
    |insts| <= |g.items(t)| && forall k :: 0 <= k < |insts| ==> InstOk(cache, g.items(t)[k], insts[k])
  }

  /** Every field has been compiled up to the first that is not supported. */
  predicate Complete(g: Graph, cache: map<nat, Table>, t: nat, insts: seq<Inst>, useProtojson: bool) {
    && InstsOk(g, cache, t, insts)
    && (if useProtojson then !g.proto(t) || (|insts| < |g.items(t)| && g.items(t)[|insts|].Unsupported?)
        else |insts| == |g.items(t)|)
  }

  predicate TableOk(g: Graph, cache: map<nat, Table>, t: nat)
    requires t in cache
  {
    && !cache[t].err
    && (cache[t].closed ==> cache[t].done)
    && (cache[t].done ==> Complete(g, cache, t, cache[t].fields, cache[t].useProtojson))
  }

  /** Compiled but not published, that is, `fields` is written in this phase or later. */
  predicate Written(p: Phase) {
    p.WriteErr? || p.StoreDone? || p.CloseReady? || p.Unlock?
  }

  predicate Locked(p: Phase) {
    p.WriteFields? || Written(p)
  }

  predicate FrameOk(g: Graph, cache: map<nat, Table>, f: Frame) {
    && f.t in cache && f.t in g.types && !f.failed
    && InstsOk(g, cache, f.t, f.acc) && |f.acc| == f.next
    && (cache[f.t].done <==> f.phase.CloseReady? || f.phase.Unlock?)
    && (cache[f.t].closed <==> f.phase.Unlock?)
    && (f.phase.Fields? ==> !f.useProtojson)
    && (f.phase.CheckDone? || f.phase.CheckClosed? ==>
          !f.useProtojson && f.next < |g.items(f.t)| && g.items(f.t)[f.next] == Nested(f.phase.t) && f.phase.t in cache)
    && (f.phase.NeedLock? || Locked(f.phase) ==> Complete(g, cache, f.t, f.acc, f.useProtojson))
    && (Written(f.phase) ==> cache[f.t].fields == f.acc && cache[f.t].useProtojson == f.useProtojson)
  }

  predicate StackOk(g: Graph, cache: map<nat, Table>, owner: map<nat, nat>, i: nat, stack: seq<Frame>) {
    && stack != []
    && (forall j :: 0 <= j < |stack| ==> FrameOk(g, cache, stack[j]) && stack[j].t in owner && owner[stack[j].t] == i)
    && (forall j :: 0 <= j < |stack| - 1 ==> stack[j].phase.CheckDone?)
    && (forall j, k :: 0 <= j < k < |stack| ==> stack[j].t != stack[k].t)
  }

  predicate PathOk(cache: map<nat, Table>, path: seq<nat>) {
    forall k :: 0 <= k < |path| ==> path[k] in cache && cache[path[k]].done
  }

  predicate ThreadOk(g: Graph, s: State, i: nat)
    requires i < |s.threads|
  {
    match s.threads[i]
    case Using(path) => PathOk(s.cache, path) && s.mutex != Some(i)
    case Missed(path, t) => PathOk(s.cache, path) && t in g.types && s.mutex != Some(i)
    case Entering(path, t) => PathOk(s.cache, path) && t in s.cache && s.mutex != Some(i)
    case Blocked(path, t) => PathOk(s.cache, path) && t in s.cache && s.mutex != Some(i)
    case Compiling(path, stack) =>
      PathOk(s.cache, path) && StackOk(g, s.cache, s.owner, i, stack) && (s.mutex == Some(i) <==> Locked(Top(stack).phase))
  }

  /** The thread is compiling `t`. */
  predicate Compiles(th: Thread, t: nat) {
    th.Compiling? && exists j :: 0 <= j < |th.stack| && th.stack[j].t == t
  }

  /** Whoever started on a table that is not closed yet is still at it. */
  predicate OwnerOk(s: State, t: nat)
    requires t in s.cache
  {
    t in s.owner && s.owner[t] < |s.threads| && (!s.cache[t].closed ==> Compiles(s.threads[s.owner[t]], t))
  }

  ghost predicate Inv(g: Graph, s: State) {
    && (forall i :: 0 <= i < |s.threads| ==> ThreadOk(g, s, i))
    && (forall t :: t in s.cache ==> t in g.types && TableOk(g, s.cache, t) && OwnerOk(s, t))
    && s.owner.Keys == s.cache.Keys
    && (s.mutex.Some? ==> s.mutex.value < |s.threads|)
  }

  // ---------------------------------------------------------------- what a step leaves alone

  /** Tables stay in the cache and stay done. */
  ghost predicate Later(cache: map<nat, Table>, cache': map<nat, Table>) {
    forall t :: t in cache ==> t in cache' && (cache[t].done ==> cache'[t].done)
  }

  lemma LaterInsts(g: Graph, cache: map<nat, Table>, cache': map<nat, Table>, t: nat, insts: seq<Inst>)
    requires Later(cache, cache') && InstsOk(g, cache, t, insts)
    ensures InstsOk(g, cache', t, insts)
  {
    forall k | 0 <= k < |insts| ensures InstOk(cache', g.items(t)[k], insts[k]) {
      assert InstOk(cache, g.items(t)[k], insts[k]);
    }
  }

  lemma LaterTable(g: Graph, cache: map<nat, Table>, cache': map<nat, Table>, t: nat)
    requires Later(cache, cache') && t in cache && TableOk(g, cache, t) && t in cache' && cache'[t] == cache[t]
    ensures TableOk(g, cache', t)
  {
    if cache[t].done {
      LaterInsts(g, cache, cache', t, cache[t].fields);
    }
  }

  lemma LaterFrame(g: Graph, cache: map<nat, Table>, cache': map<nat, Table>, f: Frame)
    requires Later(cache, cache') && FrameOk(g, cache, f) && cache'[f.t] == cache[f.t]
    ensures FrameOk(g, cache', f)
  {
    LaterInsts(g, cache, cache', f.t, f.acc);
  }

  lemma LaterStack(g: Graph, s: State, s': State, i: nat, stack: seq<Frame>)
    requires Later(s.cache, s'.cache) && StackOk(g, s.cache, s.owner, i, stack)
    requires forall t :: t in s.owner ==> t in s'.owner && s'.owner[t] == s.owner[t]
    requires forall j :: 0 <= j < |stack| ==> s'.cache[stack[j].t] == s.cache[stack[j].t]
    ensures StackOk(g, s'.cache, s'.owner, i, stack)
  {
    forall j | 0 <= j < |stack| ensures FrameOk(g, s'.cache, stack[j]) {
      LaterFrame(g, s.cache, s'.cache, stack[j]);
    }
  }

  /** The step of thread `i` leaves the tables and the control of the others alone. */
  ghost predicate Local(s: State, s': State, i: nat) {
    && i < |s.threads| == |s'.threads|
    && (forall j :: 0 <= j < |s.threads| && j != i ==> s'.threads[j] == s.threads[j])
    && Later(s.cache, s'.cache)
    && (forall t :: t in s.owner ==> t in s'.owner && s'.owner[t] == s.owner[t])
    && (forall t :: t in s.cache && t in s.owner && s.owner[t] != i ==> s'.cache[t] == s.cache[t])
    && (s'.mutex == s.mutex || (s.mutex == None && s'.mutex == Some(i)) || (s.mutex == Some(i) && s'.mutex == None))
  }

  lemma OtherThread(g: Graph, s: State, s': State, i: nat, j: nat)
    requires Local(s, s', i) && j < |s.threads| && j != i && ThreadOk(g, s, j)
    ensures ThreadOk(g, s', j)
  {
    match s.threads[j]
    case Compiling(path, stack) => LaterStack(g, s, s', j, stack);
    case _ =>
  }

  /** What is left to show of a local step. */
  lemma Assemble(g: Graph, s: State, s': State, i: nat)
    requires Inv(g, s) && Local(s, s', i) && ThreadOk(g, s', i) && s'.owner.Keys == s'.cache.Keys
    requires forall t :: t in s'.cache && (t !in s.cache || s.owner[t] == i) ==> t in g.types && TableOk(g, s'.cache, t) && OwnerOk(s', t)
    ensures Inv(g, s')
  {
    forall j | 0 <= j < |s.threads| && j != i ensures ThreadOk(g, s', j) {
      OtherThread(g, s, s', i, j);
    }
    forall t | t in s'.cache && t in s.cache && s.owner[t] != i
      ensures t in g.types && TableOk(g, s'.cache, t) && OwnerOk(s', t)
    {
      assert OwnerOk(s, t);
      LaterTable(g, s.cache, s'.cache, t);
    }
  }

  // ---------------------------------------------------------------- steps without a change to the cache

  /** Only the control of thread `i` and the mutex change. */
  ghost predicate Quiet(s: State, s': State, i: nat) {
    && i < |s.threads| == |s'.threads| && s'.cache == s.cache && s'.owner == s.owner
    && (forall j :: 0 <= j < |s.threads| && j != i ==> s'.threads[j] == s.threads[j])
    && (s'.mutex == s.mutex || (s.mutex == None && s'.mutex == Some(i)) || (s.mutex == Some(i) && s'.mutex == None))
  }

  lemma QuietStep(g: Graph, s: State, s': State, i: nat)
    requires Inv(g, s) && Quiet(s, s', i) && ThreadOk(g, s', i)
    requires forall t :: t in s.cache && !s.cache[t].closed && Compiles(s.threads[i], t) ==> Compiles(s'.threads[i], t)
    ensures Inv(g, s')
  {
    forall t | t in s'.cache && s.owner[t] == i ensures t in g.types && TableOk(g, s'.cache, t) && OwnerOk(s', t) {
      assert OwnerOk(s, t);
    }
    Assemble(g, s, s', i);
  }

  lemma PathPush(cache: map<nat, Table>, path: seq<nat>, t: nat)
    requires PathOk(cache, path) && t in cache && cache[t].done
    ensures PathOk(cache, path + [t])
  {
  }

  lemma UsingStep(g: Graph, s: State, i: nat, a: Action)
    requires Inv(g, s) && i < |s.threads| && s.threads[i].Using? && Do(g, s, i, a).Some?
    ensures Inv(g, Do(g, s, i, a).value)
  {
    var s' := Do(g, s, i, a).value;
    var path := s.threads[i].path;
    assert ThreadOk(g, s, i);
    if a.Descend? {
      var t := path[|path| - 1];
      assert TableOk(g, s.cache, t);
      assert InstOk(s.cache, g.items(t)[a.field], s.cache[t].fields[a.field]);
    }
    QuietStep(g, s, s', i);
  }

  lemma WaitingStep(g: Graph, s: State, i: nat)
    requires Inv(g, s) && i < |s.threads| && (s.threads[i].Entering? || s.threads[i].Blocked?) && Do(g, s, i, Go).Some?
    ensures Inv(g, Do(g, s, i, Go).value)
  {
    var s' := Do(g, s, i, Go).value;
    var t := s.threads[i].t;
    assert ThreadOk(g, s, i) && TableOk(g, s.cache, t);
    if s.cache[t].done {
      PathPush(s.cache, s.threads[i].path, t);
    }
    QuietStep(g, s, s', i);
  }

  // ---------------------------------------------------------------- compiling

  /** Replacing the top frame of a stack. */
  lemma TopStack(g: Graph, cache: map<nat, Table>, owner: map<nat, nat>, i: nat, stack: seq<Frame>, f: Frame)
    requires StackOk(g, cache, owner, i, stack) && f.t == Top(stack).t && FrameOk(g, cache, f)
    ensures StackOk(g, cache, owner, i, SetTop(stack, f))
  {
    var r := SetTop(stack, f);
    assert forall j :: 0 <= j < |stack| ==> r[j].t == stack[j].t;
    assert forall j :: 0 <= j < |stack| - 1 ==> r[j] == stack[j];
  }

  lemma TopCompiles(th: Thread, f: Frame, t: nat)
    requires th.Compiling? && th.stack != [] && f.t == Top(th.stack).t && Compiles(th, t)
    ensures Compiles(th.(stack := SetTop(th.stack, f)), t)
  {
    var j :| 0 <= j < |th.stack| && th.stack[j].t == t;
    assert SetTop(th.stack, f)[j].t == t;
  }

  /** A step that changes only the top frame, and perhaps takes the mutex. */
  lemma TurnStep(g: Graph, s: State, i: nat, f: Frame, mutex: Option<nat>)
    requires Inv(g, s) && i < |s.threads| && s.threads[i].Compiling? && s.threads[i].stack != []
    requires f.t == Top(s.threads[i].stack).t && FrameOk(g, s.cache, f)
    requires mutex == s.mutex || (s.mutex == None && mutex == Some(i))
    requires mutex == Some(i) <==> Locked(f.phase)
    ensures Inv(g, TurnTop(s.(mutex := mutex), i, f))
  {
    var s' := TurnTop(s.(mutex := mutex), i, f);
    assert ThreadOk(g, s, i);
    TopStack(g, s.cache, s.owner, i, s.threads[i].stack, f);
    forall t | t in s.cache && !s.cache[t].closed && Compiles(s.threads[i], t) ensures Compiles(s'.threads[i], t) {
      TopCompiles(s.threads[i], f, t);
    }
    QuietStep(g, s, s', i);
  }

  /** The frame a compiling thread is at. */
  lemma AtTop(g: Graph, s: State, i: nat)
    requires Inv(g, s) && i < |s.threads| && s.threads[i].Compiling?
    ensures s.threads[i].stack != [] && FrameOk(g, s.cache, Top(s.threads[i].stack))
    ensures s.mutex == Some(i) <==> Locked(Top(s.threads[i].stack).phase)
  {
    assert ThreadOk(g, s, i);
  }

  lemma AppendInst(g: Graph, cache: map<nat, Table>, f: Frame, inst: Inst)
    requires FrameOk(g, cache, f) && f.next < |g.items(f.t)| && InstOk(cache, g.items(f.t)[f.next], inst)
    requires f.phase.Fields? || f.phase.CheckDone? || f.phase.CheckClosed?
    ensures FrameOk(g, cache, f.(acc := f.acc + [inst], next := f.next + 1, phase := Fields))
  {
  }

  lemma CheckStep(g: Graph, s: State, i: nat)
    requires Inv(g, s) && i < |s.threads| && s.threads[i].Compiling? && Do(g, s, i, Go).Some?
    requires s.threads[i].stack != [] && (Top(s.threads[i].stack).phase.CheckDone? || Top(s.threads[i].stack).phase.CheckClosed?)
    ensures Inv(g, Do(g, s, i, Go).value)
  {
    AtTop(g, s, i);
    var f := Top(s.threads[i].stack);
    var u := f.phase.t;
    assert TableOk(g, s.cache, u);
    if f.phase.CheckDone? && !s.cache[u].done {
      TurnStep(g, s, i, f.(phase := CheckClosed(u)), s.mutex);
    } else {
      var ready := if f.phase.CheckDone? then true else s.cache[u].closed;
      AppendInst(g, s.cache, f, MessageField(u, !ready));
      TurnStep(g, s, i, Record(f, u, ready, false), s.mutex);
    }
  }

  lemma LockStep(g: Graph, s: State, i: nat)
    requires Inv(g, s) && i < |s.threads| && s.threads[i].Compiling? && Do(g, s, i, Go).Some?
    requires s.threads[i].stack != [] && Top(s.threads[i].stack).phase.NeedLock?
    ensures Inv(g, Do(g, s, i, Go).value)
  {
    AtTop(g, s, i);
    TurnStep(g, s, i, Top(s.threads[i].stack).(phase := WriteFields), Some(i));
  }

  /** A step that publishes part of the table, under the mutex. */
  lemma PublishStep(g: Graph, s: State, i: nat)
    requires Inv(g, s) && i < |s.threads| && s.threads[i].Compiling? && Do(g, s, i, Go).Some?
    requires s.threads[i].stack != [] && Locked(Top(s.threads[i].stack).phase) && !Top(s.threads[i].stack).phase.Unlock?
    ensures Inv(g, Do(g, s, i, Go).value)
  {
    AtTop(g, s, i);
    var stack := s.threads[i].stack;
    var f := Top(stack);
    var (table, phase) := Publish(f, s.cache[f.t]);
    var s' := TurnTop(SetTable(s, f.t, table), i, f.(phase := phase));
    assert ThreadOk(g, s, i) && TableOk(g, s.cache, f.t);
    assert Later(s.cache, s'.cache);
    LaterInsts(g, s.cache, s'.cache, f.t, f.acc);
    assert FrameOk(g, s'.cache, f.(phase := phase));
    PublishTables(g, s, s', i, f, table, phase);
    PublishThread(g, s, s', i, f, table, phase);
    Assemble(g, s, s', i);
  }

  ghost predicate Publishing(g: Graph, s: State, s': State, i: nat, f: Frame, table: Table, phase: Phase) {
    && Inv(g, s) && i < |s.threads| && s.threads[i].Compiling? && s.threads[i].stack != [] && f == Top(s.threads[i].stack)
    && f.t in s.cache && Locked(f.phase) && !f.phase.Unlock? && (table, phase) == Publish(f, s.cache[f.t])
    && s' == TurnTop(SetTable(s, f.t, table), i, f.(phase := phase))
    && Later(s.cache, s'.cache) && FrameOk(g, s'.cache, f.(phase := phase))
  }

  lemma PublishTables(g: Graph, s: State, s': State, i: nat, f: Frame, table: Table, phase: Phase)
    requires Publishing(g, s, s', i, f, table, phase)
    ensures forall t :: t in s'.cache && s.owner[t] == i ==> t in g.types && TableOk(g, s'.cache, t) && OwnerOk(s', t)
  {
    assert ThreadOk(g, s, i);
    forall t | t in s'.cache && s.owner[t] == i ensures t in g.types && TableOk(g, s'.cache, t) && OwnerOk(s', t) {
      assert TableOk(g, s.cache, t) && OwnerOk(s, t);
      if t == f.t {
        assert FrameOk(g, s.cache, f);
        if s.cache[t].done {
          LaterInsts(g, s.cache, s'.cache, t, s.cache[t].fields);
        }
        assert Compiles(s'.threads[i], t) by {
          assert s'.threads[i].stack[|s.threads[i].stack| - 1].t == t;
        }
      } else {
        LaterTable(g, s.cache, s'.cache, t);
        if !s.cache[t].closed {
          TopCompiles(s.threads[i], f.(phase := phase), t);
        }
      }
    }
  }

  lemma PublishThread(g: Graph, s: State, s': State, i: nat, f: Frame, table: Table, phase: Phase)
    requires Publishing(g, s, s', i, f, table, phase)
    ensures ThreadOk(g, s', i)
  {
    assert ThreadOk(g, s, i);
    var stack := s.threads[i].stack;
    var r := s'.threads[i].stack;
    forall j | 0 <= j < |r| ensures FrameOk(g, s'.cache, r[j]) && r[j].t in s'.owner && s'.owner[r[j].t] == i {
      if j < |stack| - 1 {
        assert r[j] == stack[j] && stack[j].t != f.t;
        LaterFrame(g, s.cache, s'.cache, stack[j]);
      }
    }
  }

  /** The stack without its top frame. */
  lemma PopStack(g: Graph, cache: map<nat, Table>, owner: map<nat, nat>, i: nat, stack: seq<Frame>)
    requires StackOk(g, cache, owner, i, stack) && |stack| > 1
    ensures var rest := stack[..|stack| - 1]; StackOk(g, cache, owner, i, rest) && !Locked(Top(rest).phase)
  {
    hide FrameOk;
    var rest := stack[..|stack| - 1];
    assert forall j :: 0 <= j < |rest| ==> rest[j] == stack[j];
    assert Top(rest) == stack[|stack| - 2];
  }

  lemma PopCompiles(stack: seq<Frame>, path: seq<nat>, t: nat)
    requires stack != [] && Compiles(Compiling(path, stack), t) && t != Top(stack).t
    ensures |stack| > 1 && Compiles(Compiling(path, stack[..|stack| - 1]), t)
  {
    var j :| 0 <= j < |stack| && stack[j].t == t;
    assert stack[..|stack| - 1][j].t == t;
  }

  lemma LeaveStep(g: Graph, s: State, i: nat)
    requires Inv(g, s) && i < |s.threads| && s.threads[i].Compiling?
    requires s.threads[i].stack != [] && Top(s.threads[i].stack).phase.Unlock?
    ensures Inv(g, Leave(s, i, Top(s.threads[i].stack)))
  {
    AtTop(g, s, i);
    var path, stack := s.threads[i].path, s.threads[i].stack;
    var f := Top(stack);
    var s' := Leave(s, i, f);
    assert ThreadOk(g, s, i) && f.t in s.cache && s.cache[f.t].closed && s.cache[f.t].done;
    PathPush(s.cache, path, f.t);
    if |stack| > 1 {
      PopStack(g, s.cache, s.owner, i, stack);
    }
    hide StackOk, FrameOk, PathOk, Compiles, Inv;
    forall t | t in s.cache && !s.cache[t].closed && Compiles(s.threads[i], t) ensures Compiles(s'.threads[i], t) {
      PopCompiles(stack, path, t);
    }
    QuietStep(g, s, s', i);
  }

  // ---------------------------------------------------------------- placeholders

  /** Thread `i` puts a placeholder for `u` into the cache and starts on it. */
  ghost predicate Starting(g: Graph, s: State, s': State, i: nat, u: nat, f: Frame) {
    && Inv(g, s) && i < |s.threads| && u !in s.cache && u in g.types && s.mutex == None
    && s'.cache == s.cache[u := PLACEHOLDER] && s'.owner == s.owner[u := i] && s'.mutex == None
    && |s'.threads| == |s.threads| && (forall j :: 0 <= j < |s.threads| && j != i ==> s'.threads[j] == s.threads[j])
    && s'.threads[i].Compiling? && s'.threads[i].stack != [] && Top(s'.threads[i].stack) == f
    && f.t == u && (f == NewFrame(g, u) || f == Frame(u, 0, [], false, false, Fields))
  }

  lemma StartFrame(g: Graph, s: State, s': State, i: nat, u: nat, f: Frame)
    requires Starting(g, s, s', i, u, f)
    ensures Later(s.cache, s'.cache) && FrameOk(g, s'.cache, f) && !Locked(f.phase) && Local(s, s', i)
  {
  }

  lemma StartStep(g: Graph, s: State, s': State, i: nat, u: nat, f: Frame)
    requires Starting(g, s, s', i, u, f) && ThreadOk(g, s', i)
    requires forall t :: Compiles(s.threads[i], t) ==> Compiles(s'.threads[i], t)
    ensures Inv(g, s')
  {
    StartFrame(g, s, s', i, u, f);
    forall t | t in s'.cache && (t !in s.cache || s.owner[t] == i) ensures t in g.types && TableOk(g, s'.cache, t) && OwnerOk(s', t) {
      if t == u {
        assert s'.threads[i].stack[|s'.threads[i].stack| - 1].t == u;
      } else {
        assert TableOk(g, s.cache, t) && OwnerOk(s, t);
        LaterTable(g, s.cache, s'.cache, t);
      }
    }
    Assemble(g, s, s', i);
  }

  lemma MissedStep(g: Graph, s: State, i: nat)
    requires Inv(g, s) && i < |s.threads| && s.threads[i].Missed? && Do(g, s, i, Go).Some?
    ensures Inv(g, Do(g, s, i, Go).value)
  {
    var s' := Do(g, s, i, Go).value;
    var t := s.threads[i].t;
    assert ThreadOk(g, s, i);
    if t in s.cache {
      QuietStep(g, s, s', i);
    } else {
      StartFrame(g, s, s', i, t, Frame(t, 0, [], false, false, Fields));
      StartStep(g, s, s', i, t, Frame(t, 0, [], false, false, Fields));
    }
  }

  /** The stack while the thread is one type further down. */
  lemma PushStack(g: Graph, s: State, s': State, i: nat, stack: seq<Frame>, f: Frame, pushed: Frame)
    requires StackOk(g, s.cache, s.owner, i, stack) && Later(s.cache, s'.cache)
    requires f.t == Top(stack).t && FrameOk(g, s'.cache, f) && f.phase.CheckDone?
    requires forall t :: t in s.owner ==> t in s'.owner && s'.owner[t] == s.owner[t]
    requires forall t :: t in s.cache ==> s'.cache[t] == s.cache[t]
    requires FrameOk(g, s'.cache, pushed) && pushed.t !in s.cache && pushed.t in s'.owner && s'.owner[pushed.t] == i
    ensures StackOk(g, s'.cache, s'.owner, i, SetTop(stack, f) + [pushed])
  {
    var r := SetTop(stack, f) + [pushed];
    forall j | 0 <= j < |r| ensures FrameOk(g, s'.cache, r[j]) && r[j].t in s'.owner && s'.owner[r[j].t] == i {
      if j < |stack| - 1 {
        LaterFrame(g, s.cache, s'.cache, stack[j]);
      }
    }
    assert forall j :: 0 <= j < |stack| ==> r[j].t == stack[j].t && FrameOk(g, s.cache, stack[j]);
    hide FrameOk;
    assert forall j :: 0 <= j < |stack| - 1 ==> r[j] == stack[j];
  }

  lemma PushCompiles(th: Thread, f: Frame, pushed: Frame)
    requires th.Compiling? && th.stack != [] && f.t == Top(th.stack).t
    ensures forall t :: Compiles(th, t) ==> Compiles(th.(stack := SetTop(th.stack, f) + [pushed]), t)
  {
    forall t | Compiles(th, t) ensures Compiles(th.(stack := SetTop(th.stack, f) + [pushed]), t) {
      var j :| 0 <= j < |th.stack| && th.stack[j].t == t;
      assert (SetTop(th.stack, f) + [pushed])[j].t == t;
    }
  }

  lemma CompilingOk(g: Graph, s: State, i: nat)
    requires Inv(g, s) && i < |s.threads| && s.threads[i].Compiling?
    ensures PathOk(s.cache, s.threads[i].path) && StackOk(g, s.cache, s.owner, i, s.threads[i].stack)
  {
    assert ThreadOk(g, s, i);
  }

  lemma DescendIs(g: Graph, s: State, i: nat, u: nat)
    requires Inv(g, s) && i < |s.threads| && s.threads[i].Compiling? && u !in s.cache && u in g.types && s.mutex == None
    requires s.threads[i].stack != [] && Top(s.threads[i].stack).phase.Fields?
    requires var f := Top(s.threads[i].stack); f.next < |g.items(f.t)| && g.items(f.t)[f.next] == Nested(u)
    ensures FieldStep(g, s, i, Top(s.threads[i].stack)).Some?
    ensures var th := s.threads[i];
            var s' := FieldStep(g, s, i, Top(th.stack)).value;
            && Starting(g, s, s', i, u, NewFrame(g, u))
            && s'.threads[i] == th.(stack := SetTop(th.stack, Top(th.stack).(phase := CheckDone(u))) + [NewFrame(g, u)])
  {
    hide Inv, NewFrame;
    NewFrameOf(g, u);
  }

  lemma NewFrameOf(g: Graph, u: nat)
    ensures NewFrame(g, u).t == u
  {
  }

  /** The frame that waits for `u` to be compiled. */
  lemma WaitsFor(g: Graph, s: State, s': State, f: Frame, u: nat)
    requires FrameOk(g, s.cache, f) && f.phase.Fields? && Later(s.cache, s'.cache) && s'.cache[f.t] == s.cache[f.t]
    requires f.next < |g.items(f.t)| && g.items(f.t)[f.next] == Nested(u) && u in s'.cache
    ensures FrameOk(g, s'.cache, f.(phase := CheckDone(u)))
  {
    LaterFrame(g, s.cache, s'.cache, f);
  }

  lemma LaterPath(cache: map<nat, Table>, cache': map<nat, Table>, path: seq<nat>)
    requires PathOk(cache, path) && Later(cache, cache')
    ensures PathOk(cache', path)
  {
  }

  lemma DescendStep(g: Graph, s: State, i: nat, u: nat)
    requires Inv(g, s) && i < |s.threads| && s.threads[i].Compiling? && u !in s.cache && u in g.types && s.mutex == None
    requires s.threads[i].stack != [] && Top(s.threads[i].stack).phase.Fields?
    requires var f := Top(s.threads[i].stack); f.next < |g.items(f.t)| && g.items(f.t)[f.next] == Nested(u)
    ensures Inv(g, FieldStep(g, s, i, Top(s.threads[i].stack)).value)
  {
    AtTop(g, s, i);
    CompilingOk(g, s, i);
    var th := s.threads[i];
    var top := Top(th.stack);
    assert top.t in s.cache;
    DescendIs(g, s, i, u);
    hide Inv, StackOk, FrameOk, InstsOk, NewFrame, FieldStep, PathOk, Compiles;
    var s' := FieldStep(g, s, i, top).value;
    StartFrame(g, s, s', i, u, NewFrame(g, u));
    WaitsFor(g, s, s', top, u);
    PushStack(g, s, s', i, th.stack, top.(phase := CheckDone(u)), NewFrame(g, u));
    PushCompiles(th, top.(phase := CheckDone(u)), NewFrame(g, u));
    LaterPath(s.cache, s'.cache, th.path);
    StartStep(g, s, s', i, u, NewFrame(g, u));
  }

  lemma FieldsStep(g: Graph, s: State, i: nat)
    requires GraphOk(g) && Inv(g, s) && i < |s.threads| && s.threads[i].Compiling? && Do(g, s, i, Go).Some?
    requires s.threads[i].stack != [] && Top(s.threads[i].stack).phase.Fields?
    ensures Inv(g, Do(g, s, i, Go).value)
  {
    AtTop(g, s, i);
    var f := Top(s.threads[i].stack);
    if f.next >= |g.items(f.t)| {
      TurnStep(g, s, i, f.(phase := NeedLock), s.mutex);
    } else {
      match g.items(f.t)[f.next]
      case Plain =>
        AppendInst(g, s.cache, f, PlainField);
        TurnStep(g, s, i, f.(acc := f.acc + [PlainField], next := f.next + 1), s.mutex);
      case Unsupported => TurnStep(g, s, i, f.(useProtojson := true, phase := NeedLock), s.mutex);
      case Nested(u) =>
        if u in s.cache {
          TurnStep(g, s, i, f.(phase := CheckDone(u)), s.mutex);
        } else {
          DescendStep(g, s, i, u);
        }
    }
  }

  // ---------------------------------------------------------------- all runs

  lemma InitInv(g: Graph, s: State)
    requires Init(s)
    ensures Inv(g, s)
  {
  }

  /** Every step of every thread keeps the invariant. */
  lemma StepInv(g: Graph, s: State, i: nat, a: Action)
    requires GraphOk(g) && Inv(g, s) && i < |s.threads| && Do(g, s, i, a).Some?
    ensures Inv(g, Do(g, s, i, a).value)
  {
    hide Inv, GraphOk, Publish, FieldStep;
    match s.threads[i]
    case Using(_) => UsingStep(g, s, i, a);
    case Missed(_, _) => MissedStep(g, s, i);
    case Entering(_, _) => WaitingStep(g, s, i);
    case Blocked(_, _) => WaitingStep(g, s, i);
    case Compiling(_, stack) =>
      match Top(stack).phase
      case Fields => FieldsStep(g, s, i);
      case CheckDone(_) => CheckStep(g, s, i);
      case CheckClosed(_) => CheckStep(g, s, i);
      case NeedLock => LockStep(g, s, i);
      case Unlock => LeaveStep(g, s, i);
      case _ => PublishStep(g, s, i);
  }

  lemma {:induction false} RunInv(g: Graph, run: seq<State>, k: nat)
    requires GraphOk(g) && IsRun(g, run) && k < |run|
    ensures Inv(g, run[k])
  {
    if k == 0 {
      InitInv(g, run[0]);
    } else {
      RunInv(g, run, k - 1);
      assert Step(g, run[k - 1], run[k - 1 + 1]);
      var i: nat, a :| i < |run[k - 1].threads| && Do(g, run[k - 1], i, a) == Some(run[k]);
      StepInv(g, run[k - 1], i, a);
    }
  }

  // ---------------------------------------------------------------- the shape of a compile step

  /** Steps a frame still has to take by itself. */
  function FrameWork(g: Graph, f: Frame): nat {
    var fields := if f.next < |g.items(f.t)| then 3 * (|g.items(f.t)| - f.next) else 0;
    match f.phase
    case Fields => fields + 7
    case CheckDone(_) => fields + 6
    case CheckClosed(_) => fields + 5
    case NeedLock => 6
    case WriteFields => 5
    case WriteErr => 4
    case StoreDone => 3
    case CloseReady => 2
    case Unlock => 1
  }

  /** The thread stays at its type and comes closer to its end. */
  ghost predicate IsTurn(g: Graph, s: State, s': State, i: nat, f: Frame)
    requires i < |s.threads| && s.threads[i].Compiling? && s.threads[i].stack != []
  {
    && s'.threads == s.threads[i := s.threads[i].(stack := SetTop(s.threads[i].stack, f))]
    && f.t == Top(s.threads[i].stack).t && FrameWork(g, f) < FrameWork(g, Top(s.threads[i].stack))
    && s'.cache.Keys == s.cache.Keys
  }

  /** The thread descends into the type `u`, which nobody has started on. */
  ghost predicate IsPush(g: Graph, s: State, s': State, i: nat, f: Frame, u: nat)
    requires i < |s.threads| && s.threads[i].Compiling? && s.threads[i].stack != []
  {
    && s'.threads == s.threads[i := s.threads[i].(stack := SetTop(s.threads[i].stack, f) + [NewFrame(g, u)])]
    && f.t == Top(s.threads[i].stack).t && u in g.types && u !in s.cache && s'.cache.Keys == s.cache.Keys + {u}
  }

  lemma FieldShape(g: Graph, s: State, i: nat, f: Frame) returns (f': Frame, u: nat)
    requires GraphOk(g) && i < |s.threads| && s.threads[i].Compiling? && s.threads[i].stack != [] && f == Top(s.threads[i].stack)
    requires f.t in g.types && f.phase.Fields? && FieldStep(g, s, i, f).Some?
    ensures var s' := FieldStep(g, s, i, f).value; IsTurn(g, s, s', i, f') || IsPush(g, s, s', i, f', u)
  {
    u := 0;
    if f.next >= |g.items(f.t)| {
      f' := f.(phase := NeedLock);
    } else {
      match g.items(f.t)[f.next]
      case Plain => f' := f.(acc := f.acc + [PlainField], next := f.next + 1);
      case Unsupported => f' := f.(useProtojson := true, phase := NeedLock);
      case Nested(n) =>
        f' := f.(phase := CheckDone(n));
        u := n;
    }
  }

  /** A turn of the top frame that comes closer to its end, whatever else the step does to the tables. */
  lemma TurnShape(g: Graph, s: State, s0: State, i: nat, f: Frame)
    requires i < |s.threads| && s.threads[i].Compiling? && s.threads[i].stack != []
    requires s0.threads == s.threads && s0.cache.Keys == s.cache.Keys
    requires f.t == Top(s.threads[i].stack).t && FrameWork(g, f) < FrameWork(g, Top(s.threads[i].stack))
    ensures IsTurn(g, s, TurnTop(s0, i, f), i, f)
  {
    hide FrameWork;
  }

  lemma CheckShape(g: Graph, s: State, i: nat, f: Frame) returns (f': Frame)
    requires GraphOk(g) && Inv(g, s) && i < |s.threads| && s.threads[i].Compiling? && s.threads[i].stack != []
    requires f == Top(s.threads[i].stack) && (f.phase.CheckDone? || f.phase.CheckClosed?) && CompileStep(g, s, i).Some?
    ensures IsTurn(g, s, CompileStep(g, s, i).value, i, f')
  {
    AtTop(g, s, i);
    hide Inv, GraphOk, Do, FieldStep, IsTurn, TurnTop;
    var v := f.phase.t;
    f' := if f.phase.CheckClosed? then Record(f, v, s.cache[v].closed, s.cache[v].err)
          else if s.cache[v].done then Record(f, v, true, s.cache[v].err)
          else f.(phase := CheckClosed(v));
    TurnShape(g, s, s, i, f');
  }

  lemma PublishShape(g: Graph, s: State, i: nat, f: Frame) returns (f': Frame)
    requires i < |s.threads| && s.threads[i].Compiling? && s.threads[i].stack != [] && f == Top(s.threads[i].stack)
    requires (Locked(f.phase) && !f.phase.Unlock?) && CompileStep(g, s, i).Some?
    ensures IsTurn(g, s, CompileStep(g, s, i).value, i, f')
  {
    hide FieldStep, IsTurn, TurnTop;
    var (table, phase) := Publish(f, s.cache[f.t]);
    f' := f.(phase := phase);
    assert SetTable(s, f.t, table).cache.Keys == s.cache.Keys;
    TurnShape(g, s, SetTable(s, f.t, table), i, f');
  }

  lemma LockShape(g: Graph, s: State, i: nat, f: Frame) returns (f': Frame)
    requires i < |s.threads| && s.threads[i].Compiling? && s.threads[i].stack != [] && f == Top(s.threads[i].stack)
    requires f.phase.NeedLock? && CompileStep(g, s, i).Some?
    ensures IsTurn(g, s, CompileStep(g, s, i).value, i, f')
  {
    hide FieldStep, IsTurn, TurnTop;
    f' := f.(phase := WriteFields);
    TurnShape(g, s, s.(mutex := Some(i)), i, f');
  }

  lemma CompileShape(g: Graph, s: State, i: nat) returns (f': Frame, u: nat)
    requires GraphOk(g) && Inv(g, s) && i < |s.threads| && s.threads[i].Compiling? && Do(g, s, i, Go).Some?
    ensures s.threads[i].stack != []
    ensures var s' := Do(g, s, i, Go).value;
            || IsTurn(g, s, s', i, f') || IsPush(g, s, s', i, f', u)
            || (Top(s.threads[i].stack).phase.Unlock? && s' == Leave(s, i, Top(s.threads[i].stack)))
  {
    AtTop(g, s, i);
    var f := Top(s.threads[i].stack);
    hide Inv, GraphOk, FieldStep, FrameWork, TurnTop, SetTable, Leave, IsTurn, IsPush;
    u := 0;
    match f.phase
    case Fields => f', u := FieldShape(g, s, i, f);
    case CheckDone(_) => f' := CheckShape(g, s, i, f);
    case CheckClosed(_) => f' := CheckShape(g, s, i, f);
    case NeedLock => f' := LockShape(g, s, i, f);
    case Unlock => f' := f;
    case _ => f' := PublishShape(g, s, i, f);
  }

  // ---------------------------------------------------------------- safety

  /** What readers look at. `closed` may still change after a table is done. */
  predicate SameContent(a: Table, b: Table) {
    a.fields == b.fields && a.useProtojson == b.useProtojson && a.err == b.err && a.done == b.done
  }

  lemma OnlyGoes(g: Graph, s: State, i: nat, a: Action)
    requires i < |s.threads| && s.threads[i].Compiling? && Do(g, s, i, a).Some?
    ensures a == Go
  {
    hide CompileStep;
  }

  /** The table of type `t` and its compiler after a step. */
  predicate Kept(s: State, s': State, t: nat) {
    && t in s.cache && t in s.owner && t in s'.cache && t in s'.owner && s'.owner[t] == s.owner[t]
    && (s.cache[t].done ==> SameContent(s.cache[t], s'.cache[t]))
  }

  lemma StepKeeps(g: Graph, s: State, i: nat, a: Action, t: nat)
    requires Inv(g, s) && i < |s.threads| && Do(g, s, i, a).Some? && t in s.cache
    ensures Kept(s, Do(g, s, i, a).value, t)
  {
    hide *;
    CacheOwned(g, s, t);
    if s.threads[i].Compiling? {
      OnlyGoes(g, s, i, a);
      AtTop(g, s, i);
      CompileKeeps(g, s, i, t);
    } else {
      IdleKeeps(g, s, i, a, t);
    }
  }

  lemma CacheOwned(g: Graph, s: State, t: nat)
    requires Inv(g, s) && t in s.cache
    ensures t in s.owner
  {
  }

  /** A thread that does not compile adds a table at most. */
  lemma IdleKeeps(g: Graph, s: State, i: nat, a: Action, t: nat)
    requires i < |s.threads| && !s.threads[i].Compiling? && Do(g, s, i, a).Some? && t in s.cache && t in s.owner
    ensures Kept(s, Do(g, s, i, a).value, t)
  {
    hide CompileStep;
    var s' := Do(g, s, i, a).value;
    if s.threads[i].Missed? && s.threads[i].t !in s.cache {
      assert s'.cache == s.cache[s.threads[i].t := PLACEHOLDER] && s'.owner == s.owner[s.threads[i].t := i];
    } else {
      assert s'.cache == s.cache && s'.owner == s.owner;
    }
    hide Do;
  }

  lemma CompileKeeps(g: Graph, s: State, i: nat, t: nat)
    requires i < |s.threads| && s.threads[i].Compiling? && s.threads[i].stack != [] && FrameOk(g, s.cache, Top(s.threads[i].stack))
    requires Do(g, s, i, Go).Some? && t in s.cache && t in s.owner
    ensures Kept(s, Do(g, s, i, Go).value, t)
  {
    hide CompileStep, FrameOk, Kept;
    var f := Top(s.threads[i].stack);
    if f.phase.Fields? {
      FieldKeeps(g, s, i, t);
    } else if Locked(f.phase) && !f.phase.Unlock? {
      PublishKeeps(g, s, i, t);
    } else {
      TurnKeeps(g, s, i, t);
    }
  }

  lemma FieldKeeps(g: Graph, s: State, i: nat, t: nat)
    requires i < |s.threads| && s.threads[i].Compiling? && s.threads[i].stack != [] && Top(s.threads[i].stack).phase.Fields?
    requires CompileStep(g, s, i).Some? && t in s.cache && t in s.owner
    ensures Kept(s, CompileStep(g, s, i).value, t)
  {
    var f, s' := Top(s.threads[i].stack), CompileStep(g, s, i).value;
    if s'.cache != s.cache {
      var u := g.items(f.t)[f.next].t;
      assert u !in s.cache && s'.cache == s.cache[u := PLACEHOLDER] && s'.owner == s.owner[u := i];
    }
  }

  /** A finished table is closed at most. */
  lemma PublishKeeps(g: Graph, s: State, i: nat, t: nat)
    requires i < |s.threads| && s.threads[i].Compiling? && s.threads[i].stack != [] && FrameOk(g, s.cache, Top(s.threads[i].stack))
    requires Locked(Top(s.threads[i].stack).phase) && !Top(s.threads[i].stack).phase.Unlock?
    requires CompileStep(g, s, i).Some? && t in s.cache && t in s.owner
    ensures Kept(s, CompileStep(g, s, i).value, t)
  {
    hide FieldStep, InstsOk, Complete;
    var f, s' := Top(s.threads[i].stack), CompileStep(g, s, i).value;
    assert s'.cache == s.cache[f.t := Publish(f, s.cache[f.t]).0] && s'.owner == s.owner;
  }

  lemma TurnKeeps(g: Graph, s: State, i: nat, t: nat)
    requires i < |s.threads| && s.threads[i].Compiling? && s.threads[i].stack != []
    requires var p := Top(s.threads[i].stack).phase; p.CheckDone? || p.CheckClosed? || p.NeedLock? || p.Unlock?
    requires CompileStep(g, s, i).Some? && t in s.cache && t in s.owner
    ensures Kept(s, CompileStep(g, s, i).value, t)
  {
    hide FieldStep;
  }

  /** A finished table never changes, and the thread that compiles a type is settled once and for all. */
  lemma {:induction false} FinishedStays(g: Graph, run: seq<State>, j: nat, k: nat, t: nat)
    requires GraphOk(g) && IsRun(g, run) && j <= k < |run| && t in run[j].cache
    ensures t in run[k].cache && t in run[j].owner && t in run[k].owner && run[k].owner[t] == run[j].owner[t]
    ensures run[j].cache[t].done ==> SameContent(run[j].cache[t], run[k].cache[t])
    decreases k - j
  {
    RunInv(g, run, j);
    CacheOwned(g, run[j], t);
    hide Do, Inv, GraphOk, Init;
    if j < k {
      assert Step(g, run[j], run[j + 1]);
      var i: nat, a :| i < |run[j].threads| && Do(g, run[j], i, a) == Some(run[j + 1]);
      StepKeeps(g, run[j], i, a, t);
      FinishedStays(g, run, j + 1, k, t);
    }
  }

  /** Whatever table a thread reads, it got there through `wait` or a field that need not wait, is finished and complete. */
  lemma ReadsFinished(g: Graph, run: seq<State>, k: nat, i: nat)
    requires GraphOk(g) && IsRun(g, run) && k < |run| && i < |run[k].threads|
    ensures forall p :: 0 <= p < |run[k].threads[i].path| ==>
              var t := run[k].threads[i].path[p];
              && t in run[k].cache && run[k].cache[t].done && !run[k].cache[t].err
              && Complete(g, run[k].cache, t, run[k].cache[t].fields, run[k].cache[t].useProtojson)
  {
    RunInv(g, run, k);
    var s := run[k];
    assert ThreadOk(g, s, i) && PathOk(s.cache, s.threads[i].path);
    forall p | 0 <= p < |s.threads[i].path|
      ensures s.threads[i].path[p] in s.cache && s.cache[s.threads[i].path[p]].done && TableOk(g, s.cache, s.threads[i].path[p])
    {
      assert s.threads[i].path[p] in s.cache;
    }
  }

  /** Compiling a table never fails, so no reader ever sees an error. */
  lemma NoErrors(g: Graph, run: seq<State>, k: nat)
    requires GraphOk(g) && IsRun(g, run) && k < |run|
    ensures forall t :: t in run[k].cache ==> !run[k].cache[t].err
  {
    RunInv(g, run, k);
    forall t | t in run[k].cache ensures !run[k].cache[t].err {
      assert TableOk(g, run[k].cache, t);
    }
  }

  /** At any time at most one thread compiles a type. */
  lemma OneCompiler(g: Graph, run: seq<State>, k: nat, i: nat, j: nat, t: nat)
    requires GraphOk(g) && IsRun(g, run) && k < |run| && i < |run[k].threads| && j < |run[k].threads|
    requires Compiles(run[k].threads[i], t) && Compiles(run[k].threads[j], t)
    ensures i == j
  {
    RunInv(g, run, k);
    assert ThreadOk(g, run[k], i) && ThreadOk(g, run[k], j);
  }

  /** Somebody compiles `t` after the step and nobody did before. */
  ghost predicate Begins(s: State, s': State, t: nat) {
    && (exists i :: 0 <= i < |s'.threads| && Compiles(s'.threads[i], t))
    && (forall i :: 0 <= i < |s.threads| ==> !Compiles(s.threads[i], t))
  }

  lemma NewCompiles(g: Graph, s: State, i: nat, a: Action, t: nat)
    requires GraphOk(g) && Inv(g, s) && i < |s.threads| && Do(g, s, i, a).Some? && t in s.cache
    requires Compiles(Do(g, s, i, a).value.threads[i], t)
    ensures Compiles(s.threads[i], t)
  {
    if s.threads[i].Compiling? {
      OnlyGoes(g, s, i, a);
      StackKeeps(g, s, i, t);
    } else {
      OnlyMissedCompiles(g, s, i, a, t);
    }
  }

  /** A thread that starts to compile starts on a type that was not in the cache. */
  lemma OnlyMissedCompiles(g: Graph, s: State, i: nat, a: Action, t: nat)
    requires i < |s.threads| && !s.threads[i].Compiling? && Do(g, s, i, a).Some? && t in s.cache
    ensures !Compiles(Do(g, s, i, a).value.threads[i], t)
  {
    hide CompileStep;
  }

  lemma StackKeeps(g: Graph, s: State, i: nat, t: nat)
    requires GraphOk(g) && Inv(g, s) && i < |s.threads| && s.threads[i].Compiling? && Do(g, s, i, Go).Some? && t in s.cache
    requires Compiles(Do(g, s, i, Go).value.threads[i], t)
    ensures Compiles(s.threads[i], t)
  {
    hide Do, Inv, GraphOk;
    var f, u := CompileShape(g, s, i);
    var stack, stack' := s.threads[i].stack, Do(g, s, i, Go).value.threads[i].stack;
    var n :| 0 <= n < |stack'| && stack'[n].t == t;
    assert n < |stack| ==> stack[n].t == stack'[n].t;
    assert n < |stack|;
  }

  lemma OthersSame(g: Graph, s: State, i: nat, a: Action)
    requires i < |s.threads| && Do(g, s, i, a).Some?
    ensures var s' := Do(g, s, i, a).value;
            |s'.threads| == |s.threads| && forall j :: 0 <= j < |s.threads| && j != i ==> s'.threads[j] == s.threads[j]
  {
  }

  /** Each message type is compiled once: after somebody has begun, nobody begins again. */
  lemma CompiledOnce(g: Graph, run: seq<State>, j: nat, k: nat, t: nat)
    requires GraphOk(g) && IsRun(g, run) && j < k < |run| - 1 && Begins(run[j], run[j + 1], t)
    ensures !Begins(run[k], run[k + 1], t)
  {
    hide *;
    RunInv(g, run, j + 1);
    RunInv(g, run, k);
    BegunInCache(g, run[j], run[j + 1], t);
    FinishedStays(g, run, j + 1, k, t);
    RunStep(g, run, k);
    NoNewCompiler(g, run[k], run[k + 1], t);
  }

  lemma RunStep(g: Graph, run: seq<State>, k: nat)
    requires IsRun(g, run) && k < |run| - 1
    ensures Step(g, run[k], run[k + 1])
  {
    hide Step, Init;
  }

  lemma BegunInCache(g: Graph, s: State, s': State, t: nat)
    requires Inv(g, s') && Begins(s, s', t)
    ensures t in s'.cache
  {
    var n :| 0 <= n < |s'.threads| && Compiles(s'.threads[n], t);
    assert ThreadOk(g, s', n);
  }

  lemma NoNewCompiler(g: Graph, s: State, s': State, t: nat)
    requires GraphOk(g) && Inv(g, s) && Step(g, s, s') && t in s.cache
    ensures !Begins(s, s', t)
  {
    hide Do, Inv, GraphOk;
    var i: nat, a :| i < |s.threads| && Do(g, s, i, a) == Some(s');
    OthersSame(g, s, i, a);
    if Compiles(s'.threads[i], t) {
      NewCompiles(g, s, i, a, t);
    }
  }

  // ---------------------------------------------------------------- progress

  /** A compiling thread needs nothing but the mutex, and never goes on to wait for another. */
  lemma CompilersNeverWait(g: Graph, s: State, i: nat)
    requires Inv(g, s) && i < |s.threads| && s.threads[i].Compiling? && (s.mutex == None || s.mutex == Some(i))
    ensures Do(g, s, i, Go).Some?
    ensures var th := Do(g, s, i, Go).value.threads[i]; th.Compiling? || th.Using?
  {
    AtTop(g, s, i);
  }

  /** The holder of the mutex can go on. */
  lemma HolderRuns(g: Graph, s: State)
    requires Inv(g, s) && s.mutex.Some?
    ensures s.threads[s.mutex.value].Compiling? && Do(g, s, s.mutex.value, Go).Some?
  {
    var i := s.mutex.value;
    assert ThreadOk(g, s, i);
    CompilersNeverWait(g, s, i);
  }

  /** No deadlock: while any thread is on its way to a table, some such thread can take a step. */
  lemma NoDeadlock(g: Graph, s: State, i: nat) returns (j: nat)
    requires Inv(g, s) && i < |s.threads| && !s.threads[i].Using?
    ensures j < |s.threads| && !s.threads[j].Using? && Do(g, s, j, Go).Some?
  {
    assert ThreadOk(g, s, i);
    j := i;
    if s.mutex.Some? {
      HolderRuns(g, s);
      j := s.mutex.value;
    } else if s.threads[i].Blocked? && !s.cache[s.threads[i].t].closed {
      assert OwnerOk(s, s.threads[i].t);
      j := s.owner[s.threads[i].t];
      CompilersNeverWait(g, s, j);
    } else if s.threads[i].Compiling? {
      CompilersNeverWait(g, s, i);
    }
  }

  function StackWork(g: Graph, stack: seq<Frame>): nat {
    if stack == [] then 0 else StackWork(g, stack[..|stack| - 1]) + FrameWork(g, Top(stack))
  }

  function ThreadWork(g: Graph, th: Thread): nat {
    match th
    case Using(_) => 0
    case Missed(_, _) => 3
    case Entering(_, _) => 2
    case Blocked(_, _) => 1
    case Compiling(_, stack) => StackWork(g, stack)
  }

  function TotalWork(g: Graph, threads: seq<Thread>): nat {
    if threads == [] then 0 else ThreadWork(g, threads[0]) + TotalWork(g, threads[1..])
  }

  lemma {:induction false} TotalChanges(g: Graph, threads: seq<Thread>, i: nat, th: Thread)
    requires i < |threads|
    ensures TotalWork(g, threads[i := th]) == TotalWork(g, threads) - ThreadWork(g, threads[i]) + ThreadWork(g, th)
  {
    if i > 0 {
      assert threads[i := th][1..] == threads[1..][i - 1 := th];
      TotalChanges(g, threads[1..], i - 1, th);
    } else {
      assert threads[i := th][1..] == threads[1..];
    }
  }

  lemma TopWork(g: Graph, stack: seq<Frame>, f: Frame)
    requires stack != []
    ensures StackWork(g, SetTop(stack, f)) == StackWork(g, stack) - FrameWork(g, Top(stack)) + FrameWork(g, f)
  {
    assert SetTop(stack, f)[..|stack| - 1] == stack[..|stack| - 1];
  }

  /** Types that nobody has started on. */
  function Untouched(g: Graph, s: State): nat {
    |g.types - s.cache.Keys|
  }

  lemma Touch(g: Graph, s: State, s': State, u: nat)
    requires u in g.types && u !in s.cache && s'.cache.Keys == s.cache.Keys + {u}
    ensures Untouched(g, s') < Untouched(g, s)
  {
    assert g.types - s'.cache.Keys == (g.types - s.cache.Keys) - {u};
  }

  ghost predicate Less(g: Graph, s': State, s: State) {
    Untouched(g, s') < Untouched(g, s) ||
    (Untouched(g, s') == Untouched(g, s) && TotalWork(g, s'.threads) < TotalWork(g, s.threads))
  }

  lemma CompileWork(g: Graph, s: State, i: nat)
    requires GraphOk(g) && Inv(g, s) && i < |s.threads| && s.threads[i].Compiling? && Do(g, s, i, Go).Some?
    ensures var s' := Do(g, s, i, Go).value;
            Untouched(g, s') < Untouched(g, s) ||
            (s'.cache.Keys == s.cache.Keys && |s'.threads| == |s.threads| && s'.threads == s.threads[i := s'.threads[i]] &&
             ThreadWork(g, s'.threads[i]) < ThreadWork(g, s.threads[i]))
  {
    var s' := Do(g, s, i, Go).value;
    var f, u := CompileShape(g, s, i);
    hide Do, Inv, GraphOk, FrameWork;
    var stack := s.threads[i].stack;
    if IsPush(g, s, s', i, f, u) {
      Touch(g, s, s', u);
    } else if IsTurn(g, s, s', i, f) {
      TopWork(g, stack, f);
    } else {
      LeaveWork(g, s, i);
    }
  }

  lemma LeaveWork(g: Graph, s: State, i: nat)
    requires i < |s.threads| && s.threads[i].Compiling? && s.threads[i].stack != [] && Top(s.threads[i].stack).phase.Unlock?
    ensures var s' := Leave(s, i, Top(s.threads[i].stack));
            s'.threads == s.threads[i := s'.threads[i]] && ThreadWork(g, s'.threads[i]) < ThreadWork(g, s.threads[i])
  {
  }

  lemma MissedInTypes(g: Graph, s: State, i: nat)
    requires Inv(g, s) && i < |s.threads| && s.threads[i].Missed?
    ensures s.threads[i].t in g.types
  {
    assert ThreadOk(g, s, i);
  }

  lemma WaitWork(g: Graph, s: State, i: nat)
    requires Inv(g, s) && i < |s.threads| && !s.threads[i].Compiling? && Do(g, s, i, Go).Some?
    ensures var s' := Do(g, s, i, Go).value;
            Untouched(g, s') < Untouched(g, s) ||
            (s'.cache.Keys == s.cache.Keys && |s'.threads| == |s.threads| && s'.threads == s.threads[i := s'.threads[i]] &&
             ThreadWork(g, s'.threads[i]) < ThreadWork(g, s.threads[i]))
  {
    if s.threads[i].Missed? && s.threads[i].t !in s.cache {
      MissedInTypes(g, s, i);
      hide Inv;
      Touch(g, s, Do(g, s, i, Go).value, s.threads[i].t);
    } else {
      hide Inv;
      Settles(g, s, i);
    }
  }

  /** A thread that does not begin to compile comes nearer to its table and changes nothing else. */
  lemma Settles(g: Graph, s: State, i: nat)
    requires i < |s.threads| && !s.threads[i].Compiling? && Do(g, s, i, Go).Some?
    requires s.threads[i].Missed? ==> s.threads[i].t in s.cache
    ensures var s' := Do(g, s, i, Go).value;
            s'.cache == s.cache && |s'.threads| == |s.threads| && s'.threads == s.threads[i := s'.threads[i]] &&
            ThreadWork(g, s'.threads[i]) < ThreadWork(g, s.threads[i])
  {
    hide CompileStep, StackWork;
  }

  /** Every step towards a table brings its end nearer, whichever thread takes it and however the types refer to each other. */
  lemma GoDecreases(g: Graph, s: State, i: nat)
    requires GraphOk(g) && Inv(g, s) && i < |s.threads| && Do(g, s, i, Go).Some?
    ensures Less(g, Do(g, s, i, Go).value, s)
  {
    hide Do, Inv, GraphOk, ThreadWork;
    if s.threads[i].Compiling? {
      CompileWork(g, s, i);
    } else {
      WaitWork(g, s, i);
    }
    var s' := Do(g, s, i, Go).value;
    if s'.cache.Keys == s.cache.Keys && |s'.threads| == |s.threads| {
      TotalChanges(g, s.threads, i, s'.threads[i]);
    }
  }

  ghost predicate GoStep(g: Graph, s: State, s': State) {
    exists i: nat :: i < |s.threads| && Do(g, s, i, Go) == Some(s')
  }

  /** A run in which threads only go on with the tables they are after. */
  ghost predicate GoRun(g: Graph, run: seq<State>) {
    run != [] && forall k :: 0 <= k < |run| - 1 ==> GoStep(g, run[k], run[k + 1])
  }

  predicate Settled(s: State) {
    forall i :: 0 <= i < |s.threads| ==> s.threads[i].Using?
  }

  /**
   Everybody gets their table: from any reachable state the threads can go on until none is waiting or
   compiling. With `GoDecreases` they cannot go on for ever without getting there.
   */
  lemma {:induction false} AllSettle(g: Graph, s: State) returns (run: seq<State>)
    requires GraphOk(g) && Inv(g, s)
    ensures GoRun(g, run) && run[0] == s && Settled(run[|run| - 1])
    decreases Untouched(g, s), TotalWork(g, s.threads)
  {
    if Settled(s) {
      run := [s];
    } else {
      var i :| 0 <= i < |s.threads| && !s.threads[i].Using?;
      var j := NoDeadlock(g, s, i);
      StepInv(g, s, j, Go);
      GoDecreases(g, s, j);
      hide Do, Inv, GraphOk, Settled, Untouched, TotalWork;
      var rest := AllSettle(g, Do(g, s, j, Go).value);
      run := [s] + rest;
      GoPrepend(g, s, j, rest);
    }
  }

  lemma GoPrepend(g: Graph, s: State, j: nat, rest: seq<State>)
    requires GoRun(g, rest) && j < |s.threads| && Do(g, s, j, Go) == Some(rest[0])
    ensures GoRun(g, [s] + rest)
  {
    var run := [s] + rest;
    assert GoStep(g, s, rest[0]);
    hide Do, GoStep;
    forall k | 0 <= k < |run| - 1 ensures GoStep(g, run[k], run[k + 1]) {
      if k > 0 {
        assert GoStep(g, rest[k - 1], rest[k - 1 + 1]);
      }
    }
  }
}
