/**
 The watcher as a process among others: its passes over the source directory run one
 system call at a time, on top of the copying state machine, while users edit the
 source and readers read the output. Its cache lives only as long as the process.
 */
module WatcherRuns {
  import opened Fs
  import opened Publish
  import opened Attempts
  import opened Copier
  import opened Watcher

  // Where a pass stands. todo: the entries still to visit. stamp: the modification
  // time that stat returned for name, before its copy was started.
  datatype Phase =
    | Resting
    | Scanning(todo: seq<Name>)
    | Statted(name: Name, stamp: Stamp, todo: seq<Name>)
    | InCopy(name: Name, stamp: Stamp, todo: seq<Name>)
    | Copied(name: Name, stamp: Stamp, todo: seq<Name>)

  datatype WState = WState(core: State, cache: Cache, phase: Phase)

  datatype WAction =
    | Begin(entries: seq<Name>)
    | Visit(stat: bool)
    | CallCopy(opens: bool)
    | CopyCall(call: Action)
    | Record
    | Restart
    | Outside(act: Action)

  predicate IsCopyCall(a: Action) {
    a.CreateTmp? || a.CopyChunk? || a.SeeEof? || a.CloseTmp? || a.ChmodTmp? || a.RenameTmp? || a.Fail? || a.RemoveTmp?
  }

  // What other processes do.
  predicate IsOutside(a: Action) {
    a.OpenReader? || a.Read? || a.EditInPlace? || a.Replace? || a.Delete?
  }

  predicate WValid(w: WState) {
    Valid(w.core)
  }

  // The step of the copying machine that a makes, if it makes one.
  function CoreStep(w: WState, a: WAction): seq<Action> {
    match a
    case CallCopy(opens) =>
      if w.phase.Statted? && opens && w.phase.name in w.core.src.names
      then [OpenSource(w.phase.name, w.phase.name)] else []
    case CopyCall(call) => if w.phase.InCopy? && IsCopyCall(call) then [call] else []
    case Restart => [Crash]
    case Outside(act) => if IsOutside(act) then [act] else []
    case _ => []
  }

  // The watcher's own bookkeeping, given the core after the step.
  function WStep(w: WState, a: WAction): (r: WState)
    requires WValid(w)
    ensures WValid(r)
  {
    var core := Run(w.core, CoreStep(w, a));
    var next := w.(core := core);
    match a
    case Begin(entries) =>
      if w.phase.Resting? then next.(phase := Scanning(entries)) else next
    case Visit(stat) =>
      if !w.phase.Scanning? then next
      else if w.phase.todo == [] then next.(phase := Resting)
      else
        var n, rest := w.phase.todo[0], w.phase.todo[1..];
        if stat && n in w.core.src.names && Changed(w.cache, w.core.src, n)
        then next.(phase := Statted(n, Mtime(w.core.src, n), rest))
        else next.(phase := Scanning(rest))
    case CallCopy(_) =>
      if !w.phase.Statted? then next
      else if core.writer.Busy? then next.(phase := InCopy(w.phase.name, w.phase.stamp, w.phase.todo))
      else next.(phase := Scanning(w.phase.todo))
    case CopyCall(call) =>
      if !w.phase.InCopy? || core.writer.Busy? then next
      else if call.RenameTmp? then next.(phase := Copied(w.phase.name, w.phase.stamp, w.phase.todo))
      else next.(phase := Scanning(w.phase.todo))
    case Record =>
      if w.phase.Copied? then
        next.(cache := w.cache[w.phase.name := w.phase.stamp], phase := Scanning(w.phase.todo))
      else next
    case Restart => WState(core, map[], Resting)
    case Outside(_) => next
  }

  function WRun(w: WState, acts: seq<WAction>): (r: WState)
    requires WValid(w)
    ensures WValid(r)
    decreases |acts|
  {
    if acts == [] then w else WStep(WRun(w, acts[..|acts| - 1]), acts[|acts| - 1])
  }

  // Every listing names only destinations.
  predicate ListsOnly(dsts: set<Name>, acts: seq<WAction>) {
    forall i | 0 <= i < |acts| && acts[i].Begin? :: forall n | n in acts[i].entries :: n in dsts
  }

  /******* The invariant *******/

  predicate TimesSeen(s: State) {
    forall i | 0 <= i < |s.src.files| :: s.src.files[i].mtime in s.stamps
  }

  predicate CacheOk(dsts: set<Name>, w: WState) {
    forall n | n in w.cache :: n in dsts && w.cache[n] in w.core.stamps
  }

  // n is still exactly as it was when stat returned stamp.
  predicate Current(s: State, n: Name, stamp: Stamp)
    requires Valid(s)
  {
    n in s.src.names && s.src.files[s.src.names[n]].mtime == stamp
  }

  // n is published with the content that its source has now.
  predicate UpToDate(s: State, n: Name)
    requires Valid(s) && n in s.src.names
  {
    n in s.dir.names && At(s.dir, n) == Script(s.src.files[s.src.names[n]].content)
  }

  // A recorded time that is still current stands for an up-to-date publication.
  predicate CacheCoherent(w: WState)
    requires WValid(w)
  {
    forall n | n in w.cache && Current(w.core, n, w.cache[n]) :: UpToDate(w.core, n)
  }

  predicate PhaseOk(dsts: set<Name>, w: WState)
    requires WValid(w)
  {
    var p, s := w.phase, w.core;
    && (!p.Resting? ==> forall n | n in p.todo :: n in dsts)
    && (s.writer.Busy? <==> p.InCopy?)
    && (p.Statted? || p.InCopy? || p.Copied? ==>
          && p.name in dsts && p.stamp in s.stamps
          && (p.name in w.cache ==> !Current(s, p.name, w.cache[p.name])))
    && (p.InCopy? ==>
          var j := s.writer.job;
          && j.dst == p.name
          && (Current(s, p.name, p.stamp) ==>
                !j.torn && j.fd == s.src.names[p.name] && j.original == s.src.files[j.fd].content))
    && (p.Copied? && Current(s, p.name, p.stamp) ==> UpToDate(s, p.name))
  }

  ghost predicate WInv(dsts: set<Name>, w: WState) {
    && WValid(w) && Inv(dsts, w.core) && TimesSeen(w.core)
    && CacheOk(dsts, w) && CacheCoherent(w) && PhaseOk(dsts, w)
  }

  // A watcher that has just started.
  ghost predicate WInit(dsts: set<Name>, w: WState) {
    WValid(w) && Init(dsts, w.core) && TimesSeen(w.core) && w.cache == map[] && w.phase.Resting?
  }

  // An edit by a user only ever makes a recorded time stale.
  lemma OutsideFacts(dsts: set<Name>, s: State, a: Action, n: Name, stamp: Stamp)
    requires Inv(dsts, s) && TimesSeen(s) && IsOutside(a) && stamp in s.stamps
    ensures
      var t := Step(s, a);
      && TimesSeen(t) && s.stamps <= t.stamps && t.dir == s.dir
      && (Current(t, n, stamp) ==>
            && Current(s, n, stamp)
            && s.src.names[n] == t.src.names[n]
            && s.src.files[s.src.names[n]] == t.src.files[s.src.names[n]])
  {
  }

  lemma OutsideJob(dsts: set<Name>, s: State, a: Action, n: Name, stamp: Stamp)
    requires Inv(dsts, s) && TimesSeen(s) && IsOutside(a) && stamp in s.stamps
    requires s.writer.Busy? && n in s.src.names && s.writer.job.fd == s.src.names[n]
    ensures Step(s, a).writer.Busy?
    ensures Step(s, a).writer == s.writer.(job := s.writer.job.(torn := Step(s, a).writer.job.torn))
    ensures Current(Step(s, a), n, stamp) && !s.writer.job.torn ==> !Step(s, a).writer.job.torn
  {
  }

  // The calls before the rename touch no published name.
  lemma TmpCallFacts(dsts: set<Name>, s: State, a: Action)
    requires NoClash(dsts) && Inv(dsts, s) && IsCopyCall(a) && !a.RenameTmp? && s.writer.Busy?
    ensures
      var t := Step(s, a);
      && t.src == s.src && t.stamps == s.stamps
      && (t.writer.Busy? ==> t.writer.job.(acc := [], out := 0) == s.writer.job.(acc := [], out := 0))
      && (forall n | n in dsts && n in s.dir.names :: n in t.dir.names && At(t.dir, n) == At(s.dir, n))
  {
    var t := Step(s, a);
    forall n | n in dsts && n in s.dir.names
      ensures n in t.dir.names && At(t.dir, n) == At(s.dir, n)
    {
      assert n != Tmp(s.writer.job.dst);
    }
  }

  // The rename publishes the whole of what was opened, unless it was torn.
  lemma RenameFacts(dsts: set<Name>, s: State)
    requires NoClash(dsts) && Inv(dsts, s) && s.writer.Busy?
    ensures
      var t, j := Step(s, RenameTmp), s.writer.job;
      && t.src == s.src && t.stamps == s.stamps
      && (t.writer.Busy? ==> t == s)
      && (!t.writer.Busy? ==>
            && (forall n | n in dsts && n in s.dir.names && n != j.dst ::
                  n in t.dir.names && At(t.dir, n) == At(s.dir, n))
            && (!j.torn ==> j.dst in t.dir.names && At(t.dir, j.dst) == Script(j.original)))
  {
  }

  lemma RunSingle(s: State, a: Action)
    requires Valid(s)
    ensures Run(s, [a]) == Step(s, a)
  {
    RunOne(s, [], a);
    assert [] + [a] == [a];
  }

  lemma OutsideKeepsCache(dsts: set<Name>, w: WState, a: Action)
    requires NoClash(dsts) && WInv(dsts, w) && IsOutside(a)
    ensures
      var after := w.(core := Step(w.core, a));
      TimesSeen(after.core) && CacheOk(dsts, after) && CacheCoherent(after)
  {
    var s, t := w.core, Step(w.core, a);
    forall n, stamp | stamp in s.stamps
      ensures stamp in t.stamps && t.dir == s.dir && TimesSeen(t)
      ensures Current(t, n, stamp) ==> Current(s, n, stamp) && (UpToDate(s, n) ==> UpToDate(t, n))
    {
      OutsideFacts(dsts, s, a, n, stamp);
    }
    assert TimesSeen(t);
  }

  lemma OutsideKeepsPhase(dsts: set<Name>, w: WState, a: Action)
    requires NoClash(dsts) && WInv(dsts, w) && IsOutside(a)
    ensures PhaseOk(dsts, w.(core := Step(w.core, a)))
  {
    var s, t, p := w.core, Step(w.core, a), w.phase;
    assert t.writer.Busy? == s.writer.Busy?;
    if p.Statted? || p.InCopy? || p.Copied? {
      OutsideFacts(dsts, s, a, p.name, p.stamp);
      if p.name in w.cache {
        OutsideFacts(dsts, s, a, p.name, w.cache[p.name]);
      }
      if p.InCopy? && Current(t, p.name, p.stamp) {
        OutsideJob(dsts, s, a, p.name, p.stamp);
      }
    }
  }

  lemma OutsideKeepsWInv(dsts: set<Name>, w: WState, a: WAction)
    requires NoClash(dsts) && WInv(dsts, w) && a.Outside?
    ensures WInv(dsts, WStep(w, a))
  {
    if IsOutside(a.act) {
      RunSingle(w.core, a.act);
      StepKeepsInv(dsts, w.core, a.act);
      OutsideKeepsCache(dsts, w, a.act);
      OutsideKeepsPhase(dsts, w, a.act);
      assert WStep(w, a) == w.(core := Step(w.core, a.act));
    }
  }

  lemma TmpCallKeepsWInv(dsts: set<Name>, w: WState, a: WAction)
    requires NoClash(dsts) && WInv(dsts, w) && a.CopyCall? && !a.call.RenameTmp?
    ensures WInv(dsts, WStep(w, a))
  {
    if w.phase.InCopy? && IsCopyCall(a.call) {
      RunSingle(w.core, a.call);
      StepKeepsInv(dsts, w.core, a.call);
      TmpCallFacts(dsts, w.core, a.call);
    }
  }

  lemma RenameKeepsWInv(dsts: set<Name>, w: WState, a: WAction)
    requires NoClash(dsts) && WInv(dsts, w) && a.CopyCall? && a.call.RenameTmp?
    ensures WInv(dsts, WStep(w, a))
  {
    if w.phase.InCopy? {
      RunSingle(w.core, a.call);
      StepKeepsInv(dsts, w.core, a.call);
      RenameFacts(dsts, w.core);
    }
  }

  lemma CallKeepsWInv(dsts: set<Name>, w: WState, a: WAction)
    requires NoClash(dsts) && WInv(dsts, w) && a.CallCopy?
    ensures WInv(dsts, WStep(w, a))
  {
    if CoreStep(w, a) != [] {
      var open := OpenSource(w.phase.name, w.phase.name);
      RunSingle(w.core, open);
      StepKeepsInv(dsts, w.core, open);
    }
  }

  lemma OwnKeepsWInv(dsts: set<Name>, w: WState, a: WAction)
    requires NoClash(dsts) && WInv(dsts, w)
    requires a.Begin? || a.Visit? || a.Record?
    requires a.Begin? ==> forall n | n in a.entries :: n in dsts
    ensures WInv(dsts, WStep(w, a))
  {
    assert WStep(w, a).core == w.core;
  }

  lemma RestartKeepsWInv(dsts: set<Name>, w: WState)
    requires NoClash(dsts) && WInv(dsts, w)
    ensures WInv(dsts, WStep(w, Restart))
  {
    RunSingle(w.core, Crash);
    StepKeepsInv(dsts, w.core, Crash);
  }

  lemma {:induction false} WRunKeepsWInv(dsts: set<Name>, w: WState, acts: seq<WAction>)
    requires NoClash(dsts) && WInv(dsts, w) && ListsOnly(dsts, acts)
    ensures WInv(dsts, WRun(w, acts))
    decreases |acts|
  {
    if acts != [] {
      var m, a := WRun(w, acts[..|acts| - 1]), acts[|acts| - 1];
      WRunKeepsWInv(dsts, w, acts[..|acts| - 1]);
      match a
      case CopyCall(call) =>
        if call.RenameTmp? { RenameKeepsWInv(dsts, m, a); } else { TmpCallKeepsWInv(dsts, m, a); }
      case CallCopy(_) => CallKeepsWInv(dsts, m, a);
      case Outside(_) => OutsideKeepsWInv(dsts, m, a);
      case Restart => RestartKeepsWInv(dsts, m);
      case _ => OwnKeepsWInv(dsts, m, a);
    }
  }

  /**
   Cache coherence. At every moment of every run, whatever users edit between any two
   system calls and whatever fails or crashes, a file whose recorded time is still its
   modification time is published with its current content and mode 0755, even if an
   earlier copy of it was torn by an edit.
   */
  lemma CacheStaysCoherent(dsts: set<Name>, w: WState, acts: seq<WAction>)
    requires NoClash(dsts) && WInit(dsts, w) && ListsOnly(dsts, acts)
    ensures CacheCoherent(WRun(w, acts))
  {
    WRunKeepsWInv(dsts, w, acts);
  }

  lemma CoreStepCopiesTo(dsts: set<Name>, w: WState, a: WAction)
    requires WInv(dsts, w)
    ensures CopiesTo(dsts, CoreStep(w, a)) && WStep(w, a).core == Run(w.core, CoreStep(w, a))
  {
  }

  lemma JoinSteps(dsts: set<Name>, s: State, a: seq<Action>, b: seq<Action>)
    requires Valid(s) && CopiesTo(dsts, a) && CopiesTo(dsts, b)
    ensures CopiesTo(dsts, a + b) && Run(s, a + b) == Run(Run(s, a), b)
  {
    RunTwice(s, a, b);
  }

  // The watcher only ever moves the shared directory by copying steps, so its readers
  // see what ReaderSeesOneVersion says.
  lemma {:induction false} WRunIsRun(dsts: set<Name>, w: WState, acts: seq<WAction>) returns (steps: seq<Action>)
    requires NoClash(dsts) && WInv(dsts, w) && ListsOnly(dsts, acts)
    ensures CopiesTo(dsts, steps) && WRun(w, acts).core == Run(w.core, steps)
    decreases |acts|
  {
    if acts == [] {
      steps := [];
    } else {
      var m, a := WRun(w, acts[..|acts| - 1]), acts[|acts| - 1];
      var before := WRunIsRun(dsts, w, acts[..|acts| - 1]);
      WRunKeepsWInv(dsts, w, acts[..|acts| - 1]);
      CoreStepCopiesTo(dsts, m, a);
      JoinSteps(dsts, w.core, before, CoreStep(m, a));
      steps := before + CoreStep(m, a);
    }
  }

  // What the watcher does not do itself: readers and edits act on the machine at any
  // moment and leave the watcher where it was, and a restart forgets the cache.
  lemma OthersAct(w: WState, a: Action)
    requires WValid(w)
    ensures a.OpenReader? || a.Read? || a.EditInPlace? || a.Replace? || a.Delete? ==>
      WStep(w, Outside(a)) == w.(core := Step(w.core, a))
    ensures WStep(w, Restart) == WState(Step(w.core, Crash), map[], Resting)
  {
    RunSingle(w.core, a);
    RunSingle(w.core, Crash);
  }
}
