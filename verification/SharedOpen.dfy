/**
 Opening files through shared descriptors: Open and Close on top of the duplicate call
 suppression of Group.Do, for any number of goroutines.

 Each action below is what one goroutine does between two lock operations.  A run is any
 sequence of actions of any goroutines.
 */
module SharedOpen {
  import opened Wrappers

  type Path = string
  type Gid = nat
  type CallId = nat
  type FileId = nat
  type HandleId = nat

  /** The two results of opening a file. */
  datatype Result = Failed(error: string) | Opened(file: FileId)

  /** Where a goroutine is. */
  datatype Pc =
    | Idle
    | Looking(path: Path)                                  // Open: before the first look at openFiles
    | Missed(path: Path)                                   // Open: before the call of Do
    | Waiting(path: Path, call: CallId)                    // Do: waits for the call of another goroutine
    | Opening(path: Path, call: CallId)                    // Do: runs the function
    | Inserting(path: Path, call: CallId, file: FileId)    // the file is open but not yet in openFiles
    | Finishing(path: Path, call: CallId, result: Result)  // Do: the function has returned
    | Deleting(path: Path, call: CallId, result: Result)   // Do: before the call is taken out of the group
    | Joined(path: Path, call: CallId, file: FileId)       // Open: got the result of another goroutine's call
    | Holding(path: Path, file: FileId)                    // Open: about to return a handle
    | Closing(file: FileId)                                // Close: about to close the underlying file

  datatype Call = Call(path: Path, result: Option<Result>)

  /** call records which call opened the file, closes how often it has been closed. */
  datatype File = File(path: Path, refCount: int, call: CallId, closes: nat)

  datatype Handle = Handle(path: Path, file: FileId, closed: bool)

  datatype State = State(
    openFiles: map<Path, FileId>,
    files: map<FileId, File>,
    group: map<Path, CallId>,
    calls: map<CallId, Call>,
    handles: map<HandleId, Handle>,
    pcs: map<Gid, Pc>,
    nextFile: nat,
    nextCall: nat,
    nextHandle: nat)
  {
    ghost function At(g: Gid): Pc
    {
      if g in pcs then pcs[g] else Idle
    }

    ghost function Go(g: Gid, pc: Pc): State
    {
      this.(pcs := pcs[g := pc])
    }

    ghost function Count(f: FileId, n: int): State
      requires f in files
    {
      this.(files := files[f := files[f].(refCount := n)])
    }
  }

  ghost const Init := State(map[], map[], map[], map[], map[], map[], 0, 0, 0)

  datatype Action =
    | CallOpen(g: Gid, path: Path)
    | Look(g: Gid)
    | Enter(g: Gid)
    | OpenFails(g: Gid, error: string)
    | OpenSucceeds(g: Gid)
    | Insert(g: Gid)
    | Finish(g: Gid)
    | Delete(g: Gid)
    | Wake(g: Gid)
    | Join(g: Gid)
    | Return(g: Gid)
    | CallClose(g: Gid, handle: HandleId)
    | CloseFile(g: Gid)

  ghost predicate Enabled(s: State, a: Action)
  {
    var pc := s.At(a.g);
    match a
    case CallOpen(_, _) => pc.Idle?
    case Look(_) => pc.Looking? && (pc.path in s.openFiles ==> s.openFiles[pc.path] in s.files)
    case Enter(_) => pc.Missed?
    case OpenFails(_, _) => pc.Opening?
    case OpenSucceeds(_) => pc.Opening?
    case Insert(_) => pc.Inserting?
    case Finish(_) => pc.Finishing? && pc.call in s.calls
    case Delete(_) => pc.Deleting?
    case Wake(_) => pc.Waiting? && pc.call in s.calls && s.calls[pc.call].result.Some?
    case Join(_) => pc.Joined? && pc.file in s.files
    case Return(_) => pc.Holding?
    case CallClose(_, h) => pc.Idle? && h in s.handles && s.handles[h].file in s.files
    case CloseFile(_) => pc.Closing? && pc.file in s.files
  }

  ghost function Apply(s: State, a: Action): State
    requires Enabled(s, a)
  {
    var pc := s.At(a.g);
    match a
    case CallOpen(g, path) =>
      s.Go(g, Looking(path))
    case Look(g) =>
      if pc.path in s.openFiles then
        var f := s.openFiles[pc.path];
        s.Count(f, s.files[f].refCount + 1).Go(g, Holding(pc.path, f))
      else
        s.Go(g, Missed(pc.path))
    case Enter(g) =>
      if pc.path in s.group then
        s.Go(g, Waiting(pc.path, s.group[pc.path]))
      else
        var c := s.nextCall;
        s.(group := s.group[pc.path := c], calls := s.calls[c := Call(pc.path, None)], nextCall := c + 1)
         .Go(g, Opening(pc.path, c))
    case OpenFails(g, error) =>
      s.Go(g, Finishing(pc.path, pc.call, Failed(error)))
    case OpenSucceeds(g) =>
      var f := s.nextFile;
      s.(files := s.files[f := File(pc.path, 1, pc.call, 0)], nextFile := f + 1)
       .Go(g, Inserting(pc.path, pc.call, f))
    case Insert(g) =>
      s.(openFiles := s.openFiles[pc.path := pc.file])
       .Go(g, Finishing(pc.path, pc.call, Opened(pc.file)))
    case Finish(g) =>
      s.(calls := s.calls[pc.call := s.calls[pc.call].(result := Some(pc.result))])
       .Go(g, Deleting(pc.path, pc.call, pc.result))
    case Delete(g) =>
      s.(group := s.group - {pc.path})
       .Go(g, if pc.result.Opened? then Holding(pc.path, pc.result.file) else Idle)
    case Wake(g) =>
      var r := s.calls[pc.call].result.value;
      s.Go(g, if r.Opened? then Joined(pc.path, pc.call, r.file) else Idle)
    case Join(g) =>
      if s.files[pc.file].refCount == 0 then
        s.Go(g, Looking(pc.path))
      else
        s.Count(pc.file, s.files[pc.file].refCount + 1).Go(g, Holding(pc.path, pc.file))
    case Return(g) =>
      var h := s.nextHandle;
      s.(handles := s.handles[h := Handle(pc.path, pc.file, false)], nextHandle := h + 1).Go(g, Idle)
    case CallClose(g, h) =>
      var f := s.handles[h].file;
      if s.handles[h].closed then
        s
      else
        var n := s.files[f].refCount - 1;
        var t := s.(handles := s.handles[h := s.handles[h].(closed := true)]).Count(f, n);
        if n == 0 then
          t.(openFiles := s.openFiles - {s.files[f].path}).Go(g, Closing(f))
        else
          t
    case CloseFile(g) =>
      s.(files := s.files[pc.file := s.files[pc.file].(closes := s.files[pc.file].closes + 1)]).Go(g, Idle)
  }

  /** The actions are possible one after the other, and lead from s to t. */
  ghost predicate Run(s: State, actions: seq<Action>, t: State)
    decreases |actions|
  {
    if actions == [] then s == t
    else Enabled(s, actions[0]) && Run(Apply(s, actions[0]), actions[1..], t)
  }

  // ---------- The invariant ----------

  ghost predicate RunsCall(pc: Pc)
  {
    pc.Opening? || pc.Inserting? || pc.Finishing? || pc.Deleting?
  }

  ghost predicate Runs(pc: Pc, p: Path, c: CallId)
  {
    RunsCall(pc) && pc.path == p && pc.call == c
  }

  ghost predicate SameCall(p: Pc, q: Pc)
  {
    RunsCall(p) && RunsCall(q) && p.call == q.call
  }

  /** The goroutine is counted for file f although it has no handle yet. */
  ghost predicate Owed(pc: Pc, f: FileId)
  {
    || (pc.Inserting? && pc.file == f)
    || (pc.Finishing? && pc.result == Opened(f))
    || (pc.Deleting? && pc.result == Opened(f))
    || (pc.Holding? && pc.file == f)
  }

  ghost predicate IsClosing(pc: Pc, f: FileId)
  {
    pc.Closing? && pc.file == f
  }

  ghost predicate Live(h: Handle, f: FileId)
  {
    h.file == f && !h.closed
  }

  ghost function LiveHandles(s: State, f: FileId): set<HandleId>
  {
    set h | h in s.handles && Live(s.handles[h], f)
  }

  ghost function Owing(s: State, f: FileId): set<Gid>
  {
    set g | g in s.pcs && Owed(s.pcs[g], f)
  }

  ghost function Closers(s: State, f: FileId): set<Gid>
  {
    set g | g in s.pcs && IsClosing(s.pcs[g], f)
  }

  /** Every call in the group is run by exactly one goroutine, which will delete it. */
  ghost predicate CallsInv(s: State)
  {
    && (forall c :: c in s.calls ==> c < s.nextCall)
    && (forall g :: g in s.pcs && RunsCall(s.pcs[g]) ==> RunnerInv(s, s.pcs[g]))
    && (forall g, h :: g in s.pcs && h in s.pcs && SameCall(s.pcs[g], s.pcs[h]) ==> g == h)
    && (forall p :: p in s.group ==> GroupInv(s, p))
    && (forall c :: c in s.calls ==> PendingInv(s, c))
  }

  /** A call without a result is still in the group. */
  ghost predicate PendingInv(s: State, c: CallId)
    requires c in s.calls
  {
    s.calls[c].result.None? ==> s.calls[c].path in s.group && s.group[s.calls[c].path] == c
  }

  ghost predicate RunnerInv(s: State, pc: Pc)
    requires RunsCall(pc)
  {
    && pc.path in s.group && s.group[pc.path] == pc.call
    && pc.call in s.calls && s.calls[pc.call].path == pc.path
    && s.calls[pc.call].result == if pc.Deleting? then Some(pc.result) else None
  }

  ghost predicate GroupInv(s: State, p: Path)
    requires p in s.group
  {
    exists g :: g in s.pcs && Runs(s.pcs[g], p, s.group[p])
  }

  /** File f was opened for this path by this call. */
  ghost predicate FileOf(s: State, f: FileId, path: Path, c: CallId)
  {
    f in s.files && s.files[f].path == path && s.files[f].call == c
  }

  /** What a goroutine knows about files and calls is true. */
  ghost predicate PcInv(s: State, pc: Pc)
  {
    match pc
    case Waiting(path, c) => c in s.calls && s.calls[c].path == path
    case Inserting(path, c, f) => FileOf(s, f, path, c)
    case Finishing(path, c, r) => r.Opened? ==> FileOf(s, r.file, path, c)
    case Deleting(path, c, r) => r.Opened? ==> FileOf(s, r.file, path, c)
    case Joined(path, c, f) => c in s.calls && s.calls[c] == Call(path, Some(Opened(f))) && FileOf(s, f, path, c)
    case Holding(path, f) => f in s.files && s.files[f].path == path
    case Closing(f) => f in s.files
    case _ => true
  }

  ghost predicate HandleInv(s: State, h: Handle)
  {
    h.file in s.files && s.files[h.file].path == h.path
  }

  ghost predicate FilesInv(s: State)
  {
    && (forall f :: f in s.files ==> f < s.nextFile)
    && (forall g :: g in s.pcs ==> PcInv(s, s.pcs[g]))
    && (forall c :: c in s.calls && s.calls[c].result.Some? && s.calls[c].result.value.Opened? ==>
          FileOf(s, s.calls[c].result.value.file, s.calls[c].path, c))
    && (forall h :: h in s.handles ==> h < s.nextHandle && HandleInv(s, s.handles[h]))
    && (forall p :: p in s.openFiles ==> InUse(s, p))
  }

  /** The reference count is the number of live handles plus that of goroutines about to receive one. */
  ghost predicate Counted(s: State, f: FileId)
    requires f in s.files
  {
    && s.files[f].refCount == |LiveHandles(s, f)| + |Owing(s, f)|
    && s.files[f].closes + |Closers(s, f)| == if s.files[f].refCount == 0 then 1 else 0
  }

  ghost predicate CountsInv(s: State)
  {
    forall f :: f in s.files ==> Counted(s, f)
  }

  ghost predicate Inv(s: State)
  {
    CallsInv(s) && FilesInv(s) && CountsInv(s)
  }

  // ---------- What the actions change ----------

  lemma GroupEffect(s: State, a: Action)
    requires Enabled(s, a)
    ensures Apply(s, a).group ==
      if a.Enter? && s.At(a.g).path !in s.group then s.group[s.At(a.g).path := s.nextCall]
      else if a.Delete? then s.group - {s.At(a.g).path} else s.group
  {
    hide Apply;
    if OnTheWayIn(a) { GroupOnTheWayIn(s, a); } else { GroupOnTheWayOut(s, a); }
  }

  ghost predicate OnTheWayIn(a: Action)
  {
    a.CallOpen? || a.Look? || a.Enter? || a.OpenFails? || a.OpenSucceeds? || a.Insert?
  }

  lemma GroupOnTheWayIn(s: State, a: Action)
    requires Enabled(s, a) && OnTheWayIn(a)
    ensures Apply(s, a).group ==
      if a.Enter? && s.At(a.g).path !in s.group then s.group[s.At(a.g).path := s.nextCall] else s.group
  {
  }

  lemma GroupOnTheWayOut(s: State, a: Action)
    requires Enabled(s, a) && !OnTheWayIn(a)
    ensures Apply(s, a).group == if a.Delete? then s.group - {s.At(a.g).path} else s.group
  {
  }

  lemma CallsStay(s: State, a: Action, c: CallId)
    requires Enabled(s, a) && c in s.calls
    ensures c in Apply(s, a).calls
  {
  }

  lemma FilesEffect(s: State, a: Action)
    requires Enabled(s, a)
    ensures var t := Apply(s, a);
      match a
      case OpenSucceeds(g) => t.files == s.files[s.nextFile := File(s.At(g).path, 1, s.At(g).call, 0)]
      case Look(g) =>
        if s.At(g).path in s.openFiles then
          var f := s.openFiles[s.At(g).path];
          t.files == s.files[f := s.files[f].(refCount := s.files[f].refCount + 1)]
        else t.files == s.files
      case Join(g) =>
        var f := s.At(g).file;
        if s.files[f].refCount == 0 then t.files == s.files
        else t.files == s.files[f := s.files[f].(refCount := s.files[f].refCount + 1)]
      case CallClose(g, h) =>
        var f := s.handles[h].file;
        if s.handles[h].closed then t.files == s.files
        else t.files == s.files[f := s.files[f].(refCount := s.files[f].refCount - 1)]
      case CloseFile(g) =>
        t.files == s.files[s.At(g).file := s.files[s.At(g).file].(closes := s.files[s.At(g).file].closes + 1)]
      case _ => t.files == s.files
  {
  }

  lemma CallsEffect(s: State, a: Action)
    requires Enabled(s, a) && !a.Finish? && !a.Enter?
    ensures Apply(s, a).calls == s.calls
  {
  }

  // ---------- Every action keeps the invariant ----------

  lemma InitInv()
    ensures Inv(Init)
  {
  }

  lemma Without<T>(xs: set<T>, x: T)
    ensures |xs| == |xs - {x}| + if x in xs then 1 else 0
  {
    if x in xs { assert xs == (xs - {x}) + {x}; } else { assert xs == xs - {x}; }
  }

  /** Moving one goroutine changes the number of owing goroutines by what it was and is. */
  lemma OwingCounts(s: State, t: State, g: Gid, f: FileId)
    requires t.pcs == s.pcs[g := t.At(g)]
    ensures |Owing(t, f)| + (if Owed(s.At(g), f) then 1 else 0) == |Owing(s, f)| + (if Owed(t.At(g), f) then 1 else 0)
  {
    hide Owed;
    Without(Owing(t, f), g);
    Without(Owing(s, f), g);
    OwedIdle(f);
    assert Owing(t, f) - {g} == Owing(s, f) - {g};
  }

  lemma OwedIdle(f: FileId)
    ensures !Owed(Idle, f)
  {
  }

  lemma ClosersCounts(s: State, t: State, g: Gid, f: FileId)
    requires t.pcs == s.pcs[g := t.At(g)]
    ensures |Closers(t, f)| + (if IsClosing(s.At(g), f) then 1 else 0)
         == |Closers(s, f)| + (if IsClosing(t.At(g), f) then 1 else 0)
  {
    Without(Closers(t, f), g);
    Without(Closers(s, f), g);
    assert Closers(t, f) - {g} == Closers(s, f) - {g};
  }

  lemma PcCounts(s: State, t: State, g: Gid, f: FileId)
    requires t.pcs == s.pcs[g := t.At(g)]
    ensures |Owing(t, f)| + (if Owed(s.At(g), f) then 1 else 0) == |Owing(s, f)| + (if Owed(t.At(g), f) then 1 else 0)
    ensures |Closers(t, f)| + (if IsClosing(s.At(g), f) then 1 else 0)
         == |Closers(s, f)| + (if IsClosing(t.At(g), f) then 1 else 0)
  {
    OwingCounts(s, t, g, f);
    ClosersCounts(s, t, g, f);
  }

  lemma HandleCounts(s: State, t: State, h: HandleId, f: FileId)
    requires h in t.handles && t.handles == s.handles[h := t.handles[h]]
    ensures |LiveHandles(t, f)| + (if h in s.handles && Live(s.handles[h], f) then 1 else 0)
         == |LiveHandles(s, f)| + (if Live(t.handles[h], f) then 1 else 0)
  {
    Without(LiveHandles(t, f), h);
    Without(LiveHandles(s, f), h);
    assert LiveHandles(t, f) - {h} == LiveHandles(s, f) - {h};
    assert h in LiveHandles(t, f) <==> Live(t.handles[h], f);
    assert h in LiveHandles(s, f) <==> h in s.handles && Live(s.handles[h], f);
  }

  /** The goroutine still runs the same call, or runs none before and after. */
  ghost predicate KeepsCall(p: Pc, q: Pc)
  {
    if RunsCall(p) then SameCall(p, q) && p.path == q.path && !p.Deleting? && !q.Deleting? else !RunsCall(q)
  }

  lemma CallsKept(s: State, t: State, g: Gid)
    requires CallsInv(s) && t.group == s.group && t.calls == s.calls && t.nextCall == s.nextCall
    requires t.pcs == s.pcs[g := t.At(g)] && KeepsCall(s.At(g), t.At(g))
    ensures CallsInv(t)
  {
    forall h | h in t.pcs && RunsCall(t.pcs[h]) ensures RunnerInv(t, t.pcs[h])
    {
      assert h in s.pcs && RunnerInv(s, s.pcs[h]);
    }
    forall h, i | h in t.pcs && i in t.pcs && SameCall(t.pcs[h], t.pcs[i]) ensures h == i
    {
      assert h in s.pcs && i in s.pcs && SameCall(s.pcs[h], s.pcs[i]);
    }
    forall p | p in t.group ensures GroupInv(t, p)
    {
      assert GroupInv(s, p);
      var h :| h in s.pcs && Runs(s.pcs[h], p, s.group[p]);
      assert h in t.pcs && Runs(t.pcs[h], p, t.group[p]);
    }
  }

  lemma EnterKeepsRunners(s: State, g: Gid)
    requires CallsInv(s) && Enabled(s, Enter(g)) && s.At(g).path !in s.group
    ensures var t := Apply(s, Enter(g));
      && (forall h :: h in t.pcs && RunsCall(t.pcs[h]) ==> RunnerInv(t, t.pcs[h]))
      && (forall h, i :: h in t.pcs && i in t.pcs && SameCall(t.pcs[h], t.pcs[i]) ==> h == i)
  {
    hide GroupInv, PendingInv;
    var t, path, c := Apply(s, Enter(g)), s.At(g).path, s.nextCall;
    forall h | h in t.pcs && RunsCall(t.pcs[h]) ensures RunnerInv(t, t.pcs[h])
    {
      assert h != g ==> RunnerInv(s, s.pcs[h]);
    }
    forall h, i | h in t.pcs && i in t.pcs && SameCall(t.pcs[h], t.pcs[i]) ensures h == i
    {
      assert h != g ==> RunnerInv(s, s.pcs[h]) && s.pcs[h].call != c;
      assert i != g ==> RunnerInv(s, s.pcs[i]) && s.pcs[i].call != c;
      assert h != g && i != g ==> SameCall(s.pcs[h], s.pcs[i]);
    }
  }

  lemma EnterKeepsGroup(s: State, g: Gid)
    requires CallsInv(s) && Enabled(s, Enter(g)) && s.At(g).path !in s.group
    ensures var t := Apply(s, Enter(g));
      && (forall c :: c in t.calls ==> c < t.nextCall)
      && (forall p :: p in t.group ==> GroupInv(t, p))
      && (forall c :: c in t.calls ==> PendingInv(t, c))
  {
    hide RunnerInv;
    var t, path, c := Apply(s, Enter(g)), s.At(g).path, s.nextCall;
    forall p | p in t.group ensures GroupInv(t, p)
    {
      if p == path {
        assert g in t.pcs && Runs(t.pcs[g], p, t.group[p]);
      } else {
        assert GroupInv(s, p);
        var h :| h in s.pcs && Runs(s.pcs[h], p, s.group[p]);
        assert h in t.pcs && Runs(t.pcs[h], p, t.group[p]);
      }
    }
  }

  lemma EnterKeepsCalls(s: State, g: Gid)
    requires CallsInv(s) && Enabled(s, Enter(g)) && s.At(g).path !in s.group
    ensures CallsInv(Apply(s, Enter(g)))
  {
    hide Apply, Enabled, GroupInv, PendingInv, RunnerInv;
    EnterKeepsRunners(s, g);
    EnterKeepsGroup(s, g);
  }

  lemma FinishKeepsRunners(s: State, g: Gid)
    requires CallsInv(s) && Enabled(s, Finish(g))
    ensures var t := Apply(s, Finish(g));
      && (forall h :: h in t.pcs && RunsCall(t.pcs[h]) ==> RunnerInv(t, t.pcs[h]))
      && (forall h, i :: h in t.pcs && i in t.pcs && SameCall(t.pcs[h], t.pcs[i]) ==> h == i)
  {
    hide GroupInv, PendingInv;
    var t := Apply(s, Finish(g));
    assert RunnerInv(s, s.pcs[g]);
    forall h | h in t.pcs && RunsCall(t.pcs[h]) ensures RunnerInv(t, t.pcs[h])
    {
      assert RunnerInv(s, s.pcs[h]);
      assert h != g ==> !SameCall(s.pcs[h], s.pcs[g]);
    }
    forall h, i | h in t.pcs && i in t.pcs && SameCall(t.pcs[h], t.pcs[i]) ensures h == i
    {
      assert SameCall(s.pcs[h], s.pcs[i]);
    }
  }

  lemma FinishKeepsGroup(s: State, g: Gid)
    requires CallsInv(s) && Enabled(s, Finish(g))
    ensures var t := Apply(s, Finish(g));
      && (forall c :: c in t.calls ==> c < t.nextCall)
      && (forall p :: p in t.group ==> GroupInv(t, p))
      && (forall c :: c in t.calls ==> PendingInv(t, c))
  {
    hide RunnerInv;
    var t := Apply(s, Finish(g));
    forall p | p in t.group ensures GroupInv(t, p)
    {
      assert GroupInv(s, p);
      var h :| h in s.pcs && Runs(s.pcs[h], p, s.group[p]);
      assert h in t.pcs && Runs(t.pcs[h], p, t.group[p]);
    }
  }

  lemma FinishKeepsCalls(s: State, g: Gid)
    requires CallsInv(s) && Enabled(s, Finish(g))
    ensures CallsInv(Apply(s, Finish(g)))
  {
    hide RunnerInv, GroupInv, PendingInv, Apply;
    FinishKeepsRunners(s, g);
    FinishKeepsGroup(s, g);
  }

  lemma DeleteKeepsRunners(s: State, g: Gid)
    requires CallsInv(s) && Enabled(s, Delete(g))
    ensures var t := Apply(s, Delete(g));
      && (forall h :: h in t.pcs && RunsCall(t.pcs[h]) ==> RunnerInv(t, t.pcs[h]))
      && (forall h, i :: h in t.pcs && i in t.pcs && SameCall(t.pcs[h], t.pcs[i]) ==> h == i)
  {
    hide GroupInv, PendingInv;
    var t := Apply(s, Delete(g));
    assert RunnerInv(s, s.pcs[g]);
    forall h | h in t.pcs && RunsCall(t.pcs[h]) ensures RunnerInv(t, t.pcs[h])
    {
      assert RunnerInv(s, s.pcs[h]) && !SameCall(s.pcs[h], s.pcs[g]);
    }
    forall h, i | h in t.pcs && i in t.pcs && SameCall(t.pcs[h], t.pcs[i]) ensures h == i
    {
      assert SameCall(s.pcs[h], s.pcs[i]);
    }
  }

  lemma DeleteKeepsGroup(s: State, g: Gid)
    requires CallsInv(s) && Enabled(s, Delete(g))
    ensures var t := Apply(s, Delete(g));
      && (forall c :: c in t.calls ==> c < t.nextCall)
      && (forall p :: p in t.group ==> GroupInv(t, p))
      && (forall c :: c in t.calls ==> PendingInv(t, c))
  {
    var t, path := Apply(s, Delete(g)), s.At(g).path;
    assert RunnerInv(s, s.pcs[g]);
    forall p | p in t.group ensures GroupInv(t, p)
    {
      assert GroupInv(s, p) && p != path;
      var h :| h in s.pcs && Runs(s.pcs[h], p, s.group[p]);
      assert h in t.pcs && Runs(t.pcs[h], p, t.group[p]);
    }
    forall c | c in t.calls ensures PendingInv(t, c)
    {
      assert PendingInv(s, c);
    }
  }

  lemma DeleteKeepsCalls(s: State, g: Gid)
    requires CallsInv(s) && Enabled(s, Delete(g))
    ensures CallsInv(Apply(s, Delete(g)))
  {
    hide Apply, Enabled, GroupInv, PendingInv, RunnerInv;
    DeleteKeepsRunners(s, g);
    DeleteKeepsGroup(s, g);
  }

  lemma OthersKeepCalls(s: State, a: Action)
    requires CallsInv(s) && Enabled(s, a) && !a.Finish? && !a.Delete?
    requires a.Enter? ==> s.At(a.g).path in s.group
    ensures CallsInv(Apply(s, a))
  {
    hide CallsInv, Apply, KeepsCall;
    if OnTheWayIn(a) { EffectOnTheWayIn(s, a); } else { EffectOnTheWayOut(s, a); }
    CallsKept'(s, Apply(s, a), a.g);
  }

  /** t differs from s neither in its calls nor in who runs them. */
  ghost predicate SameCalls(s: State, t: State, g: Gid)
  {
    && t.group == s.group && t.calls == s.calls && t.nextCall == s.nextCall
    && (t.pcs == s.pcs || (t.pcs == s.pcs[g := t.At(g)] && KeepsCall(s.At(g), t.At(g))))
  }

  lemma EffectOnTheWayIn(s: State, a: Action)
    requires Enabled(s, a) && OnTheWayIn(a) && (a.Enter? ==> s.At(a.g).path in s.group)
    ensures SameCalls(s, Apply(s, a), a.g)
  {
  }

  lemma EffectOnTheWayOut(s: State, a: Action)
    requires Enabled(s, a) && !OnTheWayIn(a) && !a.Finish? && !a.Delete?
    ensures SameCalls(s, Apply(s, a), a.g)
  {
  }

  lemma EnterAnyKeepsCalls(s: State, g: Gid)
    requires CallsInv(s) && Enabled(s, Enter(g))
    ensures CallsInv(Apply(s, Enter(g)))
  {
    hide CallsInv;
    if s.At(g).path in s.group { OthersKeepCalls(s, Enter(g)); } else { EnterKeepsCalls(s, g); }
  }

  lemma CallsPreserved(s: State, a: Action)
    requires CallsInv(s) && Enabled(s, a)
    ensures CallsInv(Apply(s, a))
  {
    hide CallsInv, Apply, Enabled;
    match a
    case Enter(g) => EnterAnyKeepsCalls(s, g);
    case Finish(g) => FinishKeepsCalls(s, g);
    case Delete(g) => DeleteKeepsCalls(s, g);
    case _ => OthersKeepCalls(s, a);
  }

  /** A goroutine that was idle and still is may not be recorded at all. */
  lemma CallsKept'(s: State, t: State, g: Gid)
    requires CallsInv(s) && t.group == s.group && t.calls == s.calls && t.nextCall == s.nextCall
    requires t.pcs == s.pcs || (t.pcs == s.pcs[g := t.At(g)] && KeepsCall(s.At(g), t.At(g)))
    ensures CallsInv(t)
  {
    if t.pcs == s.pcs {
      forall p | p in t.group ensures GroupInv(t, p) { assert GroupInv(s, p); }
    } else {
      CallsKept(s, t, g);
    }
  }

  /** Files keep their path and their call, and calls keep their results. */
  ghost predicate Remembers(s: State, t: State)
  {
    && (forall f :: f in s.files ==> FileOf(t, f, s.files[f].path, s.files[f].call))
    && (forall c :: c in s.calls ==> c in t.calls && t.calls[c].path == s.calls[c].path)
    && (forall c :: c in s.calls && s.calls[c].result.Some? ==> t.calls[c] == s.calls[c])
  }

  /** Only existing files change, and only in their counts. */
  lemma RemembersCounts(s: State, t: State)
    requires t.calls == s.calls
    requires forall f :: f in s.files ==> f in t.files && t.files[f].path == s.files[f].path && t.files[f].call == s.files[f].call
    ensures Remembers(s, t)
  {
  }

  lemma OthersRemember(s: State, a: Action)
    requires FilesInv(s) && Enabled(s, a) && !a.Finish? && !a.Enter?
    ensures Remembers(s, Apply(s, a))
  {
    hide FilesInv, Remembers, Apply;
    FilesInvFresh(s);
    FilesEffect(s, a);
    CallsEffect(s, a);
    RemembersCounts(s, Apply(s, a));
  }

  lemma ActionRemembers(s: State, a: Action)
    requires CallsInv(s) && FilesInv(s) && Enabled(s, a)
    ensures Remembers(s, Apply(s, a))
  {
    hide CallsInv, FilesInv, Remembers, Apply, Enabled;
    match a
    case Finish(g) => FinishRemembers(s, g);
    case Enter(g) => EnterRemembers(s, g);
    case _ => OthersRemember(s, a);
  }

  lemma FinishRemembers(s: State, g: Gid)
    requires CallsInv(s) && Enabled(s, Finish(g))
    ensures Remembers(s, Apply(s, Finish(g)))
  {
    assert RunnerInv(s, s.pcs[g]);
  }

  lemma EnterRemembers(s: State, g: Gid)
    requires CallsInv(s) && Enabled(s, Enter(g))
    ensures Remembers(s, Apply(s, Enter(g)))
  {
    assert s.nextCall !in s.calls;
  }

  lemma PcRemembered(s: State, t: State, pc: Pc)
    requires Remembers(s, t) && PcInv(s, pc)
    ensures PcInv(t, pc)
  {
  }

  /** The goroutine that acts knows what it needs afterwards. */
  lemma ActorKnows(s: State, a: Action)
    requires CallsInv(s) && FilesInv(s) && Enabled(s, a)
    ensures PcInv(Apply(s, a), Apply(s, a).At(a.g))
  {
    hide CallsInv, FilesInv, Apply, PcInv;
    if OnTheWayIn(a) { ActorKnowsIn(s, a); } else { ActorKnowsOut(s, a); }
  }

  lemma ActorKnowsIn(s: State, a: Action)
    requires CallsInv(s) && FilesInv(s) && Enabled(s, a) && OnTheWayIn(a)
    ensures PcInv(Apply(s, a), Apply(s, a).At(a.g))
  {
    hide CallsInv, FilesInv;
    ActorKnew(s, a);
    match a
    case Enter(g) => if s.At(g).path in s.group { GroupCall(s, s.At(g).path); }
    case Look(g) => if s.At(g).path in s.openFiles { OpenFileInUse(s, s.At(g).path); }
    case _ =>
  }

  lemma ActorKnowsOut(s: State, a: Action)
    requires CallsInv(s) && FilesInv(s) && Enabled(s, a) && !OnTheWayIn(a)
    ensures PcInv(Apply(s, a), Apply(s, a).At(a.g))
  {
    hide CallsInv, FilesInv;
    ActorKnew(s, a);
    if a.Wake? { ResultKnown(s, s.At(a.g).call); }
  }

  lemma ActorKnew(s: State, a: Action)
    requires CallsInv(s) && FilesInv(s)
    ensures PcInv(s, s.At(a.g))
    ensures RunsCall(s.At(a.g)) ==> RunnerInv(s, s.At(a.g))
  {
  }

  lemma GroupCall(s: State, p: Path)
    requires CallsInv(s) && p in s.group
    ensures s.group[p] in s.calls && s.calls[s.group[p]].path == p
  {
    assert GroupInv(s, p);
    var h :| h in s.pcs && Runs(s.pcs[h], p, s.group[p]);
    assert RunnerInv(s, s.pcs[h]);
  }

  lemma ResultKnown(s: State, c: CallId)
    requires FilesInv(s) && c in s.calls
    ensures s.calls[c].result.Some? && s.calls[c].result.value.Opened? ==>
      FileOf(s, s.calls[c].result.value.file, s.calls[c].path, c)
  {
  }

  lemma ResultsFrom(s: State, a: Action, c: CallId)
    requires Enabled(s, a) && c in Apply(s, a).calls && Apply(s, a).calls[c].result.Some?
    ensures if a.Finish? && c == s.At(a.g).call then Apply(s, a).calls[c].result == Some(s.At(a.g).result)
            else c in s.calls && s.calls[c].result == Apply(s, a).calls[c].result
    ensures c in s.calls && s.calls[c].path == Apply(s, a).calls[c].path
  {
    hide Apply, Enabled;
    if a.Finish? { FinishEffect(s, a.g); }
    else if a.Enter? { EnterEffect(s, a.g); }
    else { CallsEffect(s, a); }
  }

  lemma FinishEffect(s: State, g: Gid)
    requires Enabled(s, Finish(g))
    ensures var pc := s.At(g);
      && pc.Finishing? && pc.call in s.calls
      && Apply(s, Finish(g)).calls == s.calls[pc.call := s.calls[pc.call].(result := Some(pc.result))]
  {
  }

  lemma EnterEffect(s: State, g: Gid)
    requires Enabled(s, Enter(g))
    ensures var pc := s.At(g);
      && pc.Missed?
      && Apply(s, Enter(g)).calls == if pc.path in s.group then s.calls else s.calls[s.nextCall := Call(pc.path, None)]
  {
  }

  lemma ResultsPreserved(s: State, a: Action, c: CallId)
    requires CallsInv(s) && FilesInv(s) && Enabled(s, a)
    requires var t := Apply(s, a); c in t.calls && t.calls[c].result.Some? && t.calls[c].result.value.Opened?
    ensures var t := Apply(s, a); FileOf(t, t.calls[c].result.value.file, t.calls[c].path, c)
  {
    hide CallsInv, FilesInv, Apply;
    ActionRemembers(s, a);
    ActorKnew(s, a);
    ResultsFrom(s, a, c);
    if !(a.Finish? && c == s.At(a.g).call) {
      ResultKnown(s, c);
    }
  }

  /** Everything in openFiles has been opened for that path and is in use. */
  ghost predicate InUse(s: State, p: Path)
    requires p in s.openFiles
  {
    s.openFiles[p] in s.files && s.files[s.openFiles[p]].path == p && s.files[s.openFiles[p]].refCount > 0
  }

  lemma InUseKept(s: State, t: State, p: Path)
    requires p in s.openFiles && InUse(s, p) && p in t.openFiles && t.openFiles[p] == s.openFiles[p]
    requires Remembers(s, t)
    requires t.files[s.openFiles[p]].refCount > 0
    ensures InUse(t, p)
  {
  }

  lemma InsertedInUse(s: State, g: Gid)
    requires Inv(s) && Enabled(s, Insert(g))
    ensures InUse(Apply(s, Insert(g)), s.At(g).path)
  {
    var f := s.At(g).file;
    assert PcInv(s, s.pcs[g]) && Counted(s, f);
    assert g in Owing(s, f);
  }

  lemma OpenFilesPreserved(s: State, a: Action, p: Path)
    requires Inv(s) && Enabled(s, a) && p in Apply(s, a).openFiles
    ensures InUse(Apply(s, a), p)
  {
    hide CallsInv, FilesInv, CountsInv, Remembers, InUse;
    ActionRemembers(s, a);
    var t := Apply(s, a);
    if a.Insert? && p == s.At(a.g).path {
      InsertedInUse(s, a.g);
    } else {
      OpenFilesFrom(s, a, p);
      OpenFileInUse(s, p);
      OpenFileStays(s, a, p);
      InUseKept(s, t, p);
    }
  }

  lemma OpenFilesFrom(s: State, a: Action, p: Path)
    requires Enabled(s, a) && p in Apply(s, a).openFiles
    requires !(a.Insert? && p == s.At(a.g).path)
    ensures p in s.openFiles && Apply(s, a).openFiles[p] == s.openFiles[p]
  {
  }

  lemma OpenFileStays(s: State, a: Action, p: Path)
    requires Inv(s) && Enabled(s, a) && p in Apply(s, a).openFiles
    requires p in s.openFiles && InUse(s, p)
    ensures s.openFiles[p] in Apply(s, a).files && Apply(s, a).files[s.openFiles[p]].refCount > 0
  {
    hide CallsInv, FilesInv, CountsInv, Apply;
    FilesEffect(s, a);
    if a.CallClose? && !s.handles[a.handle].closed && s.handles[a.handle].file == s.openFiles[p] {
      CloseLeavesOne(s, a.g, a.handle, p);
    } else if a.OpenSucceeds? {
      FilesInvFresh(s);
    }
  }

  /** A path stays in the table only if its file is still in use. */
  lemma CloseLeavesOne(s: State, g: Gid, h: HandleId, p: Path)
    requires Inv(s) && Enabled(s, CallClose(g, h)) && !s.handles[h].closed
    requires p in s.openFiles && InUse(s, p) && s.openFiles[p] == s.handles[h].file
    requires p in Apply(s, CallClose(g, h)).openFiles
    ensures s.files[s.openFiles[p]].refCount > 1
  {
    hide CallsInv, FilesInv, CountsInv;
    CountClose(s, g, h, s.handles[h].file);
  }

  lemma OpenFileInUse(s: State, p: Path)
    requires FilesInv(s) && p in s.openFiles
    ensures InUse(s, p)
  {
  }

  lemma FilesPreserved(s: State, a: Action)
    requires Inv(s) && Enabled(s, a)
    ensures FilesInv(Apply(s, a))
  {
    hide CallsInv, CountsInv, FilesInv, PcInv, Remembers, FileOf, InUse, HandleInv, Apply, Enabled;
    var t := Apply(s, a);
    PcsPreserved(s, a);
    forall c | c in t.calls && t.calls[c].result.Some? && t.calls[c].result.value.Opened?
      ensures FileOf(t, t.calls[c].result.value.file, t.calls[c].path, c)
    {
      ResultsPreserved(s, a, c);
    }
    forall p | p in t.openFiles ensures InUse(t, p)
    {
      OpenFilesPreserved(s, a, p);
    }
    HandlesPreserved(s, a);
    FilesInvIs(t);
  }

  lemma FilesInvIs(t: State)
    requires forall f :: f in t.files ==> f < t.nextFile
    requires forall g :: g in t.pcs ==> PcInv(t, t.pcs[g])
    requires forall c :: c in t.calls && t.calls[c].result.Some? && t.calls[c].result.value.Opened? ==>
      FileOf(t, t.calls[c].result.value.file, t.calls[c].path, c)
    requires forall h :: h in t.handles ==> h < t.nextHandle && HandleInv(t, t.handles[h])
    requires forall p :: p in t.openFiles ==> InUse(t, p)
    ensures FilesInv(t)
  {
    hide PcInv, FileOf, HandleInv, InUse;
  }

  lemma PcsPreserved(s: State, a: Action)
    requires Inv(s) && Enabled(s, a)
    ensures var t := Apply(s, a);
      && (forall g :: g in t.pcs ==> PcInv(t, t.pcs[g]))
      && (forall f :: f in t.files ==> f < t.nextFile)
  {
    hide CallsInv, CountsInv, PcInv, Remembers, FileOf;
    var t := Apply(s, a);
    ActionRemembers(s, a);
    FilesFresh(s, a);
    forall g | g in t.pcs ensures PcInv(t, t.pcs[g])
    {
      if g == a.g {
        ActorKnows(s, a);
      } else {
        OtherPc(s, a, g);
        PcRemembered(s, t, s.pcs[g]);
      }
    }
  }

  lemma OtherPc(s: State, a: Action, g: Gid)
    requires Enabled(s, a) && g in Apply(s, a).pcs && g != a.g
    ensures g in s.pcs && Apply(s, a).pcs[g] == s.pcs[g]
  {
    hide Apply, Enabled;
    if OnTheWayIn(a) { PcsOnTheWayIn(s, a); } else { PcsOnTheWayOut(s, a); }
  }

  lemma PcsOnTheWayIn(s: State, a: Action)
    requires Enabled(s, a) && OnTheWayIn(a)
    ensures var t := Apply(s, a); t.pcs == s.pcs[a.g := t.At(a.g)]
  {
  }

  lemma PcsOnTheWayOut(s: State, a: Action)
    requires Enabled(s, a) && !OnTheWayIn(a)
    ensures var t := Apply(s, a); t.pcs == s.pcs || t.pcs == s.pcs[a.g := t.At(a.g)]
  {
  }

  lemma FilesFresh(s: State, a: Action)
    requires FilesInv(s) && Enabled(s, a)
    ensures forall f :: f in Apply(s, a).files ==> f < Apply(s, a).nextFile
  {
    hide PcInv, FileOf, InUse, HandleInv;
  }

  lemma HandleRemembered(s: State, t: State, h: Handle)
    requires HandleInv(s, h) && Remembers(s, t)
    ensures HandleInv(t, h.(closed := true)) && HandleInv(t, h)
  {
    assert FileOf(t, h.file, h.path, s.files[h.file].call);
  }

  lemma HandlesFrom(s: State, a: Action, h: HandleId)
    requires Enabled(s, a) && h in Apply(s, a).handles
    ensures var t := Apply(s, a);
      if h in s.handles && !(a.Return? && h == s.nextHandle) then
        (t.handles[h] == s.handles[h] || t.handles[h] == s.handles[h].(closed := true)) && s.nextHandle <= t.nextHandle
      else a.Return? && h == s.nextHandle < t.nextHandle && t.handles[h] == Handle(s.At(a.g).path, s.At(a.g).file, false)
  {
    hide Apply, Enabled;
    if OnTheWayIn(a) { HandlesOnTheWayIn(s, a); } else { HandlesOnTheWayOut(s, a, h); }
  }

  lemma HandlesOnTheWayIn(s: State, a: Action)
    requires Enabled(s, a) && OnTheWayIn(a)
    ensures Apply(s, a).handles == s.handles && Apply(s, a).nextHandle == s.nextHandle
  {
  }

  lemma HandlesOnTheWayOut(s: State, a: Action, h: HandleId)
    requires Enabled(s, a) && !OnTheWayIn(a) && h in Apply(s, a).handles
    ensures var t := Apply(s, a);
      if h in s.handles && !(a.Return? && h == s.nextHandle) then
        (t.handles[h] == s.handles[h] || t.handles[h] == s.handles[h].(closed := true)) && s.nextHandle <= t.nextHandle
      else a.Return? && h == s.nextHandle < t.nextHandle && t.handles[h] == Handle(s.At(a.g).path, s.At(a.g).file, false)
  {
  }

  lemma HandlesPreserved(s: State, a: Action)
    requires CallsInv(s) && FilesInv(s) && Enabled(s, a)
    ensures var t := Apply(s, a);
      && (forall f :: f in t.files ==> f < t.nextFile)
      && (forall h :: h in t.handles ==> h < t.nextHandle && HandleInv(t, t.handles[h]))
  {
    hide CallsInv, RunnerInv, Remembers, Apply;
    FilesFresh(s, a);
    ActorKnew(s, a);
    ActionRemembers(s, a);
    var t := Apply(s, a);
    forall h | h in t.handles ensures h < t.nextHandle && HandleInv(t, t.handles[h])
    {
      HandlesFrom(s, a, h);
      if a.Return? && h == s.nextHandle {
        HandleRemembered(s, t, t.handles[h]);
      } else {
        HandleRemembered(s, t, s.handles[h]);
      }
    }
  }

  // ---------- Counting ----------

  /** The actor starts or stops owing as the reference count rises or falls; nothing else counts. */
  lemma CountMoves(s: State, t: State, g: Gid, f: FileId)
    requires f in s.files && Counted(s, f) && f in t.files
    requires t.handles == s.handles && t.pcs == s.pcs[g := t.At(g)]
    requires t.files[f].closes == s.files[f].closes && !IsClosing(s.At(g), f) && !IsClosing(t.At(g), f)
    requires t.files[f].refCount + (if Owed(s.At(g), f) then 1 else 0) == s.files[f].refCount + (if Owed(t.At(g), f) then 1 else 0)
    requires s.files[f].refCount == 0 <==> t.files[f].refCount == 0
    ensures Counted(t, f)
  {
    PcCounts(s, t, g, f);
    assert LiveHandles(t, f) == LiveHandles(s, f);
  }

  lemma CountReturn(s: State, g: Gid, f: FileId)
    requires Inv(s) && Enabled(s, Return(g)) && f in s.files
    ensures Counted(Apply(s, Return(g)), f)
  {
    hide CallsInv, PcInv, Owing, Closers, LiveHandles;
    var t := Apply(s, Return(g));
    assert Counted(s, f) && s.nextHandle !in s.handles;
    PcCounts(s, t, g, f);
    HandleCounts(s, t, s.nextHandle, f);
  }

  lemma CountClose(s: State, g: Gid, h: HandleId, f: FileId)
    requires Inv(s) && Enabled(s, CallClose(g, h)) && !s.handles[h].closed && f in s.files
    ensures s.files[s.handles[h].file].refCount > 0
    ensures Counted(Apply(s, CallClose(g, h)), f)
  {
    hide CallsInv, FilesInv, PcInv, Owing, Closers, LiveHandles;
    var t := Apply(s, CallClose(g, h));
    assert Counted(s, f) && Counted(s, s.handles[h].file);
    LiveIsCounted(s, h);
    HandleCounts(s, t, h, f);
    if t.pcs == s.pcs {
      assert Owing(t, f) == Owing(s, f) && Closers(t, f) == Closers(s, f) by { SamePcs(s, t, f); }
    } else {
      PcCounts(s, t, g, f);
    }
  }

  lemma SamePcs(s: State, t: State, f: FileId)
    requires t.pcs == s.pcs
    ensures Owing(t, f) == Owing(s, f) && Closers(t, f) == Closers(s, f)
  {
  }

  lemma LiveIsCounted(s: State, h: HandleId)
    requires h in s.handles && !s.handles[h].closed
    ensures |LiveHandles(s, s.handles[h].file)| > 0
  {
    assert h in LiveHandles(s, s.handles[h].file);
  }

  lemma CountCloseFile(s: State, g: Gid, f: FileId)
    requires Inv(s) && Enabled(s, CloseFile(g)) && f in s.files
    ensures Counted(Apply(s, CloseFile(g)), f)
  {
    hide CallsInv, FilesInv, PcInv, Owing, Closers;
    var t := Apply(s, CloseFile(g));
    assert Counted(s, f);
    PcCounts(s, t, g, f);
    assert LiveHandles(t, f) == LiveHandles(s, f);
  }

  /** A new file has one goroutine that is about to receive a handle. */
  lemma CountOpened(s: State, g: Gid)
    requires Inv(s) && Enabled(s, OpenSucceeds(g))
    ensures Counted(Apply(s, OpenSucceeds(g)), s.nextFile)
  {
    hide CallsInv, CountsInv;
    var t, f := Apply(s, OpenSucceeds(g)), s.nextFile;
    PcCounts(s, t, g, f);
    forall h | h in s.pcs ensures !Owed(s.pcs[h], f) && !IsClosing(s.pcs[h], f)
    {
      assert PcInv(s, s.pcs[h]);
    }
    assert Owing(s, f) == {} && Closers(s, f) == {} && LiveHandles(t, f) == {};
  }

  /** An action that changes no count. */
  ghost predicate Quiet(a: Action)
  {
    a.CallOpen? || a.Enter? || a.OpenFails? || a.Insert? || a.Finish? || a.Delete? || a.Wake?
  }

  lemma QuietMoves(s: State, a: Action, f: FileId)
    requires Quiet(a) && Enabled(s, a)
    ensures var t := Apply(s, a);
      && t.files == s.files && t.handles == s.handles && t.pcs == s.pcs[a.g := t.At(a.g)]
      && !IsClosing(s.At(a.g), f) && !IsClosing(t.At(a.g), f)
      && Owed(s.At(a.g), f) == Owed(t.At(a.g), f)
  {
  }

  lemma CountLook(s: State, g: Gid, f: FileId)
    requires Inv(s) && Enabled(s, Look(g)) && f in s.files
    ensures Counted(Apply(s, Look(g)), f)
  {
    hide CallsInv, FilesInv, PcInv, Counted;
    assert Counted(s, f);
    var p := s.At(g).path;
    if p in s.openFiles { OpenFileInUse(s, p); }
    CountMoves(s, Apply(s, Look(g)), g, f);
  }

  lemma CountJoin(s: State, g: Gid, f: FileId)
    requires Inv(s) && Enabled(s, Join(g)) && f in s.files
    ensures Counted(Apply(s, Join(g)), f)
  {
    hide CallsInv, FilesInv, PcInv, Counted;
    assert Counted(s, f);
    CountedNotNegative(s, s.At(g).file);
    CountMoves(s, Apply(s, Join(g)), g, f);
  }

  lemma CountOther(s: State, g: Gid, f: FileId)
    requires Inv(s) && Enabled(s, OpenSucceeds(g)) && f in s.files
    ensures Counted(Apply(s, OpenSucceeds(g)), f)
  {
    hide CallsInv, PcInv, Counted;
    assert Counted(s, f);
    CountMoves(s, Apply(s, OpenSucceeds(g)), g, f);
  }

  lemma CountPreserved(s: State, a: Action, f: FileId)
    requires Inv(s) && Enabled(s, a) && f in Apply(s, a).files
    ensures Counted(Apply(s, a), f)
  {
    hide CallsInv, FilesInv, PcInv, Counted, Apply, Enabled;
    if f !in s.files {
      OnlyOpenAdds(s, a, f);
      CountOpened(s, a.g);
    } else {
      assert Counted(s, f);
      match a
      case Return(g) => CountReturn(s, g, f);
      case CloseFile(g) => CountCloseFile(s, g, f);
      case CallClose(g, h) => CountCallClose(s, g, h, f);
      case Look(g) => CountLook(s, g, f);
      case Join(g) => CountJoin(s, g, f);
      case OpenSucceeds(g) => CountOther(s, g, f);
      case _ =>
        QuietMoves(s, a, f);
        CountMoves(s, Apply(s, a), a.g, f);
    }
  }

  lemma CountCallClose(s: State, g: Gid, h: HandleId, f: FileId)
    requires Inv(s) && Enabled(s, CallClose(g, h)) && f in s.files
    ensures Counted(Apply(s, CallClose(g, h)), f)
  {
    hide CallsInv, FilesInv, PcInv, Counted;
    assert Counted(s, f);
    if !s.handles[h].closed { CountClose(s, g, h, f); }
  }

  lemma OnlyOpenAdds(s: State, a: Action, f: FileId)
    requires Enabled(s, a) && f !in s.files && f in Apply(s, a).files
    ensures a.OpenSucceeds? && f == s.nextFile
  {
  }

  lemma FilesInvFresh(s: State)
    requires FilesInv(s)
    ensures s.nextFile !in s.files
  {
  }

  lemma CountedNotNegative(s: State, f: FileId)
    requires CountsInv(s) && f in s.files
    ensures s.files[f].refCount >= 0
  {
    assert Counted(s, f);
  }

  lemma CountsPreserved(s: State, a: Action)
    requires Inv(s) && Enabled(s, a)
    ensures CountsInv(Apply(s, a))
  {
    hide CallsInv, FilesInv, Counted, Apply;
    var t := Apply(s, a);
    forall f | f in t.files ensures Counted(t, f)
    {
      CountPreserved(s, a, f);
    }
  }

  lemma ActionKeepsInv(s: State, a: Action)
    requires Inv(s) && Enabled(s, a)
    ensures Inv(Apply(s, a))
  {
    hide CallsInv, FilesInv, CountsInv, Apply;
    CallsPreserved(s, a);
    FilesPreserved(s, a);
    CountsPreserved(s, a);
  }

  lemma {:induction false} RunKeepsInv(s: State, actions: seq<Action>, t: State)
    requires Inv(s) && Run(s, actions, t)
    ensures Inv(t)
    decreases |actions|
  {
    if actions != [] {
      ActionKeepsInv(s, actions[0]);
      RunKeepsInv(Apply(s, actions[0]), actions[1..], t);
    }
  }

  // ---------- What holds in every run ----------

  /** In every reachable state the reference count is exact, and the file has been closed at most
      once, and only when nobody has or is about to receive a handle. */
  lemma RefCountsAreExact(actions: seq<Action>, s: State, f: FileId)
    requires Run(Init, actions, s) && f in s.files
    ensures s.files[f].refCount == |LiveHandles(s, f)| + |Owing(s, f)|
    ensures s.files[f].closes <= 1
    ensures s.files[f].closes == 1 ==> LiveHandles(s, f) == {} && Owing(s, f) == {}
    ensures LiveHandles(s, f) == {} && Owing(s, f) == {} && Closers(s, f) == {} ==> s.files[f].closes == 1
  {
    InitInv();
    RunKeepsInv(Init, actions, s);
    assert Counted(s, f);
  }

  /** A handle that has not been closed is for the path that was asked for, and its file is open. */
  lemma HandlesAreUsable(actions: seq<Action>, s: State, h: HandleId)
    requires Run(Init, actions, s) && h in s.handles
    ensures s.handles[h].file in s.files && s.files[s.handles[h].file].path == s.handles[h].path
    ensures !s.handles[h].closed ==> s.files[s.handles[h].file].closes == 0 && s.files[s.handles[h].file].refCount > 0
  {
    InitInv();
    RunKeepsInv(Init, actions, s);
    assert HandleInv(s, s.handles[h]) && Counted(s, s.handles[h].file);
    if !s.handles[h].closed { LiveIsCounted(s, h); }
  }

  /** Everything that Open can find in openFiles is in use, so Open never revives a closed file. */
  lemma TableIsInUse(actions: seq<Action>, s: State, p: Path)
    requires Run(Init, actions, s) && p in s.openFiles
    ensures InUse(s, p) && s.files[s.openFiles[p]].closes == 0
  {
    InitInv();
    RunKeepsInv(Init, actions, s);
    OpenFileInUse(s, p);
    assert Counted(s, s.openFiles[p]);
  }

  lemma ZeroStays(s: State, a: Action, f: FileId)
    requires Inv(s) && Enabled(s, a) && f in s.files && s.files[f].refCount == 0
    ensures f in Apply(s, a).files && Apply(s, a).files[f].refCount == 0
  {
    hide CallsInv, FilesInv, PcInv, Remembers, Apply;
    FilesEffect(s, a);
    match a
    case Look(g) => if s.At(g).path in s.openFiles { OpenFileInUse(s, s.At(g).path); }
    case OpenSucceeds(g) => FilesInvFresh(s);
    case CallClose(g, h) => if !s.handles[h].closed { CountClose(s, g, h, f); }
    case _ =>
  }

  /** A reference count that has reached zero stays zero. */
  lemma {:induction false} ZeroIsAbsorbing(s: State, actions: seq<Action>, t: State, f: FileId)
    requires Inv(s) && Run(s, actions, t) && f in s.files && s.files[f].refCount == 0
    ensures f in t.files && t.files[f].refCount == 0
    decreases |actions|
  {
    if actions != [] {
      ActionKeepsInv(s, actions[0]);
      ZeroStays(s, actions[0], f);
      ZeroIsAbsorbing(Apply(s, actions[0]), actions[1..], t, f);
    }
  }

  /** Closing a handle that is still live never makes the count negative. */
  lemma CloseNeverPanics(actions: seq<Action>, s: State, g: Gid, h: HandleId)
    requires Run(Init, actions, s) && Enabled(s, CallClose(g, h)) && !s.handles[h].closed
    ensures Apply(s, CallClose(g, h)).files[s.handles[h].file].refCount >= 0
  {
    InitInv();
    RunKeepsInv(Init, actions, s);
    CountClose(s, g, h, s.handles[h].file);
  }

  /** Of all goroutines, at most one executes the function for a path at a time. */
  lemma OneExecutionPerKey(actions: seq<Action>, s: State, g: Gid, h: Gid)
    requires Run(Init, actions, s)
    requires RunsCall(s.At(g)) && RunsCall(s.At(h)) && s.At(g).path == s.At(h).path
    ensures g == h
  {
    InitInv();
    RunKeepsInv(Init, actions, s);
    assert RunnerInv(s, s.pcs[g]) && RunnerInv(s, s.pcs[h]);
    assert SameCall(s.pcs[g], s.pcs[h]);
  }

  /** What a goroutine takes out of the group is its own call. */
  lemma DeleteIsOwn(actions: seq<Action>, s: State, g: Gid)
    requires Run(Init, actions, s) && s.At(g).Deleting?
    ensures s.At(g).path in s.group && s.group[s.At(g).path] == s.At(g).call
  {
    InitInv();
    RunKeepsInv(Init, actions, s);
    assert RunnerInv(s, s.pcs[g]);
  }

  /** A duplicate gets the result of the call that it joined, and that was a call for its path. */
  lemma DuplicatesShareTheResult(actions: seq<Action>, s: State, g: Gid)
    requires Run(Init, actions, s)
    ensures match s.At(g)
      case Joined(path, c, f) =>
        c in s.calls && s.calls[c] == Call(path, Some(Opened(f))) && FileOf(s, f, path, c)
      case Waiting(path, c) => c in s.calls && s.calls[c].path == path
      case _ => true
  {
    InitInv();
    RunKeepsInv(Init, actions, s);
    assert PcInv(s, s.At(g));
  }

  /** Once a call has a result, it keeps it. */
  lemma {:induction false} ResultsAreFinal(s: State, actions: seq<Action>, t: State, c: CallId)
    requires Inv(s) && Run(s, actions, t) && c in s.calls && s.calls[c].result.Some?
    ensures c in t.calls && t.calls[c] == s.calls[c]
    decreases |actions|
  {
    if actions != [] {
      ActionKeepsInv(s, actions[0]);
      ActionRemembers(s, actions[0]);
      ResultsAreFinal(Apply(s, actions[0]), actions[1..], t, c);
    }
  }

  ghost predicate InGroup(s: State, c: CallId)
  {
    exists p :: p in s.group && s.group[p] == c
  }

  /** A call that produced a file whose count is zero has left the group. */
  lemma DeadCallLeft(s: State, c: CallId)
    requires Inv(s) && c in s.calls && s.calls[c].result.Some? && s.calls[c].result.value.Opened?
    requires s.calls[c].result.value.file in s.files && s.files[s.calls[c].result.value.file].refCount == 0
    ensures !InGroup(s, c)
  {
    if p :| p in s.group && s.group[p] == c {
      assert GroupInv(s, p);
      var h :| h in s.pcs && Runs(s.pcs[h], p, c);
      assert RunnerInv(s, s.pcs[h]);
      var f := s.calls[c].result.value.file;
      assert h in Owing(s, f) && Counted(s, f);
    }
  }

  lemma OutOfGroupStays(s: State, a: Action, c: CallId)
    requires Inv(s) && Enabled(s, a) && c in s.calls && !InGroup(s, c)
    ensures c in Apply(s, a).calls && !InGroup(Apply(s, a), c)
  {
    hide Apply, Enabled;
    var t := Apply(s, a);
    GroupEffect(s, a);
    CallsStay(s, a, c);
    assert c < s.nextCall;
    if p :| p in t.group && t.group[p] == c {
      assert p in s.group && s.group[p] == c;
    }
  }

  lemma {:induction false} NeverBackInGroup(s: State, actions: seq<Action>, t: State, c: CallId)
    requires Inv(s) && Run(s, actions, t) && c in s.calls && !InGroup(s, c)
    ensures !InGroup(t, c)
    decreases |actions|
  {
    if actions != [] {
      ActionKeepsInv(s, actions[0]);
      OutOfGroupStays(s, actions[0], c);
      NeverBackInGroup(Apply(s, actions[0]), actions[1..], t, c);
    }
  }

  /** When Open tries again because the file it joined is closed already, it can never again be
      given the call that opened that file. */
  lemma RetryNeverRejoins(before: seq<Action>, s: State, g: Gid, after: seq<Action>, t: State)
    requires Run(Init, before, s) && s.At(g).Joined?
    requires s.At(g).file in s.files && s.files[s.At(g).file].refCount == 0
    requires Run(s, after, t)
    ensures !InGroup(t, s.At(g).call)
  {
    InitInv();
    RunKeepsInv(Init, before, s);
    assert PcInv(s, s.At(g));
    DeadCallLeft(s, s.At(g).call);
    NeverBackInGroup(s, after, t, s.At(g).call);
  }

  // ---------- Progress ----------

  /** The next action of a goroutine that is inside Open or Close. */
  ghost function NextAction(s: State, g: Gid): Action
  {
    match s.At(g)
    case Idle => CallOpen(g, "")
    case Looking(_) => Look(g)
    case Missed(_) => Enter(g)
    case Waiting(_, _) => Wake(g)
    case Opening(_, _) => OpenSucceeds(g)
    case Inserting(_, _, _) => Insert(g)
    case Finishing(_, _, _) => Finish(g)
    case Deleting(_, _, _) => Delete(g)
    case Joined(_, _, _) => Join(g)
    case Holding(_, _) => Return(g)
    case Closing(_) => CloseFile(g)
  }

  /** No goroutine is ever stuck: it can act, or it waits for one that can. */
  lemma NobodyIsStuck(actions: seq<Action>, s: State, g: Gid) returns (h: Gid)
    requires Run(Init, actions, s)
    ensures Enabled(s, NextAction(s, h))
    ensures h == g || (s.At(g).Waiting? && RunsCall(s.At(h)) && s.At(h).call == s.At(g).call)
  {
    InitInv();
    RunKeepsInv(Init, actions, s);
    h := g;
    if s.At(g).Waiting? && !Enabled(s, Wake(g)) {
      h := Awaited(s, g);
    }
    CanAct(s, h);
  }

  lemma Awaited(s: State, g: Gid) returns (h: Gid)
    requires Inv(s) && s.At(g).Waiting? && !Enabled(s, Wake(g))
    ensures RunsCall(s.At(h)) && s.At(h).call == s.At(g).call
  {
    assert PcInv(s, s.At(g));
    var c := s.At(g).call;
    assert PendingInv(s, c) && GroupInv(s, s.calls[c].path);
    h :| h in s.pcs && Runs(s.pcs[h], s.calls[c].path, c);
  }

  lemma CanAct(s: State, h: Gid)
    requires Inv(s) && (s.At(h).Waiting? ==> Enabled(s, Wake(h)))
    ensures Enabled(s, NextAction(s, h))
  {
    hide CountsInv, CallsInv, FilesInv, PendingInv, GroupInv;
    ActorKnew(s, CallOpen(h, ""));
    if s.At(h).Looking? && s.At(h).path in s.openFiles { OpenFileInUse(s, s.At(h).path); }
  }

  // ---------- Longer runs ----------

  lemma {:induction false} RunMore(s: State, actions: seq<Action>, t: State, a: Action)
    requires Run(s, actions, t) && Enabled(t, a)
    ensures Run(s, actions + [a], Apply(t, a))
    decreases |actions|
  {
    if actions == [] {
      assert actions + [a] == [a] && Run(Apply(t, a), [], Apply(t, a)) && [a][1..] == [];
    } else {
      assert (actions + [a])[0] == actions[0] && (actions + [a])[1..] == actions[1..] + [a];
      RunMore(Apply(s, actions[0]), actions[1..], t, a);
    }
  }

  lemma InitRun()
    ensures Run(Init, [], Init)
  {
  }

  // ---------- Single actions ----------

  lemma EnterIs(s: State, g: Gid, p: Path)
    requires s.At(g) == Missed(p)
    ensures Enabled(s, Enter(g))
    ensures Apply(s, Enter(g)) ==
      if p in s.group then s.(pcs := s.pcs[g := Waiting(p, s.group[p])])
      else s.(group := s.group[p := s.nextCall], calls := s.calls[s.nextCall := Call(p, None)], nextCall := s.nextCall + 1,
              pcs := s.pcs[g := Opening(p, s.nextCall)])
  {
  }

  lemma HandleKnown(s: State, h: HandleId)
    requires Inv(s) && h in s.handles
    ensures s.handles[h].file in s.files
  {
    assert HandleInv(s, s.handles[h]);
  }

  /** What closing a handle does to the state. */
  lemma CloseIs(actions: seq<Action>, s: State, g: Gid, h: HandleId)
    requires Inv(s) && Run(Init, actions, s) && s.At(g).Idle? && h in s.handles
    ensures s.handles[h].file in s.files && Enabled(s, CallClose(g, h))
    ensures s.handles[h].closed ==> Apply(s, CallClose(g, h)) == s
    ensures !s.handles[h].closed ==>
      var f, hs := s.handles[h].file, s.handles[h := s.handles[h].(closed := true)];
      var n := s.files[f].refCount - 1;
      var fs := s.files[f := s.files[f].(refCount := n)];
      && n >= 0
      && Apply(s, CallClose(g, h)) ==
           if n == 0 then s.(handles := hs, files := fs, openFiles := s.openFiles - {s.files[f].path}, pcs := s.pcs[g := Closing(f)])
           else s.(handles := hs, files := fs)
  {
    hide Inv, Run;
    HandleKnown(s, h);
    CountStaysPositive(actions, s, g, h);
  }

  lemma CountStaysPositive(actions: seq<Action>, s: State, g: Gid, h: HandleId)
    requires Run(Init, actions, s) && Enabled(s, CallClose(g, h))
    ensures !s.handles[h].closed ==> s.files[s.handles[h].file].refCount >= 1
  {
    hide Inv, Run;
    if !s.handles[h].closed {
      CloseNeverPanics(actions, s, g, h);
    }
  }
}
