/**
 The critical sections of Open, Close and Group.Do, in terms of the tables and counts they
 change.  Each one is a step of SharedOpen and so keeps its invariant.
 */
module SharedOpener {
  import opened Wrappers
  import opened SharedOpen

  /** The action is possible in s, and leads to t. */
  ghost predicate Steps(s: State, a: Action, t: State)
  {
    Enabled(s, a) && t == Apply(s, a)
  }

  /** What the goroutines share.  Objects that are referred to are known by their identity. */
  class Shared {
    // openFiles, and all files that were ever opened
    var openFiles: map<Path, FileId>
    var files: map<FileId, File>
    var nextFile: FileId
    // the group, and all its calls
    var m: map<Path, CallId>
    var calls: map<CallId, Call>
    var nextCall: CallId
    // what was handed out
    var handles: map<HandleId, Handle>
    var nextHandle: HandleId

    ghost var pcs: map<Gid, Pc>    // how far the goroutines are
    ghost var actions: seq<Action> // all steps so far

    ghost function S(): State
      reads this
    {
      State(openFiles, files, m, calls, handles, pcs, nextFile, nextCall, nextHandle)
    }

    /** The state was reached by a run. */
    ghost predicate Valid()
      reads this
    {
      Inv(S()) && Run(Init, actions, S())
    }

    constructor ()
      ensures Valid() && S() == Init && actions == []
    {
      openFiles, files, nextFile := map[], map[], 0;
      m, calls, nextCall := map[], map[], 0;
      handles, nextHandle := map[], 0;
      pcs, actions := map[], [];
      new;
      InitInv();
      InitRun();
    }

    /** Goroutine g, which did nothing, calls Open. */
    ghost method CallsOpen(g: Gid, path: Path)
      requires Valid() && S().At(g).Idle?
      modifies this`pcs, this`actions
      ensures Valid() && Steps(old(S()), CallOpen(g, path), S())
    {
      hide Inv, Run;
      ghost var s, a := S(), CallOpen(g, path);
      pcs, actions := pcs[g := Looking(path)], actions + [a];
      Taken(s, a, actions);
    }

    /** Open: another handle for a file that is open already. */
    method LookUp(ghost g: Gid, path: Path) returns (of: Option<FileId>)
      requires Valid() && S().At(g) == Looking(path)
      modifies this
      ensures Valid() && Steps(old(S()), Look(g), S())
      ensures S().At(g) == if of.Some? then Holding(path, of.value) else Missed(path)
    {
      hide Inv, Run;
      ghost var s, a := S(), Look(g);
      OpenFilesKnown(s);
      of := None;
      if path in openFiles {
        var f := openFiles[path];
        files := files[f := files[f].(refCount := files[f].refCount + 1)];
        of := Some(f);
      }
      pcs, actions := pcs[g := if of.Some? then Holding(path, of.value) else Missed(path)], actions + [a];
      Taken(s, a, actions);
    }

    /** Do: joins the call for the key, or makes one. */
    method EnterGroup(ghost g: Gid, path: Path) returns (c: CallId, joined: bool)
      requires Valid() && S().At(g) == Missed(path)
      modifies this
      ensures Valid() && Steps(old(S()), Enter(g), S())
      ensures S().At(g) == if joined then Waiting(path, c) else Opening(path, c)
    {
      hide Inv, Run, Apply, Enabled;
      ghost var s, a := S(), Enter(g);
      EnterIs(s, g, path);
      if path in m {
        c, joined := m[path], true;
      } else {
        c := MakeCall(path);
        joined := false;
      }
      pcs, actions := pcs[g := if joined then Waiting(path, c) else Opening(path, c)], actions + [a];
      Taken(s, a, actions);
    }

    method MakeCall(path: Path) returns (c: CallId)
      modifies this`m, this`calls, this`nextCall
      ensures c == old(nextCall) && nextCall == c + 1
      ensures calls == old(calls)[c := Call(path, None)] && m == old(m)[path := c]
    {
      c := nextCall;
      nextCall := nextCall + 1;
      calls := calls[c := Call(path, None)];
      m := m[path := c];
    }

    /** The function of Do, up to the lock: a new file that counts one reference, or an error. */
    method OpenFile(ghost g: Gid, path: Path, c: CallId, error: Option<string>) returns (f: FileId)
      requires Valid() && S().At(g) == Opening(path, c)
      modifies this
      ensures Valid()
      ensures Steps(old(S()), if error.Some? then OpenFails(g, error.value) else OpenSucceeds(g), S())
      ensures S().At(g) == if error.Some? then Finishing(path, c, Failed(error.value)) else Inserting(path, c, f)
    {
      hide Inv, Run;
      ghost var s, a := S(), if error.Some? then OpenFails(g, error.value) else OpenSucceeds(g);
      f := nextFile;
      if error.None? {
        nextFile := nextFile + 1;
        files := files[f := File(path, 1, c, 0)];
      }
      pcs := pcs[g := if error.Some? then Finishing(path, c, Failed(error.value)) else Inserting(path, c, f)];
      actions := actions + [a];
      Taken(s, a, actions);
    }

    method InsertFile(ghost g: Gid, path: Path, ghost c: CallId, f: FileId)
      requires Valid() && S().At(g) == Inserting(path, c, f)
      modifies this
      ensures Valid() && Steps(old(S()), Insert(g), S()) && S().At(g) == Finishing(path, c, Opened(f))
    {
      hide Inv, Run;
      ghost var s, a := S(), Insert(g);
      openFiles := openFiles[path := f];
      pcs, actions := pcs[g := Finishing(path, c, Opened(f))], actions + [a];
      Taken(s, a, actions);
    }

    /** Do: the result is there, and whoever waits goes on. */
    method FinishCall(ghost g: Gid, ghost path: Path, c: CallId, r: Result)
      requires Valid() && S().At(g) == Finishing(path, c, r)
      modifies this
      ensures Valid() && Steps(old(S()), Finish(g), S()) && S().At(g) == Deleting(path, c, r)
    {
      hide Inv, Run;
      ghost var s, a := S(), Finish(g);
      RunnerKnown(s, g);
      calls := calls[c := calls[c].(result := Some(r))];
      pcs, actions := pcs[g := Deleting(path, c, r)], actions + [a];
      Taken(s, a, actions);
    }

    method DeleteCall(ghost g: Gid, path: Path, ghost c: CallId, r: Result)
      requires Valid() && S().At(g) == Deleting(path, c, r)
      modifies this
      ensures Valid() && Steps(old(S()), Delete(g), S())
      ensures S().At(g) == if r.Opened? then Holding(path, r.file) else Idle
    {
      hide Inv, Run;
      ghost var s, a := S(), Delete(g);
      m := m - {path};
      pcs, actions := pcs[g := if r.Opened? then Holding(path, r.file) else Idle], actions + [a];
      Taken(s, a, actions);
    }

    /** Do: the result of another goroutine's call, once it is there. */
    method Wait(ghost g: Gid, ghost path: Path, c: CallId) returns (r: Result)
      requires Valid() && S().At(g) == Waiting(path, c) && c in calls && calls[c].result.Some?
      modifies this`pcs, this`actions
      ensures Valid() && Steps(old(S()), Wake(g), S())
      ensures r == calls[c].result.value && S().At(g) == if r.Opened? then Joined(path, c, r.file) else Idle
    {
      hide Inv, Run;
      ghost var s, a := S(), Wake(g);
      r := calls[c].result.value;
      pcs, actions := pcs[g := if r.Opened? then Joined(path, c, r.file) else Idle], actions + [a];
      Taken(s, a, actions);
    }

    /** Open: one more reference to a file that another goroutine opened, unless it is closed again. */
    method JoinFile(ghost g: Gid, ghost path: Path, ghost c: CallId, f: FileId) returns (ok: bool)
      requires Valid() && S().At(g) == Joined(path, c, f)
      modifies this
      ensures Valid() && Steps(old(S()), Join(g), S())
      ensures S().At(g) == if ok then Holding(path, f) else Looking(path)
    {
      hide Inv, Run;
      ghost var s, a := S(), Join(g);
      JoinedKnown(s, g);
      if files[f].refCount == 0 {
        ok := false;
      } else {
        files := files[f := files[f].(refCount := files[f].refCount + 1)];
        ok := true;
      }
      pcs, actions := pcs[g := if ok then Holding(path, f) else Looking(path)], actions + [a];
      Taken(s, a, actions);
    }

    method NewHandle(ghost g: Gid, path: Path, f: FileId) returns (h: HandleId)
      requires Valid() && S().At(g) == Holding(path, f)
      modifies this
      ensures Valid() && Steps(old(S()), Return(g), S()) && S().At(g) == Idle
      ensures h in handles && handles[h] == Handle(path, f, false)
    {
      hide Inv, Run;
      ghost var s, a := S(), Return(g);
      h := nextHandle;
      nextHandle := nextHandle + 1;
      handles := handles[h := Handle(path, f, false)];
      pcs, actions := pcs[g := Idle], actions + [a];
      Taken(s, a, actions);
    }

    /** Close, under the lock.  A negative count would be a panic. */
    method CloseHandle(ghost g: Gid, h: HandleId) returns (zero: bool)
      requires Valid() && S().At(g).Idle? && h in handles
      modifies this
      ensures Valid() && Steps(old(S()), CallClose(g, h), S())
      ensures S().At(g) == if zero then Closing(old(handles[h].file)) else Idle
    {
      hide Inv, Run, Apply, Enabled;
      if handles[h].closed {
        ghost var s, a := S(), CallClose(g, h);
        CloseIs(actions, s, g, h);
        actions := actions + [a];
        Taken(s, a, actions);
        zero := false;
      } else {
        zero := CloseLive(g, h);
      }
    }

    method CloseLive(ghost g: Gid, h: HandleId) returns (zero: bool)
      requires Valid() && S().At(g).Idle? && h in handles && !handles[h].closed
      modifies this
      ensures Valid() && Steps(old(S()), CallClose(g, h), S())
      ensures S().At(g) == if zero then Closing(old(handles[h].file)) else Idle
    {
      hide Inv, Run, Apply, Enabled;
      ghost var s, a := S(), CallClose(g, h);
      CloseIs(actions, s, g, h);
      var f, n := DropReference(h);
      zero := n == 0;
      if zero {
        openFiles := openFiles - {files[f].path};
        pcs := pcs[g := Closing(f)];
      }
      actions := actions + [a];
      Taken(s, a, actions);
    }

    /** Marks the handle as closed and counts down. */
    method DropReference(h: HandleId) returns (f: FileId, n: int)
      requires h in handles && handles[h].file in files && files[handles[h].file].refCount > 0
      modifies this`handles, this`files
      ensures f == old(handles[h].file) && n == old(files[f].refCount) - 1 >= 0
      ensures handles == old(handles)[h := old(handles[h]).(closed := true)]
      ensures files == old(files)[f := old(files[f]).(refCount := n)]
    {
      f := handles[h].file;
      n := files[f].refCount - 1;
      handles := handles[h := handles[h].(closed := true)];
      files := files[f := files[f].(refCount := n)];
    }

    /** Close, of the underlying file. */
    method CloseUnderlying(ghost g: Gid, f: FileId)
      requires Valid() && S().At(g) == Closing(f)
      modifies this
      ensures Valid() && Steps(old(S()), CloseFile(g), S()) && S().At(g) == Idle
      ensures f in files && files[f].closes == 1
    {
      hide Inv, Run;
      ghost var s, a := S(), CloseFile(g);
      CloserKnown(s, g);
      files := files[f := files[f].(closes := files[f].closes + 1)];
      pcs, actions := pcs[g := Idle], actions + [a];
      Taken(s, a, actions);
      ClosedOnce(actions, S(), f);
    }
  }

  lemma Taken(s: State, a: Action, actions: seq<Action>)
    requires Enabled(s, a) && Inv(s) && actions != [] && actions[|actions| - 1] == a
    requires Run(Init, actions[..|actions| - 1], s)
    ensures Inv(Apply(s, a)) && Run(Init, actions, Apply(s, a))
  {
    hide *;
    ActionKeepsInv(s, a);
    RunMore(Init, actions[..|actions| - 1], s, a);
    assert actions == actions[..|actions| - 1] + [a];
  }

  lemma OpenFilesKnown(s: State)
    requires Inv(s)
    ensures forall p :: p in s.openFiles ==> s.openFiles[p] in s.files
  {
    forall p | p in s.openFiles ensures s.openFiles[p] in s.files {
      OpenFileInUse(s, p);
    }
  }

  lemma RunnerKnown(s: State, g: Gid)
    requires Inv(s) && s.At(g).Finishing?
    ensures s.At(g).call in s.calls
  {
    assert RunnerInv(s, s.pcs[g]);
  }

  lemma JoinedKnown(s: State, g: Gid)
    requires Inv(s) && s.At(g).Joined?
    ensures s.At(g).file in s.files
  {
    assert PcInv(s, s.pcs[g]);
  }

  lemma CloserKnown(s: State, g: Gid)
    requires Inv(s) && s.At(g).Closing?
    ensures s.At(g).file in s.files
  {
    assert PcInv(s, s.pcs[g]);
  }

  /** A close that has just happened was the first one. */
  lemma ClosedOnce(actions: seq<Action>, s: State, f: FileId)
    requires Inv(s) && Run(Init, actions, s) && f in s.files
    ensures 0 <= s.files[f].closes <= 1
  {
    hide Inv, Run;
    RefCountsAreExact(actions, s, f);
  }

}
