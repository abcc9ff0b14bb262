/**
 When there is one open file for a path, and when there are two.
 */
module SharedOneFile {
  import opened Wrappers
  import opened SharedOpen

  /** File f of path p is in use. */
  ghost predicate Using(s: State, p: Path, f: FileId)
  {
    f in s.files && s.files[f].path == p && s.files[f].refCount > 0
  }

  ghost predicate InTable(s: State, p: Path, f: FileId)
  {
    p in s.openFiles && s.openFiles[p] == f
  }

  ghost predicate Inserts(pc: Pc, f: FileId)
  {
    pc.Inserting? && pc.file == f
  }

  /** Some goroutine has opened file f and has not put it into openFiles yet. */
  ghost predicate NotInserted(s: State, f: FileId)
  {
    exists g :: g in s.pcs && Inserts(s.pcs[g], f)
  }

  /** The goroutine is going to put a new file for path p into openFiles. */
  ghost predicate Makes(pc: Pc, p: Path)
  {
    (pc.Opening? || pc.Inserting?) && pc.path == p
  }

  /** Every file of p in use is the one in openFiles or about to be, and that is one or the other. */
  ghost predicate Single(s: State, p: Path)
  {
    && (forall f :: f in s.files && Using(s, p, f) ==> InTable(s, p, f) || NotInserted(s, f))
    && (forall g :: g in s.pcs && Makes(s.pcs[g], p) ==> p !in s.openFiles)
  }

  /** The action does not start opening p while p is in openFiles. */
  ghost predicate Careful(s: State, a: Action, p: Path)
  {
    a.Enter? && s.At(a.g) == Missed(p) && p !in s.group ==> p !in s.openFiles
  }

  ghost predicate CarefulRun(s: State, actions: seq<Action>, p: Path)
    decreases |actions|
  {
    actions == [] ||
      (Enabled(s, actions[0]) && Careful(s, actions[0], p) && CarefulRun(Apply(s, actions[0]), actions[1..], p))
  }

  // ---------- One file ----------

  /** Two goroutines that make a file for p are the same. */
  lemma OneMaker(s: State, p: Path, g: Gid, h: Gid)
    requires CallsInv(s) && g in s.pcs && h in s.pcs && Makes(s.pcs[g], p) && Makes(s.pcs[h], p)
    ensures g == h && p in s.group
  {
    assert RunnerInv(s, s.pcs[g]) && RunnerInv(s, s.pcs[h]);
    assert SameCall(s.pcs[g], s.pcs[h]);
  }

  /** What is inserted for a file of p makes a file for p. */
  lemma InsertsOwnPath(s: State, p: Path, f: FileId, g: Gid)
    requires FilesInv(s) && g in s.pcs && Inserts(s.pcs[g], f) && Using(s, p, f)
    ensures Makes(s.pcs[g], p)
  {
    assert PcInv(s, s.pcs[g]);
  }

  lemma OnlyOne(s: State, p: Path, f: FileId, e: FileId)
    requires Inv(s) && Single(s, p) && Using(s, p, f) && Using(s, p, e)
    ensures f == e
  {
    hide CallsInv, FilesInv, CountsInv, Using, Makes;
    assert f in s.files && e in s.files by { UsedExists(s, p, f); UsedExists(s, p, e); }
    if !InTable(s, p, f) {
      var g :| g in s.pcs && Inserts(s.pcs[g], f);
      InsertsOwnPath(s, p, f, g);
      assert !InTable(s, p, e);
      var h :| h in s.pcs && Inserts(s.pcs[h], e);
      InsertsOwnPath(s, p, e, h);
      OneMaker(s, p, g, h);
    } else if !InTable(s, p, e) {
      var h :| h in s.pcs && Inserts(s.pcs[h], e);
      InsertsOwnPath(s, p, e, h);
    }
  }

  lemma UsedExists(s: State, p: Path, f: FileId)
    requires Using(s, p, f)
    ensures f in s.files
  {
  }

  /** Neither openFiles nor who makes a file changes, and no file comes into use. */
  ghost predicate Calm(s: State, t: State, g: Gid, p: Path)
  {
    && t.openFiles == s.openFiles
    && (t.pcs == s.pcs || (t.pcs == s.pcs[g := t.At(g)] && !s.At(g).Inserting? && !Makes(t.At(g), p)))
    && forall f :: Using(t, p, f) ==> Using(s, p, f)
  }

  lemma CalmKeepsSingle(s: State, t: State, g: Gid, p: Path)
    requires Single(s, p) && Calm(s, t, g, p)
    ensures Single(t, p)
  {
    hide Using, Makes;
    forall f | f in t.files && Using(t, p, f) ensures InTable(t, p, f) || NotInserted(t, f) {
      UsedExists(s, p, f);
      if !InTable(s, p, f) {
        var h :| h in s.pcs && Inserts(s.pcs[h], f);
        assert h in t.pcs && t.pcs[h] == s.pcs[h];
      }
    }
  }

  lemma EffectIn(s: State, a: Action, p: Path)
    requires Inv(s) && Enabled(s, a) && (a.CallOpen? || a.Look? || a.OpenFails?)
    ensures Calm(s, Apply(s, a), a.g, p)
  {
    hide CallsInv, CountsInv;
    if a.Look? && s.At(a.g).path in s.openFiles { OpenFileInUse(s, s.At(a.g).path); }
  }

  lemma EffectOut(s: State, a: Action, p: Path)
    requires Enabled(s, a) && (a.Finish? || a.Delete? || a.Wake?)
    ensures Calm(s, Apply(s, a), a.g, p)
  {
  }

  lemma EffectLast(s: State, a: Action, p: Path)
    requires Enabled(s, a) && (a.Return? || a.CloseFile?)
    ensures Calm(s, Apply(s, a), a.g, p)
  {
  }

  lemma EffectJoin(s: State, g: Gid, p: Path)
    requires Inv(s) && Enabled(s, Join(g))
    ensures Calm(s, Apply(s, Join(g)), g, p)
  {
    hide CallsInv, FilesInv;
    CountedNotNegative(s, s.At(g).file);
  }

  lemma EnterKeepsSingle(s: State, g: Gid, p: Path)
    requires Single(s, p) && Enabled(s, Enter(g)) && Careful(s, Enter(g), p)
    ensures Single(Apply(s, Enter(g)), p)
  {
    var t := Apply(s, Enter(g));
    if s.At(g).path in s.group || s.At(g).path != p {
      CalmKeepsSingle(s, t, g, p);
    } else {
      forall f | f in t.files && Using(t, p, f) ensures InTable(t, p, f) || NotInserted(t, f) {
        assert Using(s, p, f);
        if !InTable(s, p, f) {
          var h :| h in s.pcs && Inserts(s.pcs[h], f);
          assert h in t.pcs && t.pcs[h] == s.pcs[h];
        }
      }
    }
  }

  lemma OpenKeepsSingle(s: State, g: Gid, p: Path)
    requires Inv(s) && Single(s, p) && Enabled(s, OpenSucceeds(g))
    ensures Single(Apply(s, OpenSucceeds(g)), p)
  {
    hide CallsInv, CountsInv;
    var t := Apply(s, OpenSucceeds(g));
    assert g in t.pcs && Inserts(t.pcs[g], s.nextFile);
    forall f | f in t.files && Using(t, p, f) ensures InTable(t, p, f) || NotInserted(t, f) {
      if f != s.nextFile {
        assert Using(s, p, f);
        if !InTable(s, p, f) {
          var h :| h in s.pcs && Inserts(s.pcs[h], f);
          assert h in t.pcs && t.pcs[h] == s.pcs[h];
        }
      }
    }
    assert Makes(t.pcs[g], p) ==> Makes(s.pcs[g], p);
  }

  lemma InsertKeepsSingle(s: State, g: Gid, p: Path)
    requires Inv(s) && Single(s, p) && Enabled(s, Insert(g))
    ensures Single(Apply(s, Insert(g)), p)
  {
    hide CallsInv, FilesInv, CountsInv;
    var t := Apply(s, Insert(g));
    var q := s.At(g).path;
    forall f | f in t.files && Using(t, p, f) ensures InTable(t, p, f) || NotInserted(t, f) {
      assert Using(s, p, f);
      if !InTable(s, p, f) {
        var h :| h in s.pcs && Inserts(s.pcs[h], f);
        InsertsOwnPath(s, p, f, h);
        if h != g { assert h in t.pcs && t.pcs[h] == s.pcs[h]; }
      }
    }
    forall h | h in t.pcs && Makes(t.pcs[h], p) ensures p !in t.openFiles {
      if q == p { OneMaker(s, p, g, h); }
    }
  }

  /** The last handle of a file is closed only after the file was inserted. */
  lemma CloseKeepsSingle(s: State, g: Gid, h: HandleId, p: Path)
    requires Inv(s) && Single(s, p) && Enabled(s, CallClose(g, h))
    ensures Single(Apply(s, CallClose(g, h)), p)
  {
    hide CallsInv, FilesInv, CountsInv;
    var t := Apply(s, CallClose(g, h));
    var f := s.handles[h].file;
    if !s.handles[h].closed && s.files[f].refCount == 1 && s.files[f].path == p {
      LastIsInserted(s, h);
      assert Using(s, p, f);
      forall e | e in t.files && Using(t, p, e) ensures false {
        assert Using(s, p, e) && e != f;
        OnlyOne(s, p, e, f);
      }
    } else {
      CloseIsCalm(s, g, h, p);
    }
  }

  lemma CloseIsCalm(s: State, g: Gid, h: HandleId, p: Path)
    requires Single(s, p) && Enabled(s, CallClose(g, h))
    requires !s.handles[h].closed ==> s.files[s.handles[h].file].refCount != 1 || s.files[s.handles[h].file].path != p
    ensures Single(Apply(s, CallClose(g, h)), p)
  {
    var t := Apply(s, CallClose(g, h));
    forall f | f in t.files && Using(t, p, f) ensures InTable(t, p, f) || NotInserted(t, f) {
      assert Using(s, p, f);
      if !InTable(s, p, f) {
        var i :| i in s.pcs && Inserts(s.pcs[i], f);
        assert i in t.pcs && t.pcs[i] == s.pcs[i];
      }
    }
  }

  lemma LastIsInserted(s: State, h: HandleId)
    requires CountsInv(s) && h in s.handles && !s.handles[h].closed && s.handles[h].file in s.files
    requires s.files[s.handles[h].file].refCount == 1
    ensures !NotInserted(s, s.handles[h].file)
  {
    var f := s.handles[h].file;
    assert Counted(s, f);
    LiveIsCounted(s, h);
    assert Owing(s, f) == {};
    forall g | g in s.pcs ensures !Inserts(s.pcs[g], f) {
      assert g !in Owing(s, f);
    }
  }

  lemma ActionKeepsSingle(s: State, a: Action, p: Path)
    requires Inv(s) && Single(s, p) && Enabled(s, a) && Careful(s, a, p)
    ensures Single(Apply(s, a), p)
  {
    hide Inv, Single, Apply, Enabled, Calm;
    match a
    case Enter(g) => EnterKeepsSingle(s, g, p);
    case OpenSucceeds(g) => OpenKeepsSingle(s, g, p);
    case Insert(g) => InsertKeepsSingle(s, g, p);
    case CallClose(g, h) => CloseKeepsSingle(s, g, h, p);
    case _ =>
      if a.CallOpen? || a.Look? || a.OpenFails? { EffectIn(s, a, p); }
      else if a.Finish? || a.Delete? || a.Wake? { EffectOut(s, a, p); }
      else if a.Join? { EffectJoin(s, a.g, p); }
      else { EffectLast(s, a, p); }
      CalmKeepsSingle(s, Apply(s, a), a.g, p);
  }

  lemma {:induction false} RunKeepsSingle(s: State, actions: seq<Action>, t: State, p: Path)
    requires Inv(s) && Single(s, p) && Run(s, actions, t) && CarefulRun(s, actions, p)
    ensures Single(t, p)
    decreases |actions|
  {
    hide Inv, Single, Apply, Enabled, Careful;
    if actions != [] {
      ActionKeepsInv(s, actions[0]);
      ActionKeepsSingle(s, actions[0], p);
      RunKeepsSingle(Apply(s, actions[0]), actions[1..], t, p);
    }
  }

  /** If nobody starts to open p while it is in openFiles, there is one file of p at most; and
      openFiles has it, once it was put there, for as long as it is in use. */
  lemma OneFilePerPath(actions: seq<Action>, s: State, p: Path)
    requires Run(Init, actions, s) && CarefulRun(Init, actions, p)
    ensures forall f, e :: Using(s, p, f) && Using(s, p, e) ==> f == e
    ensures forall f :: Using(s, p, f) && !NotInserted(s, f) ==> InTable(s, p, f)
  {
    hide Inv, Run, CarefulRun;
    CarefulIsSingle(actions, s, p);
    forall f, e | Using(s, p, f) && Using(s, p, e) ensures f == e {
      OnlyOne(s, p, f, e);
    }
  }

  lemma CarefulIsSingle(actions: seq<Action>, s: State, p: Path)
    requires Run(Init, actions, s) && CarefulRun(Init, actions, p)
    ensures Inv(s) && Single(s, p)
  {
    hide Inv, Run, CarefulRun;
    InitInv();
    RunKeepsInv(Init, actions, s);
    RunKeepsSingle(Init, actions, s, p);
  }

  // ---------- Two files ----------

  /** A run of one goroutine, in which the others do nothing. */
  ghost predicate RunOf(g: Gid, s: State, actions: seq<Action>, t: State)
  {
    Run(s, actions, t) && forall i :: 0 <= i < |actions| ==> actions[i].g == g
  }

  ghost predicate TwoInUse(s: State, p: Path)
  {
    exists f, e :: f != e && Using(s, p, f) && Using(s, p, e)
  }

  /** A goroutine that is going to start opening p makes a second file of p exactly if there is one. */
  lemma TwoFilesIff(actions: seq<Action>, s: State, g: Gid, p: Path)
    requires Run(Init, actions, s) && s.At(g) == Missed(p) && p !in s.group
    ensures (exists more, t :: RunOf(g, s, more, t) && TwoInUse(t, p)) <==> (exists f :: Using(s, p, f))
  {
    hide Inv, Run, Using;
    InitInv();
    RunKeepsInv(Init, actions, s);
    if f :| Using(s, p, f) {
      var more, t := SecondFile(s, g, p, f);
    } else {
      NoneIsSingle(s, p, g);
      forall more, t | RunOf(g, s, more, t) ensures !TwoInUse(t, p) {
        AloneIsSingle(g, s, more, t, p);
        forall f, e | Using(t, p, f) && Using(t, p, e) ensures f == e {
          OnlyOne(t, p, f, e);
        }
      }
    }
  }

  /** What the goroutine could check: as long as that was so for p, there is a file of p exactly if p
      is in openFiles. */
  lemma TwoFilesIffInTable(actions: seq<Action>, s: State, g: Gid, p: Path)
    requires Run(Init, actions, s) && CarefulRun(Init, actions, p) && s.At(g) == Missed(p) && p !in s.group
    ensures (exists more, t :: RunOf(g, s, more, t) && TwoInUse(t, p)) <==> p in s.openFiles
  {
    hide Inv, Run, CarefulRun;
    CarefulIsSingle(actions, s, p);
    TwoFilesIff(actions, s, g, p);
    if p in s.openFiles {
      TableIsInUse(actions, s, p);
      assert Using(s, p, s.openFiles[p]);
    } else {
      forall f ensures !Using(s, p, f) {
        if Using(s, p, f) {
          var h :| h in s.pcs && Inserts(s.pcs[h], f);
          MakerIsInGroup(s, p, f, h);
        }
      }
    }
  }

  lemma MakerIsInGroup(s: State, p: Path, f: FileId, h: Gid)
    requires Inv(s) && h in s.pcs && Inserts(s.pcs[h], f) && Using(s, p, f)
    ensures p in s.group
  {
    hide CallsInv, FilesInv, CountsInv;
    InsertsOwnPath(s, p, f, h);
    OneMaker(s, p, h, h);
  }

  lemma TableIsUsed(s: State, p: Path)
    requires FilesInv(s) && p in s.openFiles
    ensures Using(s, p, s.openFiles[p])
  {
    OpenFileInUse(s, p);
  }

  lemma NoneIsSingle(s: State, p: Path, g: Gid)
    requires Inv(s) && p !in s.group && forall f :: !Using(s, p, f)
    ensures Single(s, p) && p !in s.openFiles
  {
    hide CallsInv, FilesInv, CountsInv;
    if p in s.openFiles {
      TableIsUsed(s, p);
    }
    forall h | h in s.pcs && Makes(s.pcs[h], p) ensures false {
      OneMaker(s, p, h, h);
    }
  }

  /** A goroutine alone looks before it opens, and what it has seen remains so. */
  lemma {:induction false} AloneIsSingle(g: Gid, s: State, actions: seq<Action>, t: State, p: Path)
    requires Inv(s) && Single(s, p) && RunOf(g, s, actions, t) && (s.At(g) == Missed(p) ==> p !in s.openFiles)
    ensures Inv(t) && Single(t, p)
    decreases |actions|
  {
    hide Inv, Single, Apply, Enabled;
    if actions != [] {
      var a := actions[0];
      ActionKeepsInv(s, a);
      ActionKeepsSingle(s, a, p);
      MissedIsSeen(s, a, p);
      assert forall i :: 0 <= i < |actions[1..]| ==> actions[1..][i] == actions[i + 1];
      AloneIsSingle(g, Apply(s, a), actions[1..], t, p);
    }
  }

  lemma MissedIsSeen(s: State, a: Action, p: Path)
    requires Enabled(s, a)
    ensures Apply(s, a).At(a.g) == Missed(p) ==> p !in Apply(s, a).openFiles
  {
  }

  lemma SecondFile(s: State, g: Gid, p: Path, f: FileId) returns (more: seq<Action>, t: State)
    requires Inv(s) && s.At(g) == Missed(p) && p !in s.group && Using(s, p, f)
    ensures RunOf(g, s, more, t) && TwoInUse(t, p)
  {
    hide Inv, Run;
    more, t := OpenAlone(s, g, p);
    FilesAreBefore(s, f);
    assert Using(t, p, f) && Using(t, p, s.nextFile);
  }

  lemma FilesAreBefore(s: State, f: FileId)
    requires Inv(s) && f in s.files
    ensures f < s.nextFile
  {
  }

  lemma AndThen(s: State, actions: seq<Action>, t: State, a: Action) returns (u: State, all: seq<Action>)
    requires RunOf(a.g, s, actions, t) && Inv(t) && Enabled(t, a)
    ensures u == Apply(t, a) && all == actions + [a] && RunOf(a.g, s, all, u) && Inv(u)
  {
    hide Inv, Run, Apply, Enabled;
    u, all := Apply(t, a), actions + [a];
    RunMore(s, actions, t, a);
    ActionKeepsInv(t, a);
  }

  /** Goroutine g, which has missed path p when nobody was opening it, opens it. */
  lemma OpenAlone(s: State, g: Gid, p: Path) returns (all: seq<Action>, t: State)
    requires Inv(s) && s.At(g) == Missed(p) && p !in s.group
    ensures RunOf(g, s, all, t) && Inv(t) && p !in t.group && t.pcs == s.pcs[g := Idle]
    ensures t.files == s.files[s.nextFile := File(p, 1, s.nextCall, 0)]
    ensures t.nextFile == s.nextFile + 1 && t.nextHandle == s.nextHandle + 1
    ensures t.openFiles == s.openFiles[p := s.nextFile]
    ensures t.handles == s.handles[s.nextHandle := Handle(p, s.nextFile, false)]
  {
    NoSteps(g, s);
    hide Inv, Run, RunOf, Apply, Enabled;
    EnterIs(s, g, p);
    var s1, a1 := AndThen(s, [], s, Enter(g));
    SucceedAlone(s1, g);
    var s2, a2 := AndThen(s, a1, s1, OpenSucceeds(g));
    InsertAlone(s2, g);
    var s3, a3 := AndThen(s, a2, s2, Insert(g));
    FinishEnabled(s3, g);
    t, all := FinishAlone(s, a3, s3, g);
  }

  lemma NoSteps(g: Gid, s: State)
    ensures RunOf(g, s, [], s)
  {
  }

  lemma SucceedAlone(s: State, g: Gid)
    requires s.At(g).Opening?
    ensures Enabled(s, OpenSucceeds(g))
    ensures Apply(s, OpenSucceeds(g)) ==
      s.(files := s.files[s.nextFile := File(s.At(g).path, 1, s.At(g).call, 0)], nextFile := s.nextFile + 1,
         pcs := s.pcs[g := Inserting(s.At(g).path, s.At(g).call, s.nextFile)])
  {
  }

  lemma InsertAlone(s: State, g: Gid)
    requires s.At(g).Inserting?
    ensures Enabled(s, Insert(g))
    ensures Apply(s, Insert(g)) ==
      s.(openFiles := s.openFiles[s.At(g).path := s.At(g).file],
         pcs := s.pcs[g := Finishing(s.At(g).path, s.At(g).call, Opened(s.At(g).file))])
  {
  }

  lemma FinishEnabled(s: State, g: Gid)
    requires s.At(g).Finishing? && s.At(g).call in s.calls
    ensures Enabled(s, Finish(g))
  {
  }

  lemma FinishAlone(base: State, actions: seq<Action>, s: State, g: Gid) returns (t: State, all: seq<Action>)
    requires RunOf(g, base, actions, s) && Inv(s) && Enabled(s, Finish(g)) && s.At(g).result.Opened?
    ensures RunOf(g, base, all, t) && Inv(t) && t.group == s.group - {s.At(g).path} && t.pcs == s.pcs[g := Idle]
    ensures t.files == s.files && t.nextFile == s.nextFile && t.openFiles == s.openFiles
    ensures t.handles == s.handles[s.nextHandle := Handle(s.At(g).path, s.At(g).result.file, false)]
    ensures t.nextHandle == s.nextHandle + 1
  {
    hide Inv, RunOf;
    var s1, a1 := AndThen(base, actions, s, Finish(g));
    var s2, a2 := AndThen(base, a1, s1, Delete(g));
    t, all := AndThen(base, a2, s2, Return(g));
    assert t.pcs == s.pcs[g := Idle];
  }

  // ---------- Runs with two files ----------

  lemma Then(actions: seq<Action>, s: State, a: Action) returns (all: seq<Action>, t: State)
    requires Run(Init, actions, s) && Inv(s) && Enabled(s, a)
    ensures t == Apply(s, a) && Run(Init, all, t) && Inv(t)
  {
    hide Inv, Run, Apply, Enabled;
    all, t := actions + [a], Apply(s, a);
    RunMore(Init, actions, s, a);
    ActionKeepsInv(s, a);
  }

  lemma {:induction false} RunJoin(r: State, actions: seq<Action>, s: State, more: seq<Action>, t: State)
    requires Run(r, actions, s) && Run(s, more, t)
    ensures Run(r, actions + more, t)
    decreases |actions|
  {
    if actions == [] {
      assert actions + more == more;
    } else {
      hide Apply, Enabled;
      assert (actions + more)[0] == actions[0] && (actions + more)[1..] == actions[1..] + more;
      RunJoin(Apply(r, actions[0]), actions[1..], s, more, t);
    }
  }

  /** Two goroutines have both missed the same path. */
  lemma BothMiss(p: Path) returns (all: seq<Action>, s: State)
    ensures Run(Init, all, s) && Inv(s)
    ensures s == Init.(pcs := map[0 := Missed(p), 1 := Missed(p)])
  {
    hide Inv, Run;
    InitInv();
    InitRun();
    var a1, s1 := Then([], Init, CallOpen(0, p));
    var a2, s2 := Then(a1, s1, Look(0));
    var a3, s3 := Then(a2, s2, CallOpen(1, p));
    all, s := Then(a3, s3, Look(1));
    assert s.pcs == map[0 := Missed(p), 1 := Missed(p)];
  }

  /** Two open files for the same path, both in use: one goroutine looks before the other has
      inserted its file, and calls Do after the call is gone. */
  lemma TwoDescriptorsForOnePath(p: Path) returns (all: seq<Action>, s: State)
    ensures Run(Init, all, s) && Inv(s) && TwoInUse(s, p)
    ensures 0 in LiveHandles(s, 0) && 1 in LiveHandles(s, 1)
    ensures s.openFiles == map[p := 1] && p !in s.group && s.At(0) == Idle
    ensures s.handles == map[0 := Handle(p, 0, false), 1 := Handle(p, 1, false)]
    ensures s.files == map[0 := File(p, 1, s.files[0].call, 0), 1 := File(p, 1, s.files[1].call, 0)]
  {
    hide Inv, Run;
    var a, r := BothMiss(p);
    var b, t := OpenAlone(r, 0, p);
    RunJoin(Init, a, r, b, t);
    assert t.At(1) == Missed(p);
    var c;
    c, s := OpenAlone(t, 1, p);
    RunJoin(Init, a + b, t, c, s);
    all := a + b + c;
    assert Using(s, p, 0) && Using(s, p, 1);
  }

  /** Then a file that is in use drops out of openFiles when the other one is closed, and a goroutine
      that looks for it misses it. */
  lemma UsedFileDropsOut(p: Path) returns (all: seq<Action>, s: State)
    ensures Run(Init, all, s)
    ensures p !in s.openFiles && Using(s, p, 1) && 1 in LiveHandles(s, 1)
    ensures s.At(0) == Missed(p) && p !in s.group
  {
    hide Inv, Run, Apply, Enabled;
    var a, t := TwoDescriptorsForOnePath(p);
    CloseIs(a, t, 0, 0);
    var b, u := Then(a, t, CallClose(0, 0));
    CloseFileIs(u, 0);
    var c, v := Then(b, u, CloseFile(0));
    all, s := LooksAgain(c, v, 0, p);
  }

  lemma CloseFileIs(s: State, g: Gid)
    requires Inv(s) && s.At(g).Closing?
    ensures Enabled(s, CloseFile(g))
    ensures var f := s.At(g).file;
      f in s.files && Apply(s, CloseFile(g)) ==
        s.(files := s.files[f := s.files[f].(closes := s.files[f].closes + 1)], pcs := s.pcs[g := Idle])
  {
    hide CallsInv, FilesInv, CountsInv;
    ClosesKnown(s, g);
  }

  lemma ClosesKnown(s: State, g: Gid)
    requires Inv(s) && s.At(g).Closing?
    ensures s.At(g).file in s.files
  {
    hide CallsInv, CountsInv;
    assert PcInv(s, s.pcs[g]);
  }

  lemma LooksAgain(actions: seq<Action>, s: State, g: Gid, p: Path) returns (all: seq<Action>, t: State)
    requires Run(Init, actions, s) && Inv(s) && s.At(g) == Idle && p !in s.openFiles
    ensures Run(Init, all, t) && Inv(t) && t == s.(pcs := s.pcs[g := Missed(p)])
  {
    hide Inv, Run;
    var b, u := Then(actions, s, CallOpen(g, p));
    all, t := Then(b, u, Look(g));
  }

  /** So p need not be in openFiles for a second file to be made. */
  lemma SecondFileUnseen(p: Path) returns (all: seq<Action>, s: State, g: Gid)
    ensures Run(Init, all, s) && s.At(g) == Missed(p) && p !in s.group && p !in s.openFiles
    ensures exists more, t :: RunOf(g, s, more, t) && TwoInUse(t, p)
  {
    hide Inv, Run;
    g := 0;
    all, s := UsedFileDropsOut(p);
    TwoFilesIff(all, s, g, p);
  }

  /** A new file for p is put into openFiles. */
  ghost predicate TakesPlace(s: State, a: Action, p: Path, f: FileId)
    requires Enabled(s, a)
  {
    a.Insert? && s.At(a.g).path == p && s.At(a.g).file != f
  }

  /** The last handle of another file of p is closed. */
  ghost predicate TakesAlong(s: State, a: Action, p: Path, f: FileId)
    requires Enabled(s, a)
  {
    && a.CallClose? && !s.handles[a.handle].closed
    && var e := s.handles[a.handle].file;
       e != f && s.files[e].path == p && s.files[e].refCount == 1
  }

  /** These are the only ways in which a file that is in use can leave openFiles. */
  lemma StaysInTable(s: State, a: Action, p: Path, f: FileId)
    requires Inv(s) && Enabled(s, a) && InTable(s, p, f) && Using(Apply(s, a), p, f)
    ensures InTable(Apply(s, a), p, f) <==> !TakesPlace(s, a, p, f) && !TakesAlong(s, a, p, f)
  {
    hide Inv;
    if OnTheWayIn(a) { StaysOnTheWayIn(s, a, p, f); } else { StaysOnTheWayOut(s, a, p, f); }
  }

  lemma StaysOnTheWayIn(s: State, a: Action, p: Path, f: FileId)
    requires Enabled(s, a) && InTable(s, p, f) && OnTheWayIn(a)
    ensures InTable(Apply(s, a), p, f) <==> !TakesPlace(s, a, p, f)
  {
  }

  lemma StaysOnTheWayOut(s: State, a: Action, p: Path, f: FileId)
    requires Enabled(s, a) && InTable(s, p, f) && Using(Apply(s, a), p, f) && !OnTheWayIn(a)
    ensures InTable(Apply(s, a), p, f) <==> !TakesAlong(s, a, p, f)
  {
  }
}
