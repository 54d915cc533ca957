/** Restoring a backup archive: staging, landing member by member with any step
    allowed to fail, and the rollback of a landing that failed. */
module Restore {
  import opened Common

  type Bytes = seq<byte>

  /** A path by its components below the destination root. */
  type Path = seq<string>

  /** A regular file: contents and permission bits. */
  datatype File = File(content: Bytes, mode: nat)

  type Files = map<Path, File>

  /** An archive member after validation. */
  datatype Member = Directory(path: Path) | Regular(path: Path, bytes: Bytes)

  const PERMISSION_BITS: nat := 512       // 0o1000: modes below it have no special bits
  const RESTORED_FILE_MODE: nat := 416    // 0o640
  const RESTORED_SECRET_MODE: nat := 384  // 0o600
  const RESTORED_ADMIN_MODE: nat := 416   // 0o640

  function RestoredMode(name: string): nat {
    if name == "admin.json" then RESTORED_ADMIN_MODE
    else if name in {"sasl_passwd", "totp.key"} then RESTORED_SECRET_MODE
    else RESTORED_FILE_MODE
  }

  function NameOf(path: Path): string {
    if path == [] then [] else path[|path| - 1]
  }

  // ---------------------------------------------------------------- staging

  /** The staging tree: files created exclusively, directories created as needed. */
  datatype Staged = Staged(files: map<Path, Bytes>, dirs: set<Path>)

  /** The path and its ancestors, down to but without the staging root. */
  function Ancestors(path: Path): set<Path> {
    set i | 1 <= i <= |path| :: path[..i]
  }

  /** `create_dir_all`: fails on any component that is a file. */
  function MakeDirs(s: Staged, path: Path): Option<Staged> {
    if Ancestors(path) * s.files.Keys != {} then None
    else Some(s.(dirs := s.dirs + Ancestors(path)))
  }

  function StageOne(s: Staged, m: Member): Option<Staged> {
    if m.path == [] then None
    else if m.Directory? then MakeDirs(s, m.path)
    else
      match MakeDirs(s, m.path[..|m.path| - 1])
      case None => None
      case Some(t) =>
        if m.path in t.files || m.path in t.dirs then None
        else Some(t.(files := t.files[m.path := m.bytes]))
  }

  /** Staging the members in archive order. */
  function Stage(members: seq<Member>): Option<Staged> {
    if members == [] then Some(Staged(map[], {}))
    else
      match Stage(members[..|members| - 1])
      case None => None
      case Some(s) => StageOne(s, members[|members| - 1])
  }

  // ---------------------------------------------------------------- landing

  /** Where landing one member fails, if it does: before anything is touched, at
      opening the target after its backup, while copying (leaving `partial`, and
      `newMode` on a file that did not exist), or at setting the mode. */
  datatype Fault = NoFault | Early | AtOpen | AtCopy(partial: Bytes, newMode: nat) | AtSetMode(newMode: nat)

  datatype Backup = Backup(target: Path, content: Bytes, mode: nat)

  /** The destination with the undo lists of the landing so far. */
  datatype Landing = Landing(files: Files, overwritten: seq<Backup>, created: seq<Path>, restored: seq<Path>)

  /** An ancestor of the target is a file, so its parent directory cannot be used. */
  predicate Blocked(files: Files, path: Path) {
    exists i :: 1 <= i < |path| && path[..i] in files
  }

  /** Landing one regular member: the new state, and whether it succeeded. */
  function LandOne(l: Landing, path: Path, bytes: Bytes, fault: Fault): (Landing, bool) {
    if Blocked(l.files, path) || fault.Early? then (l, false)
    else
      var existed := path in l.files;
      var noted :=
        if existed then
          l.(overwritten := l.overwritten + [Backup(path, l.files[path].content, l.files[path].mode % PERMISSION_BITS)])
        else l.(created := l.created + [path]);
      match fault
      case Early => (l, false)
      case AtOpen => (noted, false)
      case AtCopy(partial, newMode) =>
        var mode := if existed then l.files[path].mode else newMode;
        (noted.(files := l.files[path := File(partial, mode)]), false)
      case AtSetMode(newMode) =>
        var mode := if existed then l.files[path].mode else newMode;
        (noted.(files := l.files[path := File(bytes, mode)]), false)
      case NoFault =>
        (noted.(files := l.files[path := File(bytes, RestoredMode(NameOf(path)))],
                restored := l.restored + [path]), true)
  }

  /** Landing members in order until one fails; `faults[i]` is what befalls member `i`. */
  function LandAll(files: Files, members: seq<Member>, faults: seq<Fault>): (Landing, bool)
    requires |faults| == |members|
  {
    if members == [] then (Landing(files, [], [], []), true)
    else
      var n := |members| - 1;
      var (l, ok) := LandAll(files, members[..n], faults[..n]);
      if !ok || members[n].Directory? then (l, ok)
      else LandOne(l, members[n].path, members[n].bytes, faults[n])
  }

  // ---------------------------------------------------------------- rollback

  /** Putting the saved originals back, in the order they were saved. */
  function PutBack(files: Files, overwritten: seq<Backup>): Files {
    if overwritten == [] then files
    else
      var n := |overwritten| - 1;
      var b := overwritten[n];
      PutBack(files, overwritten[..n])[b.target := File(b.content, b.mode)]
  }

  function Rollback(l: Landing): Files {
    PutBack(l.files, l.overwritten) - (set p | p in l.created)
  }

  /** The whole restore: nothing happens unless staging succeeds. */
  function Extract(files: Files, members: seq<Member>, faults: seq<Fault>): (Files, Result<seq<Path>>)
    requires |faults| == |members|
  {
    if Stage(members).None? then (files, Err)
    else
      var (l, ok) := LandAll(files, members, faults);
      if ok then (l.files, Ok(l.restored)) else (Rollback(l), Err)
  }

  // ---------------------------------------------------------------- the restoring code

  class Destination {
    var files: Files

    constructor (files: Files)
      ensures this.files == files
    {
      this.files := files;
    }

    /** Lands one member in place and notes how to undo it. */
    method Land(path: Path, bytes: Bytes, fault: Fault, ghost before: Landing)
        returns (overwritten: Option<Backup>, created: bool, ok: bool)
      requires before.files == files
      modifies this
      ensures var (after, fine) := LandOne(before, path, bytes, fault);
              && files == after.files && ok == fine
              && after.overwritten == before.overwritten + (if overwritten.Some? then [overwritten.value] else [])
              && after.created == before.created + (if created then [path] else [])
              && after.restored == before.restored + (if ok then [path] else [])
    {
      overwritten, created, ok := None, false, false;
      if Blocked(files, path) || fault.Early? {
        return;
      }
      var existed := path in files;
      if existed {
        overwritten := Some(Backup(path, files[path].content, files[path].mode % PERMISSION_BITS));
      } else {
        created := true;
      }
      if fault.AtOpen? {
        return;
      }
      var mode := if existed then files[path].mode else if fault.NoFault? then 0 else fault.newMode;
      if fault.AtCopy? {
        files := files[path := File(fault.partial, mode)];
        return;
      }
      files := files[path := File(bytes, mode)];
      if fault.AtSetMode? {
        return;
      }
      files := files[path := files[path].(mode := RestoredMode(NameOf(path)))];
      ok := true;
    }

    method RollBack(overwritten: seq<Backup>, created: seq<Path>)
      modifies this
      ensures files == Rollback(Landing(old(files), overwritten, created, []))
    {
      for i := 0 to |overwritten|
        invariant files == PutBack(old(files), overwritten[..i])
      {
        assert overwritten[..i + 1][..i] == overwritten[..i];
        files := files[overwritten[i].target := File(overwritten[i].content, overwritten[i].mode)];
      }
      assert overwritten[..|overwritten|] == overwritten;
      ghost var put := files;
      for i := 0 to |created|
        invariant files == put - (set p | p in created[..i])
      {
        files := files - {created[i]};
        assert created[..i + 1] == created[..i] + [created[i]];
      }
      assert created[..|created|] == created;
    }

    method ExtractArchive(members: seq<Member>, faults: seq<Fault>) returns (r: Result<seq<Path>>)
      requires |faults| == |members|
      modifies this
      ensures (files, r) == Extract(old(files), members, faults)
    {
      if Stage(members).None? {
        return Err;
      }
      var overwritten: seq<Backup>, created: seq<Path>, restored: seq<Path> := [], [], [];
      var ok := true;
      var i := 0;
      while ok && i < |members|
        invariant 0 <= i <= |members|
        invariant LandAll(old(files), members[..i], faults[..i]) == (Landing(files, overwritten, created, restored), ok)
      {
        assert members[..i + 1][..i] == members[..i] && faults[..i + 1][..i] == faults[..i];
        if members[i].Regular? {
          var over, new_, landed := Land(members[i].path, members[i].bytes, faults[i],
                                         Landing(files, overwritten, created, restored));
          overwritten := overwritten + (if over.Some? then [over.value] else []);
          created := created + (if new_ then [members[i].path] else []);
          restored := restored + (if landed then [members[i].path] else []);
          ok := landed;
        }
        i := i + 1;
      }
      StopsAtFailure(old(files), members, faults, i);
      if !ok {
        RollBack(overwritten, created);
        return Err;
      }
      r := Ok(restored);
    }
  }

  /** Once a member has failed, the later ones change nothing. */
  lemma {:induction false} StopsAtFailure(files: Files, members: seq<Member>, faults: seq<Fault>, i: nat)
    requires |faults| == |members| && i <= |members|
    requires i == |members| || !LandAll(files, members[..i], faults[..i]).1
    ensures LandAll(files, members, faults) == LandAll(files, members[..i], faults[..i])
    decreases |members|
  {
    if i == |members| {
      assert members[..i] == members && faults[..i] == faults;
    } else {
      var n := |members| - 1;
      assert members[..n][..i] == members[..i] && faults[..n][..i] == faults[..i];
      StopsAtFailure(files, members[..n], faults[..n], i);
    }
  }

  // ---------------------------------------------------------------- distinct members

  /** The regular members' paths, in order. */
  function FilePaths(members: seq<Member>): seq<Path> {
    if members == [] then []
    else
      var n := |members| - 1;
      FilePaths(members[..n]) + (if members[n].Regular? then [members[n].path] else [])
  }

  predicate Distinct(paths: seq<Path>) {
    forall i, j :: 0 <= i < j < |paths| ==> paths[i] != paths[j]
  }

  /** Exclusive creation in the staging tree accepts only distinct regular members. */
  lemma {:induction false} StagingForcesDistinct(members: seq<Member>)
    requires Stage(members).Some?
    ensures Distinct(FilePaths(members))
    ensures forall p :: p in Stage(members).value.files <==> p in FilePaths(members)
  {
    if members != [] {
      StagingForcesDistinct(members[..|members| - 1]);
    }
  }

  /** The two members cannot both be staged: one is a file at or above the other. */
  predicate Clash(m: Member, n: Member) {
    (m.Regular? && m.path <= n.path) || (n.Regular? && n.path <= m.path)
  }

  /** The staging tree holds the files, and as directories everything above the members. */
  ghost predicate Holds(s: Staged, members: seq<Member>) {
    && (forall p :: p in s.files <==> exists m :: m in members && m.Regular? && m.path == p)
    && (forall p :: p in s.dirs <==> p != [] && exists m :: m in members && p <= m.path && (m.Regular? ==> p != m.path))
  }

  lemma InAncestors(path: Path, p: Path)
    ensures p in Ancestors(path) <==> p != [] && p <= path
  {
    if p != [] && p <= path { assert path[..|p|] == p; }
  }

  /** One more member is staged exactly when it clashes with none before. */
  lemma StageOneExactly(s: Staged, members: seq<Member>, m: Member)
    requires Holds(s, members) && (forall a :: a in members ==> a.path != [])
    ensures StageOne(s, m).Some? <==> m.path != [] && forall a :: a in members ==> !Clash(a, m)
    ensures StageOne(s, m).Some? ==> Holds(StageOne(s, m).value, members + [m])
  {
    if m.path != [] {
      var front := if m.Directory? then m.path else m.path[..|m.path| - 1];
      DirsExactly(s, members, m, front);
      if StageOne(s, m).Some? { HoldsSnoc(s, members, m, front); }
    }
  }

  lemma DirsExactly(s: Staged, members: seq<Member>, m: Member, front: Path)
    requires Holds(s, members) && (forall a :: a in members ==> a.path != []) && m.path != []
    requires front == if m.Directory? then m.path else m.path[..|m.path| - 1]
    ensures MakeDirs(s, front).Some? && (m.Regular? ==> m.path !in s.files && m.path !in s.dirs) <==>
            forall a :: a in members ==> !Clash(a, m)
  {
    forall a | a in members && Clash(a, m)
      ensures !(MakeDirs(s, front).Some? && (m.Regular? ==> m.path !in s.files && m.path !in s.dirs))
    {
      InAncestors(front, a.path);
      assert a.Regular? ==> a.path in s.files;
      if a.Regular? && a.path <= m.path {
        if m.Regular? && a.path != m.path { assert a.path <= front; }
        assert a.path in Ancestors(front) * s.files.Keys || (m.Regular? && m.path in s.files);
      } else {
        assert m.Regular? && m.path <= a.path;
        assert m.path in s.files || m.path in s.dirs;
      }
    }
    if MakeDirs(s, front).None? {
      var p :| p in Ancestors(front) && p in s.files;
      InAncestors(front, p);
      var a :| a in members && a.Regular? && a.path == p;
      assert Clash(a, m);
    } else if m.Regular? && m.path in s.files {
      var a :| a in members && a.Regular? && a.path == m.path;
      assert Clash(a, m);
    } else if m.Regular? && m.path in s.dirs {
      var a :| a in members && m.path <= a.path;
      assert Clash(a, m);
    }
  }

  lemma HoldsSnoc(s: Staged, members: seq<Member>, m: Member, front: Path)
    requires Holds(s, members) && m.path != []
    requires front == if m.Directory? then m.path else m.path[..|m.path| - 1]
    requires StageOne(s, m).Some?
    ensures Holds(StageOne(s, m).value, members + [m])
  {
    var t, all := StageOne(s, m).value, members + [m];
    forall p ensures p in t.files <==> exists a :: a in all && a.Regular? && a.path == p {
      assert m in all && forall a :: a in members ==> a in all;
    }
    forall p ensures p in t.dirs <==> p != [] && exists a :: a in all && p <= a.path && (a.Regular? ==> p != a.path) {
      InAncestors(front, p);
      assert m in all && forall a :: a in members ==> a in all;
      assert p <= front <==> p <= m.path && (m.Regular? ==> p != m.path) by {
        if m.Regular? && p <= m.path && p != m.path { assert p == m.path[..|p|] == front[..|p|]; }
      }
    }
  }

  /** Every member has a path, and no file member is at or above the place of another member. */
  predicate Compatible(members: seq<Member>) {
    && (forall i :: 0 <= i < |members| ==> members[i].path != [])
    && (forall i, j :: 0 <= i < |members| && 0 <= j < |members| && i != j && members[i].Regular? ==>
          !(members[i].path <= members[j].path))
  }

  lemma CompatibleSnoc(front: seq<Member>, m: Member)
    ensures Compatible(front + [m]) <==>
            Compatible(front) && m.path != [] && forall a :: a in front ==> !Clash(a, m)
  {
    var all, n := front + [m], |front|;
    forall i | 0 <= i < n ensures all[i] == front[i] {}
    assert all[n] == m;
    if Compatible(all) {
      forall a | a in front ensures !Clash(a, m) {
        var i :| 0 <= i < n && front[i] == a;
        assert !(all[i].Regular? && all[i].path <= all[n].path);
        assert !(all[n].Regular? && all[n].path <= all[i].path);
      }
    }
    if Compatible(front) && m.path != [] && forall a :: a in front ==> !Clash(a, m) {
      forall i, j | 0 <= i <= n && 0 <= j <= n && i != j && all[i].Regular?
        ensures !(all[i].path <= all[j].path)
      {
        if i < n && j == n { assert !Clash(front[i], m); }
        if i == n { assert !Clash(front[j], m); }
      }
    }
  }

  /** Exactly the compatible archives stage. */
  lemma {:induction false} StagesExactly(members: seq<Member>)
    ensures Stage(members).Some? <==> Compatible(members)
    ensures Stage(members).Some? ==> Holds(Stage(members).value, members)
  {
    if members != [] {
      var n := |members| - 1;
      var front, m := members[..n], members[n];
      assert members == front + [m];
      StagesExactly(front);
      CompatibleSnoc(front, m);
      hide StageOne, Holds, Clash;
      if Stage(front).Some? {
        HavePaths(front);
        hide Compatible;
        StageOneExactly(Stage(front).value, front, m);
      }
    }
  }

  lemma HavePaths(members: seq<Member>)
    requires Compatible(members)
    ensures forall a :: a in members ==> a.path != []
  {}

  // ---------------------------------------------------------------- all or nothing

  function Targets(overwritten: seq<Backup>): set<Path> {
    set b | b in overwritten :: b.target
  }

  /** The regular members a landing attempt noted before it stopped. */
  function Touched(l: Landing): set<Path> {
    Targets(l.overwritten) + (set p | p in l.created)
  }

  /** The undo lists tell the originals of every touched file; the rest is untouched. */
  ghost predicate Accounts(files: Files, l: Landing) {
    && (forall b :: b in l.overwritten ==> Saves(files, b))
    && (forall p :: p in l.created ==> p !in files)
    && (forall p :: p in files && p in Touched(l) ==> p in l.files)
    && (forall p :: p !in Touched(l) ==> (p in l.files <==> p in files) && (p in files ==> l.files[p] == files[p]))
  }

  predicate Saves(files: Files, b: Backup) {
    b.target in files && b.content == files[b.target].content && b.mode == files[b.target].mode % PERMISSION_BITS
  }

  /** Landing distinct members keeps the undo lists faithful to the original files. */
  lemma {:induction false} LandingAccounts(files: Files, members: seq<Member>, faults: seq<Fault>)
    requires |faults| == |members| && Distinct(FilePaths(members))
    ensures var l := LandAll(files, members, faults).0;
            && Accounts(files, l)
            && forall p :: p in Touched(l) ==> p in FilePaths(members)
  {
    if members != [] {
      var n := |members| - 1;
      var l := LandAll(files, members[..n], faults[..n]).0;
      DistinctPrefix(members);
      LandingAccounts(files, members[..n], faults[..n]);
      if LandAll(files, members[..n], faults[..n]).1 && members[n].Regular? {
        assert members[n].path !in Touched(l);
        LandOneAccounts(files, l, members[n].path, members[n].bytes, faults[n]);
      }
    }
  }

  lemma DistinctPrefix(members: seq<Member>)
    requires members != [] && Distinct(FilePaths(members))
    ensures Distinct(FilePaths(members[..|members| - 1]))
    ensures members[|members| - 1].Regular? ==>
              members[|members| - 1].path !in FilePaths(members[..|members| - 1])
  {
    var n := |members| - 1;
    var front, all := FilePaths(members[..n]), FilePaths(members);
    forall i | 0 <= i < |front| ensures front[i] == all[i] {}
    if members[n].Regular? { assert all[|front|] == members[n].path; }
  }

  /** Landing one member touches at most its own path, and notes it before it does. */
  lemma LandOneEffect(l: Landing, path: Path, bytes: Bytes, fault: Fault)
    ensures var m := LandOne(l, path, bytes, fault).0;
            m == l ||
            (&& (forall p :: p != path ==>
                  (p in m.files <==> p in l.files) && (p in l.files ==> m.files[p] == l.files[p]))
             && (path in l.files ==>
                   path in m.files && m.created == l.created && m.overwritten == l.overwritten +
                     [Backup(path, l.files[path].content, l.files[path].mode % PERMISSION_BITS)])
             && (path !in l.files ==> m.overwritten == l.overwritten && m.created == l.created + [path]))
  {
    hide RestoredMode, Blocked, NameOf;
  }

  lemma LandOneAccounts(files: Files, l: Landing, path: Path, bytes: Bytes, fault: Fault)
    requires Accounts(files, l) && path !in Touched(l)
    ensures var m := LandOne(l, path, bytes, fault).0;
            Accounts(files, m) && Touched(m) <= Touched(l) + {path}
  {
    LandOneEffect(l, path, bytes, fault);
    hide LandOne, Touched, Targets;
    var m := LandOne(l, path, bytes, fault).0;
    if m != l {
      if path in files {
        TouchedGrows(l, m, path, Backup(path, files[path].content, files[path].mode % PERMISSION_BITS));
      } else {
        TouchedGrows(l, m, path, Backup(path, [], 0));
      }
    }
  }

  lemma TouchedGrows(l: Landing, m: Landing, path: Path, b: Backup)
    requires b.target == path
    requires (m.overwritten == l.overwritten + [b] && m.created == l.created)
          || (m.overwritten == l.overwritten && m.created == l.created + [path])
    ensures Touched(m) == Touched(l) + {path}
  {}

  /** What the rollback puts back for an overwritten file. */
  function Saved(f: File): File {
    f.(mode := f.mode % PERMISSION_BITS)
  }

  /** The original files, with the special mode bits dropped on the overwritten ones. */
  function Masked(files: Files, targets: set<Path>): Files {
    map p | p in files :: if p in targets then Saved(files[p]) else files[p]
  }

  lemma {:induction false} PutBackAt(files: Files, now: Files, overwritten: seq<Backup>, p: Path)
    requires forall b :: b in overwritten ==> Saves(files, b)
    ensures var after := PutBack(now, overwritten);
            if p in Targets(overwritten) then p in files && p in after && after[p] == Saved(files[p])
            else (p in after <==> p in now) && (p in now ==> after[p] == now[p])
  {
    if overwritten != [] {
      var n := |overwritten| - 1;
      TargetsSnoc(overwritten);
      hide Targets;
      assert Saves(files, overwritten[n]);
      PutBackAt(files, now, overwritten[..n], p);
    }
  }

  lemma TargetsSnoc(overwritten: seq<Backup>)
    requires overwritten != []
    ensures Targets(overwritten) == Targets(overwritten[..|overwritten| - 1]) + {overwritten[|overwritten| - 1].target}
  {
    var n := |overwritten| - 1;
    assert overwritten == overwritten[..n] + [overwritten[n]];
  }

  lemma RollbackMasks(files: Files, l: Landing)
    requires Accounts(files, l)
    ensures Rollback(l) == Masked(files, Targets(l.overwritten))
  {
    var after, masked := Rollback(l), Masked(files, Targets(l.overwritten));
    hide PutBack;
    forall p ensures (p in after <==> p in masked) && (p in masked ==> after[p] == masked[p]) {
      PutBackAt(files, l.files, l.overwritten, p);
    }
    assert after.Keys == masked.Keys;
  }

  /** If any step fails, every regular file keeps its contents and no new file remains;
      the files are exactly as before if and only if no overwritten target had mode
      bits above 0o777, which the rollback does not put back. */
  lemma FailureRestores(files: Files, members: seq<Member>, faults: seq<Fault>)
    requires |faults| == |members|
    requires Extract(files, members, faults).1.Err?
    ensures var after := Extract(files, members, faults).0;
            && after.Keys == files.Keys
            && (forall p :: p in files ==> after[p].content == files[p].content)
            && (forall p :: p in files && p !in FilePaths(members) ==> after[p] == files[p])
            && (forall p :: p in files ==> after[p].mode == files[p].mode || after[p].mode == files[p].mode % 512)
            && (after == files <==>
                Stage(members).None? || forall p :: p in Overwritten(files, members, faults) ==>
                                          p in files && files[p].mode <= 0x1FF)
  {
    if Stage(members).Some? {
      StagingForcesDistinct(members);
      LandingAccounts(files, members, faults);
      var l := LandAll(files, members, faults).0;
      RollbackMasks(files, l);
      MaskedIsExact(files, Targets(l.overwritten));
      assert Targets(l.overwritten) <= Touched(l);
    }
  }

  /** The existing files a landing attempt had begun to overwrite when it stopped. */
  function Overwritten(files: Files, members: seq<Member>, faults: seq<Fault>): set<Path>
    requires |faults| == |members|
  {
    Targets(LandAll(files, members, faults).0.overwritten)
  }

  lemma MaskedIsExact(files: Files, targets: set<Path>)
    requires targets <= files.Keys
    ensures Masked(files, targets) == files <==> forall p :: p in targets ==> files[p].mode < PERMISSION_BITS
  {
    var m := Masked(files, targets);
    if forall p :: p in targets ==> files[p].mode < PERMISSION_BITS {
      forall p | p in files ensures m[p] == files[p] {}
    } else {
      var p :| p in targets && files[p].mode >= PERMISSION_BITS;
      assert m[p].mode < PERMISSION_BITS;
    }
  }

  /** If every step succeeds, each regular member's target holds the archived bytes, in mode
      0o600 for the two secret files and 0o640 for all others; every other file is untouched,
      and the members are reported in order. */
  lemma SuccessLandsAll(files: Files, members: seq<Member>, faults: seq<Fault>)
    requires |faults| == |members|
    requires Extract(files, members, faults).1.Ok?
    ensures var (after, r) := Extract(files, members, faults);
            && r.value == FilePaths(members)
            && (forall m :: m in members && m.Regular? ==>
                  && m.path != [] && m.path in after
                  && after[m.path] ==
                     File(m.bytes, if m.path[|m.path| - 1] in {"totp.key", "sasl_passwd"} then 384 else 416))
            && (forall p :: p !in FilePaths(members) ==>
                  (p in after <==> p in files) && (p in files ==> after[p] == files[p]))
  {
    StagingForcesDistinct(members);
    LandedInOrder(files, members, faults);
    forall m | m in members ensures m.path != [] { StagedHasPath(members, m); }
    hide LandAll, Stage;
  }

  lemma {:induction false} StagedHasPath(members: seq<Member>, m: Member)
    requires Stage(members).Some? && m in members
    ensures m.path != []
  {
    var n := |members| - 1;
    assert members == members[..n] + [members[n]];
    if m != members[n] { StagedHasPath(members[..n], m); }
  }

  lemma {:induction false} LandedInOrder(files: Files, members: seq<Member>, faults: seq<Fault>)
    requires |faults| == |members| && Distinct(FilePaths(members))
    requires LandAll(files, members, faults).1
    ensures var l := LandAll(files, members, faults).0;
            && l.restored == FilePaths(members)
            && (forall m :: m in members && m.Regular? ==>
                  m.path in FilePaths(members) && m.path in l.files
                  && l.files[m.path] == File(m.bytes, RestoredMode(NameOf(m.path))))
            && (forall p :: p !in FilePaths(members) ==>
                  (p in l.files <==> p in files) && (p in files ==> l.files[p] == files[p]))
  {
    hide RestoredMode, Blocked;
    if members != [] {
      var n := |members| - 1;
      assert members == members[..n] + [members[n]];
      DistinctPrefix(members);
      LandedInOrder(files, members[..n], faults[..n]);
    }
  }

  /** Without distinct members the rollback would restore the wrong contents; staging
      is what refuses this archive. */
  lemma RollbackNeedsDistinct()
    ensures exists files: Files, members: seq<Member>, faults: seq<Fault> ::
              && |faults| == |members| && Stage(members).None?
              && !LandAll(files, members, faults).1
              && Rollback(LandAll(files, members, faults).0) != files
              && (forall p :: p in files ==> files[p].mode < PERMISSION_BITS)
  {
    var p: Path := ["etc", "a"];
    var files: Files := map[p := File([1], RESTORED_FILE_MODE)];
    var a, b := Regular(p, [2]), Regular(p, [3]);
    var members, faults := [a, b], [NoFault, AtOpen];
    assert members[..1] == [a] && faults[..1] == [NoFault];
    assert [a][..0] == [] && [NoFault][..0] == [];
    assert LandAll(files, [], []) == (Landing(files, [], [], []), true);
    var first := LandAll(files, [a], [NoFault]).0;
    assert !Blocked(files, p);
    assert first.files == map[p := File([2], RestoredMode("a"))];
    var l := LandAll(files, members, faults).0;
    assert !Blocked(first.files, p);
    assert l.overwritten == [Backup(p, [1], RESTORED_FILE_MODE), Backup(p, [2], RESTORED_FILE_MODE)];
    assert PutBack(l.files, l.overwritten)[p].content == [2];
    assert Rollback(l)[p] != files[p];
    StagingRefuses(a, b);
  }

  lemma StagingRefuses(a: Member, b: Member)
    requires a.Regular? && b.Regular? && a.path == b.path
    ensures Stage([a, b]).None?
  {
    assert [a, b][..1] == [a] && [a][..0] == [];
    assert FilePaths([a]) == [a.path];
    assert FilePaths([a, b]) == [a.path, b.path];
    assert FilePaths([a, b])[0] == FilePaths([a, b])[1];
    if Stage([a, b]).Some? {
      StagingForcesDistinct([a, b]);
    }
  }

  // ---------------------------------------------------------------- when every failure is undone exactly

  /** A regular member the landing gets to: no ancestor of its target, or of an earlier one, is a file. */
  predicate Reached(files: Files, members: seq<Member>, i: nat)
    requires i < |members|
  {
    members[i].Regular? && forall j :: 0 <= j <= i && members[j].Regular? ==> !Blocked(files, members[j].path)
  }

  /** No reached member has an existing target with mode bits above 0o777, which is 0x1FF. */
  predicate NoSpecialTarget(files: Files, members: seq<Member>) {
    forall i :: 0 <= i < |members| && Reached(files, members, i) && members[i].path in files ==>
      files[members[i].path].mode <= 0x1FF
  }

  /** In the staging tree every ancestor of a file is a directory, and no file is one. */
  ghost predicate IsTree(s: Staged) {
    && s.files.Keys * s.dirs == {}
    && forall p, a :: p in s.files && 1 <= a < |p| ==> p[..a] in s.dirs
  }

  lemma {:induction false} StagedTree(members: seq<Member>)
    requires Stage(members).Some?
    ensures IsTree(Stage(members).value)
  {
    if members != [] {
      StagedTree(members[..|members| - 1]);
      StageOneTree(Stage(members[..|members| - 1]).value, members[|members| - 1]);
      hide IsTree, StageOne;
    }
  }

  lemma StageOneTree(s: Staged, m: Member)
    requires IsTree(s) && StageOne(s, m).Some?
    ensures IsTree(StageOne(s, m).value)
  {
    var t := StageOne(s, m).value;
    if m.Regular? {
      var parent := m.path[..|m.path| - 1];
      forall a | 1 <= a < |m.path| ensures m.path[..a] in t.dirs {
        assert parent[..a] == m.path[..a];
        assert parent[..a] in Ancestors(parent);
      }
    }
  }

  /** No staged file is an ancestor of another. */
  lemma StagedNotNested(members: seq<Member>, p: Path, q: Path, a: nat)
    requires Stage(members).Some? && p in FilePaths(members) && q in FilePaths(members)
    requires 1 <= a < |q|
    ensures p != q[..a]
  {
    StagingForcesDistinct(members);
    StagedTree(members);
    var s := Stage(members).value;
    hide Stage;
    assert p in s.files && q in s.files && q[..a] in s.dirs;
    assert q[..a] !in s.files.Keys * s.dirs;
  }

  lemma {:induction false} StagePrefix(members: seq<Member>, n: nat)
    requires Stage(members).Some? && n <= |members|
    ensures Stage(members[..n]).Some?
    decreases |members|
  {
    if n == |members| {
      assert members[..n] == members;
    } else {
      StagePrefix(members[..|members| - 1], n);
      assert members[..|members| - 1][..n] == members[..n];
    }
  }

  lemma {:induction false} InFilePaths(members: seq<Member>, p: Path)
    ensures p in FilePaths(members) <==> exists i :: 0 <= i < |members| && members[i].Regular? && members[i].path == p
  {
    if members != [] {
      var n := |members| - 1;
      InFilePaths(members[..n], p);
      if members[n].Regular? && members[n].path == p { assert members[n].path == p; }
      forall i | 0 <= i < n ensures members[..n][i] == members[i] {}
      if i :| 0 <= i < n && members[i].Regular? && members[i].path == p { assert members[..n][i].path == p; }
    }
  }

  function NoFaults(n: nat): (faults: seq<Fault>)
    ensures |faults| == n
  {
    seq(n, i => NoFault)
  }

  /** Staged members whose targets are free of file ancestors land, if nothing fails. */
  lemma {:induction false} AllLand(files: Files, members: seq<Member>)
    requires Stage(members).Some?
    requires forall j :: 0 <= j < |members| && members[j].Regular? ==> !Blocked(files, members[j].path)
    ensures LandAll(files, members, NoFaults(|members|)).1
  {
    if members != [] {
      var n := |members| - 1;
      StagePrefix(members, n);
      AllLand(files, members[..n]);
      assert NoFaults(|members|)[..n] == NoFaults(n);
      if members[n].Regular? {
        StaysFree(files, members, n);
      }
    }
  }

  /** A restore in which no step fails succeeds exactly when the archive stages and no file
      stands above a target. */
  lemma RestoresExactlyWhen(files: Files, members: seq<Member>)
    ensures Extract(files, members, NoFaults(|members|)).1.Ok? <==>
            && Stage(members).Some?
            && forall m, a :: m in members && m.Regular? && 1 <= a < |m.path| ==> m.path[..a] !in files
  {
    if Stage(members).Some? {
      if forall m, a :: m in members && m.Regular? && 1 <= a < |m.path| ==> m.path[..a] !in files {
        AllLand(files, members);
      } else {
        StagingForcesDistinct(members);
        OverwrittenIsReached(files, members, NoFaults(|members|));
        var m, a :| m in members && m.Regular? && 1 <= a < |m.path| && m.path[..a] in files;
        var j :| 0 <= j < |members| && members[j] == m;
        assert Blocked(files, members[j].path);
      }
      hide Stage, LandAll;
    }
  }

  /** Landing the members before one puts no file among its ancestors. */
  lemma StaysFree(files: Files, members: seq<Member>, n: nat)
    requires Stage(members).Some? && n < |members| && members[n].Regular? && !Blocked(files, members[n].path)
    requires LandAll(files, members[..n], NoFaults(n)).1
    ensures !Blocked(LandAll(files, members[..n], NoFaults(n)).0.files, members[n].path)
  {
    var front, path := members[..n], members[n].path;
    var l := LandAll(files, front, NoFaults(n)).0;
    StagePrefix(members, n);
    StagingForcesDistinct(front);
    LandedInOrder(files, front, NoFaults(n));
    hide LandAll, Stage;
    InFilePaths(members, path);
    forall a | 1 <= a < |path| ensures path[..a] !in l.files {
      if path[..a] in FilePaths(front) {
        InFilePaths(front, path[..a]);
        InFilePaths(members, path[..a]);
        StagedNotNested(members, path[..a], path, a);
      }
    }
  }

  /** Only reached members are overwritten, and only when their target exists. */
  lemma {:induction false} OverwrittenIsReached(files: Files, members: seq<Member>, faults: seq<Fault>)
    requires |faults| == |members| && Distinct(FilePaths(members))
    ensures var (l, ok) := LandAll(files, members, faults);
            && (ok ==> forall j :: 0 <= j < |members| && members[j].Regular? ==> !Blocked(files, members[j].path))
            && (forall p :: p in Targets(l.overwritten) ==>
                  p in files && exists i :: 0 <= i < |members| && Reached(files, members, i) && members[i].path == p)
  {
    if members != [] {
      var n := |members| - 1;
      var front := members[..n];
      assert members == front + [members[n]];
      DistinctPrefix(members);
      OverwrittenIsReached(files, front, faults[..n]);
      LandingAccounts(files, front, faults[..n]);
      var (l, ok) := LandAll(files, front, faults[..n]);
      ReachedSnoc(files, front, members[n]);
      if ok && members[n].Regular? {
        OverwrittenByOne(files, l, members[n], faults[n]);
      }
      hide Blocked, Reached, LandOne;
    }
  }

  lemma ReachedSnoc(files: Files, front: seq<Member>, last: Member)
    ensures forall i :: 0 <= i < |front| && Reached(files, front, i) ==> Reached(files, front + [last], i)
    ensures last.Regular? && !Blocked(files, last.path)
            && (forall j :: 0 <= j < |front| && front[j].Regular? ==> !Blocked(files, front[j].path)) ==>
              Reached(files, front + [last], |front|)
  {
    hide Blocked;
  }

  lemma OverwrittenByOne(files: Files, l: Landing, m: Member, fault: Fault)
    requires m.Regular? && m.path !in Touched(l) && Accounts(files, l)
    ensures var (after, ok) := LandOne(l, m.path, m.bytes, fault);
            && Targets(l.overwritten) <= Targets(after.overwritten) <= Targets(l.overwritten) + {m.path}
            && (m.path in Targets(after.overwritten) ==> m.path in files && !Blocked(files, m.path))
            && (ok ==> !Blocked(files, m.path))
  {
    var after := LandOne(l, m.path, m.bytes, fault).0;
    if after.overwritten != l.overwritten {
      TargetsSnoc(after.overwritten);
      assert after.overwritten[..|l.overwritten|] == l.overwritten;
    }
  }

  /** Every failing restore leaves the files exactly as they were, whatever fails and where,
      if and only if no reached member has an existing target with mode bits above 0o777. */
  lemma FailuresAreUndoneExactlyWhen(files: Files, members: seq<Member>)
    requires Stage(members).Some?
    ensures NoSpecialTarget(files, members) <==>
            forall faults :: |faults| == |members| && Extract(files, members, faults).1.Err? ==>
              Extract(files, members, faults).0 == files
  {
    if NoSpecialTarget(files, members) {
      forall faults | |faults| == |members| && Extract(files, members, faults).1.Err?
        ensures Extract(files, members, faults).0 == files
      {
        FailureRestores(files, members, faults);
        StagingForcesDistinct(members);
        OverwrittenIsReached(files, members, faults);
      }
    } else {
      var i :| 0 <= i < |members| && Reached(files, members, i) && members[i].path in files
                && files[members[i].path].mode >= PERMISSION_BITS;
      var faults := SpecialBitsAreLost(files, members, i);
    }
  }

  /** A failure at opening such a target loses its special bits. */
  lemma SpecialBitsAreLost(files: Files, members: seq<Member>, i: nat) returns (faults: seq<Fault>)
    requires Stage(members).Some? && i < |members| && Reached(files, members, i) && members[i].path in files
    requires files[members[i].path].mode >= PERMISSION_BITS
    ensures |faults| == |members| && Extract(files, members, faults).1.Err?
    ensures Extract(files, members, faults).0 != files
  {
    var front, path := members[..i], members[i].path;
    faults := NoFaults(|members|)[i := AtOpen];
    StagePrefix(members, i);
    AllLand(files, front);
    StaysFree(files, members, i);
    StagingForcesDistinct(front);
    LandingAccounts(files, front, NoFaults(i));
    var l := LandAll(files, front, NoFaults(i)).0;
    assert members[..i + 1][..i] == front && faults[..i + 1][..i] == NoFaults(i);
    var (m, ok) := LandAll(files, members[..i + 1], faults[..i + 1]);
    assert (m, ok) == LandOne(l, path, members[i].bytes, AtOpen);
    assert path in l.files;
    assert !ok && m.overwritten[|m.overwritten| - 1].target == path;
    StopsAtFailure(files, members, faults, i + 1);
    TargetsSnoc(m.overwritten);
    FailureRestores(files, members, faults);
  }

  /** Such a restore exists: one file of mode 0o2640, and one member for it; the file ends up
      with mode 0o640. */
  lemma FailedRestoreChangesMode()
    ensures exists members: seq<Member>, faults: seq<Fault> ::
              && |faults| == |members|
              && Extract(map[["etc", "a"] := File([1], 1440)], members, faults) ==
                 (map[["etc", "a"] := File([1], 416)], Err)
  {
    var p: Path := ["etc", "a"];
    var files: Files := map[p := File([1], 1440)];
    var members := [Regular(p, [2])];
    assert members[..0] == [] && Stage([]) == Some(Staged(map[], {}));
    assert Stage(members).Some? by {
      assert p[..1] == ["etc"] && MakeDirs(Staged(map[], {}), ["etc"]).Some?;
      assert forall i :: 1 <= i <= 1 ==> ["etc"][..i] == ["etc"];
    }
    assert p[..1] !in files;
    assert Reached(files, members, 0);
    var faults := SpecialBitsAreLost(files, members, 0);
    FailureRestores(files, members, faults);
    var after := Extract(files, members, faults).0;
    hide *;
    assert after.Keys == {p} && 1440 % 512 == 416;
    assert after[p] == File([1], 416);
    assert after == map[p := File([1], 416)];
    assert Extract(map[["etc", "a"] := File([1], 1440)], members, faults) == (map[["etc", "a"] := File([1], 416)], Err);
  }
}
