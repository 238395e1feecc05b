/**
 The commit protocol and crash recovery of gdk_bbp.c, for heaps in memory (STORE_MEM).

 The disk is four directories: BATDIR, BAKDIR (BACKUP), SUBDIR (BACKUP/SUBCOMMIT) and DELDIR.
 Renaming a file or a directory is atomic; writing a file is not, and leaves it torn until
 it is complete. The system is a machine over these steps: swapping BATs out between commits,
 a global commit, a subcommit, and recovery. A crash may come after any step, also during
 recovery, and loses everything but the disk.
 */
module Commit {

  datatype Option<T> = None | Some(value: T)

  /** A heap file of a BAT: ext stands for head, tail, hheap or theap. */
  datatype Name = Name(bat: nat, ext: nat)

  datatype Content = Torn | Whole(v: int)

  /** A line of BBP.dir: the descriptor of a BAT and the heaps it has. */
  datatype Line = Line(desc: int, exts: set<nat>)

  type Catalog = map<nat, Line>

  datatype CatFile = TornDir | WholeDir(cat: Catalog)

  /** A directory: heap files, and BBP.dir if it is there. */
  datatype Folder = Folder(files: map<Name, Content>, dir: Option<CatFile>)

  datatype Disk = Disk(bat: Folder, bak: Option<Folder>, sub: Option<Folder>, del: Option<Folder>)

  /** A checkpoint: a catalog and the contents of the files it names. */
  datatype Image = Image(cat: Catalog, files: map<Name, int>)

  const EmptyFolder: Folder := Folder(map[], None)

  predicate Named(cat: Catalog, n: Name) {
    n.bat in cat && n.ext in cat[n.bat].exts
  }

  predicate Holds(files: map<Name, Content>, n: Name, img: Image) {
    n in files && n in img.files && files[n] == Whole(img.files[n])
  }

  function Files(f: Option<Folder>): map<Name, Content> {
    if f.None? then map[] else f.value.files
  }

  function DirIn(f: Option<Folder>): Option<CatFile> {
    if f.None? then None else f.value.dir
  }

  // ------------------------------------------------------- what recovery will find

  /** Recovery moves SUBDIR into BAKDIR and BAKDIR into BATDIR, overwriting. */
  function Lookup(d: Disk, n: Name): Option<Content> {
    if n in Files(d.sub) then Some(Files(d.sub)[n])
    else if n in Files(d.bak) then Some(Files(d.bak)[n])
    else if n in d.bat.files then Some(d.bat.files[n])
    else None
  }

  function DirOf(d: Disk): Option<CatFile> {
    if DirIn(d.sub).Some? then DirIn(d.sub)
    else if DirIn(d.bak).Some? then DirIn(d.bak)
    else d.bat.dir
  }

  ghost predicate FilesRecoverable(d: Disk, img: Image) {
    forall n {:trigger Lookup(d, n)} :: Named(img.cat, n) ==>
      n in img.files && Lookup(d, n) == Some(Whole(img.files[n]))
  }

  /** The disk holds the checkpoint `img`: its BBP.dir, and every file that names. */
  ghost predicate Recoverable(d: Disk, img: Image) {
    DirOf(d) == Some(WholeDir(img.cat)) && FilesRecoverable(d, img)
  }

  // ---------------------------------------------------------------- moving files

  function Put(f: Folder, n: Name, c: Content): Folder { f.(files := f.files[n := c]) }

  function Drop(f: Folder, n: Name): Folder { f.(files := f.files - {n}) }

  /**
   do_backup for one heap of an existing BAT. A dirty heap without a backup is moved out of
   BATDIR; in a subcommit a heap that has a backup in BAKDIR has it moved to SUBDIR.
   */
  function DoBackup(d: Disk, n: Name, dirty: bool, subcommit: bool): Disk {
    if dirty && n !in Files(d.bak) then
      var dst := if subcommit then d.sub else d.bak;
      if n in Files(dst) || n !in d.bat.files || dst.None? then d
      else
        var moved := Some(Put(dst.value, n, d.bat.files[n]));
        if subcommit then d.(bat := Drop(d.bat, n), sub := moved) else d.(bat := Drop(d.bat, n), bak := moved)
    else if subcommit && n in Files(d.bak) && d.bak.Some? && d.sub.Some? then
      d.(bak := Some(Drop(d.bak.value, n)), sub := Some(Put(d.sub.value, n, Files(d.bak)[n])))
    else d
  }

  lemma DoBackupLookup(d: Disk, n: Name, dirty: bool, subcommit: bool, m: Name)
    requires !subcommit ==> d.sub.None?
    requires n in Files(d.sub) ==> n !in Files(d.bak)
    ensures Lookup(DoBackup(d, n, dirty, subcommit), m) == Lookup(d, m)
    ensures DirOf(DoBackup(d, n, dirty, subcommit)) == DirOf(d)
  {
  }

  /** Moving files to a backup directory changes nothing that recovery will find. */
  lemma DoBackupRecoverable(d: Disk, n: Name, dirty: bool, subcommit: bool, img: Image)
    requires Recoverable(d, img) && (!subcommit ==> d.sub.None?) && (n in Files(d.sub) ==> n !in Files(d.bak))
    ensures Recoverable(DoBackup(d, n, dirty, subcommit), img)
  {
    var d' := DoBackup(d, n, dirty, subcommit);
    DoBackupLookup(d, n, dirty, subcommit, n);
    forall m | Named(img.cat, m) ensures m in img.files && Lookup(d', m) == Some(Whole(img.files[m])) {
      DoBackupLookup(d, n, dirty, subcommit, m);
    }
  }

  /** Two disks on which recovery finds the same. */
  lemma SameRecovery(d: Disk, d': Disk, img: Image)
    requires Recoverable(d, img) && DirOf(d') == DirOf(d)
    requires forall n {:trigger Lookup(d', n)} :: Named(img.cat, n) ==> Lookup(d', n) == Lookup(d, n)
    ensures Recoverable(d', img)
  {
    forall n | Named(img.cat, n) ensures n in img.files && Lookup(d', n) == Some(Whole(img.files[n])) {
      assert Lookup(d', n) == Lookup(d, n);
    }
  }

  // ------------------------------------------------------------------ the machine

  datatype Phase =
    | Normal                                                        // between commits
    | Backing(goal: Image, dirty: set<Name>, done: set<Name>)       // BBPsync, phase 1
    | Saving(goal: Image, dirty: set<Name>, saved: set<Name>)       // BBPsync, phase 2
    | DirReady(goal: Image)                                         // BBP.dir is in BATDIR
    | SubStart(goal: Image, list: set<nat>, dirty: set<Name>, found: set<nat>)       // SUBDIR made
    | SubBacking(goal: Image, list: set<nat>, dirty: set<Name>, found: set<nat>, done: set<Name>)
    | SubSaving(goal: Image, list: set<nat>, dirty: set<Name>, found: set<nat>, saved: set<Name>)
    | SubDirReady(goal: Image, list: set<nat>, found: set<nat>)
    | Remaking                                                      // BBPprepare(0): make BAKDIR
    | MovingDir                                                     // BBPprepare(0): move BBP.dir into it
    | Down                                                          // BBPinit: BBPrecover_subdir
    | DirBack                                                       // BBPinit: recover_dir
    | FilesBack                                                     // BBPrecover

  /**
   `committed` is the last checkpoint. `safe` are the files that may be overwritten between commits,
   because BBPsave has come past its backup of them. `dropped` are the BATs of the checkpoint that
   BATmode has made transient since (BBPDELETED).
   */
  datatype State = State(disk: Disk, phase: Phase, committed: Image, safe: set<Name>, dropped: set<nat>)

  datatype Action =
    | DropBat(b: nat) | TakeBack(b: nat)                                      // BATmode
    | SwapOpen(n: Name) | SwapTear(n: Name) | SwapWrite(n: Name, v: int)      // BBPsave of a dirty BAT
    | Begin(goal: Image, dirty: set<Name>) | Backup(n: Name) | BackupDone
    | Tear(n: Name) | Save(n: Name) | TearDir | WriteDir | CheapDir | Switch
    | SubBegin(goal: Image, list: set<nat>, dirty: set<Name>, found: set<nat>) | SubMoveDir
    | SubBackup(n: Name) | SubBackupDone | SubSwitch
    | MakeBak | MoveDir | SetDel(del: Option<Folder>) | Scan(n: Name)
    | Crash
    | RecSubFile(n: Name) | RecSubDir | RecSubDone
    | RecDirAside | RecDir | RecNoDir
    | RecUnlink(n: Name) | RecFile(n: Name) | RecFilesDone

  /** The goal of a subcommit: only listed BATs differ from the checkpoint. */
  ghost predicate Advances(img: Image, goal: Image, list: set<nat>) {
    && (forall b :: b !in list ==> (b in goal.cat <==> b in img.cat))
    && (forall b :: b !in list && b in img.cat ==> goal.cat[b] == img.cat[b])
    && (forall n: Name :: n.bat !in list && Named(img.cat, n) ==>
      n in goal.files && n in img.files && goal.files[n] == img.files[n])
  }

  ghost predicate ValidImage(img: Image) {
    forall n {:trigger Named(img.cat, n)} :: Named(img.cat, n) ==> n in img.files
  }

  /** Heaps that are not dirty are on disk as the goal has them. */
  ghost predicate CleanSaved(d: Disk, goal: Image, dirty: set<Name>) {
    forall n {:trigger Holds(d.bat.files, n, goal)} :: Named(goal.cat, n) && n !in dirty ==> Holds(d.bat.files, n, goal)
  }

  ghost predicate CleanListed(d: Disk, goal: Image, list: set<nat>, dirty: set<Name>) {
    forall n {:trigger Holds(d.bat.files, n, goal)} :: Named(goal.cat, n) && n.bat in list && n !in dirty ==>
      Holds(d.bat.files, n, goal)
  }

  /** Of these BATs of the checkpoint, the goal has those that were not dropped. */
  ghost predicate KeepsBats(s: State, goal: Image, bats: set<nat>) {
    forall b :: b in bats && b in s.committed.cat ==> (b in goal.cat <==> b !in s.dropped)
  }

  ghost predicate Enabled(s: State, a: Action) {
    var d := s.disk;
    match a
    case DropBat(b) => s.phase.Normal? && b in s.committed.cat
    case TakeBack(b) => s.phase.Normal? && b in s.dropped
    case SwapOpen(n) => s.phase.Normal?
    case SwapTear(n) => s.phase.Normal? && n in s.safe
    case SwapWrite(n, v) => s.phase.Normal? && n in s.safe
    case Begin(goal, dirty) =>
      s.phase.Normal? && ValidImage(goal) && (forall n :: n in dirty ==> Named(goal.cat, n))
        && CleanSaved(d, goal, dirty) && KeepsBats(s, goal, s.committed.cat.Keys)
    case Backup(n) => s.phase.Backing? && n in s.phase.dirty
    case BackupDone => (s.phase.Backing? && s.phase.dirty <= s.phase.done)
    case Tear(n) => (s.phase.Saving? || s.phase.SubSaving?) && n in s.phase.dirty - s.phase.saved
    case Save(n) => (s.phase.Saving? || s.phase.SubSaving?) && n in s.phase.dirty
    case TearDir => (s.phase.Saving? || s.phase.SubSaving?) && s.phase.dirty <= s.phase.saved
    case WriteDir => (s.phase.Saving? || s.phase.SubSaving?) && s.phase.dirty <= s.phase.saved
    case CheapDir =>
      (s.phase.Saving? || s.phase.SubSaving?) && s.phase.dirty <= s.phase.saved
      && s.phase.goal.cat == s.committed.cat && (s.phase.Saving? ==> d.bak.Some?)
        && (s.phase.SubSaving? ==> d.sub.Some?)
    case Switch => s.phase.DirReady? && d.del.None?
    case SubBegin(goal, list, dirty, found) =>
      s.phase.Normal? && ValidImage(goal) && Advances(s.committed, goal, list) && KeepsBats(s, goal, list)
      && (forall n :: n in dirty ==> Named(goal.cat, n) && n.bat in list && n.bat in found)
      && CleanListed(d, goal, list, dirty)
    case SubMoveDir => s.phase.SubStart? && d.bak.Some? && d.sub.Some?
    case SubBackup(n) => s.phase.SubBacking? && BackedUp(s, n)
    case SubBackupDone => s.phase.SubBacking? && forall n :: BackedUp(s, n) ==> n in s.phase.done
    case SubSwitch => s.phase.SubDirReady? && d.del.None?
    case MakeBak => s.phase.Remaking?
    case MoveDir => s.phase.MovingDir? && d.bak.Some?
    case SetDel(_) => true
    case Scan(n) => s.phase.Normal? && !Named(s.committed.cat, n)
    case Crash => true
    case RecSubFile(n) => s.phase.Down? && n in Files(d.sub) && d.bak.Some? && d.sub.Some?
    case RecSubDir => s.phase.Down? && DirIn(d.sub).Some? && d.bak.Some? && d.sub.Some?
    case RecSubDone => s.phase.Down? && Files(d.sub) == map[] && DirIn(d.sub).None?
    case RecDirAside => s.phase.DirBack? && DirIn(d.bak).Some? && d.bat.dir.Some?
    case RecDir => s.phase.DirBack? && DirIn(d.bak).Some? && d.bak.Some?
    case RecNoDir => s.phase.DirBack? && DirIn(d.bak).None?
    case RecUnlink(n) => s.phase.FilesBack? && n in Files(d.bak) && n in d.bat.files
    case RecFile(n) => s.phase.FilesBack? && n in Files(d.bak) && d.bak.Some?
    case RecFilesDone => s.phase.FilesBack? && Files(d.bak) == map[]
  }

  /**
   The heaps that a subcommit backs up: of listed BATs that the checkpoint knows, and that
   dirty_bat finds (loaded, or BBPSWAPPED).
   */
  predicate BackedUp(s: State, n: Name)
    requires s.phase.SubBacking?
  {
    Named(s.phase.goal.cat, n) && n.bat in s.phase.list && n.bat in s.phase.found && n.bat in s.committed.cat
  }

  /** Backups are made only of BATs that were in the checkpoint and are to remain (BBPEXISTING). */
  function BackupExisting(s: State, n: Name, dirty: bool, subcommit: bool): Disk {
    if n.bat in s.committed.cat && n.bat !in s.dropped then DoBackup(s.disk, n, dirty, subcommit) else s.disk
  }

  function CatalogIn(f: Option<CatFile>): Catalog {
    if f.Some? && f.value.WholeDir? then f.value.cat else map[]
  }

  ghost function Step(s: State, a: Action): State
    requires Enabled(s, a)
  {
    var d := s.disk;
    match a
    case DropBat(b) => s.(dropped := s.dropped + {b})
    case TakeBack(b) => s.(dropped := s.dropped - {b})
    case SwapOpen(n) => s.(disk := BackupExisting(s, n, true, false), safe := s.safe + {n})
    case SwapTear(n) => s.(disk := d.(bat := Put(d.bat, n, Torn)))
    case SwapWrite(n, v) => s.(disk := d.(bat := Put(d.bat, n, Whole(v))))
    case Begin(goal, dirty) => s.(phase := Backing(goal, dirty, {}))
    case Backup(n) => s.(disk := BackupExisting(s, n, true, false),
      phase := Backing(s.phase.goal, s.phase.dirty, s.phase.done + {n}))
    case BackupDone => s.(phase := Saving(s.phase.goal, s.phase.dirty, {}))
    case Tear(n) => s.(disk := d.(bat := Put(d.bat, n, Torn)))
    case Save(n) =>
      if n in s.phase.goal.files then
        s.(disk := d.(bat := Put(d.bat, n, Whole(s.phase.goal.files[n]))), phase := AfterSave(s.phase, n))
      else s
    case TearDir => s.(disk := d.(bat := d.bat.(dir := Some(TornDir))))
    case WriteDir => s.(disk := d.(bat := d.bat.(dir := Some(WholeDir(s.phase.goal.cat)))), phase := AfterDir(s.phase))
    case CheapDir =>
      var d' := if s.phase.Saving? then d.(bat := d.bat.(dir := DirIn(d.bak)), bak := Some(d.bak.value.(dir := None)))
                else d.(bat := d.bat.(dir := DirIn(d.sub)), sub := Some(d.sub.value.(dir := None)));
      s.(disk := d', phase := AfterDir(s.phase))
    case Switch => State(d.(del := d.bak, bak := None), Remaking, s.phase.goal, {}, {})
    case SubBegin(goal, list, dirty, found) =>
      s.(disk := d.(sub := Some(EmptyFolder)), phase := SubStart(goal, list, dirty, found))
    case SubMoveDir =>
      s.(disk := d.(sub := Some(d.sub.value.(dir := DirIn(d.bak))), bak := Some(d.bak.value.(dir := None))),
         phase := SubBacking(s.phase.goal, s.phase.list, s.phase.dirty, s.phase.found, {}))
    case SubBackup(n) => s.(disk := BackupExisting(s, n, n in s.phase.dirty, true),
                          phase := s.phase.(done := s.phase.done + {n}))
    case SubBackupDone => s.(phase := SubSaving(s.phase.goal, s.phase.list, s.phase.dirty, s.phase.found, {}))
    case SubSwitch =>
      State(d.(del := d.sub, sub := None), MovingDir, s.phase.goal,
            (set n | n in s.safe && n.bat !in s.phase.list), s.dropped - s.phase.list)
    case MakeBak => s.(disk := d.(bak := Some(EmptyFolder)), phase := MovingDir)
    case MoveDir =>
      s.(disk := d.(bak := Some(d.bak.value.(dir := d.bat.dir)), bat := d.bat.(dir := None)), phase := Normal)
    case SetDel(del) => s.(disk := d.(del := del))
    case Scan(n) => s.(disk := d.(bat := Drop(d.bat, n)))
    case Crash => s.(phase := Down, safe := {}, dropped := {})
    case RecSubFile(n) =>
      s.(disk := d.(sub := Some(Drop(d.sub.value, n)), bak := Some(Put(d.bak.value, n, Files(d.sub)[n]))))
    case RecSubDir =>
      s.(disk := d.(sub := Some(d.sub.value.(dir := None)), bak := Some(d.bak.value.(dir := DirIn(d.sub)))))
    case RecSubDone => s.(disk := d.(sub := None), phase := DirBack)
    case RecDirAside => s.(disk := d.(bat := d.bat.(dir := None)))
    case RecDir =>
      s.(disk := d.(bat := d.bat.(dir := DirIn(d.bak)), bak := Some(d.bak.value.(dir := None))), phase := FilesBack)
    case RecNoDir => s.(phase := FilesBack)
    case RecUnlink(n) => s.(disk := d.(bat := Drop(d.bat, n)))
    case RecFile(n) =>
      var bak' := Some(Drop(d.bak.value, n));
      if n.bat in CatalogIn(d.bat.dir) then s.(disk := d.(bat := Put(d.bat, n, Files(d.bak)[n]), bak := bak'))
      else s.(disk := d.(bak := bak'))   // to LEFTDIR
    case RecFilesDone => s.(disk := d.(bak := None), phase := Remaking)
  }

  function AfterSave(p: Phase, n: Name): Phase
    requires p.Saving? || p.SubSaving?
  {
    p.(saved := p.saved + {n})
  }

  function AfterDir(p: Phase): Phase
    requires p.Saving? || p.SubSaving?
  {
    if p.Saving? then DirReady(p.goal) else SubDirReady(p.goal, p.list, p.found)
  }

  // --------------------------------------------------------------- the invariant

  /** Overwriting these files in BATDIR is harmless. */
  ghost predicate Backed(files: map<Name, Content>, img: Image, names: set<Name>) {
    forall n :: n in names ==> !Named(img.cat, n) || n in files
  }

  ghost predicate HasBakDir(d: Disk, img: Image) {
    d.bak.Some? && d.bak.value.dir == Some(WholeDir(img.cat)) && d.sub.None?
  }

  ghost predicate GoalOk(goal: Image, dirty: set<Name>) {
    ValidImage(goal) && forall n :: n in dirty ==> Named(goal.cat, n)
  }

  /** What holds throughout a subcommit. */
  ghost predicate SubOk(s: State, goal: Image, list: set<nat>, dirty: set<Name>, found: set<nat>) {
    && s.disk.bak.Some? && s.disk.sub.Some?
    && GoalOk(goal, dirty) && Advances(s.committed, goal, list) && KeepsBats(s, goal, list)
    && (forall n :: n in dirty ==> n.bat in list && n.bat in found)
    && (forall n :: n in Files(s.disk.sub) ==> n.bat in list && n !in Files(s.disk.bak))
    && Backed(Files(s.disk.bak), s.committed, set n | n in s.safe && n.bat !in list)
  }

  /** The backups of the listed BATs that existed and were found have left BAKDIR. */
  ghost predicate Gone(s: State, goal: Image, list: set<nat>, found: set<nat>) {
    forall n {:trigger Named(goal.cat, n)} ::
      Named(goal.cat, n) && n.bat in list && n.bat in found && n.bat in s.committed.cat ==> n !in Files(s.disk.bak)
  }

  ghost predicate SubDone(s: State, dirty: set<Name>, done: set<Name>) {
    forall n :: n in done ==>
      n !in Files(s.disk.bak) && (n in dirty ==> !Named(s.committed.cat, n) || n in Files(s.disk.sub))
  }

  ghost predicate PhaseOk(s: State) {
    var d := s.disk;
    match s.phase
    case Normal => HasBakDir(d, s.committed) && Backed(Files(d.bak), s.committed, s.safe)
    case Backing(goal, dirty, done) =>
      HasBakDir(d, s.committed) && GoalOk(goal, dirty) && CleanSaved(d, goal, dirty)
        && Backed(Files(d.bak), s.committed, done) && KeepsBats(s, goal, s.committed.cat.Keys)
    case Saving(goal, dirty, saved) =>
      HasBakDir(d, s.committed) && GoalOk(goal, dirty) && CleanSaved(d, goal, dirty - saved)
        && Backed(Files(d.bak), s.committed, dirty)
    case DirReady(goal) =>
      d.bak.Some? && d.sub.None? && ValidImage(goal) && d.bat.dir == Some(WholeDir(goal.cat)) && CleanSaved(d, goal, {})
    case SubStart(goal, list, dirty, found) =>
      SubOk(s, goal, list, dirty, found) && DirIn(d.bak) == Some(WholeDir(s.committed.cat))
        && d.sub == Some(EmptyFolder)
      && CleanListed(d, goal, list, dirty)
    case SubBacking(goal, list, dirty, found, done) =>
      SubOk(s, goal, list, dirty, found) && DirIn(d.bak).None? && DirIn(d.sub) == Some(WholeDir(s.committed.cat))
      && CleanListed(d, goal, list, dirty) && SubDone(s, dirty, done)
    case SubSaving(goal, list, dirty, found, saved) =>
      SubOk(s, goal, list, dirty, found) && DirIn(d.bak).None? && DirIn(d.sub) == Some(WholeDir(s.committed.cat))
      && CleanListed(d, goal, list, dirty - saved) && Backed(Files(d.sub), s.committed, dirty)
      && Gone(s, goal, list, found)
    case SubDirReady(goal, list, found) =>
      SubOk(s, goal, list, {}, found) && DirIn(d.bak).None? && d.bat.dir == Some(WholeDir(goal.cat))
      && CleanListed(d, goal, list, {}) && Gone(s, goal, list, found)
    case Remaking => d.bak.None? && d.sub.None? && s.safe == {}
    case MovingDir => d.bak.Some? && DirIn(d.bak).None? && d.sub.None? && Backed(Files(d.bak), s.committed, s.safe)
    case Down => s.safe == {} && (d.sub.Some? ==> d.bak.Some?)
    case DirBack => s.safe == {} && d.sub.None?
    case FilesBack => s.safe == {} && d.sub.None? && DirIn(d.bak).None?
  }

  /** At every moment a crash would bring back the last checkpoint. */
  ghost predicate Inv(s: State) {
    Recoverable(s.disk, s.committed) && PhaseOk(s)
  }

  // ------------------------------------------------------- every step keeps it

  /** Writing a file that is backed up, or that the checkpoint does not name. */
  lemma WriteRecoverable(d: Disk, n: Name, c: Content, img: Image)
    requires Recoverable(d, img) && (!Named(img.cat, n) || n in Files(d.bak) || n in Files(d.sub))
    ensures Recoverable(d.(bat := Put(d.bat, n, c)), img)
  {
    SameRecovery(d, d.(bat := Put(d.bat, n, c)), img);
  }

  lemma SwapInv(s: State, a: Action)
    requires Inv(s) && Enabled(s, a) && (a.SwapTear? || a.SwapWrite?)
    ensures Inv(Step(s, a))
  {
    hide Recoverable;
    WriteRecoverable(s.disk, a.n, if a.SwapTear? then Torn else Whole(a.v), s.committed);
  }

  /** BBPsave may overwrite n: the checkpoint has no such file, or BBPsave backs it up, or that was done before. */
  predicate Covered(s: State, n: Name) {
    !Named(s.committed.cat, n) || n.bat !in s.dropped || n in Files(s.disk.bak)
  }

  lemma SwapOpenInv(s: State, n: Name)
    requires Inv(s) && Enabled(s, SwapOpen(n)) && Covered(s, n)
    ensures Inv(Step(s, SwapOpen(n)))
  {
    NamedIsSomewhere(s.disk, n, s.committed);
    DoBackupRecoverable(s.disk, n, true, false, s.committed);
  }

  lemma ModeInv(s: State, a: Action)
    requires Inv(s) && Enabled(s, a) && (a.DropBat? || a.TakeBack?)
    ensures Inv(Step(s, a))
  {
    hide Recoverable, Holds, Named;
  }

  /** BATmode: a BAT that is dropped and taken back is as before, and the next commit is to keep it. */
  lemma TakenBack(s: State, b: nat, goal: Image, dirty: set<Name>)
    requires Enabled(s, DropBat(b)) && b !in s.dropped
    ensures var s1 := Step(s, DropBat(b));
      Enabled(s1, TakeBack(b)) && Step(s1, TakeBack(b)) == s && (Enabled(s1, Begin(goal, dirty)) ==> b !in goal.cat)
    ensures (forall n: Name :: n.bat == b ==> Covered(s, n)) && (Enabled(s, Begin(goal, dirty)) ==> b in goal.cat)
  {
    assert s.dropped + {b} - {b} == s.dropped;
  }

  /**
   Swapping a heap out. Before its file is overwritten nothing is lost. Whatever is then written,
   whole or torn, the checkpoint stays recoverable iff the file was covered: a BAT that was dropped
   since the checkpoint is not backed up.
   */
  lemma SwapExact(s: State, n: Name)
    requires Inv(s) && s.phase.Normal?
    ensures var s1 := Step(s, SwapOpen(n));
      && Recoverable(s1.disk, s.committed)
      && (Recoverable(Step(s1, SwapTear(n)).disk, s.committed) <==> Covered(s, n))
      && ((forall v :: Recoverable(Step(s1, SwapWrite(n, v)).disk, s.committed)) <==> Covered(s, n))
  {
    var s1 := Step(s, SwapOpen(n));
    DoBackupRecoverable(s.disk, n, true, false, s.committed);
    SwapSteps(s, n, 0);
    if Covered(s, n) {
      SwapOpenInv(s, n);
      OpenBacked(s1, n);
      WriteRecoverable(s1.disk, n, Torn, s.committed);
      forall v ensures Recoverable(Step(s1, SwapWrite(n, v)).disk, s.committed) {
        SwapSteps(s, n, v);
        WriteRecoverable(s1.disk, n, Whole(v), s.committed);
      }
    } else {
      NamedFound(s.disk, n, s.committed);
      var v := s.committed.files[n] + 1;
      SwapSteps(s, n, v);
      NotCovered(s, n, Torn);
      NotCovered(s, n, Whole(v));
      assert !Recoverable(Step(s1, SwapWrite(n, v)).disk, s.committed);
    }
  }

  lemma NamedFound(d: Disk, n: Name, img: Image)
    requires Recoverable(d, img) && Named(img.cat, n)
    ensures n in img.files && Lookup(d, n) == Some(Whole(img.files[n]))
  {
    assert Lookup(d, n) == Lookup(d, n);
  }

  lemma SwapSteps(s: State, n: Name, v: int)
    requires s.phase.Normal?
    ensures var s1 := Step(s, SwapOpen(n));
      && s1 == s.(disk := BackupExisting(s, n, true, false), safe := s.safe + {n})
      && Step(s1, SwapTear(n)).disk == s1.disk.(bat := Put(s1.disk.bat, n, Torn))
      && Step(s1, SwapWrite(n, v)).disk == s1.disk.(bat := Put(s1.disk.bat, n, Whole(v)))
  {
    hide DoBackup;
  }

  lemma OpenBacked(s: State, n: Name)
    requires Inv(s) && s.phase.Normal? && n in s.safe
    ensures !Named(s.committed.cat, n) || n in Files(s.disk.bak)
  {
    hide Recoverable;
  }

  lemma NotCovered(s: State, n: Name, c: Content)
    requires Inv(s) && s.phase.Normal? && !Covered(s, n) && n in s.committed.files && c != Whole(s.committed.files[n])
    ensures BackupExisting(s, n, true, false) == s.disk
    ensures !Recoverable(s.disk.(bat := Put(s.disk.bat, n, c)), s.committed)
  {
    var d := s.disk.(bat := Put(s.disk.bat, n, c));
    assert Lookup(d, n) == Some(c);
  }


  lemma NamedIsSomewhere(d: Disk, n: Name, img: Image)
    requires Recoverable(d, img)
    ensures Named(img.cat, n) ==> n in Files(d.sub) || n in Files(d.bak) || n in d.bat.files
  {
    assert Named(img.cat, n) ==> Lookup(d, n).Some?;
  }

  lemma BackupInv(s: State, n: Name)
    requires Inv(s) && Enabled(s, Backup(n))
    ensures Inv(Step(s, Backup(n)))
  {
    NamedIsSomewhere(s.disk, n, s.committed);
    DoBackupRecoverable(s.disk, n, true, false, s.committed);
    hide Recoverable;
    var s' := Step(s, Backup(n));
    forall m | Named(s.phase.goal.cat, m) && m !in s.phase.dirty ensures Holds(s'.disk.bat.files, m, s.phase.goal) {
      assert Holds(s.disk.bat.files, m, s.phase.goal);
    }
  }

  lemma SaveInv(s: State, a: Action)
    requires Inv(s) && Enabled(s, a) && s.phase.Saving? && (a.Tear? || a.Save?)
    ensures Inv(Step(s, a))
  {
    var goal := s.phase.goal;
    assert Named(goal.cat, a.n);
    var c := if a.Tear? then Torn else Whole(goal.files[a.n]);
    WriteRecoverable(s.disk, a.n, c, s.committed);
    hide Recoverable;
    var s' := Step(s, a);
    forall m | Named(goal.cat, m) && m !in s'.phase.dirty - s'.phase.saved ensures Holds(s'.disk.bat.files, m, goal) {
      assert m != a.n ==> Holds(s.disk.bat.files, m, goal);
    }
  }

  lemma SubSaveInv(s: State, a: Action)
    requires Inv(s) && Enabled(s, a) && s.phase.SubSaving? && (a.Tear? || a.Save?)
    ensures Inv(Step(s, a))
  {
    var goal := s.phase.goal;
    assert Named(goal.cat, a.n);
    var c := if a.Tear? then Torn else Whole(goal.files[a.n]);
    WriteRecoverable(s.disk, a.n, c, s.committed);
    hide Recoverable, Advances;
    var s' := Step(s, a);
    forall m | Named(goal.cat, m) && m.bat in s.phase.list && m !in s'.phase.dirty - s'.phase.saved
      ensures Holds(s'.disk.bat.files, m, goal)
    {
      assert m != a.n ==> Holds(s.disk.bat.files, m, goal);
    }
  }

  lemma DirInv(s: State, a: Action)
    requires Inv(s) && Enabled(s, a) && s.phase.Saving? && (a.TearDir? || a.WriteDir? || a.CheapDir?)
    ensures Inv(Step(s, a))
  {
    var s' := Step(s, a);
    SameRecovery(s.disk, s'.disk, s.committed);
    hide Recoverable;
    forall m | Named(s.phase.goal.cat, m) ensures Holds(s'.disk.bat.files, m, s.phase.goal) {
      assert Holds(s.disk.bat.files, m, s.phase.goal);
    }
  }

  lemma SubDirInv(s: State, a: Action)
    requires Inv(s) && Enabled(s, a) && s.phase.SubSaving? && (a.TearDir? || a.WriteDir? || a.CheapDir?)
    ensures Inv(Step(s, a))
  {
    var s' := Step(s, a);
    SameRecovery(s.disk, s'.disk, s.committed);
    hide Recoverable, Advances;
    forall m | Named(s.phase.goal.cat, m) && m.bat in s.phase.list && m !in s.phase.dirty - s.phase.saved
      ensures Holds(s'.disk.bat.files, m, s.phase.goal)
    {
      assert Holds(s.disk.bat.files, m, s.phase.goal);
    }
  }

  /** The commit point of a global commit: the goal becomes what recovery will find. */
  lemma SwitchInv(s: State)
    requires Inv(s) && Enabled(s, Switch)
    ensures Inv(Step(s, Switch))
  {
    var goal, s' := s.phase.goal, Step(s, Switch);
    forall n | Named(goal.cat, n) ensures n in goal.files && Lookup(s'.disk, n) == Some(Whole(goal.files[n])) {
      assert Holds(s.disk.bat.files, n, goal);
    }
  }

  lemma SubBeginInv(s: State, a: Action)
    requires Inv(s) && Enabled(s, a) && (a.SubBegin? || a.SubMoveDir?)
    ensures Inv(Step(s, a))
  {
    var s' := Step(s, a);
    SameRecovery(s.disk, s'.disk, s.committed);
    hide Recoverable, Advances;
    var goal := if a.SubBegin? then a.goal else s.phase.goal;
    var list := if a.SubBegin? then a.list else s.phase.list;
    var dirty := if a.SubBegin? then a.dirty else s.phase.dirty;
    forall m | Named(goal.cat, m) && m.bat in list && m !in dirty ensures Holds(s'.disk.bat.files, m, goal) {
      assert Holds(s.disk.bat.files, m, goal);
    }
  }

  /** What do_backup moves in a subcommit. */
  ghost predicate MovedToSub(d: Disk, d': Disk, n: Name, dirty: bool) {
    && d'.bak.Some? && d'.sub.Some? && DirIn(d'.bak) == DirIn(d.bak) && DirIn(d'.sub) == DirIn(d.sub)
    && n !in Files(d'.bak) && (n in Files(d.sub) ==> n in Files(d'.sub))
      && (dirty ==> n in Files(d'.sub) || (n !in Files(d.bak) && n !in d.bat.files))
    && (forall m :: m != n ==>
          (m in Files(d'.bak) <==> m in Files(d.bak)) && (m in Files(d'.sub) <==> m in Files(d.sub)))
    && (forall m :: m in d.bat.files && (m != n || !dirty) ==> m in d'.bat.files && d'.bat.files[m] == d.bat.files[m])
  }

  lemma SubBackupMoves(d: Disk, n: Name, dirty: bool)
    requires d.bak.Some? && d.sub.Some?
    ensures MovedToSub(d, DoBackup(d, n, dirty, true), n, dirty)
  {
  }

  lemma MovedSubOk(s: State, s': State, n: Name, goal: Image, list: set<nat>, dirty: set<Name>, found: set<nat>)
    requires SubOk(s, goal, list, dirty, found) && MovedToSub(s.disk, s'.disk, n, n in dirty)
    requires n.bat in list && s'.committed == s.committed && s'.safe == s.safe && s'.dropped == s.dropped
    ensures SubOk(s', goal, list, dirty, found)
  {
    hide Advances, GoalOk;
  }

  lemma MovedClean(d: Disk, d': Disk, n: Name, goal: Image, list: set<nat>, dirty: set<Name>)
    requires CleanListed(d, goal, list, dirty) && MovedToSub(d, d', n, n in dirty)
    ensures CleanListed(d', goal, list, dirty)
  {
    hide Named;
    forall m | Named(goal.cat, m) && m.bat in list && m !in dirty ensures Holds(d'.bat.files, m, goal) {
      assert Holds(d.bat.files, m, goal);
    }
  }

  lemma MovedDone(s: State, s': State, n: Name, dirty: set<Name>, done: set<Name>)
    requires SubDone(s, dirty, done) && MovedToSub(s.disk, s'.disk, n, n in dirty) && s'.committed == s.committed
    requires Named(s.committed.cat, n) ==> n in Files(s.disk.bak) || n in Files(s.disk.sub) || n in s.disk.bat.files
    ensures SubDone(s', dirty, done + {n})
  {
    hide Named;
  }

  lemma SubBackupIs(s: State, n: Name)
    requires Inv(s) && Enabled(s, SubBackup(n))
    ensures s.phase.SubBacking? && BackedUp(s, n)
    ensures Step(s, SubBackup(n)) == s.(
      disk := DoBackup(s.disk, n, n in s.phase.dirty, true), phase := s.phase.(done := s.phase.done + {n}))
  {
    hide Recoverable, CleanSaved, CleanListed, Advances, ValidImage, DoBackup;
  }

  lemma SubBackupInv(s: State, n: Name)
    requires Inv(s) && Enabled(s, SubBackup(n))
    ensures Inv(Step(s, SubBackup(n)))
  {
    SubBackupIs(s, n);
    hide Step, Enabled, DoBackup;
    var (goal, list, dirty, found) := (s.phase.goal, s.phase.list, s.phase.dirty, s.phase.found);
    var s' := Step(s, SubBackup(n));
    SubBackupReady(s, n);
    NamedIsSomewhere(s.disk, n, s.committed);
    DoBackupRecoverable(s.disk, n, n in dirty, true, s.committed);
    SubBackupMoves(s.disk, n, n in dirty);
    hide Recoverable, SubOk, CleanListed, SubDone;
    MovedSubOk(s, s', n, goal, list, dirty, found);
    MovedClean(s.disk, s'.disk, n, goal, list, dirty);
    MovedDone(s, s', n, dirty, s.phase.done);
  }

  lemma SubBackupReady(s: State, n: Name)
    requires Inv(s) && s.phase.SubBacking?
    ensures s.disk.bak.Some? && s.disk.sub.Some? && (n in Files(s.disk.sub) ==> n !in Files(s.disk.bak))
  {
    hide Recoverable, Advances, CleanListed, SubDone;
  }

  lemma SubBackupDoneInv(s: State)
    requires Inv(s) && Enabled(s, SubBackupDone)
    ensures Inv(Step(s, SubBackupDone))
  {
    hide Recoverable, Advances;
    var goal := s.phase.goal;
    forall n | n in s.phase.dirty ensures !Named(s.committed.cat, n) || n in Files(s.disk.sub) {
      assert Named(goal.cat, n);
    }
  }

  /** The backups that a subcommit leaves in BAKDIR: of BATs new to the checkpoint, or not found. */
  predicate Left(n: Name, committed: Image, list: set<nat>, found: set<nat>) {
    n.bat in list && (n.bat !in committed.cat || n.bat !in found)
  }

  /** None of them has other contents than its BAT is to get. */
  ghost predicate Unstale(
    backups: map<Name, Content>, committed: Image, goal: Image, list: set<nat>, found: set<nat>)
  {
    forall n {:trigger Named(goal.cat, n)} ::
      Named(goal.cat, n) && Left(n, committed, list, found) && n in backups ==> Holds(backups, n, goal)
  }

  ghost predicate NoStale(s: State)
    requires s.phase.SubDirReady?
  {
    Unstale(Files(s.disk.bak), s.committed, s.phase.goal, s.phase.list, s.phase.found)
  }

  /** What recovery finds for one file after the commit point of a subcommit. */
  lemma SubSwitchFile(s: State, n: Name)
    requires Inv(s) && Enabled(s, SubSwitch) && Named(s.phase.goal.cat, n)
    ensures n in s.phase.goal.files
    ensures var s', v := Step(s, SubSwitch), s.phase.goal.files[n];
      Lookup(s'.disk, n) == Some(Whole(v)) <==>
        !(Left(n, s.committed, s.phase.list, s.phase.found) && n in Files(s.disk.bak)
          && Files(s.disk.bak)[n] != Whole(v))
  {
    var goal, s' := s.phase.goal, Step(s, SubSwitch);
    if n.bat in s.phase.list {
      assert Holds(s.disk.bat.files, n, goal);
    } else {
      assert Named(s.committed.cat, n);
      assert Lookup(s.disk, n) == Some(Whole(s.committed.files[n]));
    }
  }

  /**
   The commit point of a subcommit. The listed BATs advance to the goal and all others stay at
   the last checkpoint, exactly when no stale backup is left behind. A BAT that the checkpoint does
   not know, or that dirty_bat does not find, has its backup left in BAKDIR, and recovery would move
   that over the new file.
   */
  lemma SubSwitchExact(s: State)
    requires Inv(s) && Enabled(s, SubSwitch)
    ensures Recoverable(Step(s, SubSwitch).disk, s.phase.goal) <==> NoStale(s)
    ensures PhaseOk(Step(s, SubSwitch))
  {
    var goal, s' := s.phase.goal, Step(s, SubSwitch);
    SubSwitchPhase(s);
    hide PhaseOk, Enabled;
    forall n | Named(goal.cat, n)
      ensures n in goal.files
      ensures Lookup(s'.disk, n) == Some(Whole(goal.files[n])) <==>
        !(Left(n, s.committed, s.phase.list, s.phase.found) && n in Files(s.disk.bak)
          && Files(s.disk.bak)[n] != Whole(goal.files[n]))
    {
      SubSwitchFile(s, n);
    }
    if Recoverable(s'.disk, goal) {
      forall n | Named(goal.cat, n) && Left(n, s.committed, s.phase.list, s.phase.found) && n in Files(s.disk.bak)
        ensures Holds(Files(s.disk.bak), n, goal)
      {
        assert Lookup(s'.disk, n) == Some(Whole(goal.files[n]));
      }
    }
  }

  lemma SubSwitchPhase(s: State)
    requires Inv(s) && Enabled(s, SubSwitch)
    ensures s.phase.SubDirReady? && PhaseOk(Step(s, SubSwitch))
    ensures DirOf(Step(s, SubSwitch).disk) == Some(WholeDir(s.phase.goal.cat))
  {
    hide Recoverable;
  }

  /** A subcommit of `list` to `goal` is under way. */
  predicate Within(s: State, goal: Image, list: set<nat>, found: set<nat>) {
    match s.phase
    case SubStart(g, l, _, f) => g == goal && l == list && f == found
    case SubBacking(g, l, _, f, _) => g == goal && l == list && f == found
    case SubSaving(g, l, _, f, _) => g == goal && l == list && f == found
    case SubDirReady(g, l, f) => g == goal && l == list && f == found
    case _ => false
  }

  /** The backups that matter for Unstale are the same. */
  ghost predicate SameLeft(d: Disk, d': Disk, committed: Image, list: set<nat>, found: set<nat>) {
    forall n: Name {:trigger n in Files(d'.bak)} {:trigger n in Files(d.bak)} :: Left(n, committed, list, found) ==>
      (n in Files(d'.bak) <==> n in Files(d.bak)) && (n in Files(d.bak) ==> Files(d'.bak)[n] == Files(d.bak)[n])
  }

  /** No step of a subcommit touches them. */
  lemma WithinStep(s: State, a: Action, goal: Image, list: set<nat>, found: set<nat>)
    requires Within(s, goal, list, found) && Enabled(s, a) && !a.Crash? && !a.SubSwitch?
    ensures Within(Step(s, a), goal, list, found) && Step(s, a).committed == s.committed && !a.SwapOpen?
    ensures SameLeft(s.disk, Step(s, a).disk, s.committed, list, found)
  {
    hide CleanSaved, CleanListed, Advances, Named, ValidImage;
    if !a.SubBackup? {
      hide DoBackup;
    }
  }

  lemma SameStale(d: Disk, d': Disk, committed: Image, goal: Image, list: set<nat>, found: set<nat>)
    requires SameLeft(d, d', committed, list, found)
    ensures Unstale(Files(d.bak), committed, goal, list, found) <==>
      Unstale(Files(d'.bak), committed, goal, list, found)
  {
    hide Named;
  }

  /** A subcommit without a crash, up to its commit point. */
  ghost predicate Subcommit(s0: State, trace: seq<Action>, s: State)
    decreases |trace|
  {
    if trace == [] then s == s0
    else
      Enabled(s0, trace[0]) && !trace[0].Crash? && !trace[0].SubSwitch? && Subcommit(Step(s0, trace[0]), trace[1..], s)
  }

  lemma {:induction false} SubcommitRun(
    s0: State, trace: seq<Action>, s: State, goal: Image, list: set<nat>, found: set<nat>)
    requires Inv(s0) && Within(s0, goal, list, found) && Subcommit(s0, trace, s)
    ensures Inv(s) && Within(s, goal, list, found) && s.committed == s0.committed
    ensures Unstale(Files(s0.disk.bak), s0.committed, goal, list, found) <==>
      Unstale(Files(s.disk.bak), s.committed, goal, list, found)
    decreases |trace|
  {
    hide Inv, Step, Enabled, Unstale, SameLeft, Within;
    if trace != [] {
      var s1 := Step(s0, trace[0]);
      WithinStep(s0, trace[0], goal, list, found);
      SameStale(s0.disk, s1.disk, s0.committed, goal, list, found);
      StepInv(s0, trace[0]);
      SubcommitRun(s1, trace[1..], s, goal, list, found);
    }
  }

  /**
   A whole subcommit, judged by what there is when it is called: its commit point makes the goal
   recoverable iff no listed BAT that the checkpoint does not know, or that is neither loaded nor
   BBPSWAPPED, has an old backup then.
   */
  lemma SubcommitExact(
    s0: State, goal: Image, list: set<nat>, dirty: set<Name>, found: set<nat>, trace: seq<Action>, s: State)
    requires Inv(s0) && Enabled(s0, SubBegin(goal, list, dirty, found))
    requires Subcommit(Step(s0, SubBegin(goal, list, dirty, found)), trace, s) && Enabled(s, SubSwitch)
    ensures s.phase.SubDirReady? && s.phase.goal == goal && s.phase.list == list
    ensures Recoverable(Step(s, SubSwitch).disk, goal) <==>
      Unstale(Files(s0.disk.bak), s0.committed, goal, list, found)
  {
    var a := SubBegin(goal, list, dirty, found);
    var s1 := Step(s0, a);
    assert s1.disk.bak == s0.disk.bak && s1.committed == s0.committed && Within(s1, goal, list, found);
    assert s.phase.SubDirReady?;
    hide Inv, Step, Enabled, Unstale, Recoverable;
    SubBeginInv(s0, a);
    SubcommitRun(s1, trace, s, goal, list, found);
    SubSwitchExact(s);
  }

  lemma DiskInv(s: State, a: Action)
    requires Inv(s) && Enabled(s, a) && (a.MakeBak? || a.MoveDir? || a.Scan?)
    ensures Inv(Step(s, a))
  {
    var s' := Step(s, a);
    SameRecovery(s.disk, s'.disk, s.committed);
  }

  lemma SetDelInv(s: State, del: Option<Folder>)
    requires Inv(s)
    ensures Inv(Step(s, SetDel(del)))
  {
    var s' := Step(s, SetDel(del));
    SameRecovery(s.disk, s'.disk, s.committed);
    hide Recoverable, Advances, Holds, Named;
  }

  lemma RecoverSubInv(s: State, a: Action)
    requires Inv(s) && Enabled(s, a) && (a.RecSubFile? || a.RecSubDir? || a.RecSubDone?)
    ensures Inv(Step(s, a))
  {
    SameRecovery(s.disk, Step(s, a).disk, s.committed);
  }

  lemma RecoverDirInv(s: State, a: Action)
    requires Inv(s) && Enabled(s, a) && (a.RecDirAside? || a.RecDir? || a.RecNoDir?)
    ensures Inv(Step(s, a))
  {
    SameRecovery(s.disk, Step(s, a).disk, s.committed);
  }

  lemma RecoverFileInv(s: State, a: Action)
    requires Inv(s) && Enabled(s, a) && (a.RecUnlink? || a.RecFile? || a.RecFilesDone?)
    ensures Inv(Step(s, a))
  {
    SameRecovery(s.disk, Step(s, a).disk, s.committed);
  }

  lemma QuietInv(s: State, a: Action)
    requires Inv(s) && Enabled(s, a) && (a.Begin? || a.BackupDone? || a.Crash?)
    ensures Inv(Step(s, a))
  {
    hide Recoverable, Holds, Named;
  }

  lemma CommitStepInv(s: State, a: Action)
    requires Inv(s) && Enabled(s, a) && (a.Tear? || a.Save? || a.TearDir? || a.WriteDir? || a.CheapDir?)
    ensures Inv(Step(s, a))
  {
    hide Inv, Step;
    if a.Tear? || a.Save? {
      if s.phase.Saving? {
        SaveInv(s, a);
      } else {
        SubSaveInv(s, a);
      }
    } else if s.phase.Saving? {
      DirInv(s, a);
    } else {
      SubDirInv(s, a);
    }
  }

  lemma RecoveryInv(s: State, a: Action)
    requires Inv(s) && Enabled(s, a) && Recovering(a)
    ensures Inv(Step(s, a))
  {
    hide Inv, Step, Enabled;
    if a.RecSubFile? || a.RecSubDir? || a.RecSubDone? {
      RecoverSubInv(s, a);
    } else if a.RecDirAside? || a.RecDir? || a.RecNoDir? {
      RecoverDirInv(s, a);
    } else if a.RecUnlink? || a.RecFile? || a.RecFilesDone? {
      RecoverFileInv(s, a);
    } else if a.SetDel? {
      SetDelInv(s, a.del);
    } else if a.Crash? {
      QuietInv(s, a);
    } else {
      DiskInv(s, a);
    }
  }

  lemma SubcommitInv(s: State, a: Action)
    requires Inv(s) && Enabled(s, a) && (a.SubBegin? || a.SubMoveDir? || a.SubBackup? || a.SubBackupDone?)
    ensures Inv(Step(s, a))
  {
    hide Inv, Step, Enabled;
    if a.SubBackup? {
      SubBackupInv(s, a.n);
    } else if a.SubBackupDone? {
      SubBackupDoneInv(s);
    } else {
      SubBeginInv(s, a);
    }
  }

  lemma GlobalInv(s: State, a: Action)
    requires Inv(s) && Enabled(s, a) && (a.Begin? || a.Backup? || a.BackupDone? || a.Switch?)
    ensures Inv(Step(s, a))
  {
    hide Inv, Step, Enabled;
    if a.Backup? {
      BackupInv(s, a.n);
    } else if a.Switch? {
      SwitchInv(s);
    } else {
      QuietInv(s, a);
    }
  }

  /** Neither of the two steps that can lose data: a swap without backup, a subcommit over a stale one. */
  ghost predicate Fine(s: State, a: Action)
    requires Enabled(s, a)
  {
    (a.SwapOpen? ==> Covered(s, a.n)) && (a.SubSwitch? ==> NoStale(s))
  }

  /** Every step, and every crash, keeps the last checkpoint recoverable. */
  lemma StepInv(s: State, a: Action)
    requires Inv(s) && Enabled(s, a) && Fine(s, a)
    ensures Inv(Step(s, a))
  {
    hide Inv, Step, Enabled, NoStale, Covered;
    if Recovering(a) {
      RecoveryInv(s, a);
    } else if a.SubBegin? || a.SubMoveDir? || a.SubBackup? || a.SubBackupDone? {
      SubcommitInv(s, a);
    } else if a.SubSwitch? {
      SubSwitchInv(s);
    } else if a.Begin? || a.Backup? || a.BackupDone? || a.Switch? {
      GlobalInv(s, a);
    } else if a.Tear? || a.Save? || a.TearDir? || a.WriteDir? || a.CheapDir? {
      CommitStepInv(s, a);
    } else if a.DropBat? || a.TakeBack? {
      ModeInv(s, a);
    } else if a.SwapOpen? {
      SwapOpenInv(s, a.n);
    } else if a.Scan? {
      DiskInv(s, a);
    } else {
      SwapInv(s, a);
    }
  }

  lemma SubSwitchInv(s: State)
    requires Inv(s) && Enabled(s, SubSwitch) && NoStale(s)
    ensures Inv(Step(s, SubSwitch))
  {
    SubSwitchExact(s);
  }

  // -------------------------------------------------------------------- whole runs

  /** `s` is reached from `s0` by `trace`, without one of those two steps. */
  ghost predicate Reaches(s0: State, trace: seq<Action>, s: State)
    decreases |trace|
  {
    if trace == [] then s == s0
    else Enabled(s0, trace[0]) && Fine(s0, trace[0]) && Reaches(Step(s0, trace[0]), trace[1..], s)
  }

  /** A database in normal operation: the checkpoint is on disk and BBP.dir is in BAKDIR. */
  ghost predicate Init(s: State) {
    s.phase.Normal? && s.safe == {} && s.dropped == {} && Recoverable(s.disk, s.committed)
      && HasBakDir(s.disk, s.committed)
  }

  lemma {:induction false} RunInv(s0: State, trace: seq<Action>, s: State)
    requires Inv(s0) && Reaches(s0, trace, s)
    ensures Inv(s)
    decreases |trace|
  {
    hide Inv, Step, Enabled, Fine;
    if trace != [] {
      StepInv(s0, trace[0]);
      RunInv(Step(s0, trace[0]), trace[1..], s);
    }
  }

  /**
   Crash atomicity. In every run, wherever it has got to, the disk holds the checkpoint of the
   last completed rename of BAKDIR or SUBDIR to DELDIR, and nothing else changes the checkpoint.
   */
  lemma CrashAtomicity(s0: State, trace: seq<Action>, s: State)
    requires Init(s0) && Reaches(s0, trace, s)
    ensures Recoverable(s.disk, s.committed)
    ensures forall a :: Enabled(s, a) ==>
      Step(s, a).committed == if a.Switch? || a.SubSwitch? then s.phase.goal else s.committed
  {
    InitInv(s0);
    RunInv(s0, trace, s);
    InvRecoverable(s);
    hide Inv, Step, Enabled, Recoverable;
    forall a | Enabled(s, a)
      ensures Step(s, a).committed == if a.Switch? || a.SubSwitch? then s.phase.goal else s.committed
    {
      OnlySwitchCommits(s, a);
    }
  }

  lemma InitInv(s: State)
    requires Init(s)
    ensures Inv(s)
  {
  }

  lemma InvRecoverable(s: State)
    requires Inv(s)
    ensures Recoverable(s.disk, s.committed)
  {
  }

  /**
   What a crash would bring back changes at the two commit points only, and there to the goal. No
   other step changes what recovery finds of the checkpoint.
   */
  lemma CommitPoint(s: State, a: Action)
    requires Inv(s) && Enabled(s, a) && Fine(s, a)
    ensures var s' := Step(s, a);
      if a.Switch? || a.SubSwitch? then (s.phase.DirReady? || s.phase.SubDirReady?)
        && Recoverable(s'.disk, s.phase.goal)
      else
        DirOf(s'.disk) == DirOf(s.disk) && forall n :: Named(s.committed.cat, n) ==>
          Lookup(s'.disk, n) == Lookup(s.disk, n)
  {
    StepInv(s, a);
    OnlySwitchCommits(s, a);
    InvRecoverable(s);
    InvRecoverable(Step(s, a));
    hide Inv, Step, Enabled, Lookup, DirOf;
  }

  lemma OnlySwitchCommits(s: State, a: Action)
    requires Enabled(s, a)
    ensures (a.Switch? ==> s.phase.DirReady?) && (a.SubSwitch? ==> s.phase.SubDirReady?)
    ensures Step(s, a).committed == if a.Switch? || a.SubSwitch? then s.phase.goal else s.committed
  {
    hide CleanSaved, CleanListed, Advances, Named, ValidImage, BackupExisting, KeepsBats, BackedUp, Files, DirIn;
    hide Put, Drop, CatalogIn;
  }

  /** A half-written file is in BATDIR alone: recovery does not use it. A file without an owner goes. */
  lemma HalfWritten(s: State, a: Action)
    requires Inv(s) && Enabled(s, a) && (a.Tear? || a.TearDir? || a.Scan?)
    ensures
      var d := Step(s, a).disk;
      && Recoverable(d, s.committed)
      && (a.Tear? ==> a.n in d.bat.files && d.bat.files[a.n] == Torn) && (a.TearDir? ==> d.bat.dir == Some(TornDir))
      && (a.Scan? ==> Lookup(d, a.n) == if a.n in Files(d.bak) then Lookup(s.disk, a.n) else None)
  {
    hide Recoverable;
    StepInv(s, a);
    OnlySwitchCommits(s, a);
  }

  /** Moving the old BBP.dir back is as good as writing it anew. */
  lemma CheapDirSame(s: State)
    requires Inv(s) && Enabled(s, CheapDir)
    ensures Enabled(s, WriteDir) && Step(s, CheapDir).phase == Step(s, WriteDir).phase
    ensures Step(s, CheapDir).disk.bat == Step(s, WriteDir).disk.bat
  {
    hide Recoverable;
  }

  predicate Recovering(a: Action) {
    a.Crash? || a.RecSubFile? || a.RecSubDir? || a.RecSubDone? || a.RecDirAside? || a.RecDir? || a.RecNoDir?
    || a.RecUnlink? || a.RecFile? || a.RecFilesDone? || a.MakeBak? || a.MoveDir? || a.SetDel?
  }

  /** During recovery: BAKDIR is empty once it has been remade. */
  ghost predicate Restarting(s: State) {
    match s.phase
    case Down => true
    case DirBack => true
    case FilesBack => true
    case Remaking => true
    case MovingDir => Files(s.disk.bak) == map[]
    case Normal => Files(s.disk.bak) == map[]
    case _ => false
  }

  lemma RestartStep(s: State, a: Action)
    requires Inv(s) && Restarting(s) && Enabled(s, a) && Recovering(a)
    ensures Restarting(Step(s, a)) && Step(s, a).committed == s.committed && Inv(Step(s, a))
  {
    RecoveryInv(s, a);
    OnlySwitchCommits(s, a);
    hide Recoverable, Advances, Holds, Named, SubOk, CleanSaved, CleanListed, Backed;
  }

  lemma {:induction false} RestartRun(s0: State, trace: seq<Action>, s: State)
    requires Inv(s0) && Restarting(s0) && Reaches(s0, trace, s) && forall i :: 0 <= i < |trace| ==> Recovering(trace[i])
    ensures Inv(s) && Restarting(s) && s.committed == s0.committed
    decreases |trace|
  {
    hide Inv, Step, Enabled, Fine, Restarting, Recovering;
    if trace != [] {
      RestartStep(s0, trace[0]);
      RestartRun(Step(s0, trace[0]), trace[1..], s);
    }
  }

  /**
   Recovery after a crash at any moment, however often it is itself interrupted and started
   again: when it is through, BATDIR itself holds every file the checkpoint names, whole.
   */
  lemma RecoveryRestores(s: State, trace: seq<Action>, s': State)
    requires Inv(s) && Reaches(Step(s, Crash), trace, s') && s'.phase.Normal?
    requires forall i :: 0 <= i < |trace| ==> Recovering(trace[i])
    ensures s'.committed == s.committed
    ensures DirIn(s'.disk.bak) == Some(WholeDir(s.committed.cat))
    ensures forall n :: Named(s.committed.cat, n) ==> Holds(s'.disk.bat.files, n, s.committed)
  {
    QuietInv(s, Crash);
    RestartRun(Step(s, Crash), trace, s');
    hide Step, Enabled, Reaches;
    forall n | Named(s.committed.cat, n) ensures Holds(s'.disk.bat.files, n, s.committed) {
      assert Lookup(s'.disk, n).Some?;
    }
  }

  // ------------------------------------------------------- recovery gets through

  /** Files in BATDIR that a backup will replace. */
  ghost function Overlap(d: Disk): nat { |d.bat.files.Keys * Files(d.bak).Keys| }

  /** Files still to be moved, weighted by how far they have to go, plus the phases to come. */
  ghost function Remaining(s: State): nat {
    4 * |Files(s.disk.sub)| + 2 * |Files(s.disk.bak)| + Overlap(s.disk)
    + (if DirIn(s.disk.sub).Some? then 1 else 0) + (if s.disk.bat.dir.Some? then 1 else 0)
    + match s.phase
      case Down => 10
      case DirBack => 8
      case FilesBack => 6
      case Remaking => 4
      case MovingDir => 2
      case _ => 0
  }

  /** A step of recovery itself: no crash, and nobody clears DELDIR. */
  predicate Undisturbed(a: Action) { Recovering(a) && !a.Crash? && !a.SetDel? }

  lemma DropSmaller(m: map<Name, Content>, n: Name)
    requires n in m
    ensures |m - {n}| == |m| - 1
  {
    assert (m - {n}).Keys == m.Keys - {n};
    assert |(m - {n}).Keys| == |m - {n}|;
  }

  lemma PutLarger(m: map<Name, Content>, n: Name, c: Content)
    ensures |m[n := c]| <= |m| + 1
  {
    assert m[n := c].Keys == m.Keys + {n};
    assert |m[n := c].Keys| == |m[n := c]|;
  }

  lemma SubsetFewer(x: set<Name>, y: set<Name>)
    requires x <= y
    ensures |x| <= |y|
  {
    if x != {} {
      var n :| n in x;
      SubsetFewer(x - {n}, y - {n});
    }
  }

  /** One backup more, or less, changes the overlap by at most one. */
  lemma OverlapMore(bat: set<Name>, bak: set<Name>, n: Name)
    ensures |bat * (bak + {n})| <= |bat * bak| + 1
  {
    SubsetFewer(bat * (bak + {n}), bat * bak + {n});
  }

  lemma SubFileCloser(s: State, n: Name)
    requires Enabled(s, RecSubFile(n))
    ensures Remaining(Step(s, RecSubFile(n))) < Remaining(s)
  {
    var d, d' := s.disk, Step(s, RecSubFile(n)).disk;
    DropSmaller(Files(d.sub), n);
    PutLarger(Files(d.bak), n, Files(d.sub)[n]);
    OverlapMore(d.bat.files.Keys, Files(d.bak).Keys, n);
    assert Files(d'.bak).Keys == Files(d.bak).Keys + {n};
  }

  lemma FileCloser(s: State, n: Name)
    requires Enabled(s, RecFile(n))
    ensures Remaining(Step(s, RecFile(n))) < Remaining(s)
  {
    var d, d' := s.disk, Step(s, RecFile(n)).disk;
    DropSmaller(Files(d.bak), n);
    SubsetFewer(d'.bat.files.Keys * Files(d'.bak).Keys, d.bat.files.Keys * Files(d.bak).Keys);
  }

  lemma UnlinkCloser(s: State, n: Name)
    requires Enabled(s, RecUnlink(n))
    ensures Remaining(Step(s, RecUnlink(n))) < Remaining(s)
  {
    var d, d' := s.disk, Step(s, RecUnlink(n)).disk;
    var x, y := d.bat.files.Keys * Files(d.bak).Keys, d'.bat.files.Keys * Files(d'.bak).Keys;
    assert d'.bat.files.Keys == d.bat.files.Keys - {n};
    assert n in x && y == x - {n};
  }

  lemma DirCloser(s: State, a: Action)
    requires Enabled(s, a) && (a.RecSubDir? || a.RecSubDone? || a.RecDirAside? || a.RecDir? || a.RecNoDir?)
    ensures Remaining(Step(s, a)) < Remaining(s)
  {
    assert Files(Step(s, a).disk.bak) == Files(s.disk.bak);
  }

  lemma LateCloser(s: State, a: Action)
    requires Enabled(s, a) && (a.RecFilesDone? || a.MakeBak? || a.MoveDir?) && (s.phase.Remaking? ==> s.disk.bak.None?)
    ensures Remaining(Step(s, a)) < Remaining(s)
  {
    assert Files(Step(s, a).disk.bak) == Files(s.disk.bak);
  }

  /** What the invariant says of the directories during recovery. */
  lemma RestartFacts(s: State)
    requires Inv(s)
    ensures s.phase.Down? && s.disk.sub.Some? ==> s.disk.bak.Some?
    ensures s.phase.Remaking? ==> s.disk.bak.None?
    ensures s.phase.MovingDir? ==> s.disk.bak.Some?
  {
    hide Recoverable;
  }

  /** Every step of recovery brings it closer to its end. */
  lemma RecoveryCloser(s: State, a: Action)
    requires Inv(s) && Enabled(s, a) && Undisturbed(a)
    ensures Remaining(Step(s, a)) < Remaining(s)
  {
    hide Inv, Step, Remaining, Enabled;
    if a.RecSubFile? {
      SubFileCloser(s, a.n);
    } else if a.RecFile? {
      FileCloser(s, a.n);
    } else if a.RecUnlink? {
      UnlinkCloser(s, a.n);
    } else if a.RecFilesDone? || a.MakeBak? || a.MoveDir? {
      RestartFacts(s);
      LateCloser(s, a);
    } else {
      DirCloser(s, a);
    }
  }

  lemma DownStep(s: State) returns (a: Action)
    requires s.phase.Down? && (s.disk.sub.Some? ==> s.disk.bak.Some?)
    ensures Enabled(s, a) && Undisturbed(a)
  {
    var sub := s.disk.sub;
    if Files(sub) != map[] {
      var n :| n in Files(sub);
      a := RecSubFile(n);
    } else {
      a := if DirIn(sub).Some? then RecSubDir else RecSubDone;
    }
  }

  lemma FilesStep(s: State) returns (a: Action)
    requires s.phase.FilesBack?
    ensures Enabled(s, a) && Undisturbed(a)
  {
    var bak := s.disk.bak;
    if Files(bak) != map[] {
      var n :| n in Files(bak);
      a := RecFile(n);
    } else {
      a := RecFilesDone;
    }
  }

  lemma LateStep(s: State) returns (a: Action)
    requires s.phase.DirBack? || s.phase.Remaking? || (s.phase.MovingDir? && s.disk.bak.Some?)
    ensures Enabled(s, a) && Undisturbed(a)
  {
    if s.phase.DirBack? {
      a := if DirIn(s.disk.bak).Some? then RecDir else RecNoDir;
    } else {
      a := if s.phase.Remaking? then MakeBak else MoveDir;
    }
  }

  /** Before normal operation recovery always has a next step. */
  lemma RecoveryStep(s: State) returns (a: Action)
    requires Inv(s) && Restarting(s) && !s.phase.Normal?
    ensures Enabled(s, a) && Undisturbed(a)
  {
    RestartFacts(s);
    hide Inv, Enabled, Undisturbed;
    if s.phase.Down? {
      a := DownStep(s);
    } else if s.phase.FilesBack? {
      a := FilesStep(s);
    } else {
      a := LateStep(s);
    }
  }

  lemma NormalIsEnd(s: State, a: Action)
    requires s.phase.Normal? && Undisturbed(a)
    ensures !Enabled(s, a)
  {
  }

  /** A run of recovery in which no action is left. */
  ghost predicate Ended(s: State) { forall a :: Undisturbed(a) ==> !Enabled(s, a) }

  /**
   Recovery that is left alone always finishes: whatever order its steps take, their number is
   bounded, and no step is left exactly when the database is in normal operation.
   */
  lemma {:induction false} RecoveryCompletes(s: State, trace: seq<Action>, s': State)
    requires Inv(s) && Restarting(s) && Reaches(s, trace, s') && forall i :: 0 <= i < |trace| ==> Undisturbed(trace[i])
    ensures |trace| + Remaining(s') <= Remaining(s)
    ensures Ended(s') <==> s'.phase.Normal?
    decreases |trace|
  {
    hide Inv, Step, Enabled, Fine, Restarting, Remaining, Recovering;
    if trace == [] {
      if s.phase.Normal? {
        forall a | Undisturbed(a) ensures !Enabled(s, a) {
          NormalIsEnd(s, a);
        }
      } else {
        var a := RecoveryStep(s);
      }
    } else {
      RecoveryCloser(s, trace[0]);
      RestartStep(s, trace[0]);
      RecoveryCompletes(Step(s, trace[0]), trace[1..], s');
    }
  }

  // --------------------------------------------------------------- commits complete

  /** A run without crashes, swaps and subcommit switches. */
  ghost predicate Calm(s0: State, trace: seq<Action>, s: State)
    decreases |trace|
  {
    if trace == [] then s == s0
    else Enabled(s0, trace[0]) && CalmStep(trace[0]) && Calm(Step(s0, trace[0]), trace[1..], s)
  }

  predicate CalmStep(a: Action) { !a.Crash? && !a.SwapOpen? && !a.SubSwitch? }

  lemma {:induction false} CalmMore(s0: State, trace: seq<Action>, s: State, a: Action)
    requires Calm(s0, trace, s) && Enabled(s, a) && CalmStep(a)
    ensures Calm(s0, trace + [a], Step(s, a))
    decreases |trace|
  {
    hide Enabled, Step;
    if trace == [] {
      assert (trace + [a])[1..] == [];
    } else {
      assert (trace + [a])[0] == trace[0] && (trace + [a])[1..] == trace[1..] + [a];
      CalmMore(Step(s0, trace[0]), trace[1..], s, a);
    }
  }

  lemma {:induction false} CalmRun(s0: State, trace: seq<Action>, s: State)
    requires Calm(s0, trace, s)
    ensures Reaches(s0, trace, s) && Subcommit(s0, trace, s)
    decreases |trace|
  {
    hide Enabled, Step;
    if trace != [] {
      CalmRun(Step(s0, trace[0]), trace[1..], s);
    }
  }

  lemma {:induction false} BackupAll(s0: State, t0: seq<Action>, s: State) returns (t: seq<Action>, s': State)
    requires Calm(s0, t0, s) && s.phase.Backing?
    ensures Calm(s0, t, s') && s'.phase.Backing? && s'.phase.goal == s.phase.goal && s'.phase.dirty == s.phase.dirty
      && s'.phase.dirty <= s'.phase.done
    decreases s.phase.dirty - s.phase.done
  {
    if n :| n in s.phase.dirty && n !in s.phase.done {
      CalmMore(s0, t0, s, Backup(n));
      t, s' := BackupAll(s0, t0 + [Backup(n)], Step(s, Backup(n)));
    } else {
      t, s' := t0, s;
    }
  }

  /** Everything is saved, and BBP.dir is written behind it. */
  lemma {:induction false} SaveAll(s0: State, t0: seq<Action>, s: State) returns (t: seq<Action>, s': State)
    requires Calm(s0, t0, s) && (s.phase.Saving? || s.phase.SubSaving?) && GoalOk(s.phase.goal, s.phase.dirty)
    ensures Calm(s0, t, s') && s'.phase == AfterDir(s.phase) && s'.disk.del == None
    decreases s.phase.dirty - s.phase.saved
  {
    hide Enabled, Step, Calm;
    if n :| n in s.phase.dirty && n !in s.phase.saved {
      SaveStep(s, n);
      CalmMore(s0, t0, s, Save(n));
      t, s' := SaveAll(s0, t0 + [Save(n)], Step(s, Save(n)));
    } else {
      var s1 := WriteSteps(s);
      CalmMore(s0, t0, s, WriteDir);
      CalmMore(s0, t0 + [WriteDir], s1, SetDel(None));
      t, s' := t0 + [WriteDir] + [SetDel(None)], Step(s1, SetDel(None));
    }
  }

  lemma SaveStep(s: State, n: Name)
    requires (s.phase.Saving? || s.phase.SubSaving?) && GoalOk(s.phase.goal, s.phase.dirty) && n in s.phase.dirty
    ensures Enabled(s, Save(n)) && Step(s, Save(n)).phase == AfterSave(s.phase, n)
  {
    assert Named(s.phase.goal.cat, n);
  }

  lemma WriteSteps(s: State) returns (s1: State)
    requires (s.phase.Saving? || s.phase.SubSaving?) && s.phase.dirty <= s.phase.saved
    ensures Enabled(s, WriteDir) && Step(s, WriteDir) == s1 && Enabled(s1, SetDel(None))
    ensures Step(s1, SetDel(None)).phase == AfterDir(s.phase) && Step(s1, SetDel(None)).disk.del == None
  {
    s1 := Step(s, WriteDir);
  }

  /** BBPprepare after a global commit. */
  lemma Prepare(s0: State, t0: seq<Action>, s: State) returns (t: seq<Action>, s': State)
    requires Calm(s0, t0, s) && s.phase.DirReady? && s.disk.del == None
    ensures Calm(s0, t, s') && s'.phase.Normal? && s'.committed == s.phase.goal && s'.dropped == {}
  {
    hide Enabled, Step, Calm;
    var s1, s2 := PrepareSteps(s);
    CalmMore(s0, t0, s, Switch);
    CalmMore(s0, t0 + [Switch], s1, MakeBak);
    CalmMore(s0, t0 + [Switch] + [MakeBak], s2, MoveDir);
    t, s' := t0 + [Switch] + [MakeBak] + [MoveDir], Step(s2, MoveDir);
  }

  lemma PrepareSteps(s: State) returns (s1: State, s2: State)
    requires s.phase.DirReady? && s.disk.del == None
    ensures Enabled(s, Switch) && Step(s, Switch) == s1 && Enabled(s1, MakeBak) && Step(s1, MakeBak) == s2
    ensures Enabled(s2, MoveDir)
      && Step(s2, MoveDir) == State(Step(s2, MoveDir).disk, Normal, s.phase.goal, {}, {})
  {
    s1 := Step(s, Switch);
    s2 := Step(s1, MakeBak);
  }

  /** A global commit that has begun can run to its end, and then its goal is the checkpoint. */
  lemma CommitCompletes(s: State, goal: Image, dirty: set<Name>) returns (t: seq<Action>, s': State)
    requires Inv(s) && Enabled(s, Begin(goal, dirty))
    ensures Reaches(s, [Begin(goal, dirty)] + t, s') && Calm(Step(s, Begin(goal, dirty)), t, s')
    ensures s'.phase.Normal? && s'.committed == goal && s'.dropped == {} && Recoverable(s'.disk, goal)
  {
    var s1 := Step(s, Begin(goal, dirty));
    var t2, s2 := BackupAll(s1, [], s1);
    CalmMore(s1, t2, s2, BackupDone);
    var t3, s3 := SaveAll(s1, t2 + [BackupDone], Step(s2, BackupDone));
    t, s' := Prepare(s1, t3, s3);
    CalmRun(s1, t, s');
    hide Inv, Enabled, Step, Recoverable;
    var all := [Begin(goal, dirty)] + t;
    assert all[0] == Begin(goal, dirty) && all[1..] == t;
    RunInv(s, all, s');
    InvRecoverable(s');
  }

  ghost function Names(cat: Catalog): set<Name> { set b, e | b in cat && e in cat[b].exts :: Name(b, e) }

  lemma {:induction false} SubBackupAll(s0: State, t0: seq<Action>, s: State) returns (t: seq<Action>, s': State)
    requires Calm(s0, t0, s) && s.phase.SubBacking?
    ensures Calm(s0, t, s') && s'.phase.SubBacking? && s'.phase == s.phase.(done := s'.phase.done)
    ensures forall n :: BackedUp(s', n) ==> n in s'.phase.done
    decreases Names(s.phase.goal.cat) - s.phase.done
  {
    if n :| BackedUp(s, n) && n !in s.phase.done {
      CalmMore(s0, t0, s, SubBackup(n));
      assert n in Names(s.phase.goal.cat);
      t, s' := SubBackupAll(s0, t0 + [SubBackup(n)], Step(s, SubBackup(n)));
    } else {
      t, s' := t0, s;
    }
  }

  /** A subcommit up to its commit point. */
  lemma SubcommitReady(s: State, goal: Image, list: set<nat>, dirty: set<Name>, found: set<nat>)
    returns (t: seq<Action>, s': State)
    requires Inv(s) && Enabled(s, SubBegin(goal, list, dirty, found))
    ensures Calm(Step(s, SubBegin(goal, list, dirty, found)), t, s') && Enabled(s', SubSwitch)
    ensures s'.phase == SubDirReady(goal, list, found)
  {
    var s1 := SubStartSteps(s, goal, list, dirty, found);
    assert Calm(s1, [], s1);
    hide Enabled, Step, Calm;
    CalmMore(s1, [], s1, SubMoveDir);
    var t2, s2 := SubBackupAll(s1, [] + [SubMoveDir], Step(s1, SubMoveDir));
    SubBackedSteps(s2);
    CalmMore(s1, t2, s2, SubBackupDone);
    t, s' := SaveAll(s1, t2 + [SubBackupDone], Step(s2, SubBackupDone));
    ReadyToSwitch(s');
  }

  lemma SubStartSteps(s: State, goal: Image, list: set<nat>, dirty: set<Name>, found: set<nat>) returns (s1: State)
    requires Inv(s) && Enabled(s, SubBegin(goal, list, dirty, found))
    ensures s1 == Step(s, SubBegin(goal, list, dirty, found)) && GoalOk(goal, dirty)
    ensures Enabled(s1, SubMoveDir) && Step(s1, SubMoveDir).phase == SubBacking(goal, list, dirty, found, {})
  {
    hide Recoverable;
    s1 := Step(s, SubBegin(goal, list, dirty, found));
  }

  lemma SubBackedSteps(s: State)
    requires s.phase.SubBacking? && forall n :: BackedUp(s, n) ==> n in s.phase.done
    ensures Enabled(s, SubBackupDone)
    ensures Step(s, SubBackupDone).phase == SubSaving(s.phase.goal, s.phase.list, s.phase.dirty, s.phase.found, {})
  {
  }

  lemma ReadyToSwitch(s: State)
    requires s.phase.SubDirReady? && s.disk.del == None
    ensures Enabled(s, SubSwitch)
  {
  }

  /** A subcommit can run to its end if it finds no stale backup when it is called. */
  lemma SubcommitCompletes(s: State, goal: Image, list: set<nat>, dirty: set<Name>, found: set<nat>)
    returns (t: seq<Action>, s': State)
    requires Inv(s) && Enabled(s, SubBegin(goal, list, dirty, found))
    requires Unstale(Files(s.disk.bak), s.committed, goal, list, found)
    ensures Reaches(s, [SubBegin(goal, list, dirty, found)] + t, s')
    ensures s'.phase.Normal? && s'.committed == goal && Recoverable(s'.disk, goal)
  {
    hide Inv, Enabled, Step, Recoverable, Unstale;
    var a := SubBegin(goal, list, dirty, found);
    var t1, s1 := SubcommitReady(s, goal, list, dirty, found);
    CalmRun(Step(s, a), t1, s1);
    SubcommitExact(s, goal, list, dirty, found, t1, s1);
    var t2 := [a] + t1;
    assert t2[0] == a && t2[1..] == t1;
    RunInv(s, t2, s1);
    SubSwitchExact(s1);
    ReachesMore(s, t2, s1, SubSwitch);
    var s2 := Step(s1, SubSwitch);
    SubMovesDir(s1);
    ReachesMore(s, t2 + [SubSwitch], s2, MoveDir);
    t, s' := t1 + [SubSwitch] + [MoveDir], Step(s2, MoveDir);
    assert [a] + t == t2 + [SubSwitch] + [MoveDir];
    RunInv(s, [a] + t, s');
    InvRecoverable(s');
  }

  lemma SubMovesDir(s: State)
    requires Inv(s) && Enabled(s, SubSwitch)
    ensures var s1 := Step(s, SubSwitch);
      Enabled(s1, MoveDir) && Step(s1, MoveDir).phase.Normal? && Step(s1, MoveDir).committed == s.phase.goal
  {
    hide Recoverable;
  }

  // ------------------------------------------------- a subcommit over a stale backup

  lemma {:induction false} ReachesMore(s0: State, trace: seq<Action>, s: State, a: Action)
    requires Reaches(s0, trace, s) && Enabled(s, a) && Fine(s, a)
    ensures Reaches(s0, trace + [a], Step(s, a))
    decreases |trace|
  {
    hide Enabled, Step, Fine;
    if trace == [] {
      assert (trace + [a])[1..] == [];
    } else {
      assert (trace + [a])[0] == trace[0] && (trace + [a])[1..] == trace[1..] + [a];
      ReachesMore(Step(s0, trace[0]), trace[1..], s, a);
    }
  }

  const Tail1: Name := Name(1, 0)
  const Cat1: Catalog := map[1 := Line(0, {0})]
  const Before: Image := Image(Cat1, map[Tail1 := 10])
  const Changed: Image := Image(Cat1, map[Tail1 := 11])
  const Dropped: Image := Image(map[], map[])
  const Again: Image := Image(Cat1, map[Tail1 := 12])

  /** A folder with the tail of BAT 1 holding v. */
  function WithTail(v: int, dir: Option<CatFile>): Folder { Folder(map[Tail1 := Whole(v)], dir) }

  function NoTail(dir: Option<CatFile>): Folder { Folder(map[], dir) }

  const Dir1: Option<CatFile> := Some(WholeDir(Cat1))
  const Dir0: Option<CatFile> := Some(WholeDir(map[]))

  /** BAT 1 is committed with a tail holding 10. */
  const Start: State := State(Disk(WithTail(10, None), Some(NoTail(Dir1)), None, None), Normal, Before, {}, {})

  /** It has been changed to 11 and swapped out, so its old tail is in BAKDIR. */
  const Swapped: State :=
    State(Disk(WithTail(11, None), Some(WithTail(10, Dir1)), None, None), Normal, Before, {Tail1}, {})

  lemma NamedByCat1(n: Name)
    ensures Named(Cat1, n) <==> n == Tail1
  {
  }

  lemma StartIsInit()
    ensures Init(Start)
  {
    forall n | Named(Before.cat, n) ensures n in Before.files && Lookup(Start.disk, n) == Some(Whole(Before.files[n])) {
      NamedByCat1(n);
    }
  }

  /** One more step of a run, to a state that is written out. */
  lemma Extend(trace: seq<Action>, s: State, a: Action, s': State)
    requires Reaches(Start, trace, s) && Enabled(s, a) && Fine(s, a) && Step(s, a) == s'
    ensures Reaches(Start, trace + [a], s')
  {
    ReachesMore(Start, trace, s, a);
  }

  lemma SwapRun() returns (trace: seq<Action>)
    ensures Reaches(Start, trace, Swapped)
  {
    var s1 := Step(Start, SwapOpen(Tail1));
    Extend([], Start, SwapOpen(Tail1), s1);
    assert s1.disk.bak.value.files == map[Tail1 := Whole(10)] && s1.safe == {Tail1};
    assert Step(s1, SwapWrite(Tail1, 11)).disk.bat.files == map[Tail1 := Whole(11)];
    Extend([] + [SwapOpen(Tail1)], s1, SwapWrite(Tail1, 11), Swapped);
    trace := [] + [SwapOpen(Tail1)] + [SwapWrite(Tail1, 11)];
  }

  // ---------------------------------------------------------- a dropped BAT is swapped out

  /**
   BAT 1 is made transient while somebody still uses it, changed to 11 and swapped out. The checkpoint
   still has it, and a crash brings it back with 11.
   */
  lemma DroppedSwapLosesData()
    ensures Init(Start) && Enabled(Start, DropBat(1)) && Fine(Start, DropBat(1))
    ensures var s := Step(Start, DropBat(1));
      && Enabled(s, SwapOpen(Tail1)) && !Covered(s, Tail1)
      && var s1 := Step(s, SwapOpen(Tail1));
         Enabled(s1, SwapWrite(Tail1, 11))
         && var s2 := Step(s1, SwapWrite(Tail1, 11));
            s2.committed == Before && Lookup(s2.disk, Tail1) == Some(Whole(11)) && !Recoverable(s2.disk, Before)
  {
    StartIsInit();
    NamedByCat1(Tail1);
    var s := Step(Start, DropBat(1));
    assert s == Start.(dropped := {1});
    SwapSteps(s, Tail1, 11);
    hide Step, Init;
    var s1 := Step(s, SwapOpen(Tail1));
    assert s1.disk == Start.disk && Tail1 in s1.safe;
    var s2 := Step(s1, SwapWrite(Tail1, 11));
    OnlySwitchCommits(s1, SwapWrite(Tail1, 11));
    assert Lookup(s2.disk, Tail1) == Some(Whole(11));
  }

  // ------------------------------------------------ a subcommit does not find a listed BAT

  /** BAT 1, swapped out and not BBPSWAPPED, is listed; its backup has not been moved. */
  const Unfound: State :=
    State(Disk(WithTail(11, None), Some(WithTail(10, None)), Some(NoTail(Dir1)), None),
          SubSaving(Changed, {1}, {}, {}, {}), Before, {Tail1}, {})

  const UnfoundReady: State :=
    Unfound.(disk := Unfound.disk.(bat := WithTail(11, Dir1)), phase := SubDirReady(Changed, {1}, {}))

  lemma UnfoundBegin(t0: seq<Action>) returns (trace: seq<Action>)
    requires Reaches(Start, t0, Swapped)
    ensures Reaches(Start, trace, Unfound)
  {
    hide Reaches;
    var a1 := SubBegin(Changed, {1}, {}, {});
    var s1 := Swapped.(disk := Swapped.disk.(sub := Some(EmptyFolder)), phase := SubStart(Changed, {1}, {}, {}));
    ChangedBegins(Swapped);
    Extend(t0, Swapped, a1, s1);
    var s2 := Unfound.(phase := SubBacking(Changed, {1}, {}, {}, {}));
    Extend(t0 + [a1], s1, SubMoveDir, s2);
    Extend(t0 + [a1] + [SubMoveDir], s2, SubBackupDone, Unfound);
    trace := t0 + [a1] + [SubMoveDir] + [SubBackupDone];
  }

  lemma ChangedBegins(s: State)
    requires s == Swapped
    ensures Enabled(s, SubBegin(Changed, {1}, {}, {}))
  {
    forall n ensures Named(Changed.cat, n) <==> n == Tail1 {
      NamedByCat1(n);
    }
    assert Holds(s.disk.bat.files, Tail1, Changed);
  }

  lemma UnfoundRun(t0: seq<Action>) returns (trace: seq<Action>)
    requires Reaches(Start, t0, Unfound)
    ensures Reaches(Start, trace, UnfoundReady)
  {
    hide Reaches;
    Extend(t0, Unfound, WriteDir, UnfoundReady);
    trace := t0 + [WriteDir];
  }

  lemma UnfoundSwitch()
    ensures Enabled(UnfoundReady, SubSwitch)
    ensures var s := Step(UnfoundReady, SubSwitch);
      s.committed == Changed && Lookup(s.disk, Tail1) == Some(Whole(10)) && !Recoverable(s.disk, s.committed)
  {
    NamedByCat1(Tail1);
    var s := Step(UnfoundReady, SubSwitch);
    assert Lookup(s.disk, Tail1) == Some(Whole(10));
  }

  /**
   BAT 1 is changed in place to 11, which leaves no delta, swapped out and unloaded. A subcommit of it
   succeeds, and a crash then brings 10 back.
   */
  lemma UnfoundLosesData() returns (trace: seq<Action>)
    ensures Init(Start) && Reaches(Start, trace, UnfoundReady) && Enabled(UnfoundReady, SubSwitch)
    ensures var s := Step(UnfoundReady, SubSwitch);
      s.committed == Changed && Lookup(s.disk, Tail1) == Some(Whole(10)) && !Recoverable(s.disk, s.committed)
  {
    StartIsInit();
    var t1 := SwapRun();
    var t2 := UnfoundBegin(t1);
    trace := UnfoundRun(t2);
    hide Reaches, Step, Enabled, Init;
    UnfoundSwitch();
  }

  // ------------------------------------------------------- a BAT is dropped, and comes back

  /** BAT 1 has been made transient. */
  const Leaving: State := Swapped.(dropped := {1})

  /** The subcommit that drops BAT 1 has nothing to back up or save. */
  const Dropping: State :=
    State(Disk(WithTail(11, None), Some(WithTail(10, None)), Some(NoTail(Dir1)), None),
          SubSaving(Dropped, {1}, {}, {1}, {}), Before, {Tail1}, {1})

  /** It has been dropped by a subcommit, which does not look at its backup. */
  const AfterDrop: State :=
    State(Disk(WithTail(11, Dir0), Some(WithTail(10, None)), None, Some(NoTail(Dir1))), MovingDir, Dropped, {}, {})

  /** Normal operation without BAT 1, whose old tail is still in BAKDIR. */
  const Without: State :=
    State(Disk(WithTail(11, None), Some(WithTail(10, Dir0)), None, None), Normal, Dropped, {}, {})

  /** It has been made persistent again and saved as 12; the subcommit is about to switch. */
  const Stale: State :=
    State(Disk(WithTail(12, Dir1), Some(WithTail(10, None)), Some(NoTail(Dir0)), None),
          SubDirReady(Again, {1}, {1}), Dropped, {}, {})

  /** The subcommit that brings BAT 1 back: it is new, so its file is not backed up. */
  const Returning: State :=
    State(Stale.disk.(bat := WithTail(11, None)), SubSaving(Again, {1}, {Tail1}, {1}, {}), Dropped, {}, {})

  lemma LeaveRun(t0: seq<Action>) returns (trace: seq<Action>)
    requires Reaches(Start, t0, Swapped)
    ensures Reaches(Start, trace, Leaving)
  {
    hide Reaches;
    Extend(t0, Swapped, DropBat(1), Leaving);
    trace := t0 + [DropBat(1)];
  }

  lemma DropBegin(t0: seq<Action>) returns (trace: seq<Action>)
    requires Reaches(Start, t0, Leaving)
    ensures Reaches(Start, trace, Dropping.(phase := SubBacking(Dropped, {1}, {}, {1}, {})))
  {
    hide Reaches;
    var a1 := SubBegin(Dropped, {1}, {}, {1});
    var s1 := Leaving.(disk := Leaving.disk.(sub := Some(EmptyFolder)), phase := SubStart(Dropped, {1}, {}, {1}));
    Extend(t0, Leaving, a1, s1);
    Extend(t0 + [a1], s1, SubMoveDir, Dropping.(phase := SubBacking(Dropped, {1}, {}, {1}, {})));
    trace := t0 + [a1] + [SubMoveDir];
  }

  lemma DropRun(t0: seq<Action>) returns (trace: seq<Action>)
    requires Reaches(Start, t0, Leaving)
    ensures Reaches(Start, trace, Dropping)
  {
    var t1 := DropBegin(t0);
    hide Reaches;
    Extend(t1, Dropping.(phase := SubBacking(Dropped, {1}, {}, {1}, {})), SubBackupDone, Dropping);
    trace := t1 + [SubBackupDone];
  }

  lemma DropSwitch(t0: seq<Action>) returns (trace: seq<Action>)
    requires Reaches(Start, t0, Dropping)
    ensures Reaches(Start, trace, AfterDrop)
  {
    hide Reaches;
    var s1 := Dropping.(disk := Dropping.disk.(bat := WithTail(11, Dir0)), phase := SubDirReady(Dropped, {1}, {1}));
    Extend(t0, Dropping, WriteDir, s1);
    assert NoStale(s1);
    assert {1} - {1} == {};
    Extend(t0 + [WriteDir], s1, SubSwitch, AfterDrop);
    trace := t0 + [WriteDir] + [SubSwitch];
  }

  lemma WithoutRun(t0: seq<Action>) returns (trace: seq<Action>)
    requires Reaches(Start, t0, AfterDrop)
    ensures Reaches(Start, trace, Without)
  {
    hide Reaches;
    var s1 := AfterDrop.(disk := AfterDrop.disk.(del := None));
    Extend(t0, AfterDrop, SetDel(None), s1);
    Extend(t0 + [SetDel(None)], s1, MoveDir, Without);
    trace := t0 + [SetDel(None)] + [MoveDir];
  }

  lemma ReturnRun(t0: seq<Action>) returns (trace: seq<Action>)
    requires Reaches(Start, t0, Without)
    ensures Reaches(Start, trace, Returning)
  {
    hide Reaches;
    var a1 := SubBegin(Again, {1}, {Tail1}, {1});
    var s1 := Without.(disk := Without.disk.(sub := Some(EmptyFolder)), phase := SubStart(Again, {1}, {Tail1}, {1}));
    AgainBegins(Without);
    Extend(t0, Without, a1, s1);
    var s2 := Returning.(phase := SubBacking(Again, {1}, {Tail1}, {1}, {}));
    Extend(t0 + [a1], s1, SubMoveDir, s2);
    Extend(t0 + [a1] + [SubMoveDir], s2, SubBackupDone, Returning);
    trace := t0 + [a1] + [SubMoveDir] + [SubBackupDone];
  }

  lemma StaleRun(t0: seq<Action>) returns (trace: seq<Action>)
    requires Reaches(Start, t0, Returning)
    ensures Reaches(Start, trace, Stale)
  {
    hide Reaches;
    var s1 := Stale.(disk := Stale.disk.(bat := WithTail(12, None)),
      phase := SubSaving(Again, {1}, {Tail1}, {1}, {Tail1}));
    assert Step(Returning, Save(Tail1)).disk.bat.files == map[Tail1 := Whole(12)];
    assert {} + {Tail1} == {Tail1};
    Extend(t0, Returning, Save(Tail1), s1);
    Extend(t0 + [Save(Tail1)], s1, WriteDir, Stale);
    trace := t0 + [Save(Tail1)] + [WriteDir];
  }

  lemma AgainBegins(s: State)
    requires s == Without
    ensures Enabled(s, SubBegin(Again, {1}, {Tail1}, {1}))
  {
    forall n ensures Named(Again.cat, n) <==> n == Tail1 {
      NamedByCat1(n);
    }
  }

  /**
   A run of swaps and subcommits after which a crash loses committed data: BAT 1 is changed and
   swapped out, dropped, made persistent again and committed as 12; recovery restores 10.
   */
  lemma StaleBackupLosesData() returns (trace: seq<Action>)
    ensures Init(Start) && Reaches(Start, trace, Stale) && Enabled(Stale, SubSwitch)
    ensures var s := Step(Stale, SubSwitch);
      s.committed == Again && Lookup(s.disk, Tail1) == Some(Whole(10)) && !Recoverable(s.disk, s.committed)
  {
    StartIsInit();
    var t1 := SwapRun();
    var t2 := LeaveRun(t1);
    var t3 := DropRun(t2);
    var t4 := DropSwitch(t3);
    var t5 := WithoutRun(t4);
    var t6 := ReturnRun(t5);
    trace := StaleRun(t6);
    hide Reaches, Step, Enabled, Init;
    StaleSwitch();
  }

  lemma StaleSwitch()
    ensures Enabled(Stale, SubSwitch)
    ensures var s := Step(Stale, SubSwitch);
      s.committed == Again && Lookup(s.disk, Tail1) == Some(Whole(10)) && !Recoverable(s.disk, s.committed)
  {
    NamedByCat1(Tail1);
    var s := Step(Stale, SubSwitch);
    assert Lookup(s.disk, Tail1) == Some(Whole(10));
  }
}
