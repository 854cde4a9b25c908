/** The container runtime as the services see it: which instances are alive and what the overlay
    and snapshot files hold (the stop, create, snapshot, restore, destroy and removePath operations of
    src/executors/apptainer-cli-executor.ts). Every operation may fail, and its outcome is a parameter. */
module Runtime {
  import opened Common

  /** What a file or directory holds, as an opaque value. */
  type Content = nat

  datatype Path = OverlayAt(inst: string) | SnapshotAt(inst: string, name: string)

  datatype Runtime = Runtime(alive: set<string>, files: map<Path, Content>)

  // ---- path texts ----

  const PREFIX := "sb-"
  const ID_LENGTH := 12

  /** `sb-` followed by twelve characters of the nanoid alphabet, none of which is a slash. */
  predicate InstanceName(inst: string) {
    |inst| == |PREFIX| + ID_LENGTH && inst[..|PREFIX|] == PREFIX && '/' !in inst
  }

  function Text(baseDir: string, p: Path): string {
    match p
    case OverlayAt(inst) => baseDir + "/" + inst
    case SnapshotAt(inst, name) => baseDir + "/snapshots/" + inst + "-" + name
  }

  function Tail(p: Path): string {
    match p
    case OverlayAt(inst) => inst
    case SnapshotAt(inst, name) => "snapshots/" + (inst + ("-" + name))
  }

  lemma TextIsTail(baseDir: string, p: Path)
    ensures Text(baseDir, p) == (baseDir + "/") + Tail(p)
  {
    match p
    case OverlayAt(_) =>
    case SnapshotAt(inst, name) =>
      assert "/snapshots/" == "/" + "snapshots/";
  }

  lemma CancelPrefix(a: string, x: string, y: string)
    requires a + x == a + y
    ensures x == y
  {
    assert x == (a + x)[|a|..] == (a + y)[|a|..] == y;
  }

  lemma SplitAt(a: string, x: string, b: string, y: string)
    requires |a| == |b| && a + x == b + y
    ensures a == b && x == y
  {
    assert a == (a + x)[..|a|] == (b + y)[..|a|] == b;
    CancelPrefix(a, x, y);
  }

  /** A snapshot's path has a slash in its tail, an overlay's has none. */
  lemma TailTellsKind(p: Path)
    requires '/' !in p.inst
    ensures '/' in Tail(p) <==> p.SnapshotAt?
  {
    assert p.SnapshotAt? ==> Tail(p)[9] == '/';
  }

  /** Instance names have one length and no slash, so distinct overlay and snapshot paths never
      share a file: `<instance>-<name>` splits back into its parts. */
  lemma PathTextsAreDistinct(baseDir: string, p: Path, q: Path)
    requires InstanceName(p.inst) && InstanceName(q.inst)
    requires Text(baseDir, p) == Text(baseDir, q)
    ensures p == q
  {
    TextIsTail(baseDir, p);
    TextIsTail(baseDir, q);
    CancelPrefix(baseDir + "/", Tail(p), Tail(q));
    TailTellsKind(p);
    TailTellsKind(q);
    if p.SnapshotAt? {
      CancelPrefix("snapshots/", p.inst + ("-" + p.name), q.inst + ("-" + q.name));
      SplitAt(p.inst, "-" + p.name, q.inst, "-" + q.name);
      CancelPrefix("-", p.name, q.name);
    }
  }

  // ---- outcomes ----

  /** StopSwallowed: the command could not be spawned, which `stop` reports as success. */
  datatype StopOutcome = StopDone | StopSwallowed | StopThrew

  /** A missing overlay is created before the instance starts, and stays when the start fails. */
  datatype CreateOutcome = Started(content: Content) | NotStarted(left: Option<Content>)

  datatype CopyOutcome = Copied(size: nat) | NotCopied(left: Option<Content>)

  /** What a failed restore leaves at the overlay path. */
  datatype SwapRemains = KeepsOld | LeavesNone | HasSnapshot

  datatype RestoreOutcome = Restored | NotRestored(remains: SwapRemains)

  /** DestroyBlind: neither the stop nor the listing that guards the removal worked, so the overlay of a live
      instance is removed. */
  datatype DestroyOutcome = DestroyDone | DestroyBlind | DestroyThrew(stopped: bool)

  // ---- effects ----

  function Put(files: map<Path, Content>, p: Path, c: Option<Content>): map<Path, Content> {
    match c
    case Some(v) => files[p := v]
    case None => files - {p}
  }

  function Stop(r: Runtime, inst: string, o: StopOutcome): Runtime {
    if o.StopDone? then r.(alive := r.alive - {inst}) else r
  }

  function Create(r: Runtime, inst: string, o: CreateOutcome): Runtime {
    var p := OverlayAt(inst);
    match o
    case Started(content) => Runtime(r.alive + {inst}, if p in r.files then r.files else r.files[p := content])
    case NotStarted(left) => r.(files := if p in r.files then r.files else Put(r.files, p, left))
  }

  /** A row without an overlay path yields the empty source path, whose copy always fails. */
  predicate CopyWorks(r: Runtime, inst: string, hasOverlay: bool, o: CopyOutcome) {
    o.Copied? && hasOverlay && OverlayAt(inst) in r.files
  }

  function Copy(r: Runtime, inst: string, name: string, hasOverlay: bool, o: CopyOutcome): Runtime {
    var p := SnapshotAt(inst, name);
    if CopyWorks(r, inst, hasOverlay, o) then r.(files := r.files[p := r.files[OverlayAt(inst)]])
    else r.(files := Put(r.files, p, if o.NotCopied? then o.left else None))
  }

  predicate RestoreWorks(r: Runtime, snapshot: Path, o: RestoreOutcome) {
    o.Restored? && snapshot in r.files
  }

  function Restore(r: Runtime, inst: string, snapshot: Path, o: RestoreOutcome): Runtime {
    var p := OverlayAt(inst);
    if RestoreWorks(r, snapshot, o) then Runtime(r.alive + {inst}, r.files[p := r.files[snapshot]])
    else if o.NotRestored? && o.remains.LeavesNone? then r.(files := r.files - {p})
    else if o.NotRestored? && o.remains.HasSnapshot? && snapshot in r.files then
      r.(files := r.files[p := r.files[snapshot]])
    else r
  }

  function Destroy(r: Runtime, inst: string, hasOverlay: bool, o: DestroyOutcome): Runtime {
    match o
    case DestroyDone =>
      Runtime(r.alive - {inst}, if hasOverlay then r.files - {OverlayAt(inst)} else r.files)
    case DestroyBlind => r.(files := if hasOverlay then r.files - {OverlayAt(inst)} else r.files)
    case DestroyThrew(stopped) => if stopped then r.(alive := r.alive - {inst}) else r
  }

  function RemovePath(r: Runtime, p: Path, ok: bool): Runtime {
    if ok then r.(files := r.files - {p}) else r
  }
}
