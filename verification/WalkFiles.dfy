/** The bounded breadth-first file walk and `find` on it (src/services/tools.service.ts). Listing and kind of
    every path are whatever the executor answers, so directory graphs may be cyclic, and the walk without end
    but for its limits. */
module WalkFiles {
  import opened Common

  /** Where the walk starts, or a name in a directory below. */
  datatype Path = Root | In(dir: Path, name: string)

  function Depth(p: Path): nat {
    if p.Root? then 0 else 1 + Depth(p.dir)
  }

  /** The executor's answers; None is a failed call. */
  datatype Files = Files(readdir: Path -> Option<seq<string>>, isDirectory: Path -> Option<bool>)

  datatype Limits = Limits(maxFiles: nat, maxDepth: nat)

  predicate Skipped(name: string) {
    name == ".git" || name == "node_modules"
  }

  // ---- one listing ----

  /** The names a listing contributes: not skipped, each once. */
  function Distinct(names: seq<string>, taken: set<string>): seq<string> {
    if names == [] then []
    else if Skipped(names[0]) || names[0] in taken then Distinct(names[1..], taken)
    else [names[0]] + Distinct(names[1..], taken + {names[0]})
  }

  function Names(fs: Files, dir: Path): seq<string> {
    var listing := fs.readdir(dir);
    if listing.None? then [] else Distinct(listing.value, {})
  }

  /** The children of `dir` among `names` of the given kind, in order. */
  function Children(fs: Files, dir: Path, names: seq<string>, directories: bool): seq<Path> {
    if names == [] then []
    else
      (if fs.isDirectory(In(dir, names[0])) == Some(directories) then [In(dir, names[0])] else [])
      + Children(fs, dir, names[1..], directories)
  }

  function FilesIn(fs: Files, dir: Path): seq<Path> {
    Children(fs, dir, Names(fs, dir), false)
  }

  function DirsIn(fs: Files, dir: Path): seq<Path> {
    Children(fs, dir, Names(fs, dir), true)
  }

  // ---- the queue order ----

  /** Work left below a directory with `depth` levels to go. */
  function Cost(fs: Files, dir: Path, depth: nat): nat
    decreases depth, 1
  {
    1 + if depth == 0 then 0 else CostOf(fs, DirsIn(fs, dir), depth - 1)
  }

  function CostOf(fs: Files, dirs: seq<Path>, depth: nat): nat
    decreases depth, 2, |dirs|
  {
    if dirs == [] then 0 else Cost(fs, dirs[0], depth) + CostOf(fs, dirs[1..], depth)
  }

  function Levels(dir: Path, maxDepth: nat): nat {
    if Depth(dir) <= maxDepth then maxDepth - Depth(dir) else 0
  }

  /** The work in a queue of directories at different depths. */
  function QueueCost(fs: Files, queue: seq<Path>, maxDepth: nat): nat {
    if queue == [] then 0 else Cost(fs, queue[0], Levels(queue[0], maxDepth)) + QueueCost(fs, queue[1..], maxDepth)
  }

  /** What taking the first directory appends to the queue. */
  function Pushed(fs: Files, dir: Path, maxDepth: nat): seq<Path> {
    if Depth(dir) + 1 <= maxDepth then DirsIn(fs, dir) else []
  }

  lemma {:induction false} ChildrenAreBelow(fs: Files, dir: Path, names: seq<string>, directories: bool)
    ensures forall p :: p in Children(fs, dir, names, directories)
              <==> p.In? && p.dir == dir && p.name in names && fs.isDirectory(p) == Some(directories)
    ensures forall p <- Children(fs, dir, names, directories) :: Depth(p) == Depth(dir) + 1
  {
    if names != [] {
      ChildrenAreBelow(fs, dir, names[1..], directories);
      assert names == [names[0]] + names[1..];
    }
  }

  lemma {:induction false} CostAppends(fs: Files, a: seq<Path>, b: seq<Path>, maxDepth: nat)
    ensures QueueCost(fs, a + b, maxDepth) == QueueCost(fs, a, maxDepth) + QueueCost(fs, b, maxDepth)
  {
    hide Cost;
    if a == [] {
      assert a + b == b;
    } else {
      assert (a + b)[1..] == a[1..] + b;
      CostAppends(fs, a[1..], b, maxDepth);
    }
  }

  lemma {:induction false} CostOfLevel(fs: Files, dirs: seq<Path>, depth: nat, maxDepth: nat)
    requires depth <= maxDepth && forall p <- dirs :: Depth(p) == depth
    ensures QueueCost(fs, dirs, maxDepth) == CostOf(fs, dirs, maxDepth - depth)
  {
    hide Cost;
    if dirs != [] {
      CostOfLevel(fs, dirs[1..], depth, maxDepth);
    }
  }

  /** Taking a directory off the queue and putting its own on costs exactly one. */
  lemma QueueShrinks(fs: Files, queue: seq<Path>, maxDepth: nat)
    requires queue != []
    ensures QueueCost(fs, queue[1..] + Pushed(fs, queue[0], maxDepth), maxDepth) == QueueCost(fs, queue, maxDepth) - 1
  {
    var dir := queue[0];
    var pushed := Pushed(fs, dir, maxDepth);
    CostAppends(fs, queue[1..], pushed, maxDepth);
    if Depth(dir) + 1 <= maxDepth {
      ChildrenAreBelow(fs, dir, Names(fs, dir), true);
      hide CostOf, QueueCost, Children;
      CostOfLevel(fs, pushed, Depth(dir) + 1, maxDepth);
      QueueHead(fs, queue, maxDepth);
    }
  }

  lemma QueueHead(fs: Files, queue: seq<Path>, maxDepth: nat)
    requires queue != []
    ensures QueueCost(fs, queue, maxDepth)
            == Cost(fs, queue[0], Levels(queue[0], maxDepth)) + QueueCost(fs, queue[1..], maxDepth)
  {
  }

  /** The files in the order a queue visits them. */
  function InQueueOrder(fs: Files, queue: seq<Path>, maxDepth: nat): seq<Path>
    decreases QueueCost(fs, queue, maxDepth)
  {
    if queue == [] then []
    else
      QueueShrinks(fs, queue, maxDepth);
      FilesIn(fs, queue[0]) + InQueueOrder(fs, queue[1..] + Pushed(fs, queue[0], maxDepth), maxDepth)
  }

  /** All files the depth limit allows, in the order of an unbounded walk. */
  function All(fs: Files, maxDepth: nat): seq<Path> {
    InQueueOrder(fs, [Root], maxDepth)
  }

  // ---- level order ----

  /** The children of a list of directories, one directory after another. */
  function ChildrenOfAll(fs: Files, dirs: seq<Path>, directories: bool): seq<Path> {
    if dirs == [] then []
    else Children(fs, dirs[0], Names(fs, dirs[0]), directories) + ChildrenOfAll(fs, dirs[1..], directories)
  }

  function Level(fs: Files, depth: nat): seq<Path> {
    if depth == 0 then [Root] else ChildrenOfAll(fs, Level(fs, depth - 1), true)
  }

  function LevelOrder(fs: Files, depth: nat, maxDepth: nat): seq<Path>
    requires depth <= maxDepth
    decreases maxDepth - depth
  {
    ChildrenOfAll(fs, Level(fs, depth), false) + if depth < maxDepth then LevelOrder(fs, depth + 1, maxDepth) else []
  }

  lemma OneDirectory(fs: Files, dirs: seq<Path>, directories: bool)
    requires dirs != []
    ensures ChildrenOfAll(fs, dirs, directories)
            == Children(fs, dirs[0], Names(fs, dirs[0]), directories) + ChildrenOfAll(fs, dirs[1..], directories)
  {
  }

  lemma OneTaken(fs: Files, queue: seq<Path>, maxDepth: nat)
    requires queue != []
    ensures InQueueOrder(fs, queue, maxDepth)
            == FilesIn(fs, queue[0]) + InQueueOrder(fs, queue[1..] + Pushed(fs, queue[0], maxDepth), maxDepth)
  {
  }

  lemma Requeue(a: seq<Path>, b: seq<Path>, pushed: seq<Path>, more: seq<Path>)
    requires a != []
    ensures (a + b)[0] == a[0]
    ensures (a + b)[1..] + pushed == a[1..] + (b + pushed)
    ensures b + pushed + more == b + (pushed + more)
  {
    assert (a + b)[1..] == a[1..] + b;
  }

  lemma ThreeParts(x: seq<Path>, y: seq<Path>, z: seq<Path>)
    ensures x + (y + z) == x + y + z
  {
  }

  lemma {:induction false} DrainLevel(fs: Files, a: seq<Path>, b: seq<Path>, depth: nat, maxDepth: nat)
    requires depth <= maxDepth && forall p <- a :: Depth(p) == depth
    ensures InQueueOrder(fs, a + b, maxDepth)
            == ChildrenOfAll(fs, a, false)
               + InQueueOrder(fs, b + if depth < maxDepth then ChildrenOfAll(fs, a, true) else [], maxDepth)
    decreases |a|
  {
    if a == [] {
      assert a + b == b == b + [];
      assert ChildrenOfAll(fs, a, true) == [];
    } else {
      hide Children, ChildrenOfAll, InQueueOrder;
      var dir, rest := a[0], a[1..];
      var pushed := Pushed(fs, dir, maxDepth);
      var next := if depth < maxDepth then ChildrenOfAll(fs, rest, true) else [];
      assert dir in a;
      Requeue(a, b, pushed, next);
      OneTaken(fs, a + b, maxDepth);
      OneDirectory(fs, a, false);
      OneDirectory(fs, a, true);
      DrainLevel(fs, rest, b + pushed, depth, maxDepth);
      ThreeParts(FilesIn(fs, dir), ChildrenOfAll(fs, rest, false), InQueueOrder(fs, b + (pushed + next), maxDepth));
      assert depth == maxDepth ==> pushed + next == [];
    }
  }

  lemma {:induction false} QueueFromLevel(fs: Files, depth: nat, maxDepth: nat)
    requires depth <= maxDepth
    ensures InQueueOrder(fs, Level(fs, depth), maxDepth) == LevelOrder(fs, depth, maxDepth)
    decreases maxDepth - depth
  {
    LevelMembers(fs, depth);
    hide Level, ChildrenOfAll, InQueueOrder, Reached;
    DrainLevel(fs, Level(fs, depth), [], depth, maxDepth);
    assert Level(fs, depth) + [] == Level(fs, depth);
    if depth < maxDepth {
      NextLevel(fs, depth);
      QueueFromLevel(fs, depth + 1, maxDepth);
    } else {
      NothingQueued(fs, maxDepth);
    }
  }

  lemma NothingQueued(fs: Files, maxDepth: nat)
    ensures InQueueOrder(fs, [] + [], maxDepth) == []
  {
    var none: seq<Path> := [];
    assert none + none == none;
  }

  lemma NextLevel(fs: Files, depth: nat)
    ensures Level(fs, depth + 1) == [] + ChildrenOfAll(fs, Level(fs, depth), true)
  {
  }

  // ---- which files, how often, in what order ----

  lemma {:induction false} DistinctNames(names: seq<string>, taken: set<string>)
    ensures forall n :: n in Distinct(names, taken) <==> n in names && !Skipped(n) && n !in taken
    ensures forall i, j :: 0 <= i < j < |Distinct(names, taken)|
                           ==> Distinct(names, taken)[i] != Distinct(names, taken)[j]
  {
    hide Skipped;
    if names != [] {
      var rest := names[1..];
      DistinctNames(rest, taken);
      DistinctNames(rest, taken + {names[0]});
      assert forall n :: n in names <==> n == names[0] || n in rest;
    }
  }

  /** A directory the walk can stand in: every step listed, not skipped, and a directory. */
  predicate Reached(fs: Files, dir: Path) {
    dir.Root? || (Listed(fs, dir) && fs.isDirectory(dir) == Some(true) && Reached(fs, dir.dir))
  }

  predicate Listed(fs: Files, p: Path)
    requires p.In?
  {
    var listing := fs.readdir(p.dir);
    listing.Some? && p.name in listing.value && p.name != ".git" && p.name != "node_modules"
  }

  lemma ChildrenMembers(fs: Files, dir: Path, p: Path, directories: bool)
    ensures p in Children(fs, dir, Names(fs, dir), directories)
            <==> p.In? && p.dir == dir && Listed(fs, p) && fs.isDirectory(p) == Some(directories)
  {
    hide Children;
    ChildrenAreBelow(fs, dir, Names(fs, dir), directories);
    if fs.readdir(dir).Some? {
      DistinctNames(fs.readdir(dir).value, {});
    }
  }

  lemma {:induction false} ChildrenOfAllMembers(fs: Files, dirs: seq<Path>, p: Path, directories: bool)
    ensures p in ChildrenOfAll(fs, dirs, directories)
            <==> p.In? && p.dir in dirs && Listed(fs, p) && fs.isDirectory(p) == Some(directories)
  {
    hide Children, Listed;
    if dirs != [] {
      ChildrenMembers(fs, dirs[0], p, directories);
      ChildrenOfAllMembers(fs, dirs[1..], p, directories);
    }
  }

  lemma {:induction false} LevelMembers(fs: Files, depth: nat)
    ensures forall p :: p in Level(fs, depth) <==> Depth(p) == depth && Reached(fs, p)
  {
    if depth > 0 {
      hide Listed, ChildrenOfAll;
      LevelMembers(fs, depth - 1);
      forall p: Path ensures p in Level(fs, depth) <==> Depth(p) == depth && Reached(fs, p) {
        ChildrenOfAllMembers(fs, Level(fs, depth - 1), p, true);
      }
    }
  }

  /** Files in the order of their depth, none twice. */
  predicate Staged(ps: seq<Path>) {
    forall i, j :: 0 <= i < j < |ps| ==> ps[i] != ps[j] && Depth(ps[i]) <= Depth(ps[j])
  }

  lemma StagedAppend(x: seq<Path>, y: seq<Path>)
    requires Staged(x) && Staged(y) && forall p, q :: p in x && q in y ==> p != q && Depth(p) <= Depth(q)
    ensures Staged(x + y)
  {
    var xy := x + y;
    forall i, j | 0 <= i < j < |xy| ensures xy[i] != xy[j] && Depth(xy[i]) <= Depth(xy[j]) {
      assert xy[i] == if i < |x| then x[i] else y[i - |x|];
      assert xy[j] == if j < |x| then x[j] else y[j - |x|];
      assert i < |x| <= j ==> xy[i] in x && xy[j] in y;
    }
  }

  lemma {:induction false} ChildrenStaged(fs: Files, dir: Path, names: seq<string>, directories: bool)
    requires forall i, j :: 0 <= i < j < |names| ==> names[i] != names[j]
    ensures Staged(Children(fs, dir, names, directories))
  {
    if names != [] {
      var rest := names[1..];
      assert forall i, j :: 0 <= i < j < |rest| ==> rest[i] == names[i + 1] && rest[j] == names[j + 1];
      ChildrenStaged(fs, dir, rest, directories);
      ChildrenAreBelow(fs, dir, rest, directories);
      var p := In(dir, names[0]);
      var first: seq<Path> := if fs.isDirectory(p) == Some(directories) then [p] else [];
      assert names[0] !in rest;
      StagedAppend(first, Children(fs, dir, rest, directories));
    }
  }

  /** The position of a name's first mention in a listing. */
  function FirstAt(names: seq<string>, n: string): nat {
    if names == [] || names[0] == n then 0 else 1 + FirstAt(names[1..], n)
  }

  function Listing(fs: Files, dir: Path): seq<string> {
    if fs.readdir(dir).Some? then fs.readdir(dir).value else []
  }

  /** `p` comes before `q` in level order: it is less deep, or its directory comes first, or its name does in
      the listing of the directory they share. */
  predicate Earlier(fs: Files, p: Path, q: Path) {
    || Depth(p) < Depth(q)
    || (Depth(p) == Depth(q) && p.In?
        && if p.dir == q.dir then FirstAt(Listing(fs, p.dir), p.name) < FirstAt(Listing(fs, p.dir), q.name)
           else Earlier(fs, p.dir, q.dir))
  }

  predicate InOrder(fs: Files, ps: seq<Path>) {
    forall i, j :: 0 <= i < j < |ps| ==> Earlier(fs, ps[i], ps[j])
  }

  lemma InOrderAppend(fs: Files, x: seq<Path>, y: seq<Path>)
    requires InOrder(fs, x) && InOrder(fs, y) && forall p, q :: p in x && q in y ==> Earlier(fs, p, q)
    ensures InOrder(fs, x + y)
  {
    hide Earlier;
    var xy := x + y;
    forall i, j | 0 <= i < j < |xy| ensures Earlier(fs, xy[i], xy[j]) {
      assert xy[i] == if i < |x| then x[i] else y[i - |x|];
      assert xy[j] == if j < |x| then x[j] else y[j - |x|];
      assert i < |x| <= j ==> xy[i] in x && xy[j] in y;
    }
  }

  lemma {:induction false} EarlierIsStrict(fs: Files, p: Path, q: Path)
    ensures Earlier(fs, p, q) ==> p != q && Depth(p) <= Depth(q)
  {
    if p.In? && q.In? {
      EarlierIsStrict(fs, p.dir, q.dir);
    }
  }

  lemma InOrderIsStaged(fs: Files, ps: seq<Path>)
    requires InOrder(fs, ps)
    ensures Staged(ps)
  {
    forall i, j | 0 <= i < j < |ps| ensures ps[i] != ps[j] && Depth(ps[i]) <= Depth(ps[j]) {
      EarlierIsStrict(fs, ps[i], ps[j]);
    }
  }

  predicate Mentioned(names: seq<string>, ds: seq<string>) {
    forall i, j :: 0 <= i < j < |ds| ==> FirstAt(names, ds[i]) < FirstAt(names, ds[j])
  }

  lemma MentionedTail(names: seq<string>, ds: seq<string>)
    requires names != [] && names[0] !in ds && Mentioned(names[1..], ds)
    ensures Mentioned(names, ds) && Mentioned(names, [names[0]] + ds)
  {
    forall i | 0 <= i < |ds| ensures ds[i] in ds && FirstAt(names, ds[i]) == 1 + FirstAt(names[1..], ds[i]) {}
    var all := [names[0]] + ds;
    assert forall i :: 0 < i < |all| ==> all[i] == ds[i - 1];
  }

  /** Duplicates dropped, names keep the order of their first mention. */
  lemma {:induction false} DistinctKeepsOrder(names: seq<string>, taken: set<string>)
    ensures Mentioned(names, Distinct(names, taken))
  {
    hide Skipped, FirstAt;
    if names != [] {
      var more := if Skipped(names[0]) || names[0] in taken then taken else taken + {names[0]};
      DistinctKeepsOrder(names[1..], more);
      DistinctNames(names[1..], more);
      MentionedTail(names, Distinct(names[1..], more));
    }
  }

  lemma {:induction false} ChildrenInOrder(fs: Files, dir: Path, names: seq<string>, directories: bool)
    requires forall i, j :: 0 <= i < j < |names| ==>
      FirstAt(Listing(fs, dir), names[i]) < FirstAt(Listing(fs, dir), names[j])
    ensures InOrder(fs, Children(fs, dir, names, directories))
  {
    hide FirstAt, Listing;
    if names != [] {
      var rest := names[1..];
      assert forall i, j :: 0 <= i < j < |rest| ==> rest[i] == names[i + 1] && rest[j] == names[j + 1];
      ChildrenInOrder(fs, dir, rest, directories);
      ChildrenAreBelow(fs, dir, rest, directories);
      var p := In(dir, names[0]);
      var first: seq<Path> := if fs.isDirectory(p) == Some(directories) then [p] else [];
      forall q | q in Children(fs, dir, rest, directories) ensures Earlier(fs, p, q) {
        var k :| 0 <= k < |rest| && rest[k] == q.name;
        assert names[k + 1] == q.name;
      }
      InOrderAppend(fs, first, Children(fs, dir, rest, directories));
    }
  }

  lemma {:induction false} ChildrenOfAllInOrder(fs: Files, dirs: seq<Path>, depth: nat, directories: bool)
    requires InOrder(fs, dirs) && forall p <- dirs :: Depth(p) == depth
    ensures InOrder(fs, ChildrenOfAll(fs, dirs, directories))
    ensures forall p <- ChildrenOfAll(fs, dirs, directories) :: Depth(p) == depth + 1
  {
    hide Children, Listed, ChildrenOfAll, Listing, FirstAt;
    if dirs == [] {
      NoChildren(fs, directories);
    }
    forall p | p in ChildrenOfAll(fs, dirs, directories) ensures Depth(p) == depth + 1 {
      ChildrenOfAllMembers(fs, dirs, p, directories);
    }
    if dirs != [] {
      var d, rest := dirs[0], dirs[1..];
      assert forall i, j :: 0 <= i < j < |rest| ==> rest[i] == dirs[i + 1] && rest[j] == dirs[j + 1];
      ChildrenOfAllInOrder(fs, rest, depth, directories);
      var x, y := Children(fs, d, Names(fs, d), directories), ChildrenOfAll(fs, rest, directories);
      OneDirectory(fs, dirs, directories);
      NamesInOrder(fs, d);
      ChildrenInOrder(fs, d, Names(fs, d), directories);
      forall p, q | p in x && q in y ensures Earlier(fs, p, q) {
        ChildrenMembers(fs, d, p, directories);
        ChildrenOfAllMembers(fs, rest, q, directories);
        var k :| 0 <= k < |rest| && rest[k] == q.dir;
        assert Earlier(fs, dirs[0], dirs[k + 1]);
        EarlierIsStrict(fs, d, q.dir);
      }
      InOrderAppend(fs, x, y);
    }
  }

  lemma NamesInOrder(fs: Files, dir: Path)
    ensures var names := Names(fs, dir);
      forall i, j :: 0 <= i < j < |names| ==>
        FirstAt(Listing(fs, dir), names[i]) < FirstAt(Listing(fs, dir), names[j])
  {
    if fs.readdir(dir).Some? {
      DistinctKeepsOrder(fs.readdir(dir).value, {});
    } else {
      assert Names(fs, dir) == [];
    }
  }

  lemma NoChildren(fs: Files, directories: bool)
    ensures ChildrenOfAll(fs, [], directories) == []
  {
  }

  lemma {:induction false} LevelInOrder(fs: Files, depth: nat)
    ensures InOrder(fs, Level(fs, depth))
  {
    hide ChildrenOfAll, Earlier;
    if depth > 0 {
      LevelInOrder(fs, depth - 1);
      LevelMembers(fs, depth - 1);
      ChildrenOfAllInOrder(fs, Level(fs, depth - 1), depth - 1, true);
    }
  }

  predicate IsFile(fs: Files, p: Path) {
    p.In? && Reached(fs, p.dir) && Listed(fs, p) && fs.isDirectory(p) == Some(false)
  }

  lemma {:induction false} LevelOrderInOrder(fs: Files, depth: nat, maxDepth: nat)
    requires depth <= maxDepth
    ensures InOrder(fs, LevelOrder(fs, depth, maxDepth))
    ensures forall p :: p in LevelOrder(fs, depth, maxDepth) <==> IsFile(fs, p) && depth < Depth(p) <= maxDepth + 1
    decreases maxDepth - depth
  {
    hide Reached, Listed, ChildrenOfAll, Level;
    var level := Level(fs, depth);
    var here := ChildrenOfAll(fs, level, false);
    LevelMembers(fs, depth);
    LevelInOrder(fs, depth);
    ChildrenOfAllInOrder(fs, level, depth, false);
    forall p: Path ensures p in here <==> IsFile(fs, p) && Depth(p) == depth + 1 {
      ChildrenOfAllMembers(fs, level, p, false);
    }
    if depth < maxDepth {
      LevelOrderInOrder(fs, depth + 1, maxDepth);
      InOrderAppend(fs, here, LevelOrder(fs, depth + 1, maxDepth));
    } else {
      assert here + [] == here;
    }
  }

  /** The unbounded walk visits exactly the files below the start that can be reached without a skipped name
      within the depth limit, each once, in level order: depth by depth, directory after directory, and in a
      directory in the order of its listing. */
  lemma WalkVisitsEachFileOnce(fs: Files, maxDepth: nat)
    ensures All(fs, maxDepth) == LevelOrder(fs, 0, maxDepth)
    ensures forall p :: p in All(fs, maxDepth) <==> IsFile(fs, p) && Depth(p) <= maxDepth + 1
    ensures InOrder(fs, All(fs, maxDepth)) && Staged(All(fs, maxDepth))
  {
    hide Reached, Listed, ChildrenOfAll, InQueueOrder, LevelOrder;
    QueueFromLevel(fs, 0, maxDepth);
    LevelOrderInOrder(fs, 0, maxDepth);
    InOrderIsStaged(fs, All(fs, maxDepth));
  }

  // ---- the code ----

  datatype Item = Item(dir: Path, depth: nat)

  datatype Ending = Finished | LimitReached | Stopped | OutOfTime

  function Dirs(queue: seq<Item>): seq<Path> {
    seq(|queue|, i requires 0 <= i < |queue| => queue[i].dir)
  }

  /** The visitor let the walk go on after every file so far. */
  ghost predicate WentOn(more: seq<Path> -> bool, seen: seq<Path>) {
    forall i :: 0 < i <= |seen| ==> more(seen[..i])
  }

  /** How a walk over `all` may end: everything seen; the file cap, with more to see; the visitor's refusal,
      just after the file refused; the deadline. Before the last file the visitor never refused. */
  ghost predicate EndsWell(all: seq<Path>, seen: seq<Path>, maxFiles: nat, more: seq<Path> -> bool,
                           late: nat -> bool, ending: Ending) {
    && seen <= all && |seen| <= maxFiles
    && match ending
       case Finished => seen == all && WentOn(more, seen)
       case LimitReached => |seen| == maxFiles < |all| && WentOn(more, seen)
       case Stopped => seen != [] && !more(seen) && WentOn(more, seen[..|seen| - 1])
       case OutOfTime => (exists k: nat :: late(k)) && WentOn(more, seen)
  }

  lemma {:induction false} DistinctGrows(names: seq<string>, i: nat, taken: set<string>)
    requires i < |names|
    ensures Distinct(names[..i + 1], taken)
            == Distinct(names[..i], taken)
               + if Skipped(names[i]) || names[i] in taken || names[i] in names[..i] then [] else [names[i]]
    decreases i
  {
    hide Skipped;
    if i == 0 {
      assert names[..1] == [names[0]] && names[..1][1..] == [];
    } else {
      var rest := names[1..];
      assert names[..i + 1][1..] == rest[..i] && names[..i][1..] == rest[..i - 1];
      assert names[i] in names[..i] <==> names[i] == names[0] || names[i] in rest[..i - 1];
      DistinctGrows(rest, i - 1, if Skipped(names[0]) || names[0] in taken then taken else taken + {names[0]});
    }
  }

  lemma {:induction false} ChildrenGrow(fs: Files, dir: Path, a: seq<string>, n: string, directories: bool)
    ensures Children(fs, dir, a + [n], directories)
            == Children(fs, dir, a, directories)
               + if fs.isDirectory(In(dir, n)) == Some(directories) then [In(dir, n)] else []
  {
    if a == [] {
      assert a + [n] == [n];
    } else {
      assert (a + [n])[1..] == a[1..] + [n];
      ChildrenGrow(fs, dir, a[1..], n, directories);
    }
  }

  lemma {:induction false} PrefixOfChildren(fs: Files, dir: Path, names: seq<string>, i: nat, directories: bool)
    requires i <= |names|
    ensures Children(fs, dir, Distinct(names[..i], {}), directories)
            <= Children(fs, dir, Distinct(names, {}), directories)
    decreases |names| - i
  {
    if i == |names| {
      assert names[..i] == names;
    } else {
      hide Distinct, Children;
      PrefixOfChildren(fs, dir, names, i + 1, directories);
      DistinctGrows(names, i, {});
      var a := Distinct(names[..i], {});
      if Distinct(names[..i + 1], {}) == a + [names[i]] {
        ChildrenGrow(fs, dir, a, names[i], directories);
      } else {
        assert a + [] == a;
      }
    }
  }

  /** The loop over one listing. */
  method ScanListing(fs: Files, limits: Limits, more: seq<Path> -> bool, late: nat -> bool,
                     item: Item, names: seq<string>,
                     queue0: seq<Item>, visited0: set<Path>, seen0: seq<Path>, checks0: nat)
    returns (queue: seq<Item>, visited: set<Path>, seen: seq<Path>, checks: nat, ending: Ending)
    requires forall v <- visited0 :: v.In? && v.dir != item.dir
    requires |seen0| <= limits.maxFiles && WentOn(more, seen0)
    ensures EndsWell(seen0 + Children(fs, item.dir, Distinct(names, {}), false), seen,
                     limits.maxFiles, more, late, ending)
    ensures seen0 <= seen
    ensures ending.Finished? ==>
      && forall v :: v in visited <==>
           v in visited0 || (v.In? && v.dir == item.dir && v.name in names && !Skipped(v.name))
    ensures ending.Finished? ==>
      Dirs(queue) == Dirs(queue0) + if item.depth + 1 <= limits.maxDepth
                                    then Children(fs, item.dir, Distinct(names, {}), true) else []
    ensures ending.Finished? ==>
              queue0 <= queue && forall i :: |queue0| <= i < |queue| ==> queue[i].depth == item.depth + 1
  {
    hide Distinct, Children, Skipped;
    var dir := item.dir;
    queue, visited, seen, checks := queue0, visited0, seen0, checks0;
    ghost var all := seen0 + Children(fs, dir, Distinct(names, {}), false);
    NothingScanned(fs, dir);
    for i := 0 to |names|
      invariant seen == seen0 + Children(fs, dir, Distinct(names[..i], {}), false)
      invariant |seen| <= limits.maxFiles && WentOn(more, seen)
      invariant forall v :: v in visited <==>
        v in visited0 || (v.In? && v.dir == dir && v.name in names[..i] && !Skipped(v.name))
      invariant Dirs(queue) == Dirs(queue0) + if item.depth + 1 <= limits.maxDepth
                                              then Children(fs, dir, Distinct(names[..i], {}), true) else []
      invariant queue0 <= queue && forall j :: |queue0| <= j < |queue| ==> queue[j].depth == item.depth + 1
    {
      PrefixOfChildren(fs, dir, names, i, false);
      PrefixOfChildren(fs, dir, names, i + 1, false);
      DistinctGrows(names, i, {});
      assert names[..i + 1] == names[..i] + [names[i]];
      var now := late(checks);
      checks := checks + 1;
      if now {
        return queue, visited, seen, checks, OutOfTime;
      }
      var child := In(dir, names[i]);
      if Skipped(names[i]) || child in visited {
        assert Distinct(names[..i], {}) + [] == Distinct(names[..i], {});
        continue;
      }
      visited := visited + {child};
      ChildrenGrow(fs, dir, Distinct(names[..i], {}), names[i], false);
      ChildrenGrow(fs, dir, Distinct(names[..i], {}), names[i], true);
      var kind := fs.isDirectory(child);
      if kind.None? {
        continue;
      }
      if kind.value {
        if item.depth + 1 <= limits.maxDepth {
          queue := queue + [Item(child, item.depth + 1)];
          assert Dirs(queue) == Dirs(queue[..|queue| - 1]) + [child];
        }
      } else {
        assert seen + [child] == seen0 + Children(fs, dir, Distinct(names[..i + 1], {}), false);
        assert seen + [child] <= all;
        if |seen| + 1 > limits.maxFiles {
          return queue, visited, seen, checks, LimitReached;
        }
        seen := seen + [child];
        assert seen[..|seen| - 1] == seen0 + Children(fs, dir, Distinct(names[..i], {}), false);
        if !more(seen) {
          return queue, visited, seen, checks, Stopped;
        }
        WentOnOnce(more, seen);
      }
    }
    assert names[..|names|] == names;
    ending := Finished;
  }

  lemma NothingScanned(fs: Files, dir: Path)
    ensures forall k: bool :: Children(fs, dir, Distinct([], {}), k) == []
  {
  }

  lemma WentOnOnce(more: seq<Path> -> bool, seen: seq<Path>)
    requires seen != [] && WentOn(more, seen[..|seen| - 1]) && more(seen)
    ensures WentOn(more, seen)
  {
    forall i | 0 < i <= |seen| ensures more(seen[..i]) {
      if i < |seen| {
        assert seen[..|seen| - 1][..i] == seen[..i];
      } else {
        assert seen[..i] == seen;
      }
    }
  }

  /** The queue holds different directories, with their depth; every visited path but a child of the start has
      its directory visited; no child of a queued directory is visited yet. */
  ghost predicate QueueOk(queue: seq<Item>, visited: set<Path>) {
    && (forall i :: 0 <= i < |queue| ==> queue[i].depth == Depth(queue[i].dir))
    && (forall i :: 0 <= i < |queue| ==> queue[i].dir.Root? || queue[i].dir in visited)
    && (forall i, j :: 0 <= i < j < |queue| ==> queue[i].dir != queue[j].dir)
    && (forall v <- visited :: v.In? && (v.dir.Root? || v.dir in visited))
    && (forall i, v :: 0 <= i < |queue| && v in visited ==> v.dir != queue[i].dir)
  }

  lemma QueueStaysOk(fs: Files, queue0: seq<Item>, visited0: set<Path>, names: seq<string>,
                     queue: seq<Item>, visited: set<Path>, directories: bool)
    requires queue0 != [] && QueueOk(queue0, visited0)
    requires forall v :: v in visited <==>
      v in visited0 || (v.In? && v.dir == queue0[0].dir && v.name in names && !Skipped(v.name))
    requires queue0[1..] <= queue
    requires Dirs(queue) == Dirs(queue0[1..])
                            + if directories then Children(fs, queue0[0].dir, Distinct(names, {}), true) else []
    requires forall i :: |queue0| - 1 <= i < |queue| ==> queue[i].depth == queue0[0].depth + 1
    ensures QueueOk(queue, visited)
  {
    hide Children, Distinct, Skipped;
    var dir, n := queue0[0].dir, |queue0| - 1;
    var children := Children(fs, dir, Distinct(names, {}), true);
    DistinctNames(names, {});
    ChildrenAreBelow(fs, dir, Distinct(names, {}), true);
    ChildrenStaged(fs, dir, Distinct(names, {}), true);
    forall i | 0 <= i < |queue|
      ensures if i < n then queue[i] == queue0[i + 1]
              else i - n < |children| && queue[i].dir == children[i - n] && queue[i].dir in children
    {
      if i < n {
        assert queue[i] == queue0[1..][i];
      } else {
        assert Dirs(queue)[i] == queue[i].dir;
      }
    }
  }

  /** `walkFiles`: some first part of all files, and an ending that says why no more. */
  method Walk(fs: Files, limits: Limits, more: seq<Path> -> bool, late: nat -> bool)
    returns (seen: seq<Path>, ending: Ending)
    ensures EndsWell(All(fs, limits.maxDepth), seen, limits.maxFiles, more, late, ending)
  {
    hide Distinct, Children, Skipped, InQueueOrder, QueueCost;
    var queue, visited := [Item(Root, 0)], {};
    var checks := 0;
    seen := [];
    assert Dirs(queue) == [Root];
    while queue != []
      invariant |seen| <= limits.maxFiles && WentOn(more, seen)
      invariant seen + InQueueOrder(fs, Dirs(queue), limits.maxDepth) == All(fs, limits.maxDepth)
      invariant QueueOk(queue, visited)
      decreases QueueCost(fs, Dirs(queue), limits.maxDepth)
    {
      ghost var queue0, seen0, visited0 := queue, seen, visited;
      var now := late(checks);
      checks := checks + 1;
      if now {
        return seen, OutOfTime;
      }
      var item := queue[0];
      OneTaken(fs, Dirs(queue), limits.maxDepth);
      QueueShrinks(fs, Dirs(queue), limits.maxDepth);
      queue := queue[1..];
      assert Dirs(queue) == Dirs(queue0)[1..] && Dirs(queue0)[0] == item.dir;
      var listing := fs.readdir(item.dir);
      ghost var names := if listing.Some? then listing.value else [];
      ghost var pushed := Pushed(fs, item.dir, limits.maxDepth);
      ghost var rest := InQueueOrder(fs, Dirs(queue) + pushed, limits.maxDepth);
      NamesAre(fs, item.dir, names);
      if listing.Some? {
        queue, visited, seen, checks, ending :=
          ScanListing(fs, limits, more, late, item, listing.value, queue, visited, seen, checks);
        EndsWithin(seen0 + FilesIn(fs, item.dir), rest, seen, limits.maxFiles, more, late, ending);
        ThreeParts(seen0, FilesIn(fs, item.dir), rest);
        if !ending.Finished? {
          return;
        }
      } else {
        assert FilesIn(fs, item.dir) == [] && pushed == [] && Dirs(queue) + [] == Dirs(queue);
        ThreeParts(seen0, [], rest);
        assert seen0 + [] == seen0;
      }
      assert Dirs(queue) == Dirs(queue0[1..]) + pushed;
      QueueStaysOk(fs, queue0, visited0, names, queue, visited, item.depth + 1 <= limits.maxDepth);
    }
    NothingInQueue(fs, limits.maxDepth);
    assert Dirs(queue) == [] && seen + [] == seen;
    ending := Finished;
  }

  lemma NamesAre(fs: Files, dir: Path, names: seq<string>)
    requires names == if fs.readdir(dir).Some? then fs.readdir(dir).value else []
    ensures Names(fs, dir) == Distinct(names, {})
    ensures fs.readdir(dir).None? ==> FilesIn(fs, dir) == [] && DirsIn(fs, dir) == []
  {
  }

  lemma NothingInQueue(fs: Files, maxDepth: nat)
    ensures InQueueOrder(fs, [], maxDepth) == []
  {
  }

  lemma EndsWithin(part: seq<Path>, rest: seq<Path>, seen: seq<Path>, maxFiles: nat, more: seq<Path> -> bool,
                   late: nat -> bool, ending: Ending)
    requires EndsWell(part, seen, maxFiles, more, late, ending)
    ensures !ending.Finished? ==> EndsWell(part + rest, seen, maxFiles, more, late, ending)
  {
  }

  /** With time to spare, room for every file and a visitor that never refuses, the walk visits every file the
      depth limit allows, each once, in level order. */
  lemma UnhinderedWalkSeesAll(fs: Files, limits: Limits, more: seq<Path> -> bool, late: nat -> bool,
                              seen: seq<Path>, ending: Ending)
    requires EndsWell(All(fs, limits.maxDepth), seen, limits.maxFiles, more, late, ending)
    requires (forall k: nat :: !late(k)) && (forall h :: more(h)) && |All(fs, limits.maxDepth)| <= limits.maxFiles
    ensures seen == All(fs, limits.maxDepth)
  {
    assert ending.Stopped? ==> more(seen);
  }

  // ---- find ----

  function Matching(ps: seq<Path>, matches: Path -> bool): seq<Path> {
    if ps == [] then []
    else Matching(ps[..|ps| - 1], matches) + if matches(ps[|ps| - 1]) then [ps[|ps| - 1]] else []
  }

  function First(ps: seq<Path>, n: nat): (r: seq<Path>)
    ensures r <= ps && |r| == if n <= |ps| then n else |ps|
  {
    if n <= |ps| then ps[..n] else ps
  }

  /** What the visitor of `find` answers: it gives up once `limit` matches are in. */
  function FindMore(matches: Path -> bool, limit: nat): seq<Path> -> bool {
    seen => |Matching(seen, matches)| < limit
  }

  ghost predicate Before(ps: seq<Path>, p: Path, q: Path) {
    exists i, j :: 0 <= i < j < |ps| && ps[i] == p && ps[j] == q
  }

  /** The results are walked files that match, in the order of the walk, no more than the limit. */
  ghost predicate Finds(walked: seq<Path>, matches: Path -> bool, limit: nat, results: seq<Path>) {
    && |results| <= limit
    && (forall p <- results :: p in walked && matches(p))
    && (forall i, j :: 0 <= i < j < |results| ==> Before(walked, results[i], results[j]))
  }

  /** Nothing that matches is missing, but for what comes after a full list of results. */
  ghost predicate MissesNothing(walked: seq<Path>, matches: Path -> bool, limit: nat, results: seq<Path>) {
    forall p :: p in walked && matches(p) && p !in results ==>
      |results| == limit && forall q <- results :: Before(walked, q, p)
  }

  lemma {:induction false} MatchingSelects(ps: seq<Path>, matches: Path -> bool)
    ensures forall p :: p in Matching(ps, matches) <==> p in ps && matches(p)
    ensures var ms := Matching(ps, matches); forall i, j :: 0 <= i < j < |ms| ==> Before(ps, ms[i], ms[j])
  {
    if ps != [] {
      var n := |ps| - 1;
      var init := ps[..n];
      MatchingSelects(init, matches);
      var ms := Matching(ps, matches);
      assert ps == init + [ps[n]];
      forall i, j | 0 <= i < j < |ms| ensures Before(ps, ms[i], ms[j]) {
        if j < |Matching(init, matches)| {
          assert ms[i] == Matching(init, matches)[i] && ms[j] == Matching(init, matches)[j];
          assert Before(init, ms[i], ms[j]);
          var a, b :| 0 <= a < b < |init| && init[a] == ms[i] && init[b] == ms[j];
          assert ps[a] == ms[i] && ps[b] == ms[j];
        } else {
          assert ms[i] in Matching(init, matches);
          var a :| 0 <= a < |init| && init[a] == ms[i];
          assert ps[a] == ms[i] && ps[n] == ms[j];
        }
      }
    }
  }

  /** The first `limit` matches are found in that sense. */
  lemma FirstMatchesAreFound(walked: seq<Path>, matches: Path -> bool, limit: nat, results: seq<Path>)
    requires results <= First(Matching(walked, matches), limit)
    ensures Finds(walked, matches, limit, results)
    ensures results == First(Matching(walked, matches), limit) ==> MissesNothing(walked, matches, limit, results)
  {
    hide Before;
    var ms := Matching(walked, matches);
    MatchingSelects(walked, matches);
    forall i | 0 <= i < |results| ensures results[i] == ms[i] && results[i] in ms {}
    if results == First(ms, limit) {
      forall p | p in walked && matches(p) && p !in results
        ensures |results| == limit && forall q <- results :: Before(walked, q, p)
      {
        var k :| 0 <= k < |ms| && ms[k] == p;
        assert p !in results && forall i :: 0 <= i < |results| ==> results[i] in results;
      }
    }
  }

  /** `find`; `matches` stands for the glob test of the base name or of the whole relative path. */
  method Find(fs: Files, limits: Limits, matches: Path -> bool, limit: nat, late: nat -> bool)
    returns (results: seq<Path>, ending: Ending)
    ensures Finds(First(All(fs, limits.maxDepth), limits.maxFiles), matches, limit, results)
    ensures !ending.OutOfTime? ==>
              MissesNothing(First(All(fs, limits.maxDepth), limits.maxFiles), matches, limit, results)
    ensures ending.OutOfTime? ==> exists k: nat :: late(k)
  {
    var seen: seq<Path>;
    seen, ending := Walk(fs, limits, FindMore(matches, limit), late);
    results := First(Matching(seen, matches), limit);
    var all := All(fs, limits.maxDepth);
    var within := First(all, limits.maxFiles);
    MatchingPrefix(seen, within, matches);
    assert ending.Finished? || ending.LimitReached? ==> seen == within;
    assert ending.Stopped? ==> |Matching(seen, matches)| >= limit;
    assert ending.Stopped? ==> Matching(seen, matches)[..limit] == Matching(within, matches)[..limit];
    FirstMatchesAreFound(within, matches, limit, results);
  }

  lemma {:induction false} MatchingPrefix(a: seq<Path>, b: seq<Path>, matches: Path -> bool)
    requires a <= b
    ensures Matching(a, matches) <= Matching(b, matches)
  {
    if |a| < |b| {
      assert a <= b[..|b| - 1];
      MatchingPrefix(a, b[..|b| - 1], matches);
    } else {
      assert a == b;
    }
  }
}
