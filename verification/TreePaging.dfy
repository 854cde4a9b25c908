/** The cursor-paged tree walk (`walkTree`, src/services/workspace-storage.ts). */
module TreePaging {
  import opened Common

  /** A listing entry, with a directory's own listing in the order the code sorts it. */
  datatype Node = File(name: Str) | Link(name: Str) | Dir(name: Str, children: seq<Node>)

  /** The fields of an emitted entry that the walk computes. */
  datatype Entry = Entry(path: Str, isDir: bool, depth: nat)

  datatype Limits = Limits(ignore: seq<Str>, maxDepth: nat, maxEntries: nat)

  function PathOf(prefix: Str, name: Str): Str {
    if prefix == [] then name else prefix + [SLASH] + name
  }

  // ---- the uncapped walk ----

  function Emitted(l: Limits, prefix: Str, n: Node, depth: nat): seq<Entry>
    decreases n, 1
  {
    match n
    case Link(_) => []
    case File(name) => [Entry(PathOf(prefix, name), false, depth)]
    case Dir(name, children) =>
      if name in l.ignore then []
      else [Entry(PathOf(prefix, name), true, depth)] + Below(l, prefix, n, depth)
  }

  /** What a directory's own listing contributes. */
  function Below(l: Limits, prefix: Str, n: Node, depth: nat): seq<Entry>
    decreases n, 0
  {
    if n.Dir? && depth < l.maxDepth then Walk(l, PathOf(prefix, n.name), n.children, depth + 1) else []
  }

  function Walk(l: Limits, prefix: Str, ns: seq<Node>, depth: nat): seq<Entry>
    decreases ns
  {
    if ns == [] then [] else Emitted(l, prefix, ns[0], depth) + Walk(l, prefix, ns[1..], depth)
  }

  /** The entries after the cursor; an empty cursor is none. */
  function After(es: seq<Entry>, cursor: Str): seq<Entry> {
    if es == [] then []
    else (if cursor == [] || Less(cursor, es[0].path) then [es[0]] else []) + After(es[1..], cursor)
  }

  // ---- the code ----

  class TreeWalk {
    const limits: Limits
    const afterPath: Str
    var entries: seq<Entry>
    var truncated: bool

    constructor (limits: Limits, afterPath: Str)
      ensures this.limits == limits && this.afterPath == afterPath
      ensures Holds([])
    {
      this.limits, this.afterPath := limits, afterPath;
      entries, truncated := [], false;
    }

    /** The state after being offered `seen`: its first maxEntries, and whether there was more. */
    ghost predicate Holds(seen: seq<Entry>)
      reads this
    {
      entries == First(seen, limits.maxEntries) && truncated == (|seen| > limits.maxEntries)
    }

    method Visit(ns: seq<Node>, prefix: Str, depth: nat, ghost seen: seq<Entry>)
      requires Holds(seen)
      modifies this
      ensures Holds(seen + After(Walk(limits, prefix, ns, depth), afterPath))
      decreases ns
    {
      hide Walk, After, Emitted, Below, First, PathOf, Less;
      if truncated {
        FirstStays(seen, After(Walk(limits, prefix, ns, depth), afterPath), limits.maxEntries);
        return;
      }
      ghost var now := seen;
      EmptyWalk(limits, prefix, depth, afterPath);
      for i := 0 to |ns|
        invariant now == seen + After(Walk(limits, prefix, ns[..i], depth), afterPath)
        invariant Holds(now)
      {
        var n := ns[i];
        ghost var here := After(Emitted(limits, prefix, n, depth), afterPath);
        ghost var rest := After(Walk(limits, prefix, ns[i + 1..], depth), afterPath);
        WalkSplits(limits, prefix, ns, i, depth, afterPath);
        Regroup(seen, After(Walk(limits, prefix, ns[..i], depth), afterPath), here, rest);
        OneEntry(limits, prefix, n, depth, afterPath);
        if truncated {
          FirstStays(now, here + rest, limits.maxEntries);
          return;
        }
        if n.Link? || (n.Dir? && n.name in limits.ignore) {
          assert now + here == now;
          continue;
        }
        var path := PathOf(prefix, n.name);
        ghost var below := After(Below(limits, prefix, n, depth), afterPath);
        Regroup(now, [], below, rest);
        if afterPath == [] || Less(afterPath, path) {
          ghost var e := Entry(path, n.Dir?, depth);
          Regroup(now, [e], below, rest);
          OfferOne(now, e, limits.maxEntries);
          if |entries| >= limits.maxEntries {
            truncated := true;
            FirstStays(now + [e], below + rest, limits.maxEntries);
            return;
          }
          entries := entries + [Entry(path, n.Dir?, depth)];
          now := now + [e];
        }
        if n.Dir? && depth < limits.maxDepth {
          Visit(n.children, path, depth + 1, now);
        }
        assert below == [] ==> now + below == now;
        now := now + below;
      }
      assert ns[..|ns|] == ns;
    }
  }

  lemma Regroup<T>(a: seq<T>, b: seq<T>, c: seq<T>, d: seq<T>)
    ensures a + (b + c + d) == a + b + (c + d) == a + b + c + d
    ensures a + (b + c) == a + b + c
    ensures b == [] ==> a + (b + c) == a + c
  {
  }

  lemma OfferOne<T>(s: seq<T>, e: T, n: nat)
    requires |s| <= n
    ensures |First(s, n)| == |s|
    ensures First(s + [e], n) == First(s, n) + if |s| < n then [e] else []
  {
    assert s[..|s|] == s;
  }

  lemma FirstStays<T>(s: seq<T>, more: seq<T>, n: nat)
    requires |s| > n
    ensures First(s + more, n) == First(s, n)
  {
  }

  lemma EmptyWalk(l: Limits, prefix: Str, depth: nat, cursor: Str)
    ensures After(Walk(l, prefix, [], depth), cursor) == []
  {
  }

  /** What one listing entry contributes after the cursor. */
  lemma OneEntry(l: Limits, prefix: Str, n: Node, depth: nat, cursor: Str)
    ensures After(Emitted(l, prefix, n, depth), cursor)
            == if n.Link? || (n.Dir? && n.name in l.ignore) then []
               else
                 var path := PathOf(prefix, n.name);
                 (if cursor == [] || Less(cursor, path) then [Entry(path, n.Dir?, depth)] else [])
                 + After(Below(l, prefix, n, depth), cursor)
    ensures n.Dir? && depth < l.maxDepth ==>
              Below(l, prefix, n, depth) == Walk(l, PathOf(prefix, n.name), n.children, depth + 1)
    ensures n.File? || depth >= l.maxDepth ==> After(Below(l, prefix, n, depth), cursor) == []
  {
    if n.File? || (n.Dir? && n.name !in l.ignore) {
      var e := Entry(PathOf(prefix, n.name), n.Dir?, depth);
      AfterAppends([e], Below(l, prefix, n, depth), cursor);
      assert [e][1..] == [];
    }
  }

  lemma WalkSplits(l: Limits, prefix: Str, ns: seq<Node>, i: nat, depth: nat, cursor: Str)
    requires i < |ns|
    ensures After(Walk(l, prefix, ns, depth), cursor)
            == After(Walk(l, prefix, ns[..i], depth), cursor) + After(Emitted(l, prefix, ns[i], depth), cursor)
               + After(Walk(l, prefix, ns[i + 1..], depth), cursor)
    ensures After(Walk(l, prefix, ns[..i + 1], depth), cursor)
            == After(Walk(l, prefix, ns[..i], depth), cursor) + After(Emitted(l, prefix, ns[i], depth), cursor)
  {
    hide After, Emitted;
    var a, b := Walk(l, prefix, ns[..i], depth), Emitted(l, prefix, ns[i], depth);
    var c := Walk(l, prefix, ns[i + 1..], depth);
    WalkInTwo(l, prefix, ns, i, depth);
    assert ns[i..][1..] == ns[i + 1..];
    AfterAppends(a, b + c, cursor);
    AfterAppends(b, c, cursor);
    WalkOneMore(l, prefix, ns, i, depth);
    AfterAppends(a, b, cursor);
  }

  lemma {:induction false} WalkInTwo(l: Limits, prefix: Str, ns: seq<Node>, i: nat, depth: nat)
    requires i <= |ns|
    ensures Walk(l, prefix, ns, depth) == Walk(l, prefix, ns[..i], depth) + Walk(l, prefix, ns[i..], depth)
    decreases i
  {
    if i == 0 {
      assert ns[..0] == [] && ns[0..] == ns;
    } else {
      assert ns[..i][1..] == ns[1..][..i - 1] && ns[i..] == ns[1..][i - 1..];
      WalkInTwo(l, prefix, ns[1..], i - 1, depth);
    }
  }

  function First<T>(s: seq<T>, n: nat): seq<T> {
    if n <= |s| then s[..n] else s
  }

  lemma {:induction false} WalkOneMore(l: Limits, prefix: Str, ns: seq<Node>, i: nat, depth: nat)
    requires i < |ns|
    ensures Walk(l, prefix, ns[..i + 1], depth) == Walk(l, prefix, ns[..i], depth) + Emitted(l, prefix, ns[i], depth)
    decreases i
  {
    if i == 0 {
      assert ns[..1][1..] == [] && ns[..0] == [];
    } else {
      assert ns[..i + 1][1..] == ns[1..][..i] && ns[..i][1..] == ns[1..][..i - 1];
      WalkOneMore(l, prefix, ns[1..], i - 1, depth);
    }
  }

  lemma {:induction false} AfterAppends(a: seq<Entry>, b: seq<Entry>, cursor: Str)
    ensures After(a + b, cursor) == After(a, cursor) + After(b, cursor)
  {
    if a == [] {
      assert a + b == b;
    } else {
      hide Less;
      assert (a + b)[1..] == a[1..] + b && (a + b)[0] == a[0];
      AfterAppends(a[1..], b, cursor);
    }
  }

  // ---- pages ----

  datatype Page = Page(entries: seq<Entry>, truncated: bool, next: Option<Str>)

  function PageOf(rest: seq<Entry>, maxEntries: nat): Page {
    var entries := First(rest, maxEntries);
    var truncated := |rest| > maxEntries;
    Page(entries, truncated, if truncated && entries != [] then Some(entries[|entries| - 1].path) else None)
  }

  /** One request: the first maxEntries of the entries of the full walk that lie after the cursor, truncated
      exactly when there are more. */
  method WalkTree(l: Limits, prefix: Str, ns: seq<Node>, afterPath: Str) returns (page: Page)
    ensures page == PageOf(After(Walk(l, prefix, ns, 0), afterPath), l.maxEntries)
  {
    var walk := new TreeWalk(l, afterPath);
    walk.Visit(ns, prefix, 0, []);
    assert [] + After(Walk(l, prefix, ns, 0), afterPath) == After(Walk(l, prefix, ns, 0), afterPath);
    var next: Option<Str> := None;
    if walk.truncated && |walk.entries| > 0 {
      next := Some(walk.entries[|walk.entries| - 1].path);
    }
    page := Page(walk.entries, walk.truncated, next);
  }

  predicate PathsNonempty(es: seq<Entry>) {
    forall i :: 0 <= i < |es| ==> es[i].path != []
  }

  lemma {:induction false} AfterIsSelection(es: seq<Entry>, cursor: Str)
    ensures forall e :: e in After(es, cursor) <==> e in es && (cursor == [] || Less(cursor, e.path))
  {
    if es != [] {
      hide Less;
      AfterIsSelection(es[1..], cursor);
      assert es == [es[0]] + es[1..];
    }
  }

  lemma {:induction false} LaterCursorKeepsLess(es: seq<Entry>, cursor: Str, later: Str)
    requires later != [] && (cursor == [] || Less(cursor, later))
    ensures |After(es, later)| <= |After(es, cursor)|
    ensures (exists e :: e in After(es, cursor) && e.path == later) ==> |After(es, later)| < |After(es, cursor)|
  {
    if es != [] {
      LaterCursorKeepsLess(es[1..], cursor, later);
      LessIsStrictOrder(cursor, later, es[0].path);
      LessIsStrictOrder(later, later, later);
      hide Less;
      if e :| e in After(es, cursor) && e.path == later {
        assert e == es[0] || e in After(es[1..], cursor);
      }
    }
  }

  /** All pages, from a cursor on, following each page's next cursor; it always ends. */
  function Follow(all: seq<Entry>, cursor: Str, maxEntries: nat): seq<Entry>
    requires PathsNonempty(all)
    decreases |After(all, cursor)|
  {
    var page := PageOf(After(all, cursor), maxEntries);
    if page.next.None? then page.entries
    else
      NextCursorShrinks(all, cursor, maxEntries);
      page.entries + Follow(all, page.next.value, maxEntries)
  }

  lemma NextCursorShrinks(all: seq<Entry>, cursor: Str, maxEntries: nat)
    requires PathsNonempty(all) && PageOf(After(all, cursor), maxEntries).next.Some?
    ensures |After(all, PageOf(After(all, cursor), maxEntries).next.value)| < |After(all, cursor)|
  {
    hide After;
    var rest := After(all, cursor);
    var last := rest[maxEntries - 1];
    assert First(rest, maxEntries)[maxEntries - 1] == last && last in rest;
    AfterIsSelection(all, cursor);
    LaterCursorKeepsLess(all, cursor, last.path);
  }

  predicate Increasing(es: seq<Entry>) {
    forall i, j :: 0 <= i < j < |es| ==> Less(es[i].path, es[j].path)
  }

  lemma {:induction false} AfterAll(es: seq<Entry>, cursor: Str)
    requires forall e <- es :: cursor == [] || Less(cursor, e.path)
    ensures After(es, cursor) == es
  {
    if es != [] {
      hide Less;
      AfterAll(es[1..], cursor);
      assert es == [es[0]] + es[1..];
    }
  }

  lemma {:induction false} AfterNone(es: seq<Entry>, cursor: Str)
    requires cursor != [] && forall e <- es :: !Less(cursor, e.path)
    ensures After(es, cursor) == []
  {
    if es != [] {
      hide Less;
      AfterNone(es[1..], cursor);
      assert es[0] in es;
    }
  }

  /** What follows the `k`-th entry, when the entries up to it increase. */
  lemma AfterKth(all: seq<Entry>, k: nat)
    requires PathsNonempty(all) && k < |all| && Increasing(all[..k + 1])
    ensures After(all, all[k].path) == After(all[k + 1..], all[k].path)
  {
    hide After, Less;
    var head, cursor := all[..k + 1], all[k].path;
    forall e | e in head ensures !Less(cursor, e.path) {
      var i :| 0 <= i <= k && head[i] == e;
      LessIsStrictOrder(cursor, e.path, cursor);
      assert i < k ==> Less(head[i].path, head[k].path);
    }
    AfterNone(head, cursor);
    AfterAppends(head, all[k + 1..], cursor);
    assert all == head + all[k + 1..];
  }

  lemma {:induction false} FollowIncreasing(all: seq<Entry>, k: nat, cursor: Str, maxEntries: nat)
    requires PathsNonempty(all) && Increasing(all) && maxEntries >= 1 && k <= |all|
    requires After(all, cursor) == all[k..]
    ensures Follow(all, cursor, maxEntries) == all[k..]
    decreases |all| - k
  {
    hide After, Less;
    var page := PageOf(all[k..], maxEntries);
    if page.next.Some? {
      var last := k + maxEntries - 1;
      assert page.entries == all[k..last + 1] && page.next.value == all[last].path;
      AfterKth(all, last);
      forall e | e in all[last + 1..] ensures Less(all[last].path, e.path) {
        var i :| 0 <= i < |all| - last - 1 && all[last + 1..][i] == e;
        assert e == all[last + 1 + i];
      }
      AfterAll(all[last + 1..], all[last].path);
      FollowIncreasing(all, last + 1, all[last].path, maxEntries);
      assert all[k..] == all[k..last + 1] + all[last + 1..];
    }
  }

  lemma OnePage(all: seq<Entry>, cursor: Str)
    requires PathsNonempty(all)
    ensures var rest := After(all, cursor);
      Follow(all, cursor, 1)
      == if rest == [] then [] else [rest[0]] + if |rest| == 1 then [] else Follow(all, rest[0].path, 1)
    ensures forall e :: e in After(all, cursor) ==> cursor == [] || Less(cursor, e.path)
  {
    hide After, Less;
    AfterIsSelection(all, cursor);
    var page := PageOf(After(all, cursor), 1);
  }

  /** One entry a page, while the walk increases: the pages so far are the walk so far. */
  lemma {:induction false} FollowOneByOne(all: seq<Entry>, k: nat)
    requires PathsNonempty(all) && k < |all| && Increasing(all[..k + 1])
    ensures Follow(all, [], 1) == all[..k + 1] + if k + 1 < |all| then Follow(all, all[k].path, 1) else []
    decreases k
  {
    hide After, Less, Follow;
    if k == 0 {
      AfterAll(all, []);
      OnePage(all, []);
    } else {
      IncreasingUpTo(all, k);
      FollowOneByOne(all, k - 1);
      var cursor := all[k - 1].path;
      OneMorePage(all, k);
      Regroup(all[..k], [all[k]], if k + 1 < |all| then Follow(all, all[k].path, 1) else [], []);
      assert all[..k] + [all[k]] == all[..k + 1];
    }
  }

  lemma OneMorePage(all: seq<Entry>, k: nat)
    requires PathsNonempty(all) && 0 < k < |all| && Increasing(all[..k]) && Less(all[k - 1].path, all[k].path)
    ensures Follow(all, all[k - 1].path, 1) == [all[k]] + if k + 1 < |all| then Follow(all, all[k].path, 1) else []
  {
    hide After, Less, Follow;
    var cursor := all[k - 1].path;
    NextAfterKth(all, k);
    if After(all, cursor) == [all[k]] {
      LastPage(all, k, cursor);
    }
    OnePage(all, cursor);
  }

  lemma NextAfterKth(all: seq<Entry>, k: nat)
    requires PathsNonempty(all) && 0 < k < |all| && Increasing(all[..k]) && Less(all[k - 1].path, all[k].path)
    ensures var rest := After(all, all[k - 1].path);
      rest != [] && rest[0] == all[k] && (k + 1 == |all| ==> |rest| == 1)
  {
    AfterKth(all, k - 1);
    hide Less;
    assert all[k..][0] == all[k];
    assert k + 1 == |all| ==> all[k..][1..] == [];
  }

  lemma IncreasingUpTo(all: seq<Entry>, k: nat)
    requires 0 < k < |all| && Increasing(all[..k + 1])
    ensures Increasing(all[..k]) && Less(all[k - 1].path, all[k].path)
  {
    hide Less;
    var long := all[..k + 1];
    assert long[k - 1] == all[k - 1] && long[k] == all[k];
    forall i, j | 0 <= i < j < k ensures Less(all[..k][i].path, all[..k][j].path) {
      assert all[..k][i] == long[i] && all[..k][j] == long[j];
    }
  }

  /** When a page shows the last entry after its cursor, nothing lies after that entry's own path. */
  lemma LastPage(all: seq<Entry>, k: nat, cursor: Str)
    requires PathsNonempty(all) && k < |all| && After(all, cursor) == [all[k]]
    ensures Follow(all, all[k].path, 1) == []
  {
    AfterIsSelection(all, cursor);
    assert all[k] in After(all, cursor);
    LaterCursorKeepsLess(all, cursor, all[k].path);
    assert After(all, all[k].path) == [];
  }

  lemma {:induction false} NextIsGreater(all: seq<Entry>, k: nat)
    requires PathsNonempty(all) && Follow(all, [], 1) == all && k < |all|
    ensures Increasing(all[..k + 1])
    decreases k
  {
    hide Less, After, Follow;
    if k > 0 {
      NextIsGreater(all, k - 1);
      FollowOneByOne(all, k - 1);
      var cursor := all[k - 1].path;
      assert all == all[..k] + all[k..];
      assert Follow(all, cursor, 1) == all[k..];
      OnePage(all, cursor);
      assert After(all, cursor)[0] == all[k..][0] == all[k];
      IncreasingByOne(all, k);
    }
  }

  lemma IncreasingByOne(all: seq<Entry>, k: nat)
    requires 0 < k < |all| && Increasing(all[..k]) && Less(all[k - 1].path, all[k].path)
    ensures Increasing(all[..k + 1])
  {
    hide Less;
    var short, long := all[..k], all[..k + 1];
    forall i, j | 0 <= i < j <= k ensures Less(long[i].path, long[j].path) {
      assert i < k - 1 ==> Less(short[i].path, short[k - 1].path);
      LessIsStrictOrder(all[i].path, all[k - 1].path, all[k].path);
      assert j < k ==> Less(short[i].path, short[j].path);
    }
  }

  ghost predicate PagesCompletely(all: seq<Entry>)
    requires PathsNonempty(all)
  {
    forall m: nat :: m >= 1 ==> Follow(all, [], m) == all
  }

  /** Following the cursors yields every entry exactly once, in order, for every page size, exactly when the
      walk's paths increase in the cursor's order. */
  lemma PagingIsCompleteExactlyWhenIncreasing(all: seq<Entry>)
    requires PathsNonempty(all)
    ensures PagesCompletely(all) <==> Increasing(all)
  {
    if Increasing(all) {
      forall m: nat | m >= 1 ensures Follow(all, [], m) == all {
        AfterAll(all, []);
        assert all[0..] == all;
        FollowIncreasing(all, 0, [], m);
      }
    }
    if PagesCompletely(all) {
      assert Follow(all, [], 1) == all;
      CompleteIsIncreasing(all);
    }
  }

  lemma CompleteIsIncreasing(all: seq<Entry>)
    requires PathsNonempty(all) && Follow(all, [], 1) == all
    ensures Increasing(all)
  {
    hide Less, After, Follow;
    if all != [] {
      NextIsGreater(all, |all| - 1);
      assert all[..|all| - 1 + 1] == all;
    }
  }

  /** A directory `docs` holding a file `a`, beside a file `docs.md`, in name order. */
  const DOCS_TREE := [Dir(DOCS, [File(A)]), File(DOCS + MD)]

  const A: Str := [0x61]
  const MD: Str := [0x2E, 0x6D, 0x64]

  lemma DocsWalk(l: Limits)
    requires DOCS !in l.ignore && l.maxDepth >= 1
    ensures Walk(l, [], DOCS_TREE, 0)
            == [Entry(DOCS, true, 0), Entry(DOCS + [SLASH] + A, false, 1), Entry(DOCS + MD, false, 0)]
  {
    var inside, md := File(A), File(DOCS + MD);
    var dir := Dir(DOCS, [inside]);
    var below := [Entry(DOCS + [SLASH] + A, false, 1)];
    var top, last := [Entry(DOCS, true, 0)], [Entry(DOCS + MD, false, 0)];
    assert [inside][1..] == [] && [md][1..] == [] && [dir, md][1..] == [md];
    assert Walk(l, DOCS, [inside], 1) == below + [];
    assert Emitted(l, [], dir, 0) == top + Below(l, [], dir, 0) == top + below;
    assert Walk(l, [], [md], 0) == last + [];
    assert Walk(l, [], [dir, md], 0) == top + below + last;
  }

  /** In that workspace, with one entry a page, the file `docs.md` is never shown. */
  lemma DocsMdIsLost(l: Limits)
    requires DOCS !in l.ignore && l.maxDepth >= 1
    ensures PathsNonempty(Walk(l, [], DOCS_TREE, 0))
    ensures Follow(Walk(l, [], DOCS_TREE, 0), [], 1) == [Entry(DOCS, true, 0), Entry(DOCS + [SLASH] + A, false, 1)]
  {
    DocsWalk(l);
    LosesTheThird(Entry(DOCS, true, 0), Entry(DOCS + [SLASH] + A, false, 1), Entry(DOCS + MD, false, 0));
  }

  lemma LosesTheThird(d: Entry, inside: Entry, md: Entry)
    requires d.path == DOCS && inside.path == DOCS + [SLASH] + A && md.path == DOCS + MD
    ensures Follow([d, inside, md], [], 1) == [d, inside]
  {
    var all := [d, inside, md];
    assert DOCS + [SLASH] + A == DOCS + ([SLASH] + A);
    LessCancels(DOCS, [], [SLASH] + A);
    LessCancels(DOCS, MD, [SLASH] + A);
    assert DOCS + [] == DOCS;
    LessIsStrictOrder(md.path, inside.path, md.path);
    hide Less;
    assert Increasing(all[..2]);
    FollowOneByOne(all, 1);
    AfterKth(all, 1);
    assert all[2..] == [md] && !Less(inside.path, md.path);
    AfterNone([md], inside.path);
    assert all[..2] == [d, inside];
  }

  const DOCS: Str := [0x64, 0x6F, 0x63, 0x73]

  // ---- which trees page completely ----

  predicate Proper(ns: seq<Node>)
    decreases ns
  {
    ns == [] || (ns[0].name != [] && SLASH !in ns[0].name && (ns[0].Dir? ==> Proper(ns[0].children)) && Proper(ns[1..]))
  }

  predicate Shown(l: Limits, n: Node) {
    n.File? || (n.Dir? && n.name !in l.ignore)
  }

  predicate HasBelow(l: Limits, n: Node, depth: nat) {
    n.Dir? && depth < l.maxDepth && exists i :: 0 <= i < |n.children| && Shown(l, n.children[i])
  }

  /** Siblings in an order the cursor can follow: by code units, even with what is beneath the first. */
  predicate Precedes(l: Limits, a: Node, b: Node, depth: nat) {
    Shown(l, a) && Shown(l, b) ==>
      Less(a.name, b.name) && (HasBelow(l, a, depth) ==> Less(a.name + [SLASH], b.name))
  }

  predicate Ordered(l: Limits, ns: seq<Node>, depth: nat)
    decreases ns
  {
    ns == [] || (
      && (ns[0].Dir? && Shown(l, ns[0]) && depth < l.maxDepth ==> Ordered(l, ns[0].children, depth + 1))
      && (forall j :: 1 <= j < |ns| ==> Precedes(l, ns[0], ns[j], depth))
      && Ordered(l, ns[1..], depth))
  }

  lemma EmittedParts(l: Limits, prefix: Str, n: Node, depth: nat)
    ensures Emitted(l, prefix, n, depth)
            == if !Shown(l, n) then [] else [Entry(PathOf(prefix, n.name), n.Dir?, depth)] + Below(l, prefix, n, depth)
  {
  }

  // Every path below a shown entry extends the entry's own path by a slash and more.

  predicate Under(p: Str, e: Entry) {
    e.path == p || (|p| + 1 < |e.path| && p + [SLASH] <= e.path)
  }

  lemma {:induction false} PathsUnder(l: Limits, prefix: Str, ns: seq<Node>, depth: nat)
    requires Proper(ns)
    ensures forall e <- Walk(l, prefix, ns, depth) ::
      e.path != [] && (prefix == [] || (Under(prefix, e) && e.path != prefix))
    ensures ns != [] ==> forall e <- Emitted(l, prefix, ns[0], depth) :: Under(PathOf(prefix, ns[0].name), e)
    decreases ns
  {
    if ns != [] {
      var n := ns[0];
      var p := PathOf(prefix, n.name);
      PathsUnder(l, prefix, ns[1..], depth);
      if n.Dir? {
        PathsUnder(l, p, n.children, depth + 1);
      }
      forall e | e in Emitted(l, prefix, n, depth)
        ensures Under(p, e) && e.path != [] && (prefix == [] || (Under(prefix, e) && e.path != prefix))
      {
        EmittedParts(l, prefix, n, depth);
        assert prefix != [] ==> prefix + [SLASH] <= p;
      }
    }
  }

  lemma {:induction false} WalkMembers(l: Limits, prefix: Str, ns: seq<Node>, depth: nat)
    ensures forall f :: f in Walk(l, prefix, ns, depth)
                        <==> exists j :: 0 <= j < |ns| && f in Emitted(l, prefix, ns[j], depth)
    ensures Walk(l, prefix, ns, depth) != [] <==> exists j :: 0 <= j < |ns| && Shown(l, ns[j])
    decreases ns
  {
    hide Emitted;
    if ns != [] {
      var rest := ns[1..];
      EmittedParts(l, prefix, ns[0], depth);
      WalkMembers(l, prefix, rest, depth);
      assert forall j :: 0 <= j < |rest| ==> rest[j] == ns[j + 1];
      assert forall j :: 1 <= j < |ns| ==> ns[j] == rest[j - 1];
    }
  }

  lemma IncreasingAppend(x: seq<Entry>, y: seq<Entry>)
    ensures Increasing(x + y)
            <==> Increasing(x) && Increasing(y) && AllBefore(x, y)
  {
    hide Less;
    var xy := x + y;
    if Increasing(xy) {
      assert forall i :: 0 <= i < |x| ==> xy[i] == x[i];
      forall i, j | 0 <= i < j < |y| ensures Less(y[i].path, y[j].path) {
        assert xy[|x| + i] == y[i] && xy[|x| + j] == y[j];
      }
      forall e, f | e in x && f in y ensures Less(e.path, f.path) {
        var i :| 0 <= i < |x| && x[i] == e;
        var j :| 0 <= j < |y| && y[j] == f;
        assert xy[i] == e && xy[|x| + j] == f;
      }
    }
  }

  predicate ProperName(a: Str) {
    a != [] && SLASH !in a
  }

  lemma SlashInPrefix(a: Str, b: Str)
    ensures a + [SLASH] <= b ==> SLASH in b
  {
    assert a + [SLASH] <= b ==> b[|a|] == (a + [SLASH])[|a|];
  }

  /** Sibling names decide the order of everything beneath them. */
  lemma NamesDecide(a: Str, b: Str, r: Str, y: Str)
    requires ProperName(a) && ProperName(b)
    ensures Less(a, b) ==> Less(a, b + y)
    ensures Less(a + [SLASH], b) ==> Less(a + [SLASH] + r, b + y)
    ensures Less(a + [SLASH] + r, b) ==> Less(a + [SLASH], b)
  {
    var long := a + [SLASH];
    hide Less;
    if Less(a, b) {
      LessExtends(a, b, y);
    }
    if Less(long, b) {
      SlashInPrefix(a, b);
      LessExtends(long, b, r);
      LessExtends(long + r, b, y);
    } else {
      assert SLASH in long;
      LessIsStrictOrder(long, b, long);
      LessExtends(b, long, r);
      LessIsStrictOrder(b, long + r, b);
    }
  }

  lemma BelowExactlyIfShown(l: Limits, prefix: Str, n: Node, depth: nat)
    ensures Below(l, prefix, n, depth) != [] <==> HasBelow(l, n, depth)
  {
    if n.Dir? {
      WalkMembers(l, PathOf(prefix, n.name), n.children, depth + 1);
    }
  }

  lemma PathTail(prefix: Str, a: Str, x: Str)
    ensures PathOf(prefix, a) + x == (if prefix == [] then [] else prefix + [SLASH]) + (a + x)
  {
    if prefix == [] {
      assert [] + (a + x) == a + x;
    } else {
      Regroup(prefix + [SLASH], a, x, []);
    }
  }

  lemma SiblingPaths(prefix: Str, a: Str, b: Str, x: Str, y: Str)
    ensures Less(PathOf(prefix, a) + x, PathOf(prefix, b) + y) <==> Less(a + x, b + y)
  {
    hide Less, PathOf;
    PathTail(prefix, a, x);
    PathTail(prefix, b, y);
    LessCancels(if prefix == [] then [] else prefix + [SLASH], a + x, b + y);
  }

  lemma CrossPaths(prefix: Str, a: Str, b: Str, e: Entry, f: Entry)
    requires ProperName(a) && ProperName(b) && Less(a, b)
    requires Under(PathOf(prefix, a), e) && Under(PathOf(prefix, b), f)
    requires e.path != PathOf(prefix, a) ==> Less(a + [SLASH], b)
    ensures Less(e.path, f.path)
  {
    hide Less;
    var pa, pb := PathOf(prefix, a), PathOf(prefix, b);
    var x, y := e.path[|pa|..], f.path[|pb|..];
    assert e.path == pa + x && f.path == pb + y;
    SiblingPaths(prefix, a, b, x, y);
    if e.path == pa {
      NamesDecide(a, b, [], y);
      assert a + x == a;
    } else {
      var r := x[1..];
      assert x == [SLASH] + r && a + x == a + [SLASH] + r;
      NamesDecide(a, b, r, y);
    }
  }

  ghost predicate AllBefore(x: seq<Entry>, y: seq<Entry>) {
    forall e, f :: e in x && f in y ==> Less(e.path, f.path)
  }

  lemma PrecedesMeansBefore(l: Limits, prefix: Str, a: Node, b: Node, depth: nat)
    requires Proper([a]) && Proper([b]) && Precedes(l, a, b, depth)
    ensures AllBefore(Emitted(l, prefix, a, depth), Emitted(l, prefix, b, depth))
  {
    EmittedParts(l, prefix, a, depth);
    EmittedParts(l, prefix, b, depth);
    PathsUnder(l, prefix, [a], depth);
    PathsUnder(l, prefix, [b], depth);
    BelowExactlyIfShown(l, prefix, a, depth);
    hide Emitted, Less, Walk, Below;
    if Shown(l, a) && Shown(l, b) {
      forall e, f | e in Emitted(l, prefix, a, depth) && f in Emitted(l, prefix, b, depth)
        ensures Less(e.path, f.path)
      {
        CrossPaths(prefix, a.name, b.name, e, f);
      }
    }
  }

  lemma BeforeMeansPrecedes(l: Limits, prefix: Str, a: Node, b: Node, depth: nat)
    requires Proper([a]) && Proper([b]) && AllBefore(Emitted(l, prefix, a, depth), Emitted(l, prefix, b, depth))
    ensures Precedes(l, a, b, depth)
  {
    EmittedParts(l, prefix, a, depth);
    EmittedParts(l, prefix, b, depth);
    BelowExactlyIfShown(l, prefix, a, depth);
    if Shown(l, a) && Shown(l, b) {
      var x, y := Emitted(l, prefix, a, depth), Emitted(l, prefix, b, depth);
      var below := Below(l, prefix, a, depth);
      var pa, pb := PathOf(prefix, a.name), PathOf(prefix, b.name);
      assert x[0] in x && y[0] in y;
      assert pa + [] == pa && pb + [] == pb && a.name + [] == a.name && b.name + [] == b.name;
      SiblingPaths(prefix, a.name, b.name, [], []);
      if HasBelow(l, a, depth) {
        PathsUnder(l, pa, a.children, depth + 1);
        var e := below[0];
        assert e in below && e in x;
        FirstBelow(prefix, a.name, b.name, e.path);
      }
    }
  }

  lemma FirstBelow(prefix: Str, a: Str, b: Str, path: Str)
    requires ProperName(a) && ProperName(b)
    requires PathOf(prefix, a) + [SLASH] <= path && Less(path, PathOf(prefix, b))
    ensures Less(a + [SLASH], b)
  {
    hide Less;
    var pa, pb := PathOf(prefix, a), PathOf(prefix, b);
    var r := path[|pa| + 1..];
    assert path == pa + ([SLASH] + r) && pb + [] == pb && b + [] == b;
    SiblingPaths(prefix, a, b, [SLASH] + r, []);
    assert a + ([SLASH] + r) == a + [SLASH] + r;
    NamesDecide(a, b, r, []);
  }

  lemma InsideOrder(l: Limits, prefix: Str, n: Node, depth: nat)
    requires Proper([n])
    ensures Increasing(Emitted(l, prefix, n, depth)) <==> !Shown(l, n) || Increasing(Below(l, prefix, n, depth))
  {
    EmittedParts(l, prefix, n, depth);
    PathsUnder(l, prefix, [n], depth);
    if Shown(l, n) {
      var p := PathOf(prefix, n.name);
      var e := Entry(p, n.Dir?, depth);
      var below := Below(l, prefix, n, depth);
      if n.Dir? {
        PathsUnder(l, p, n.children, depth + 1);
      }
      forall f | f in below ensures Less(p, f.path) {
        var more := f.path[|p|..];
        assert f.path == p + more && p + [] == p && more != [];
        LessCancels(p, [], more);
      }
      hide Emitted, Walk, Less, Below;
      IncreasingAppend([e], below);
    }
  }

  /** The walk's paths increase exactly when, in every listing it shows, names increase by code units and no
      directory with something shown beneath it is followed by a name that extends its own by a character
      before the slash. */
  lemma {:induction false} IncreasingExactlyWhenOrdered(l: Limits, prefix: Str, ns: seq<Node>, depth: nat)
    requires Proper(ns)
    ensures Increasing(Walk(l, prefix, ns, depth)) <==> Ordered(l, ns, depth)
    decreases ns
  {
    if ns != [] {
      var n, rest := ns[0], ns[1..];
      var x, y := Emitted(l, prefix, n, depth), Walk(l, prefix, rest, depth);
      assert Proper([n]);
      InsideOrder(l, prefix, n, depth);
      if n.Dir? {
        IncreasingExactlyWhenOrdered(l, PathOf(prefix, n.name), n.children, depth + 1);
      }
      IncreasingExactlyWhenOrdered(l, prefix, rest, depth);
      hide Emitted, Less;
      IncreasingAppend(x, y);
      RestOrder(l, prefix, ns, depth);
    }
  }

  lemma {:induction false} EachProper(ns: seq<Node>)
    requires Proper(ns)
    ensures forall j :: 0 <= j < |ns| ==> Proper([ns[j]])
  {
    if ns != [] {
      EachProper(ns[1..]);
      forall j | 0 <= j < |ns| ensures Proper([ns[j]]) {
        assert j > 0 ==> ns[j] == ns[1..][j - 1];
      }
    }
  }

  lemma RestOrder(l: Limits, prefix: Str, ns: seq<Node>, depth: nat)
    requires Proper(ns) && ns != []
    ensures AllBefore(Emitted(l, prefix, ns[0], depth), Walk(l, prefix, ns[1..], depth))
            <==> forall j :: 1 <= j < |ns| ==> Precedes(l, ns[0], ns[j], depth)
  {
    EachProper(ns);
    hide Emitted, Less, Precedes, Proper;
    var n, rest := ns[0], ns[1..];
    var x := Emitted(l, prefix, n, depth);
    WalkMembers(l, prefix, rest, depth);
    assert forall j :: 0 <= j < |rest| ==> rest[j] == ns[j + 1];
    if AllBefore(x, Walk(l, prefix, rest, depth)) {
      forall j | 1 <= j < |ns| ensures Precedes(l, n, ns[j], depth) {
        assert ns[j] == rest[j - 1];
        BeforeMeansPrecedes(l, prefix, n, ns[j], depth);
      }
    }
    if forall j :: 1 <= j < |ns| ==> Precedes(l, n, ns[j], depth) {
      forall e, f | e in x && f in Walk(l, prefix, rest, depth) ensures Less(e.path, f.path) {
        var j :| 0 <= j < |rest| && f in Emitted(l, prefix, rest[j], depth);
        PrecedesMeansBefore(l, prefix, n, ns[j + 1], depth);
      }
    }
  }

  // ---- what the walk shows, from the tree alone ----

  /** Names joined below a prefix. */
  function Joined(prefix: Str, at: seq<Str>): Str
    decreases |at|
  {
    if at == [] then prefix else Joined(PathOf(prefix, at[0]), at[1..])
  }

  /** Following the names `at` leads from the listing to a file or directory, past no ignored directory. */
  predicate Leads(ignore: seq<Str>, ns: seq<Node>, at: seq<Str>, isDir: bool)
    decreases |at|, 1
  {
    at != []
    && exists j :: 0 <= j < |ns| && Reaches(ignore, ns[j], at, isDir)
  }

  predicate Reaches(ignore: seq<Str>, n: Node, at: seq<Str>, isDir: bool)
    requires at != []
    decreases |at|, 0
  {
    && n.name == at[0] && !n.Link? && (n.Dir? ==> n.name !in ignore)
    && if |at| == 1 then n.Dir? == isDir else n.Dir? && Leads(ignore, n.children, at[1..], isDir)
  }

  /** Entry `e` describes what stands at `at`, with its depth, and lies within the depth limit. */
  predicate Describes(l: Limits, prefix: Str, depth: nat, at: seq<Str>, e: Entry) {
    && at != [] && e.path == Joined(prefix, at) && e.depth == depth + |at| - 1
    && (|at| > 1 ==> e.depth <= l.maxDepth)
  }

  ghost predicate InTree(l: Limits, prefix: Str, ns: seq<Node>, depth: nat, e: Entry) {
    exists at :: Leads(l.ignore, ns, at, e.isDir) && Describes(l, prefix, depth, at, e)
  }

  ghost predicate InNode(l: Limits, prefix: Str, n: Node, depth: nat, e: Entry) {
    exists at :: at != [] && Reaches(l.ignore, n, at, e.isDir) && Describes(l, prefix, depth, at, e)
  }

  lemma TreeIsItsNodes(l: Limits, prefix: Str, ns: seq<Node>, depth: nat, e: Entry)
    ensures InTree(l, prefix, ns, depth, e) <==> exists j :: 0 <= j < |ns| && InNode(l, prefix, ns[j], depth, e)
  {
    hide Reaches, Describes;
    if InTree(l, prefix, ns, depth, e) {
      var at :| Leads(l.ignore, ns, at, e.isDir) && Describes(l, prefix, depth, at, e);
      var j :| 0 <= j < |ns| && Reaches(l.ignore, ns[j], at, e.isDir);
      assert InNode(l, prefix, ns[j], depth, e);
    }
    if j :| 0 <= j < |ns| && InNode(l, prefix, ns[j], depth, e) {
      var at :| at != [] && Reaches(l.ignore, ns[j], at, e.isDir) && Describes(l, prefix, depth, at, e);
      assert Leads(l.ignore, ns, at, e.isDir);
    }
  }

  /** A node is its own entry and, for a directory above the depth limit, what its listing shows. */
  lemma NodeIsItselfAndBelow(l: Limits, prefix: Str, n: Node, depth: nat, e: Entry)
    ensures InNode(l, prefix, n, depth, e)
            <==> Shown(l, n) && (e == Entry(PathOf(prefix, n.name), n.Dir?, depth)
                   || (n.Dir? && depth < l.maxDepth && InTree(l, PathOf(prefix, n.name), n.children, depth + 1, e)))
  {
    var p := PathOf(prefix, n.name);
    hide Leads;
    if InNode(l, prefix, n, depth, e) {
      var at :| at != [] && Reaches(l.ignore, n, at, e.isDir) && Describes(l, prefix, depth, at, e);
      if |at| == 1 {
        assert Joined(p, at[1..]) == p;
      } else {
        assert Describes(l, p, depth + 1, at[1..], e);
      }
    }
    if Shown(l, n) {
      if e == Entry(p, n.Dir?, depth) {
        var at := [n.name];
        assert Joined(p, at[1..]) == p;
        assert Reaches(l.ignore, n, at, e.isDir) && Describes(l, prefix, depth, at, e);
      }
      if n.Dir? && depth < l.maxDepth && InTree(l, p, n.children, depth + 1, e) {
        var below :| Leads(l.ignore, n.children, below, e.isDir) && Describes(l, p, depth + 1, below, e);
        var at := [n.name] + below;
        assert at[1..] == below;
        assert Reaches(l.ignore, n, at, e.isDir) && Describes(l, prefix, depth, at, e);
      }
    }
  }

  /** The walk shows exactly the files and directories that can be followed by name from the listing, past no
      link and no ignored directory and no deeper than the limit, each with its path, kind and depth. */
  lemma {:induction false} WalkShowsExactlyTheTree(l: Limits, prefix: Str, ns: seq<Node>, depth: nat, e: Entry)
    ensures e in Walk(l, prefix, ns, depth) <==> InTree(l, prefix, ns, depth, e)
    decreases ns
  {
    hide InTree, InNode;
    WalkMembers(l, prefix, ns, depth);
    TreeIsItsNodes(l, prefix, ns, depth, e);
    forall j | 0 <= j < |ns| ensures e in Emitted(l, prefix, ns[j], depth) <==> InNode(l, prefix, ns[j], depth, e) {
      var n := ns[j];
      EmittedParts(l, prefix, n, depth);
      NodeIsItselfAndBelow(l, prefix, n, depth, e);
      if n.Dir? {
        assert n in ns;
        WalkShowsExactlyTheTree(l, PathOf(prefix, n.name), n.children, depth + 1, e);
      }
    }
  }

  /** A page says whether entries after its cursor were left out, and its next cursor is the last path shown. */
  lemma PageTellsWhetherMore(rest: seq<Entry>, maxEntries: nat)
    ensures var page := PageOf(rest, maxEntries);
      && page.entries <= rest && |page.entries| <= maxEntries
      && (page.truncated <==> page.entries != rest) && (page.truncated ==> |page.entries| == maxEntries)
      && (page.next.Some? <==> page.truncated && page.entries != [])
      && (page.next.Some? ==> page.next.value == page.entries[|page.entries| - 1].path)
  {
  }

  /** Which workspaces can be listed page by page without losing or repeating an entry. */
  lemma PagingIsCompleteExactlyWhenOrdered(l: Limits, prefix: Str, ns: seq<Node>)
    requires Proper(ns)
    ensures PathsNonempty(Walk(l, prefix, ns, 0))
    ensures PagesCompletely(Walk(l, prefix, ns, 0)) <==> Ordered(l, ns, 0)
  {
    var all := Walk(l, prefix, ns, 0);
    PathsUnder(l, prefix, ns, 0);
    assert forall i :: 0 <= i < |all| ==> all[i] in all;
    PagingIsCompleteExactlyWhenIncreasing(all);
    IncreasingExactlyWhenOrdered(l, prefix, ns, 0);
  }
}
