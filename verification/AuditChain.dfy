/** The hash-chained audit log: `record` (src/services/log.service.ts) and the soft purge
    (src/scheduler/reaper.ts). The hash is a parameter. */
module AuditChain {

  /** `canonical` is the JSON array of the entry's values; `created` is the insertion time. */
  datatype Row = Row(prev: string, canonical: string, hash: string, created: nat, purged: bool)

  type Hash = string -> string

  predicate HexDigit(c: char) {
    '0' <= c <= '9' || 'a' <= c <= 'f'
  }

  predicate IsDigest(h: string) {
    |h| == 64 && forall i :: 0 <= i < |h| ==> HexDigit(h[i])
  }

  predicate IsJsonArray(c: string) {
    c != "" && c[0] == '['
  }

  // ---- the code ----

  /** The hash of the last row not purged; empty if there is none. */
  function LastHash(rows: seq<Row>): string {
    if rows == [] then ""
    else if !rows[|rows| - 1].purged then rows[|rows| - 1].hash
    else LastHash(rows[..|rows| - 1])
  }

  function NewRow(hash: Hash, rows: seq<Row>, canonical: string, now: nat): Row {
    var prev := LastHash(rows);
    Row(prev, canonical, hash(prev + canonical), now, false)
  }

  function Purged(rows: seq<Row>, cutoff: nat): seq<Row> {
    seq(|rows|, i requires 0 <= i < |rows| =>
      if rows[i].created < cutoff then rows[i].(purged := true) else rows[i])
  }

  class AuditLog {
    const sha256: Hash
    var rows: seq<Row>

    constructor (sha256: Hash)
      ensures this.sha256 == sha256 && rows == []
    {
      this.sha256 := sha256;
      rows := [];
    }

    /** A failed insert is logged and swallowed. */
    method Record(canonical: string, now: nat, insertWorks: bool)
      modifies this
      ensures rows == if insertWorks then old(rows) + [NewRow(sha256, old(rows), canonical, now)] else old(rows)
    {
      var prev := LastHash(rows);
      var hash := sha256(prev + canonical);
      if insertWorks {
        rows := rows + [Row(prev, canonical, hash, now, false)];
      }
    }

    /** One UPDATE: every row created before the cutoff. */
    method PurgeBefore(cutoff: nat)
      modifies this
      ensures rows == Purged(old(rows), cutoff)
    {
      var before := rows;
      rows := seq(|before|, i requires 0 <= i < |before| =>
        if before[i].created < cutoff then before[i].(purged := true) else before[i]);
    }
  }

  // ---- runs ----

  datatype Event = Record(canonical: string, now: nat) | Purge(cutoff: nat)

  function Step(hash: Hash, rows: seq<Row>, e: Event): seq<Row> {
    match e
    case Record(canonical, now) => rows + [NewRow(hash, rows, canonical, now)]
    case Purge(cutoff) => Purged(rows, cutoff)
  }

  function After(hash: Hash, es: seq<Event>): seq<Row> {
    if es == [] then [] else Step(hash, After(hash, es[..|es| - 1]), es[|es| - 1])
  }

  /** Records do not overlap and the clock does not go back. */
  ghost predicate ClockOk(es: seq<Event>) {
    forall i, j :: 0 <= i < j < |es| && es[i].Record? && es[j].Record? ==> es[i].now <= es[j].now
  }

  /** Times do not decrease, and the purged rows come first. */
  ghost predicate Monotone(rows: seq<Row>) {
    forall i, j :: 0 <= i < j < |rows| ==> rows[i].created <= rows[j].created && (rows[j].purged ==> rows[i].purged)
  }

  /** A row's hash is that of its own values, and its previous hash is its predecessor's or empty. */
  ghost predicate Linked(hash: Hash, rows: seq<Row>, i: nat)
    requires i < |rows|
  {
    && rows[i].hash == hash(rows[i].prev + rows[i].canonical)
    && (rows[i].prev == "" || (i > 0 && rows[i].prev == rows[i - 1].hash))
  }

  ghost predicate Inv(hash: Hash, rows: seq<Row>) {
    Monotone(rows) && forall i :: 0 <= i < |rows| ==> Linked(hash, rows, i)
  }

  ghost predicate AllPurged(rows: seq<Row>) {
    forall i :: 0 <= i < |rows| ==> rows[i].purged
  }

  /** With the purged rows a prefix, the row read back is the last one, unless every row is purged. */
  lemma {:induction false} LastHashIsPredecessor(rows: seq<Row>)
    requires Monotone(rows)
    ensures LastHash(rows) == if AllPurged(rows) then "" else rows[|rows| - 1].hash
  {
    if rows != [] && rows[|rows| - 1].purged {
      LastHashIsPredecessor(rows[..|rows| - 1]);
      assert AllPurged(rows[..|rows| - 1]);
    }
  }

  lemma RecordKeepsInv(hash: Hash, rows: seq<Row>, canonical: string, now: nat)
    requires Inv(hash, rows)
    requires forall i :: 0 <= i < |rows| ==> rows[i].created <= now
    ensures Inv(hash, rows + [NewRow(hash, rows, canonical, now)])
  {
    LastHashIsPredecessor(rows);
    var row := NewRow(hash, rows, canonical, now);
    var after := rows + [row];
    forall i | 0 <= i < |after| ensures Linked(hash, after, i) {
      if i < |rows| {
        assert Linked(hash, rows, i);
      }
    }
    hide LastHash, Linked;
    forall i, j | 0 <= i < j < |after|
      ensures after[i].created <= after[j].created && (after[j].purged ==> after[i].purged)
    {
      assert after[i] == rows[i] && after[j] == if j < |rows| then rows[j] else row;
    }
  }

  lemma PurgeKeepsInv(hash: Hash, rows: seq<Row>, cutoff: nat)
    requires Inv(hash, rows)
    ensures Inv(hash, Purged(rows, cutoff))
  {
    var after := Purged(rows, cutoff);
    forall i | 0 <= i < |after| ensures Linked(hash, after, i) {
      assert Linked(hash, rows, i);
    }
  }

  /** Purging marks rows and adding appends: prev, canonical text, hash and time of a row never change. */
  ghost predicate Extends(a: seq<Row>, b: seq<Row>) {
    |a| <= |b| && forall i :: 0 <= i < |a| ==> b[i].(purged := false) == a[i].(purged := false)
  }

  lemma {:induction false} RunTimes(hash: Hash, es: seq<Event>, now: nat)
    requires forall k :: 0 <= k < |es| && es[k].Record? ==> es[k].now <= now
    ensures forall i :: 0 <= i < |After(hash, es)| ==> After(hash, es)[i].created <= now
  {
    if es != [] {
      RunTimes(hash, es[..|es| - 1], now);
    }
  }

  lemma {:induction false} RunKeepsInv(hash: Hash, es: seq<Event>)
    requires ClockOk(es)
    ensures Inv(hash, After(hash, es))
  {
    if es != [] {
      var before, e := es[..|es| - 1], es[|es| - 1];
      RunKeepsInv(hash, before);
      match e {
        case Record(canonical, now) =>
          RunTimes(hash, before, now);
          RecordKeepsInv(hash, After(hash, before), canonical, now);
        case Purge(cutoff) => PurgeKeepsInv(hash, After(hash, before), cutoff);
      }
    }
  }

  lemma {:induction false} RunExtends(hash: Hash, es: seq<Event>, k: nat)
    requires k <= |es|
    ensures Extends(After(hash, es[..k]), After(hash, es))
    decreases |es|
  {
    if k < |es| {
      RunExtends(hash, es[..|es| - 1], k);
      assert es[..|es| - 1][..k] == es[..k];
    } else {
      assert es[..k] == es;
    }
  }

  /** Over any run: purged rows form a prefix; and the row a record inserted holds, ever after, its
      predecessor's hash, or nothing exactly when every earlier row was purged at its insertion. */
  lemma ChainLinks(hash: Hash, es: seq<Event>, k: nat)
    requires ClockOk(es) && k < |es| && es[k].Record?
    ensures var before, rows := After(hash, es[..k]), After(hash, es);
      && Monotone(rows)
      && |before| < |rows|
      && rows[|before|].canonical == es[k].canonical
      && rows[|before|].prev == if AllPurged(before) then "" else rows[|before| - 1].hash
  {
    var before := After(hash, es[..k]);
    RunKeepsInv(hash, es);
    RunKeepsInv(hash, es[..k]);
    LastHashIsPredecessor(before);
    RunExtends(hash, es, k + 1);
    assert es[..k + 1][..k] == es[..k];
    var now := After(hash, es[..k + 1]);
    assert now == before + [NewRow(hash, before, es[k].canonical, es[k].now)];
    hide After, LastHash;
    var rows := After(hash, es);
    assert rows[|before|].(purged := false) == now[|before|].(purged := false);
    assert before != [] ==> rows[|before| - 1].(purged := false) == now[|before| - 1].(purged := false);
  }

  /** Some purge after the `k`-th event had a cutoff past that record's time. */
  ghost predicate CutOff(es: seq<Event>, k: nat)
    requires k < |es| && es[k].Record?
  {
    exists m :: k < m < |es| && es[m].Purge? && es[k].now < es[m].cutoff
  }

  /** Over any run, the row a record inserted carries that record's time, and is marked as purged exactly when
      some later purge had a cutoff past that time. */
  lemma {:induction false} PurgedExactlyByACutoff(hash: Hash, es: seq<Event>, k: nat)
    requires k < |es| && es[k].Record?
    ensures var i := |After(hash, es[..k])|; var rows := After(hash, es);
      i < |rows| && rows[i].created == es[k].now && (rows[i].purged <==> CutOff(es, k))
    decreases |es|
  {
    var n := |es| - 1;
    var init := es[..n];
    if k == n {
      assert !CutOff(es, k);
    } else {
      assert init[..k] == es[..k] && init[k] == es[k];
      PurgedExactlyByACutoff(hash, init, k);
      if CutOff(init, k) {
        var m :| k < m < n && init[m].Purge? && init[k].now < init[m].cutoff;
        assert es[m] == init[m];
      }
      if CutOff(es, k) {
        var m :| k < m < |es| && es[m].Purge? && es[k].now < es[m].cutoff;
        assert m < n ==> init[m] == es[m];
      }
    }
  }

  // ---- what the last hash pins down ----

  /** Rows linked one to the next, each with the hash of its own values, as `record` writes them. */
  ghost predicate Segment(hash: Hash, rows: seq<Row>) {
    && (forall i :: 0 <= i < |rows| ==> rows[i].hash == hash(rows[i].prev + rows[i].canonical))
    && (forall i :: 0 <= i < |rows| ==>
          (rows[i].prev == "" || IsDigest(rows[i].prev)) && IsJsonArray(rows[i].canonical))
    && (forall i :: 0 < i < |rows| ==> rows[i].prev == rows[i - 1].hash)
  }

  /** No two of the values hashed in either segment share a hash. */
  ghost predicate CollisionFree(hash: Hash, a: seq<Row>, b: seq<Row>) {
    forall x <- a, y <- b :: hash(x.prev + x.canonical) == hash(y.prev + y.canonical) ==>
      x.prev + x.canonical == y.prev + y.canonical
  }

  predicate SameValues(x: Row, y: Row) {
    x.prev == y.prev && x.canonical == y.canonical && x.hash == y.hash
  }

  /** A previous hash, empty or 64 hexadecimal digits, and a text starting with a bracket can be told apart. */
  lemma HashedTextSplits(p: string, c: string, q: string, d: string)
    requires (p == "" || IsDigest(p)) && (q == "" || IsDigest(q)) && IsJsonArray(c) && IsJsonArray(d)
    requires p + c == q + d
    ensures p == q && c == d
  {
    assert (p + c)[0] == if p == "" then '[' else p[0];
    assert (q + d)[0] == if q == "" then '[' else q[0];
    assert p == (p + c)[..|p|] && q == (q + d)[..|q|];
    assert c == (p + c)[|p|..] && d == (q + d)[|q|..];
  }

  /** Two segments that end in the same hash agree row by row from the end, as far back as the shorter goes. */
  lemma {:induction false} LastHashPinsSegment(hash: Hash, a: seq<Row>, b: seq<Row>, k: nat)
    requires Segment(hash, a) && Segment(hash, b) && CollisionFree(hash, a, b)
    requires a != [] && b != [] && a[|a| - 1].hash == b[|b| - 1].hash
    requires k < |a| && k < |b|
    ensures SameValues(a[|a| - 1 - k], b[|b| - 1 - k])
    decreases k
  {
    var x, y := a[|a| - 1 - k], b[|b| - 1 - k];
    if k > 0 {
      LastHashPinsSegment(hash, a, b, k - 1);
      assert a[|a| - k].prev == x.hash && b[|b| - k].prev == y.hash;
    }
    assert x in a && y in b;
    HashedTextSplits(x.prev, x.canonical, y.prev, y.canonical);
  }

  /** A shorter segment with the same last hash starts inside the longer one. */
  lemma ShorterStartsInside(hash: Hash, a: seq<Row>, b: seq<Row>)
    requires Segment(hash, a) && Segment(hash, b) && CollisionFree(hash, a, b)
    requires a != [] && |a| < |b| && a[|a| - 1].hash == b[|b| - 1].hash
    ensures a[0].prev == b[|b| - |a| - 1].hash
  {
    LastHashPinsSegment(hash, a, b, |a| - 1);
  }

  /** Two whole chains, each starting with an empty previous hash, that end in the same hash are equal. */
  lemma LastHashPinsWholeChain(hash: Hash, a: seq<Row>, b: seq<Row>)
    requires Segment(hash, a) && Segment(hash, b) && CollisionFree(hash, a, b)
    requires Digests(hash)
    requires a != [] && b != [] && a[|a| - 1].hash == b[|b| - 1].hash && a[0].prev == "" && b[0].prev == ""
    ensures |a| == |b| && forall i :: 0 <= i < |a| ==> SameValues(a[i], b[i])
  {
    assert CollisionFree(hash, b, a);
    if |a| < |b| {
      ShorterStartsInside(hash, a, b);
      assert false;
    }
    if |b| < |a| {
      ShorterStartsInside(hash, b, a);
      assert false;
    }
    forall i | 0 <= i < |a| ensures SameValues(a[i], b[i]) {
      LastHashPinsSegment(hash, a, b, |a| - 1 - i);
    }
  }

  /** The rows of a run from one that found the log purged up to the next such row are a segment. */
  lemma RunRowsAreSegments(hash: Hash, es: seq<Event>, lo: nat, hi: nat)
    requires ClockOk(es) && lo <= hi <= |After(hash, es)|
    requires Digests(hash)
    requires Texts(es)
    requires forall i :: lo < i < hi ==> After(hash, es)[i].prev != ""
    ensures Segment(hash, After(hash, es)[lo..hi])
  {
    RunKeepsInv(hash, es);
    RunTexts(hash, es);
    var rows := After(hash, es);
    var seg := rows[lo..hi];
    forall i | 0 <= i < |seg|
      ensures seg[i].hash == hash(seg[i].prev + seg[i].canonical)
      ensures (seg[i].prev == "" || IsDigest(seg[i].prev)) && IsJsonArray(seg[i].canonical)
      ensures i > 0 ==> seg[i].prev == seg[i - 1].hash
    {
      assert seg[i] == rows[lo + i] && Linked(hash, rows, lo + i);
      assert lo + i > 0 ==> Linked(hash, rows, lo + i - 1);
      assert lo + i > 0 ==> IsDigest(hash(rows[lo + i - 1].prev + rows[lo + i - 1].canonical));
    }
  }

  lemma {:induction false} RunTexts(hash: Hash, es: seq<Event>)
    requires Texts(es)
    ensures forall i :: 0 <= i < |After(hash, es)| ==> IsJsonArray(After(hash, es)[i].canonical)
  {
    if es != [] {
      RunTexts(hash, es[..|es| - 1]);
    }
  }

  // ---- what a restart after a purge gives away ----

  ghost predicate Digests(hash: Hash) {
    forall x :: IsDigest(hash(x))
  }

  ghost predicate Texts(es: seq<Event>) {
    forall k :: 0 <= k < |es| && es[k].Record? ==> IsJsonArray(es[k].canonical)
  }

  /** Some record found earlier rows, all of them purged. */
  ghost predicate Restarts(hash: Hash, es: seq<Event>) {
    exists k :: 0 <= k < |es| && es[k].Record? && After(hash, es[..k]) != [] && AllPurged(After(hash, es[..k]))
  }

  /** `b` ends in the rows `a`, purge marks and times aside. */
  ghost predicate EndsIn(b: seq<Row>, a: seq<Row>) {
    |a| <= |b| && forall i :: 0 <= i < |a| ==> SameValues(b[|b| - |a| + i], a[i])
  }

  /** Every run that ends in the same hash ends in the same rows, hash collisions aside. */
  ghost predicate LastHashPinsRun(hash: Hash, es: seq<Event>)
    requires After(hash, es) != []
  {
    forall fs :: ClockOk(fs) && Texts(fs) && SameEnd(hash, es, fs) ==> EndsIn(After(hash, fs), After(hash, es))
  }

  ghost predicate SameEnd(hash: Hash, es: seq<Event>, fs: seq<Event>)
    requires After(hash, es) != []
  {
    var a, b := After(hash, es), After(hash, fs);
    b != [] && b[|b| - 1].hash == a[|a| - 1].hash && CollisionFree(hash, a, b)
  }

  lemma {:induction false} LastHashSkipsPurged(x: seq<Row>, y: seq<Row>)
    requires AllPurged(x)
    ensures LastHash(x + y) == LastHash(y)
  {
    if y != [] {
      assert (x + y)[..|x + y| - 1] == x + y[..|y| - 1];
      LastHashSkipsPurged(x, y[..|y| - 1]);
    } else if x != [] {
      assert x + y == x && x[..|x| - 1] + [] == x[..|x| - 1];
      LastHashSkipsPurged(x[..|x| - 1], []);
    }
  }

  /** After a restart the run goes on as if nothing had been recorded before. */
  lemma {:induction false} RunForgetsPurged(hash: Hash, es: seq<Event>, fs: seq<Event>) returns (x: seq<Row>)
    requires AllPurged(After(hash, es))
    ensures AllPurged(x) && |x| == |After(hash, es)| && After(hash, es + fs) == x + After(hash, fs)
    decreases |fs|
  {
    if fs == [] {
      assert es + fs == es;
      x := After(hash, es);
    } else {
      var init, e := fs[..|fs| - 1], fs[|fs| - 1];
      assert (es + fs)[..|es + fs| - 1] == es + init;
      x := RunForgetsPurged(hash, es, init);
      var y := After(hash, init);
      match e {
        case Record(canonical, now) => LastHashSkipsPurged(x, y);
        case Purge(cutoff) =>
          assert Purged(x + y, cutoff) == Purged(x, cutoff) + Purged(y, cutoff);
          x := Purged(x, cutoff);
      }
    }
  }

  /** The record that inserted a row. */
  lemma {:induction false} InsertedBy(hash: Hash, es: seq<Event>, i: nat) returns (k: nat)
    requires i < |After(hash, es)|
    ensures k < |es| && es[k].Record? && |After(hash, es[..k])| == i
  {
    var n := |es| - 1;
    if i < |After(hash, es[..n])| {
      k := InsertedBy(hash, es[..n], i);
      assert es[..n][..k] == es[..k];
    } else {
      k := n;
    }
  }

  lemma FirstRowStartsChain(hash: Hash, es: seq<Event>)
    requires ClockOk(es) && After(hash, es) != []
    ensures After(hash, es)[0].prev == ""
  {
    hide After;
    RunKeepsInv(hash, es);
    assert Linked(hash, After(hash, es), 0);
  }

  lemma UnpurgedPredecessorIsNamed(hash: Hash, es: seq<Event>, k: nat)
    requires ClockOk(es) && Digests(hash) && k < |es| && es[k].Record?
    requires After(hash, es[..k]) != [] && !AllPurged(After(hash, es[..k]))
    ensures |After(hash, es[..k])| < |After(hash, es)| && After(hash, es)[|After(hash, es[..k])|].prev != ""
  {
    ChainLinks(hash, es, k);
    RowsHaveDigests(hash, es);
    assert IsDigest(After(hash, es)[|After(hash, es[..k])| - 1].hash);
  }

  /** Without a restart, a row after the first names its predecessor. */
  lemma UnrestartedRowsAreLinked(hash: Hash, es: seq<Event>, i: nat)
    requires ClockOk(es) && Digests(hash) && !Restarts(hash, es) && 0 < i < |After(hash, es)|
    ensures After(hash, es)[i].prev != ""
  {
    hide Digests, ClockOk, AllPurged;
    var k := InsertedBy(hash, es, i);
    assert !AllPurged(After(hash, es[..k]));
    UnpurgedPredecessorIsNamed(hash, es, k);
  }

  lemma RowsHaveDigests(hash: Hash, es: seq<Event>)
    requires ClockOk(es) && Digests(hash)
    ensures forall i :: 0 <= i < |After(hash, es)| ==> IsDigest(After(hash, es)[i].hash)
  {
    RunKeepsInv(hash, es);
    forall i | 0 <= i < |After(hash, es)| ensures IsDigest(After(hash, es)[i].hash) {
      assert Linked(hash, After(hash, es), i);
    }
  }

  /** The position of the last row with an empty previous hash. */
  lemma {:induction false} LastStart(rows: seq<Row>) returns (j: nat)
    requires rows != [] && rows[0].prev == ""
    ensures j < |rows| && rows[j].prev == "" && forall i :: j < i < |rows| ==> rows[i].prev != ""
  {
    if rows[|rows| - 1].prev == "" {
      j := |rows| - 1;
    } else {
      var init := rows[..|rows| - 1];
      j := LastStart(init);
      forall i | j < i < |rows| ensures rows[i].prev != "" {
        assert i < |init| ==> init[i] == rows[i];
      }
    }
  }

  lemma UnrestartedRunIsPinned(hash: Hash, es: seq<Event>, fs: seq<Event>)
    requires ClockOk(es) && Texts(es) && Digests(hash) && After(hash, es) != [] && !Restarts(hash, es)
    requires ClockOk(fs) && Texts(fs) && SameEnd(hash, es, fs)
    ensures EndsIn(After(hash, fs), After(hash, es))
  {
    hide After, Segment, Restarts, Texts, ClockOk;
    var a, b := After(hash, es), After(hash, fs);
    FirstRowStartsChain(hash, es);
    FirstRowStartsChain(hash, fs);
    var j := LastStart(b);
    forall i | 0 < i < |a| ensures a[i].prev != "" {
      UnrestartedRowsAreLinked(hash, es, i);
    }
    RunIsSegment(hash, es, 0, |a|);
    RunIsSegment(hash, fs, j, |b|);
    assert a[0..|a|] == a;
    WholeChainEndsIn(hash, a, b, j);
  }

  lemma RunIsSegment(hash: Hash, es: seq<Event>, lo: nat, hi: nat)
    requires ClockOk(es) && Texts(es) && Digests(hash) && lo <= hi <= |After(hash, es)|
    requires forall i :: lo < i < hi ==> After(hash, es)[i].prev != ""
    ensures Segment(hash, After(hash, es)[lo..hi])
  {
    hide After, Segment;
    RunRowsAreSegments(hash, es, lo, hi);
  }

  lemma WholeChainEndsIn(hash: Hash, a: seq<Row>, b: seq<Row>, j: nat)
    requires Digests(hash) && CollisionFree(hash, a, b) && a != [] && j < |b|
    requires Segment(hash, a) && Segment(hash, b[j..|b|]) && a[0].prev == "" && b[j].prev == ""
    requires a[|a| - 1].hash == b[|b| - 1].hash
    ensures EndsIn(b, a)
  {
    hide Segment;
    var seg := b[j..|b|];
    assert CollisionFree(hash, a, seg) by {
      assert forall y :: y in seg ==> y in b;
    }
    LastHashPinsWholeChain(hash, a, seg);
    forall i | 0 <= i < |a| ensures SameValues(b[|b| - |a| + i], a[i]) {
      assert SameValues(a[i], seg[i]) && seg[i] == b[j + i];
    }
  }

  lemma {:induction false} RestartDropsHistory(hash: Hash, es: seq<Event>, k: nat)
    requires k < |es| && es[k].Record? && After(hash, es[..k]) != [] && AllPurged(After(hash, es[..k]))
    ensures var a, b := After(hash, es), After(hash, es[k..]);
      0 < |b| < |a| && a[|a| - |b|..] == b
  {
    hide After, AllPurged;
    var x := RunForgetsPurged(hash, es[..k], es[k..]);
    assert es[..k] + es[k..] == es;
    RunExtends(hash, es, k + 1);
    RecordAppends(hash, es, k);
    assert (x + After(hash, es[k..]))[|x|..] == After(hash, es[k..]);
  }

  lemma RecordAppends(hash: Hash, es: seq<Event>, k: nat)
    requires k < |es| && es[k].Record?
    ensures |After(hash, es[..k + 1])| == |After(hash, es[..k])| + 1
  {
    assert es[..k + 1][..k] == es[..k];
  }

  /** The last hash of a run pins all its rows if and only if no record after the first found every earlier
      row purged: from such a record on, the run without its history ends in the same hash. */
  lemma LastHashPinsRunExactlyWithoutRestart(hash: Hash, es: seq<Event>)
    requires ClockOk(es) && Texts(es) && Digests(hash) && After(hash, es) != []
    requires CollisionFree(hash, After(hash, es), After(hash, es))
    ensures LastHashPinsRun(hash, es) <==> !Restarts(hash, es)
  {
    hide After, AllPurged, SameValues;
    if Restarts(hash, es) {
      var k :| 0 <= k < |es| && es[k].Record? && After(hash, es[..k]) != [] && AllPurged(After(hash, es[..k]));
      RestartDropsHistory(hash, es, k);
      var a, b := After(hash, es), After(hash, es[k..]);
      assert CollisionFree(hash, a, b) by {
        assert forall y :: y in b ==> y in a;
      }
      assert b[|b| - 1] == a[|a| - |b|..][|b| - 1];
      assert ClockOk(es[k..]) && Texts(es[k..]) && SameEnd(hash, es, es[k..]) && !EndsIn(b, a);
    } else {
      forall fs | ClockOk(fs) && Texts(fs) && SameEnd(hash, es, fs) ensures EndsIn(After(hash, fs), After(hash, es)) {
        UnrestartedRunIsPinned(hash, es, fs);
      }
    }
  }

  function PurgedHistory(first: string, last: string): seq<Event> {
    [Record(first, 0), Purge(1), Record(last, 1)]
  }

  /** Two logs with different first rows, purged before the last record, end in the same hash. */
  lemma PurgedHistoryIsNotPinned(hash: Hash, c1: string, c2: string, last: string)
    requires c1 != c2
    ensures var a, b := After(hash, PurgedHistory(c1, last)), After(hash, PurgedHistory(c2, last));
      && ClockOk(PurgedHistory(c1, last))
      && |a| == 2 && |b| == 2 && a[1].hash == b[1].hash && a[1].canonical == last
      && a[0].canonical != b[0].canonical
  {
    TwoRows(hash, c1, last);
    TwoRows(hash, c2, last);
  }

  lemma TwoRows(hash: Hash, first: string, last: string)
    ensures After(hash, PurgedHistory(first, last))
            == [Row("", first, hash("" + first), 0, true), Row("", last, hash("" + last), 1, false)]
  {
    var es := PurgedHistory(first, last);
    assert es[..2] == [Record(first, 0), Purge(1)] && es[..2][..1] == [Record(first, 0)] && es[..2][..1][..0] == [];
    var one := Row("", first, hash("" + first), 0, false);
    assert After(hash, es[..2][..1]) == [one];
    assert After(hash, es[..2]) == [one.(purged := true)];
    assert [one.(purged := true)][..0] == [];
  }
}
