/** Chunked uploads (src/services/workspace-storage.ts, src/services/workspace.service.ts): a directory of part
    files, a byte counter kept in the session's meta file, and the final concatenation. */
module Upload {
  import opened Common

  type Bytes = seq<Byte>

  datatype Error = BadPart | PartTooLarge | NoSession | NoParts | TooLarge | OverQuota

  datatype Limits = Limits(partMax: nat, maxBytes: nat)

  const MAX_PART := 100_000

  // ---- part names ----

  const ZERO: CodeUnit := 0x30
  const PREFIX: Str := [0x70, 0x61, 0x72, 0x74, 0x2D]  // part-

  function Decimal(n: nat): Str {
    if n < 10 then [ZERO + n as CodeUnit] else Decimal(n / 10) + [ZERO + (n % 10) as CodeUnit]
  }

  function PadStart(s: Str, width: nat): Str
    decreases width - |s|
  {
    if |s| >= width then s else PadStart([ZERO] + s, width)
  }

  function PartName(part: nat): Str {
    PREFIX + PadStart(Decimal(part), 6)
  }

  predicate IsPartName(name: Str) {
    PREFIX <= name
  }

  predicate Digits(s: Str) {
    forall i :: 0 <= i < |s| ==> ZERO <= s[i] < ZERO + 10
  }

  function Value(s: Str): nat
    requires Digits(s)
  {
    if s == [] then 0 else 10 * Value(s[..|s| - 1]) + (s[|s| - 1] - ZERO) as nat
  }

  lemma {:induction false} ValueOfDecimal(n: nat)
    ensures Digits(Decimal(n)) && Value(Decimal(n)) == n
  {
    if n >= 10 {
      ValueOfDecimal(n / 10);
      assert Decimal(n)[..|Decimal(n)| - 1] == Decimal(n / 10);
    } else {
      assert Decimal(n)[..0] == [];
    }
  }

  function Power10(k: nat): nat {
    if k == 0 then 1 else 10 * Power10(k - 1)
  }

  lemma {:induction false} DecimalLength(n: nat, k: nat)
    requires n < Power10(k) && k >= 1
    ensures |Decimal(n)| <= k
    decreases k
  {
    if n >= 10 {
      assert k > 1;
      DecimalLength(n / 10, k - 1);
    }
  }

  lemma {:induction false} LeadingZero(s: Str)
    requires Digits(s)
    ensures Digits([ZERO] + s) && Value([ZERO] + s) == Value(s)
  {
    if s == [] {
      assert ([ZERO] + s)[..0] == [];
    } else {
      LeadingZero(s[..|s| - 1]);
      assert ([ZERO] + s)[..|s|] == [ZERO] + s[..|s| - 1];
    }
  }

  lemma {:induction false} ValueOfPadded(s: Str, width: nat)
    requires Digits(s)
    ensures Digits(PadStart(s, width)) && Value(PadStart(s, width)) == Value(s)
    ensures |PadStart(s, width)| == if |s| >= width then |s| else width
    decreases width - |s|
  {
    if |s| < width {
      LeadingZero(s);
      ValueOfPadded([ZERO] + s, width);
    }
  }

  /** Digit texts of one length sort as their numbers do. */
  lemma {:induction false} DigitsSortByValue(a: Str, b: Str)
    requires Digits(a) && Digits(b) && |a| == |b|
    ensures Value(a) < Value(b) ==> Less(a, b)
    ensures Value(a) == Value(b) ==> a == b
    decreases |a|
  {
    if a != [] {
      var n := |a| - 1;
      var x, y := a[..n], b[..n];
      DigitsSortByValue(x, y);
      assert a == x + [a[n]] && b == y + [b[n]];
      if Value(x) < Value(y) {
        LessExtends(x, y, [a[n]]);
        LessIsStrictOrder(x, y, x);
        LessExtends(x + [a[n]], y, [b[n]]);
      } else if Value(x) == Value(y) {
        LessCancels(x, [a[n]], [b[n]]);
      }
    }
  }

  /** Zero-padded part names sort numerically over the whole range of part numbers. */
  lemma PartNamesSortNumerically(i: nat, j: nat)
    requires i < j <= MAX_PART
    ensures Less(PartName(i), PartName(j))
  {
    SixDigits();
    DecimalLength(i, 6);
    DecimalLength(j, 6);
    ValueOfDecimal(i);
    ValueOfDecimal(j);
    ValueOfPadded(Decimal(i), 6);
    ValueOfPadded(Decimal(j), 6);
    DigitsSortByValue(PadStart(Decimal(i), 6), PadStart(Decimal(j), 6));
    LessCancels(PREFIX, PadStart(Decimal(i), 6), PadStart(Decimal(j), 6));
  }

  lemma SixDigits()
    ensures Power10(6) == 1_000_000
  {
    assert Power10(3) == 1000;
  }

  // ---- a session ----

  /** The part files by name, and the counter in the meta file; a session from before the counter has none. */
  datatype Session = Session(files: map<Str, Bytes>, received: Option<nat>)

  function Size(files: map<Str, Bytes>, name: Str): nat {
    if name in files then |files[name]| else 0
  }

  /** The stored bytes of parts 1 to `k`, and their contents one after another. */
  function Total(files: map<Str, Bytes>, k: nat): nat {
    if k == 0 then 0 else Total(files, k - 1) + Size(files, PartName(k))
  }

  function Contents(files: map<Str, Bytes>, k: nat): Bytes {
    if k == 0 then []
    else Contents(files, k - 1) + if PartName(k) in files then files[PartName(k)] else []
  }

  function Names(files: map<Str, Bytes>, k: nat): seq<Str> {
    if k == 0 then []
    else Names(files, k - 1) + if PartName(k) in files then [PartName(k)] else []
  }

  ghost predicate OnlyParts(files: map<Str, Bytes>) {
    forall n <- files :: exists k :: 1 <= k <= MAX_PART && n == PartName(k)
  }

  /** A directory listing: in any order, each name once; beside the parts it may show the meta file. */
  ghost predicate Lists(listing: seq<Str>, files: map<Str, Bytes>) {
    && (forall i, j :: 0 <= i < j < |listing| ==> listing[i] != listing[j])
    && (forall n :: n in files ==> n in listing)
    && (forall n <- listing :: n in files || !IsPartName(n))
  }

  function WritePart(l: Limits, s: Option<Session>, part: int, content: Bytes): (Option<Session>, Result<nat, Error>) {
    if part < 1 || part > MAX_PART then (s, Err(BadPart))
    else if |content| > l.partMax then (s, Err(PartTooLarge))
    else if s.None? then (s, Err(NoSession))
    else
      var files := s.value.files;
      var name := PartName(part);
      var already := if s.value.received.Some? then s.value.received.value else Total(files, MAX_PART);
      var next: int := already + |content| - Size(files, name);
      if next > l.maxBytes then (s, Err(TooLarge))
      else (Some(Session(files[name := content], Some(if next < 0 then 0 else next))), Ok(|content|))
  }

  function Complete(l: Limits, s: Option<Session>, withinQuota: bool): (Option<Session>, Result<Bytes, Error>) {
    if s.None? then (s, Err(NoSession))
    else if Names(s.value.files, MAX_PART) == [] then (s, Err(NoParts))
    else if Total(s.value.files, MAX_PART) > l.maxBytes then (None, Err(TooLarge))
    else if !withinQuota then (s, Err(OverQuota))
    else (None, Ok(Contents(s.value.files, MAX_PART)))
  }

  // ---- sizes and listings ----

  lemma PartNamesDiffer(i: nat, j: nat)
    requires i <= MAX_PART && j <= MAX_PART && i != j
    ensures PartName(i) != PartName(j)
  {
    PartNamesSortNumerically(if i < j then i else j, if i < j then j else i);
    LessIsStrictOrder(PartName(i), PartName(i), PartName(i));
  }

  lemma {:induction false} TotalAfterWrite(files: map<Str, Bytes>, p: nat, content: Bytes, k: nat)
    requires 1 <= p <= MAX_PART && k <= MAX_PART
    ensures Total(files[PartName(p) := content], k)
            == Total(files, k) + if p <= k then |content| - Size(files, PartName(p)) else 0
  {
    if k > 0 {
      hide PartName;
      TotalAfterWrite(files, p, content, k - 1);
      if k != p {
        PartNamesDiffer(k, p);
      }
    }
  }

  lemma {:induction false} TotalAfterRemoval(files: map<Str, Bytes>, p: nat, k: nat)
    requires 1 <= p <= MAX_PART && k <= MAX_PART
    ensures Total(files - {PartName(p)}, k) == Total(files, k) - if p <= k then Size(files, PartName(p)) else 0
  {
    if k > 0 {
      hide PartName;
      TotalAfterRemoval(files, p, k - 1);
      if k != p {
        PartNamesDiffer(k, p);
      }
    }
  }

  lemma {:induction false} NothingStored(k: nat)
    ensures Total(map[], k) == 0 && Names(map[], k) == []
  {
    if k > 0 {
      NothingStored(k - 1);
    }
  }

  function SizeOfAll(files: map<Str, Bytes>, names: seq<Str>): nat {
    if names == [] then 0 else SizeOfAll(files, names[..|names| - 1]) + Size(files, names[|names| - 1])
  }

  /** Adding up the sizes in any listing order gives the total. */
  lemma {:induction false} ListingSum(files: map<Str, Bytes>, names: seq<Str>)
    requires OnlyParts(files)
    requires forall i, j :: 0 <= i < j < |names| ==> names[i] != names[j]
    requires forall n :: n in names <==> n in files
    ensures SizeOfAll(files, names) == Total(files, MAX_PART)
    decreases |names|
  {
    hide PartName, Total;
    if names == [] {
      assert files == map[];
      NothingStored(MAX_PART);
    } else {
      var n, rest := names[|names| - 1], names[..|names| - 1];
      assert n in names;
      var p :| 1 <= p <= MAX_PART && n == PartName(p);
      var less := files - {n};
      TotalAfterRemoval(files, p, MAX_PART);
      forall m ensures m in rest <==> m in less {
        assert m in names <==> m in rest || m == n;
        assert m in rest ==> exists i :: 0 <= i < |names| - 1 && names[i] == m;
      }
      ListingSum(less, rest);
      SameSizes(files, less, rest);
    }
  }

  lemma {:induction false} SameSizes(a: map<Str, Bytes>, b: map<Str, Bytes>, names: seq<Str>)
    requires forall n <- names :: n in a && n in b && a[n] == b[n]
    ensures SizeOfAll(a, names) == SizeOfAll(b, names)
  {
    if names != [] {
      SameSizes(a, b, names[..|names| - 1]);
      assert names[|names| - 1] in names;
    }
  }

  predicate Ascending(names: seq<Str>) {
    forall i, j :: 0 <= i < j < |names| ==> Less(names[i], names[j])
  }

  lemma {:induction false} NamesAscend(files: map<Str, Bytes>, k: nat)
    requires k <= MAX_PART
    ensures Ascending(Names(files, k))
    ensures forall n :: n in Names(files, k) <==> n in files && exists i :: 1 <= i <= k && n == PartName(i)
  {
    if k > 0 {
      hide PartName, Less;
      NamesAscend(files, k - 1);
      var before, all := Names(files, k - 1), Names(files, k);
      forall i, j | 0 <= i < j < |all| ensures Less(all[i], all[j]) {
        if j < |before| {
          assert Less(before[i], before[j]);
        } else {
          assert before[i] in before;
          var p :| 1 <= p <= k - 1 && before[i] == PartName(p);
          PartNamesSortNumerically(p, k);
        }
      }
    }
  }

  lemma {:induction false} AscendingIsUnique(a: seq<Str>, b: seq<Str>)
    requires Ascending(a) && Ascending(b) && forall n :: n in a <==> n in b
    ensures a == b
    decreases |a|
  {
    hide Less;
    if a == [] || b == [] {
      HasMember(a);
      HasMember(b);
    } else {
      assert a[0] in b && b[0] in a;
      var i :| 0 <= i < |a| && a[i] == b[0];
      var j :| 0 <= j < |b| && b[j] == a[0];
      LessIsStrictOrder(a[0], b[0], a[0]);
      assert a[0] == b[0];
      forall n ensures n in a[1..] <==> n in b[1..] {
        TailMembers(a, n);
        TailMembers(b, n);
      }
      AscendingIsUnique(a[1..], b[1..]);
    }
  }

  lemma HasMember(a: seq<Str>)
    ensures a == [] || exists n :: n in a
  {
    if a != [] {
      assert a[0] in a;
    }
  }

  lemma TailMembers(a: seq<Str>, n: Str)
    requires Ascending(a) && a != []
    ensures n in a[1..] <==> n in a && n != a[0]
  {
    LessIsStrictOrder(a[0], a[0], a[0]);
    if n in a[1..] {
      var i :| 0 <= i < |a| - 1 && a[1..][i] == n;
      assert a[i + 1] == n;
    }
    if n in a && n != a[0] {
      var i :| 0 <= i < |a| && a[i] == n;
      assert a[1..][i - 1] == n;
    }
  }

  // ---- the code ----

  function Filtered(listing: seq<Str>): seq<Str> {
    if listing == [] then []
    else Filtered(listing[..|listing| - 1])
         + if IsPartName(listing[|listing| - 1]) then [listing[|listing| - 1]] else []
  }

  /** JavaScript's `sort` on distinct names. */
  function Insert(n: Str, names: seq<Str>): seq<Str> {
    if names == [] || Less(n, names[0]) then [n] + names else [names[0]] + Insert(n, names[1..])
  }

  function Sorted(names: seq<Str>): seq<Str> {
    if names == [] then [] else Insert(names[0], Sorted(names[1..]))
  }

  lemma {:induction false} InsertAscends(n: Str, names: seq<Str>)
    requires Ascending(names) && n !in names
    ensures Ascending(Insert(n, names))
    ensures forall m :: m in Insert(n, names) <==> m == n || m in names
  {
    hide Less;
    if names != [] && !Less(n, names[0]) {
      var rest := Insert(n, names[1..]);
      InsertAscends(n, names[1..]);
      LessIsStrictOrder(n, names[0], n);
      var all := [names[0]] + rest;
      assert forall m <- rest :: m == n || m in names[1..];
      forall i, j | 0 <= i < j < |all| ensures Less(all[i], all[j]) {
        if i == 0 {
          assert all[j] in rest;
          if all[j] != n {
            var k :| 0 <= k < |names| - 1 && names[1..][k] == all[j];
            assert Less(names[0], names[k + 1]);
          }
        } else {
          assert Less(rest[i - 1], rest[j - 1]);
        }
      }
      assert forall m :: m in names <==> m == names[0] || m in names[1..];
    } else if names != [] {
      var all := [n] + names;
      forall i, j | 0 <= i < j < |all| ensures Less(all[i], all[j]) {
        if i == 0 {
          LessIsStrictOrder(n, names[0], all[j]);
          assert j > 1 ==> Less(names[0], names[j - 1]);
        } else {
          assert Less(names[i - 1], names[j - 1]);
        }
      }
    }
  }

  lemma {:induction false} SortedAscends(names: seq<Str>)
    requires forall i, j :: 0 <= i < j < |names| ==> names[i] != names[j]
    ensures Ascending(Sorted(names))
    ensures forall m :: m in Sorted(names) <==> m in names
  {
    if names != [] {
      hide Less, Insert;
      SortedAscends(names[1..]);
      InsertAscends(names[0], Sorted(names[1..]));
      assert forall m :: m in names <==> m == names[0] || m in names[1..];
    }
  }

  lemma {:induction false} FilteredMembers(listing: seq<Str>)
    requires forall i, j :: 0 <= i < j < |listing| ==> listing[i] != listing[j]
    ensures forall n :: n in Filtered(listing) <==> n in listing && IsPartName(n)
    ensures forall i, j :: 0 <= i < j < |Filtered(listing)| ==> Filtered(listing)[i] != Filtered(listing)[j]
  {
    if listing != [] {
      hide IsPartName;
      FilteredMembers(listing[..|listing| - 1]);
      assert forall n :: n in listing <==> n in listing[..|listing| - 1] || n == listing[|listing| - 1];
    }
  }

  lemma PartsOfListing(files: map<Str, Bytes>, listing: seq<Str>)
    requires OnlyParts(files) && Lists(listing, files)
    ensures forall n :: n in Filtered(listing) <==> n in files
    ensures forall i, j :: 0 <= i < j < |Filtered(listing)| ==> Filtered(listing)[i] != Filtered(listing)[j]
  {
    FilteredMembers(listing);
    forall n | n in files ensures IsPartName(n) {
      var k :| 1 <= k <= MAX_PART && n == PartName(k);
    }
  }

  /** Sorting the names of any listing gives the numeric order of the parts. */
  lemma SortIsNumeric(files: map<Str, Bytes>, listing: seq<Str>)
    requires OnlyParts(files) && Lists(listing, files)
    ensures Sorted(Filtered(listing)) == Names(files, MAX_PART)
  {
    hide Less, Insert, PartName, Filtered, Names;
    PartsOfListing(files, listing);
    SortedAscends(Filtered(listing));
    NamesAscend(files, MAX_PART);
    AscendingIsUnique(Sorted(Filtered(listing)), Names(files, MAX_PART));
  }

  function ContentsOfAll(files: map<Str, Bytes>, names: seq<Str>): Bytes {
    if names == [] then []
    else
      var n := names[|names| - 1];
      ContentsOfAll(files, names[..|names| - 1]) + if n in files then files[n] else []
  }

  lemma {:induction false} NumericContents(files: map<Str, Bytes>, k: nat)
    ensures ContentsOfAll(files, Names(files, k)) == Contents(files, k)
    ensures SizeOfAll(files, Names(files, k)) == Total(files, k)
  {
    if k > 0 {
      NumericContents(files, k - 1);
      var before, all := Names(files, k - 1), Names(files, k);
      if PartName(k) in files {
        assert all[..|all| - 1] == before;
      } else {
        assert all == before && Contents(files, k) == Contents(files, k - 1);
      }
    }
  }

  lemma {:induction false} SizesGrow(files: map<Str, Bytes>, names: seq<Str>, i: nat)
    requires i <= |names|
    ensures SizeOfAll(files, names[..i]) <= SizeOfAll(files, names)
    decreases |names|
  {
    if i == |names| {
      assert names[..i] == names;
    } else {
      SizesGrow(files, names[..|names| - 1], i);
      assert names[..|names| - 1][..i] == names[..i];
    }
  }

  class UploadSession {
    const limits: Limits
    var session: Option<Session>

    /** createUpload */
    constructor (limits: Limits)
      ensures this.limits == limits && session == Some(Session(map[], Some(0)))
    {
      this.limits := limits;
      session := Some(Session(map[], Some(0)));
    }

    method SumStoredParts(listing: seq<Str>) returns (total: nat)
      requires session.Some? && OnlyParts(session.value.files) && Lists(listing, session.value.files)
      ensures total == Total(session.value.files, MAX_PART)
    {
      hide Total, PartName, Filtered;
      var files := session.value.files;
      var names := Filtered(listing);
      PartsOfListing(files, listing);
      total := 0;
      for i := 0 to |names|
        invariant total == SizeOfAll(files, names[..i])
      {
        assert names[..i + 1][..i] == names[..i];
        total := total + Size(files, names[i]);
      }
      assert names[..|names|] == names;
      ListingSum(files, names);
    }

    /** writeUploadPart; `listing` is what the directory shows. */
    method Write(part: int, content: Bytes, listing: seq<Str>) returns (r: Result<nat, Error>)
      requires session.Some? ==> OnlyParts(session.value.files) && Lists(listing, session.value.files)
      modifies this
      ensures (session, r) == WritePart(limits, old(session), part, content)
    {
      if part < 1 || part > MAX_PART {
        return Err(BadPart);
      }
      if |content| > limits.partMax {
        return Err(PartTooLarge);
      }
      if session.None? {
        return Err(NoSession);
      }
      var name := PartName(part);
      var previousBytes := Size(session.value.files, name);
      var alreadyStored: nat;
      if session.value.received.Some? {
        alreadyStored := session.value.received.value;
      } else {
        alreadyStored := SumStoredParts(listing);
      }
      var nextTotal: int := alreadyStored + |content| - previousBytes;
      if nextTotal > limits.maxBytes {
        return Err(TooLarge);
      }
      session := Some(Session(session.value.files[name := content], Some(if nextTotal < 0 then 0 else nextTotal)));
      r := Ok(|content|);
    }

    /** completeUpload; the session is removed when it succeeds or proves too large. */
    method Finish(listing: seq<Str>, withinQuota: bool) returns (r: Result<Bytes, Error>)
      requires session.Some? ==> OnlyParts(session.value.files) && Lists(listing, session.value.files)
      modifies this
      ensures (session, r) == Complete(limits, old(session), withinQuota)
    {
      hide Total, PartName, Filtered, Sorted, Names, Contents;
      if session.None? {
        return Err(NoSession);
      }
      var files := session.value.files;
      var names := Sorted(Filtered(listing));
      SortIsNumeric(files, listing);
      NumericContents(files, MAX_PART);
      if |names| == 0 {
        return Err(NoParts);
      }
      var total, content := 0, [];
      for i := 0 to |names|
        invariant total == SizeOfAll(files, names[..i]) <= limits.maxBytes
        invariant content == ContentsOfAll(files, names[..i])
        invariant session == old(session)
      {
        assert names[..i + 1][..i] == names[..i];
        SizesGrow(files, names, i + 1);
        total := total + Size(files, names[i]);
        if total > limits.maxBytes {
          session := None;
          return Err(TooLarge);
        }
        content := content + if names[i] in files then files[names[i]] else [];
      }
      assert names[..|names|] == names;
      if !withinQuota {
        return Err(OverQuota);
      }
      session := None;
      r := Ok(content);
    }
  }

  // ---- runs of part writes, one after another ----

  datatype Write = Write(part: int, content: Bytes)

  function After(l: Limits, s: Option<Session>, ws: seq<Write>): Option<Session> {
    if ws == [] then s
    else WritePart(l, After(l, s, ws[..|ws| - 1]), ws[|ws| - 1].part, ws[|ws| - 1].content).0
  }

  predicate Accepted(l: Limits, s: Option<Session>, ws: seq<Write>)
    requires ws != []
  {
    WritePart(l, After(l, s, ws[..|ws| - 1]), ws[|ws| - 1].part, ws[|ws| - 1].content).1.Ok?
  }

  /** Only part files; the counter, if there is one, is the sum of their sizes and within the cap. */
  ghost predicate Inv(l: Limits, s: Session) {
    OnlyParts(s.files) && (s.received.Some? ==> s.received.value == Total(s.files, MAX_PART) <= l.maxBytes)
  }

  /** After any writes, to a new session or to one from before the counter: the counter is exactly the bytes
      stored, within the cap, and an accepted write leaves it set. */
  lemma {:induction false} CounterIsExact(l: Limits, s: Session, ws: seq<Write>)
    requires Inv(l, s)
    ensures After(l, Some(s), ws).Some? && Inv(l, After(l, Some(s), ws).value)
    ensures ws != [] && Accepted(l, Some(s), ws) ==> After(l, Some(s), ws).value.received.Some?
  {
    if ws != [] {
      hide PartName, Total;
      var before, w := After(l, Some(s), ws[..|ws| - 1]), ws[|ws| - 1];
      CounterIsExact(l, s, ws[..|ws| - 1]);
      if Accepted(l, Some(s), ws) {
        var files := before.value.files;
        TotalAfterWrite(files, w.part, w.content, MAX_PART);
        var after := files[PartName(w.part) := w.content];
        forall n | n in after ensures exists k :: 1 <= k <= MAX_PART && n == PartName(k) {
          if n in files {
            var k :| 1 <= k <= MAX_PART && n == PartName(k);
          }
        }
      }
    }
  }

  /** A write is accepted exactly when its number and size are in range and all parts, with this one in its new
      place, stay within the cap; the counter is then their sum. Any other write changes nothing. */
  lemma WriteAcceptedExactly(l: Limits, s: Session, part: int, content: Bytes)
    requires Inv(l, s)
    ensures var (t, r) := WritePart(l, Some(s), part, content);
      var inRange := 1 <= part <= MAX_PART;
      && (r == Err(BadPart) <==> !inRange)
      && (r == Err(PartTooLarge) <==> inRange && |content| > l.partMax)
      && (inRange && |content| <= l.partMax ==>
            var files := s.files[PartName(part) := content];
            if Total(files, MAX_PART) <= l.maxBytes then
              r == Ok(|content|) && t == Some(Session(files, Some(Total(files, MAX_PART))))
            else r == Err(TooLarge))
      && (r.Err? ==> t == Some(s))
  {
    hide PartName, Total;
    if 1 <= part <= MAX_PART {
      TotalAfterWrite(s.files, part, content, MAX_PART);
    }
  }

  lemma WriteNeedsASession(l: Limits, part: int, content: Bytes)
    ensures var (t, r) := WritePart(l, None, part, content);
      t.None? && (r == Err(NoSession) <==> 1 <= part <= MAX_PART && |content| <= l.partMax) && r.Err?
  {
  }

  ghost predicate HasPart(s: Session) {
    exists p :: 1 <= p <= MAX_PART && PartName(p) in s.files
  }

  /** Completion yields the stored parts in the order of their numbers exactly when there are any, they fit the
      cap and the owner's quota; the session is gone after that, and after parts that do not fit the cap. */
  lemma CompletesExactly(l: Limits, s: Session, withinQuota: bool)
    requires OnlyParts(s.files)
    ensures var (t, r) := Complete(l, Some(s), withinQuota); var total := Total(s.files, MAX_PART);
      && (r == Err(NoParts) <==> !HasPart(s))
      && (r == Err(TooLarge) <==> HasPart(s) && total > l.maxBytes)
      && (r == Err(OverQuota) <==> HasPart(s) && total <= l.maxBytes && !withinQuota)
      && (r.Ok? <==> HasPart(s) && total <= l.maxBytes && withinQuota)
      && (r.Ok? ==> r.value == Contents(s.files, MAX_PART) && |r.value| == total)
      && (t == if r.Ok? || r == Err(TooLarge) then None else Some(s))
  {
    hide PartName, Total, Contents, Names;
    var names := Names(s.files, MAX_PART);
    NamesAscend(s.files, MAX_PART);
    HasMember(names);
    ContentsSize(s.files, MAX_PART);
    if p :| 1 <= p <= MAX_PART && PartName(p) in s.files {
      assert PartName(p) in names;
    }
  }

  /** What the last accepted write to a part left there. */
  function LastContent(l: Limits, s: Session, ws: seq<Write>, part: nat): Option<Bytes> {
    if ws == [] then (if PartName(part) in s.files then Some(s.files[PartName(part)]) else None)
    else if Accepted(l, Some(s), ws) && ws[|ws| - 1].part == part then Some(ws[|ws| - 1].content)
    else LastContent(l, s, ws[..|ws| - 1], part)
  }

  lemma {:induction false} FilesHoldLastContent(l: Limits, s: Session, ws: seq<Write>, part: nat)
    requires Inv(l, s) && 1 <= part <= MAX_PART
    ensures After(l, Some(s), ws).Some?
    ensures var files := After(l, Some(s), ws).value.files;
      LastContent(l, s, ws, part) == if PartName(part) in files then Some(files[PartName(part)]) else None
  {
    CounterIsExact(l, s, ws);
    if ws != [] {
      hide PartName, Total;
      CounterIsExact(l, s, ws[..|ws| - 1]);
      FilesHoldLastContent(l, s, ws[..|ws| - 1], part);
      var p := ws[|ws| - 1].part;
      if Accepted(l, Some(s), ws) && p != part {
        PartNamesDiffer(p, part);
      }
    }
  }

  /** The last contents of parts 1 to `k`, in the order of their numbers. */
  function InPartOrder(l: Limits, s: Session, ws: seq<Write>, k: nat): Bytes {
    if k == 0 then []
    else
      var last := LastContent(l, s, ws, k);
      InPartOrder(l, s, ws, k - 1) + if last.Some? then last.value else []
  }

  lemma {:induction false} ContentsInPartOrder(l: Limits, s: Session, ws: seq<Write>, k: nat)
    requires Inv(l, s) && k <= MAX_PART
    ensures After(l, Some(s), ws).Some?
    ensures Contents(After(l, Some(s), ws).value.files, k) == InPartOrder(l, s, ws, k)
  {
    CounterIsExact(l, s, ws);
    if k > 0 {
      hide PartName, LastContent, After;
      ContentsInPartOrder(l, s, ws, k - 1);
      FilesHoldLastContent(l, s, ws, k);
    }
  }

  lemma {:induction false} ContentsSize(files: map<Str, Bytes>, k: nat)
    ensures |Contents(files, k)| == Total(files, k)
  {
    if k > 0 {
      ContentsSize(files, k - 1);
    }
  }

  /** Completing a session that was created empty never finds it too large: it yields the last accepted write
      to each part, joined in the order of the part numbers, whatever order they arrived in. */
  lemma CompletionJoinsLastWrites(l: Limits, ws: seq<Write>)
    ensures var r := Complete(l, After(l, Some(Session(map[], Some(0))), ws), true).1;
      var joined := InPartOrder(l, Session(map[], Some(0)), ws, MAX_PART);
      && r == (if AnyPart(l, ws) then Ok(joined) else Err(NoParts))
      && |joined| <= l.maxBytes
  {
    hide PartName, Total, After, InPartOrder, Contents, Names;
    var s := Session(map[], Some(0));
    NothingStored(MAX_PART);
    CounterIsExact(l, s, ws);
    CounterStaysSet(l, s, ws);
    ContentsInPartOrder(l, s, ws, MAX_PART);
    var files := After(l, Some(s), ws).value.files;
    ContentsSize(files, MAX_PART);
    NumericContents(files, MAX_PART);
    SomeNameExactlyWithParts(l, ws);
  }

  ghost predicate AnyPart(l: Limits, ws: seq<Write>) {
    exists p :: 1 <= p <= MAX_PART && LastContent(l, Session(map[], Some(0)), ws, p).Some?
  }

  lemma SomeNameExactlyWithParts(l: Limits, ws: seq<Write>)
    ensures After(l, Some(Session(map[], Some(0))), ws).Some?
    ensures Names(After(l, Some(Session(map[], Some(0))), ws).value.files, MAX_PART) != [] <==> AnyPart(l, ws)
  {
    hide PartName, Total, After, Names, LastContent;
    var s := Session(map[], Some(0));
    NothingStored(MAX_PART);
    CounterIsExact(l, s, ws);
    var files := After(l, Some(s), ws).value.files;
    NamesAscend(files, MAX_PART);
    HasMember(Names(files, MAX_PART));
    forall p | 1 <= p <= MAX_PART ensures LastContent(l, s, ws, p).Some? <==> PartName(p) in files {
      FilesHoldLastContent(l, s, ws, p);
    }
  }

  lemma {:induction false} CounterStaysSet(l: Limits, s: Session, ws: seq<Write>)
    requires Inv(l, s) && s.received.Some?
    ensures After(l, Some(s), ws).Some? && After(l, Some(s), ws).value.received.Some?
  {
    if ws != [] {
      hide Total, PartName;
      CounterStaysSet(l, s, ws[..|ws| - 1]);
    }
  }
}
