/** Datatypes and text helpers shared by the other modules. */
module Common {

  datatype Option<+T> = None | Some(value: T)

  datatype Result<+T, +E> = Ok(value: T) | Err(error: E)

  /** JavaScript text as UTF-16 code units, where its order or its matching depends on them. */
  newtype CodeUnit = c: int | 0 <= c < 0x1_0000
  type Str = seq<CodeUnit>

  const SLASH: CodeUnit := 0x2F

  newtype Byte = b: int | 0 <= b < 256

  /** JavaScript's `<` on strings. */
  predicate Less(a: Str, b: Str) {
    b != [] && (a == [] || a[0] < b[0] || (a[0] == b[0] && Less(a[1..], b[1..])))
  }

  lemma {:induction false} LessIsStrictOrder(a: Str, b: Str, c: Str)
    ensures !Less(a, a)
    ensures Less(a, b) && Less(b, c) ==> Less(a, c)
    ensures a != b ==> Less(a, b) || Less(b, a)
    decreases |a| + |b| + |c|
  {
    if a != [] || b != [] || c != [] {
      var at, bt, ct := if a == [] then [] else a[1..], if b == [] then [] else b[1..], if c == [] then [] else c[1..];
      LessIsStrictOrder(at, bt, ct);
      assert a != [] && b != [] && a[0] == b[0] && at == bt ==> a == [a[0]] + at == b;
    }
  }

  lemma {:induction false} LessCancels(p: Str, a: Str, b: Str)
    ensures Less(p + a, p + b) <==> Less(a, b)
  {
    if p == [] {
      assert p + a == a && p + b == b;
    } else {
      assert (p + a)[1..] == p[1..] + a && (p + b)[1..] == p[1..] + b;
      LessCancels(p[1..], a, b);
    }
  }

  lemma {:induction false} LessExtends(a: Str, b: Str, more: Str)
    requires Less(a, b)
    ensures Less(a, b + more)
    ensures !(a <= b) ==> Less(a + more, b)
  {
    if a != [] {
      assert (b + more)[1..] == b[1..] + more && (a + more)[1..] == a[1..] + more;
      if a[0] == b[0] {
        LessExtends(a[1..], b[1..], more);
        assert a[1..] <= b[1..] ==> a == [a[0]] + a[1..] <= b;
      }
    }
  }

  /** The pieces of `s` between separators; an empty text has one empty piece. */
  function Split(s: string, sep: char): (parts: seq<string>)
    ensures parts != []
  {
    if s == "" then [""]
    else
      var rest := Split(s[1..], sep);
      if s[0] == sep then [""] + rest else [[s[0]] + rest[0]] + rest[1..]
  }

  function Join(parts: seq<string>, sep: char): string {
    if parts == [] then ""
    else if |parts| == 1 then parts[0]
    else parts[0] + [sep] + Join(parts[1..], sep)
  }

  lemma {:induction false} JoinSplit(s: string, sep: char)
    ensures Join(Split(s, sep), sep) == s
  {
    if s != "" {
      var rest := Split(s[1..], sep);
      JoinSplit(s[1..], sep);
      if s[0] == sep {
        assert Split(s, sep)[1..] == rest;
      } else {
        assert Split(s, sep)[1..] == rest[1..];
        assert |rest| > 1 ==> Join(rest, sep) == rest[0] + [sep] + Join(rest[1..], sep);
      }
      assert s == [s[0]] + s[1..];
    }
  }

  lemma {:induction false} SplitWithoutSeparator(s: string, sep: char)
    requires sep !in s
    ensures Split(s, sep) == [s]
  {
    if s != "" {
      SplitWithoutSeparator(s[1..], sep);
      assert s == [s[0]] + s[1..];
    }
  }

  lemma {:induction false} SplitAtSeparator(a: string, b: string, sep: char)
    ensures Split(a + [sep] + b, sep) == Split(a, sep) + Split(b, sep)
  {
    var s := a + [sep] + b;
    if a == "" {
      assert s[1..] == b;
    } else {
      assert s[1..] == a[1..] + [sep] + b;
      SplitAtSeparator(a[1..], b, sep);
    }
  }

  lemma {:induction false} SplitJoin(parts: seq<string>, sep: char)
    requires parts != [] && forall i :: 0 <= i < |parts| ==> sep !in parts[i]
    ensures Split(Join(parts, sep), sep) == parts
  {
    SplitWithoutSeparator(parts[0], sep);
    if |parts| == 1 {
      assert parts == [parts[0]];
    } else {
      SplitAtSeparator(parts[0], Join(parts[1..], sep), sep);
      SplitJoin(parts[1..], sep);
    }
  }
}
