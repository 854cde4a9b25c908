/** Workspace path resolution and the move guard (src/services/workspace-storage.ts), on POSIX paths. */
module PathResolution {
  import opened Common

  datatype Error = InvalidPath | Escapes | MoveRoot | NotFound | InvalidTarget | IntoItself

  // ---- the code, on text ----

  function StripLeading(s: string): (r: string)
    ensures r != "" ==> r[0] != '/'
  {
    if s != "" && s[0] == '/' then StripLeading(s[1..]) else s
  }

  function StripTrailing(s: string): string {
    if s != "" && s[|s| - 1] == '/' then StripTrailing(s[..|s| - 1]) else s
  }

  /** One segment on the component stack: empty and `.` vanish, `..` pops, at the top it vanishes too. */
  function Push(stack: seq<string>, segment: string): seq<string> {
    if segment == "" || segment == "." then stack
    else if segment == ".." then (if stack == [] then [] else stack[..|stack| - 1])
    else stack + [segment]
  }

  function Walk(stack: seq<string>, segments: seq<string>): seq<string>
    decreases |segments|
  {
    if segments == [] then stack else Walk(Push(stack, segments[0]), segments[1..])
  }

  function Text(components: seq<string>): string {
    if components == [] then "/" else Slashed(components)
  }

  function Slashed(components: seq<string>): string {
    if components == [] then "" else "/" + components[0] + Slashed(components[1..])
  }

  /** node:path `resolve` of an absolute directory and a relative path. */
  function Resolve(root: string, rel: string): string {
    Text(Walk([], Split(root + "/" + rel, '/')))
  }

  function ResolveInWorkspace(root: string, rel: string): Result<string, Error> {
    var cleaned := StripLeading(rel);
    if cleaned == "" || cleaned == "." then Ok(root)
    else if '\0' in cleaned then Err(InvalidPath)
    else
      var abs := Resolve(root, cleaned);
      var prefix := if root != "" && root[|root| - 1] == '/' then root else root + "/";
      if abs != root && !(prefix <= abs) then Err(Escapes) else Ok(abs)
  }

  /** The workspace-relative form of a path under the root. */
  function RelativePart(root: string, abs: string): string
    requires |root| <= |abs|
  {
    StripLeading(abs[|root|..])
  }

  // ---- components ----

  predicate Name(c: string) {
    c != "" && c != "." && c != ".." && '/' !in c && '\0' !in c
  }

  predicate Names(cs: seq<string>) {
    forall i :: 0 <= i < |cs| ==> Name(cs[i])
  }

  lemma {:induction false} WalkAppends(stack: seq<string>, a: seq<string>, b: seq<string>)
    ensures Walk(stack, a + b) == Walk(Walk(stack, a), b)
    decreases |a|
  {
    if a == [] {
      assert a + b == b;
    } else {
      assert (a + b)[1..] == a[1..] + b;
      WalkAppends(Push(stack, a[0]), a[1..], b);
    }
  }

  lemma {:induction false} WalkNames(stack: seq<string>, cs: seq<string>)
    requires Names(cs)
    ensures Walk(stack, cs) == stack + cs
    decreases |cs|
  {
    if cs == [] {
      assert stack + cs == stack;
    } else {
      assert Name(cs[0]) && Names(cs[1..]);
      WalkNames(stack + [cs[0]], cs[1..]);
      assert stack + [cs[0]] + cs[1..] == stack + cs;
    }
  }

  /** Walking over the pieces of any text keeps the stack a list of proper names. */
  lemma {:induction false} WalkKeepsNames(stack: seq<string>, segments: seq<string>)
    requires Names(stack) && forall i :: 0 <= i < |segments| ==> '/' !in segments[i] && '\0' !in segments[i]
    ensures Names(Walk(stack, segments))
    decreases |segments|
  {
    if segments != [] {
      assert Names(Push(stack, segments[0]));
      WalkKeepsNames(Push(stack, segments[0]), segments[1..]);
    }
  }

  lemma {:induction false} PiecesAreClean(s: string, sep: char)
    requires '\0' !in s
    ensures forall i :: 0 <= i < |Split(s, sep)| ==> sep !in Split(s, sep)[i] && '\0' !in Split(s, sep)[i]
  {
    if s != "" {
      PiecesAreClean(s[1..], sep);
      var parts, rest := Split(s, sep), Split(s[1..], sep);
      forall i | 0 <= i < |parts| ensures sep !in parts[i] && '\0' !in parts[i] {
        assert sep !in rest[0] && '\0' !in rest[0];
        if i > 0 {
          assert parts[i] == if s[0] == sep then rest[i - 1] else rest[i];
        }
      }
    }
  }

  lemma {:induction false} SlashedIsJoin(cs: seq<string>)
    requires cs != []
    ensures Slashed(cs) == "/" + Join(cs, '/')
    decreases |cs|
  {
    if |cs| > 1 {
      SlashedIsJoin(cs[1..]);
    } else {
      assert cs[1..] == [];
    }
  }

  lemma SplitText(cs: seq<string>)
    requires Names(cs) && cs != []
    ensures Split(Text(cs), '/') == [""] + cs
    ensures |Text(cs)| >= 2
  {
    hide Split, Join, Slashed;
    SlashedIsJoin(cs);
    assert "/" + Join(cs, '/') == "" + ['/'] + Join(cs, '/');
    SplitAtSeparator("", Join(cs, '/'), '/');
    SplitWithoutSeparator("", '/');
    assert forall i :: 0 <= i < |cs| ==> Name(cs[i]);
    SplitJoin(cs, '/');
    FirstOfJoin(cs);
  }

  lemma FirstOfJoin(cs: seq<string>)
    requires Names(cs) && cs != []
    ensures Join(cs, '/') != "" && Join(cs, '/')[0] == cs[0][0] != '/'
  {
    assert Name(cs[0]);
  }

  lemma {:induction false} SlashedAppends(a: seq<string>, b: seq<string>)
    ensures Slashed(a + b) == Slashed(a) + Slashed(b)
  {
    if a == [] {
      assert a + b == b;
    } else {
      assert (a + b)[1..] == a[1..] + b;
      SlashedAppends(a[1..], b);
    }
  }

  lemma TextPrefixMeansComponents(root: seq<string>, cs: seq<string>)
    requires Names(root) && root != [] && Names(cs) && cs != [] && Text(root) + "/" <= Text(cs)
    ensures root <= cs
  {
    hide Split, Text;
    SplitText(root);
    SplitText(cs);
    var rest := Text(cs)[|Text(root)| + 1..];
    assert Text(cs) == Text(root) + ['/'] + rest;
    SplitAtSeparator(Text(root), rest, '/');
    assert [""] + cs == [""] + root + Split(rest, '/');
    assert cs == ([""] + cs)[1..] == root + Split(rest, '/');
  }

  lemma ComponentsMeanTextPrefix(root: seq<string>, t: seq<string>)
    requires root != []
    ensures Text(root + t) == Text(root) + Slashed(t)
    ensures t != [] ==> Text(root) + "/" <= Text(root + t)
  {
    SlashedAppends(root, t);
  }

  /** The string test with a separator is the component-wise prefix test, and texts are equal only for
      equal components. */
  lemma PrefixTestIsComponentwise(root: seq<string>, cs: seq<string>)
    requires Names(root) && root != [] && Names(cs)
    ensures Text(cs) == Text(root) || Text(root) + "/" <= Text(cs) <==> root <= cs
    ensures Text(cs) == Text(root) <==> cs == root
  {
    hide Split, Slashed;
    SplitText(root);
    if cs != [] {
      SplitText(cs);
      assert ([""] + cs)[1..] == cs && ([""] + root)[1..] == root;
      if Text(root) + "/" <= Text(cs) {
        TextPrefixMeansComponents(root, cs);
      }
      if root <= cs {
        ComponentsMeanTextPrefix(root, cs[|root|..]);
        assert cs == root + cs[|root|..];
        assert cs[|root|..] == [] ==> cs == root;
      }
    }
  }

  lemma {:induction false} StripLeadingWalks(stack: seq<string>, s: string)
    ensures Walk(stack, Split(StripLeading(s), '/')) == Walk(stack, Split(s, '/'))
    ensures '\0' in StripLeading(s) <==> '\0' in s
    decreases |s|
  {
    if s != "" && s[0] == '/' {
      StripLeadingWalks(stack, s[1..]);
      assert Split(s, '/')[1..] == Split(s[1..], '/');
      assert s == ['/'] + s[1..];
    }
  }

  /** Resolving walks on from the root's own components. */
  lemma ResolveWalksFromRoot(root: seq<string>, rel: string)
    requires Names(root) && root != []
    ensures Resolve(Text(root), rel) == Text(Walk(root, Split(rel, '/')))
  {
    hide Split, Text;
    SplitAtSeparator(Text(root), rel, '/');
    SplitText(root);
    assert Text(root) + "/" + rel == Text(root) + ['/'] + rel;
    WalkAppends([], [""] + root, Split(rel, '/'));
    assert ([""] + root)[1..] == root;
    WalkNames([], root);
    assert [] + root == root;
  }

  /** What a path names, by components alone. */
  function Target(root: seq<string>, rel: string): seq<string> {
    Walk(root, Split(rel, '/'))
  }

  /** The string code accepts a path exactly when it is free of NUL and its components extend the root's, and
      then returns the text of those components. */
  lemma AcceptsExactlyPathsUnderRoot(root: seq<string>, rel: string)
    requires Names(root) && root != []
    ensures ResolveInWorkspace(Text(root), rel)
            == if '\0' in rel then Err(InvalidPath)
               else if root <= Target(root, rel) then Ok(Text(Target(root, rel)))
               else Err(Escapes)
    ensures '\0' !in rel ==> Names(Target(root, rel))
  {
    var cleaned := StripLeading(rel);
    StripLeadingWalks(root, rel);
    if cleaned == "" || cleaned == "." {
      SplitWithoutSeparator(cleaned, '/');
      assert Walk(root, [cleaned]) == Walk(root, [cleaned][1..]);
    } else if '\0' !in rel {
      hide Split, Text;
      PiecesAreClean(rel, '/');
      WalkKeepsNames(root, Split(rel, '/'));
      LastCharacter(root);
      ResolveWalksFromRoot(root, cleaned);
      PrefixTestIsComponentwise(root, Target(root, rel));
    }
  }

  // ---- what `..`, `.` and empty segments mean, on texts ----

  /** Two paths that name the same components resolve alike. */
  lemma SameTargetResolvesAlike(root: seq<string>, rel: string, other: string)
    requires Names(root) && root != [] && Target(root, rel) == Target(root, other) && ('\0' in rel <==> '\0' in other)
    ensures ResolveInWorkspace(Text(root), rel) == ResolveInWorkspace(Text(root), other)
  {
    AcceptsExactlyPathsUnderRoot(root, rel);
    AcceptsExactlyPathsUnderRoot(root, other);
  }

  lemma TargetInParts(root: seq<string>, a: string, b: string)
    ensures Target(root, a + "/" + b) == Walk(Target(root, a), Split(b, '/'))
  {
    hide Split;
    assert a + "/" + b == a + ['/'] + b;
    SplitAtSeparator(a, b, '/');
    WalkAppends(root, Split(a, '/'), Split(b, '/'));
  }

  lemma OneSegment(stack: seq<string>, segment: string)
    requires '/' !in segment
    ensures Walk(stack, Split(segment, '/')) == Push(stack, segment)
  {
    SplitWithoutSeparator(segment, '/');
    assert [segment][1..] == [];
  }

  /** `..` takes back the name before it, wherever the two stand in the path. */
  lemma NameAndDotDotCancel(root: seq<string>, a: string, n: string, b: string)
    requires Names(root) && root != [] && Name(n)
    ensures ResolveInWorkspace(Text(root), a + "/" + n + "/../" + b) == ResolveInWorkspace(Text(root), a + "/" + b)
  {
    hide ResolveInWorkspace, Split, Walk;
    var with := a + "/" + n + "/../" + b;
    assert with == (a + "/" + n) + "/" + ".." + "/" + b && a + "/" + n + "/" + ".." + "/" + b == with;
    TargetInParts(root, a, n);
    TargetInParts(root, a + "/" + n, "..");
    TargetInParts(root, a + "/" + n + "/" + "..", b);
    TargetInParts(root, a, b);
    OneSegment(Target(root, a), n);
    OneSegment(Target(root, a + "/" + n), "..");
    assert Target(root, a + "/" + n + "/" + "..") == Target(root, a);
    SameTargetResolvesAlike(root, with, a + "/" + b);
  }

  /** Empty and `.` segments can be dropped. */
  lemma EmptyAndDotVanish(root: seq<string>, a: string, segment: string, b: string)
    requires Names(root) && root != [] && (segment == "" || segment == ".")
    ensures ResolveInWorkspace(Text(root), a + "/" + segment + "/" + b) == ResolveInWorkspace(Text(root), a + "/" + b)
  {
    hide ResolveInWorkspace, Split, Walk;
    TargetInParts(root, a, segment);
    TargetInParts(root, a + "/" + segment, b);
    TargetInParts(root, a, b);
    OneSegment(Target(root, a), segment);
    SameTargetResolvesAlike(root, a + "/" + segment + "/" + b, a + "/" + b);
  }

  function Ups(k: nat): string {
    if k == 0 then "" else "../" + Ups(k - 1)
  }

  /** The root without its last `k` components; the filesystem root is its own parent. */
  function Above(root: seq<string>, k: nat): seq<string> {
    if k <= |root| then root[..|root| - k] else []
  }

  lemma ClimbOnce(stack: seq<string>, rest: string)
    ensures Walk(stack, Split(".." + "/" + rest, '/')) == Walk(Above(stack, 1), Split(rest, '/'))
  {
    hide Split, Walk;
    TargetInParts(stack, "..", rest);
    OneSegment(stack, "..");
    assert Push(stack, "..") == Above(stack, 1);
  }

  lemma AboveTwice(stack: seq<string>, k: nat)
    requires k > 0
    ensures Above(Above(stack, 1), k - 1) == Above(stack, k)
    ensures Above(stack, 0) == stack
  {
  }

  lemma {:induction false} UpsClimb(stack: seq<string>, k: nat, rel: string)
    ensures Walk(stack, Split(Ups(k) + rel, '/')) == Walk(Above(stack, k), Split(rel, '/'))
    decreases k
  {
    hide Split, Walk, Above;
    if k == 0 {
      AboveTwice(stack, 1);
      assert Ups(0) + rel == rel;
    } else {
      hide Ups;
      UpsOnce(k, rel);
      ClimbOnce(stack, Ups(k - 1) + rel);
      UpsClimb(Above(stack, 1), k - 1, rel);
      AboveTwice(stack, k);
    }
  }

  lemma UpsOnce(k: nat, rel: string)
    requires k > 0
    ensures Ups(k) + rel == ".." + "/" + (Ups(k - 1) + rel)
  {
  }

  lemma {:induction false} UpsWithoutNul(k: nat)
    ensures '\0' !in Ups(k)
  {
    if k > 0 {
      UpsWithoutNul(k - 1);
    }
  }

  /** A path that first climbs `k` directories escapes exactly when what it then names, from so far above the
      root, does not lie in the root again; the filesystem root has no parent but itself. */
  lemma ClimbingEscapesExactly(root: seq<string>, k: nat, cs: seq<string>)
    requires Names(root) && root != [] && Names(cs)
    ensures var at := Above(root, k) + cs;
      ResolveInWorkspace(Text(root), Ups(k) + Join(cs, '/')) == if root <= at then Ok(Text(at)) else Err(Escapes)
  {
    hide ResolveInWorkspace, Split, Walk;
    var rel := Ups(k) + Join(cs, '/');
    UpsClimb(root, k, Join(cs, '/'));
    TargetOfJoin(Above(root, k), cs);
    JoinWithoutNul(cs);
    UpsWithoutNul(k);
    AcceptsExactlyPathsUnderRoot(root, rel);
  }

  lemma {:induction false} LastCharacter(cs: seq<string>)
    requires Names(cs) && cs != []
    ensures Text(cs) != "" && Text(cs)[|Text(cs)| - 1] != '/'
    decreases |cs|
  {
    assert Name(cs[0]);
    if |cs| > 1 {
      assert Names(cs[1..]);
      LastCharacter(cs[1..]);
    } else {
      assert Slashed(cs) == "/" + cs[0] + "";
    }
  }

  lemma RelativePartIsJoin(root: seq<string>, t: seq<string>)
    requires root != [] && Names(t)
    ensures |Text(root)| <= |Text(root + t)|
    ensures RelativePart(Text(root), Text(root + t)) == Join(t, '/')
  {
    ComponentsMeanTextPrefix(root, t);
    assert Text(root + t)[|Text(root)|..] == Slashed(t);
    if t != [] {
      hide Text, Slashed, Join;
      SlashedIsJoin(t);
      FirstOfJoin(t);
      var tail := "/" + Join(t, '/');
      assert tail[1..] == Join(t, '/');
      assert StripLeading(tail) == StripLeading(Join(t, '/')) == Join(t, '/');
    }
  }

  /** An accepted path, stored by its relative part and resolved again, is the same path. */
  lemma ResolvingAgainIsStable(root: seq<string>, rel: string)
    requires Names(root) && root != []
    requires ResolveInWorkspace(Text(root), rel).Ok?
    ensures var abs := ResolveInWorkspace(Text(root), rel).value;
      && |Text(root)| <= |abs|
      && ResolveInWorkspace(Text(root), RelativePart(Text(root), abs)) == Ok(abs)
  {
    hide ResolveInWorkspace, RelativePart, Text, Walk;
    AcceptsExactlyPathsUnderRoot(root, rel);
    var cs := Target(root, rel);
    var t := cs[|root|..];
    assert cs == root + t && Names(t);
    RelativePartIsJoin(root, t);
    AcceptsExactlyPathsUnderRoot(root, Join(t, '/'));
    TargetOfJoin(root, t);
    JoinWithoutNul(t);
  }

  lemma {:induction false} JoinWithoutNul(cs: seq<string>)
    requires Names(cs)
    ensures '\0' !in Join(cs, '/')
  {
    if cs != [] {
      assert Name(cs[0]) && Names(cs[1..]);
      JoinWithoutNul(cs[1..]);
    }
  }

  lemma TargetOfJoin(root: seq<string>, t: seq<string>)
    requires Names(root) && Names(t)
    ensures Target(root, Join(t, '/')) == root + t
  {
    if t == [] {
      assert Walk(root, [""]) == Walk(root, [""][1..]);
      assert root + t == root;
    } else {
      assert forall i :: 0 <= i < |t| ==> Name(t[i]);
      SplitJoin(t, '/');
      WalkNames(root, t);
    }
  }

  // ---- move ----

  function LastPiece(path: string): string {
    var pieces := Split(path, '/');
    pieces[|pieces| - 1]
  }

  /** A trailing slash or `.` names a target directory, in which the entry keeps its name. */
  predicate NamesDirectory(toRel: string) {
    (toRel != "" && toRel[|toRel| - 1] == '/') || toRel == "."
  }

  function TargetText(toRel: string, name: string): string {
    if NamesDirectory(toRel) then StripTrailing(toRel) + "/" + name else toRel
  }

  /** `present` tells whether the resolved source is there. The result is the new relative path. */
  function Move(root: string, fromRel: string, present: bool, toRel: string): Result<string, Error> {
    match ResolveInWorkspace(root, fromRel)
    case Err(e) => Err(e)
    case Ok(source) =>
      if source == root then Err(MoveRoot)
      else if !present then Err(NotFound)
      else
        match ResolveInWorkspace(root, TargetText(toRel, LastPiece(source)))
        case Err(e) => Err(e)
        case Ok(target) =>
          if target == root || target == source then Err(InvalidTarget)
          else if source + "/" <= target then Err(IntoItself)
          else if |root| <= |target| then Ok(RelativePart(root, target))
          else Ok("")
  }

  lemma {:induction false} StripTrailingWalks(stack: seq<string>, s: string)
    ensures Walk(stack, Split(StripTrailing(s), '/')) == Walk(stack, Split(s, '/'))
    decreases |s|
  {
    if s != "" && s[|s| - 1] == '/' {
      var t := s[..|s| - 1];
      assert s == t + ['/'] + "";
      SplitAtSeparator(t, "", '/');
      SplitWithoutSeparator("", '/');
      WalkAppends(stack, Split(t, '/'), [""]);
      assert [""][1..] == [];
      StripTrailingWalks(stack, t);
    }
  }

  /** Where a move goes: to the path itself, or into it under the source's own last name. */
  function Destination(root: seq<string>, source: seq<string>, toRel: string): seq<string>
    requires source != []
  {
    if toRel == "." || (toRel != "" && toRel[|toRel| - 1] == '/') then Target(root, toRel) + [source[|source| - 1]]
    else Target(root, toRel)
  }

  lemma DestinationIsTarget(root: seq<string>, source: seq<string>, toRel: string)
    requires Names(source) && source != []
    ensures LastPiece(Text(source)) == source[|source| - 1]
    ensures Target(root, TargetText(toRel, LastPiece(Text(source)))) == Destination(root, source, toRel)
    ensures '\0' in TargetText(toRel, LastPiece(Text(source))) <==> '\0' in toRel
  {
    hide Split, Text;
    SplitText(source);
    var name := source[|source| - 1];
    assert Name(name);
    if NamesDirectory(toRel) {
      var dir := StripTrailing(toRel);
      assert dir + "/" + name == dir + ['/'] + name;
      SplitAtSeparator(dir, name, '/');
      SplitWithoutSeparator(name, '/');
      WalkAppends(root, Split(dir, '/'), [name]);
      WalkNames(Walk(root, Split(dir, '/')), [name]);
      StripTrailingWalks(root, toRel);
      StripTrailingNul(toRel);
    }
  }

  lemma {:induction false} StripTrailingNul(s: string)
    ensures '\0' in StripTrailing(s) <==> '\0' in s
  {
    if s != "" && s[|s| - 1] == '/' {
      StripTrailingNul(s[..|s| - 1]);
      assert s == s[..|s| - 1] + ['/'];
    }
  }

  /** Why a move that is not carried out is refused, first reason first. */
  function Refusal(root: seq<string>, source: seq<string>, fromRel: string, present: bool, toRel: string): Error {
    if '\0' in fromRel then InvalidPath
    else if !(root <= source) then Escapes
    else if source == root || source == [] then MoveRoot
    else if !present then NotFound
    else if '\0' in toRel then InvalidPath
    else if !(root <= Destination(root, source, toRel)) then Escapes
    else if Destination(root, source, toRel) in [root, source] then InvalidTarget
    else IntoItself
  }

  /** A move is carried out exactly when source and destination lie strictly below the root and the
      destination is not the source or beneath it; the path returned resolves to the destination, and any
      other move is refused for the first reason that applies. */
  lemma MoveExactlyBetweenSeparatePaths(root: seq<string>, fromRel: string, present: bool, toRel: string)
    requires Names(root) && root != []
    ensures var source := Target(root, fromRel);
      var r := Move(Text(root), fromRel, present, toRel);
      && (r.Ok? <==>
            && '\0' !in fromRel && '\0' !in toRel && present
            && root < source
            && root < Destination(root, source, toRel)
            && !(source <= Destination(root, source, toRel)))
      && (r.Ok? ==> ResolveInWorkspace(Text(root), r.value) == Ok(Text(Destination(root, source, toRel))))
      && (r.Err? ==> r.error == Refusal(root, source, fromRel, present, toRel))
  {
    hide ResolveInWorkspace, RelativePart, Text, Walk, TargetText, LastPiece, Destination;
    AcceptsExactlyPathsUnderRoot(root, fromRel);
    var source := Target(root, fromRel);
    if '\0' !in fromRel && root <= source {
      PrefixTestIsComponentwise(root, source);
      if source != root && present {
        var text := TargetText(toRel, LastPiece(Text(source)));
        var target := Destination(root, source, toRel);
        DestinationIsTarget(root, source, toRel);
        AcceptsExactlyPathsUnderRoot(root, text);
        if '\0' !in toRel && root <= target {
          PrefixTestIsComponentwise(root, target);
          PrefixTestIsComponentwise(source, target);
          ResolvingAgainIsStable(root, text);
        }
      }
    }
  }
}
