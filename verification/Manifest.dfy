/** Manifest files: newline-separated relative paths, cleaned and deduplicated whenever they are read. */
module Manifest {
  import opened Common

  // ----- Strings -----

  predicate IsSpace(c: char) {
    || c in " \t\n\r" || c == '\U{0B}' || c == '\U{0C}' || c == '\U{85}' || c == '\U{A0}' || c == '\U{1680}'
    || '\U{2000}' <= c <= '\U{200A}' || c in "\U{2028}\U{2029}\U{202F}\U{205F}\U{3000}"
  }

  function TrimLeft(s: string): string {
    if s != "" && IsSpace(s[0]) then TrimLeft(s[1..]) else s
  }

  function TrimRight(s: string): string {
    if s != "" && IsSpace(s[|s| - 1]) then TrimRight(s[..|s| - 1]) else s
  }

  function Trim(s: string): string {
    TrimRight(TrimLeft(s))
  }

  lemma {:induction false} TrimRightOfTrimmed(s: string)
    requires s == "" || !IsSpace(s[0])
    ensures TrimLeft(TrimRight(s)) == TrimRight(s) && TrimRight(TrimRight(s)) == TrimRight(s)
    ensures TrimRight(s) <= s
  {
    if s != "" && IsSpace(s[|s| - 1]) {
      TrimRightOfTrimmed(s[..|s| - 1]);
    }
  }

  lemma {:induction false} TrimLeftStops(s: string)
    ensures TrimLeft(s) == "" || !IsSpace(TrimLeft(s)[0])
    ensures forall c :: c in TrimLeft(s) ==> c in s
  {
    if s != "" && IsSpace(s[0]) {
      TrimLeftStops(s[1..]);
    }
  }

  lemma {:induction false} TrimLeftDrops(s: string)
    ensures |TrimLeft(s)| <= |s| && TrimLeft(s) == s[|s| - |TrimLeft(s)|..]
    ensures forall i :: 0 <= i < |s| - |TrimLeft(s)| ==> IsSpace(s[i])
  {
    if s != "" && IsSpace(s[0]) {
      TrimLeftDrops(s[1..]);
    }
  }

  lemma {:induction false} TrimRightDrops(s: string)
    ensures TrimRight(s) <= s && forall i :: |TrimRight(s)| <= i < |s| ==> IsSpace(s[i])
    ensures TrimRight(s) == "" || !IsSpace(TrimRight(s)[|TrimRight(s)| - 1])
  {
    hide IsSpace;
    if s != "" && IsSpace(s[|s| - 1]) {
      TrimRightDrops(s[..|s| - 1]);
    }
  }

  /** Trimming drops spaces, and all those at either end. */
  lemma TrimDropsSpaces(s: string)
    ensures exists i, j ::
      0 <= i <= j <= |s| && Trim(s) == s[i..j] && forall k :: 0 <= k < |s| && !(i <= k < j) ==> IsSpace(s[k])
    ensures Trim(s) == "" || (!IsSpace(Trim(s)[0]) && !IsSpace(Trim(s)[|Trim(s)| - 1]))
  {
    hide IsSpace, TrimLeft, TrimRight;
    TrimLeftDrops(s);
    TrimLeftStops(s);
    TrimRightDrops(TrimLeft(s));
    assert Trim(s) == TrimRight(TrimLeft(s));
    assert Trim(s) != "" ==> Trim(s)[0] == TrimLeft(s)[0];
    hide Trim;
    var i := |s| - |TrimLeft(s)|;
    var j := i + |Trim(s)|;
    assert Trim(s) == s[i..j];
    assert forall k :: j <= k < |s| ==> s[k] == TrimLeft(s)[k - i];
  }

  lemma TrimIsIdempotent(s: string)
    ensures Trim(Trim(s)) == Trim(s)
    ensures forall c :: c in Trim(s) ==> c in s
  {
    TrimLeftStops(s);
    TrimRightOfTrimmed(TrimLeft(s));
  }

  function SplitOn(s: string, sep: char): (r: seq<string>)
    ensures 0 < |r|
  {
    if s == "" then [""] else Prepend(s[0], sep, SplitOn(s[1..], sep))
  }

  function Prepend(c: char, sep: char, pieces: seq<string>): (r: seq<string>)
    requires 0 < |pieces|
    ensures 0 < |r|
  {
    if c == sep then [""] + pieces else [[c] + pieces[0]] + pieces[1..]
  }

  function Join(parts: seq<string>, sep: char): string {
    if parts == [] then "" else if |parts| == 1 then parts[0] else parts[0] + [sep] + Join(parts[1..], sep)
  }

  lemma PrependAppend(c: char, sep: char, a: seq<string>, b: seq<string>)
    requires 0 < |a|
    ensures Prepend(c, sep, a + b) == Prepend(c, sep, a) + b
  {
    assert (a + b)[1..] == a[1..] + b;
  }

  lemma {:induction false} SplitAppend(a: string, sep: char, b: string)
    ensures SplitOn(a + [sep] + b, sep) == SplitOn(a, sep) + SplitOn(b, sep)
  {
    hide Prepend;
    var s := a + [sep] + b;
    if a == "" {
      SplitAtSeparator(sep, b);
      assert s == [sep] + b;
    } else {
      assert s[1..] == a[1..] + [sep] + b;
      SplitAppend(a[1..], sep, b);
      PrependAppend(a[0], sep, SplitOn(a[1..], sep), SplitOn(b, sep));
    }
  }

  lemma SplitAtSeparator(sep: char, b: string)
    ensures SplitOn([sep] + b, sep) == [""] + SplitOn(b, sep)
  {
    assert ([sep] + b)[1..] == b;
  }

  lemma {:induction false} SplitWhole(s: string, sep: char)
    requires sep !in s
    ensures SplitOn(s, sep) == [s]
  {
    if s != "" {
      SplitWhole(s[1..], sep);
      assert [s[0]] + s[1..] == s;
    }
  }

  lemma {:induction false} SplitUndoesJoin(parts: seq<string>, sep: char)
    requires parts != [] && forall p :: p in parts ==> sep !in p
    ensures SplitOn(Join(parts, sep), sep) == parts
  {
    if |parts| == 1 {
      SplitWhole(parts[0], sep);
    } else {
      assert parts[0] in parts && forall p :: p in parts[1..] ==> p in parts;
      SplitAppend(parts[0], sep, Join(parts[1..], sep));
      SplitWhole(parts[0], sep);
      SplitUndoesJoin(parts[1..], sep);
      hide SplitOn;
      assert parts == [parts[0]] + parts[1..];
    }
  }

  lemma {:induction false} SplitPieces(s: string, sep: char)
    ensures forall p :: p in SplitOn(s, sep) ==> sep !in p && forall c :: c in p ==> c in s
  {
    if s != "" {
      SplitPieces(s[1..], sep);
    }
  }

  // ----- Relative paths -----

  /** Lexical path cleaning, one segment at a time. */
  function Resolve(stack: seq<string>, segments: seq<string>): seq<string>
    decreases |segments|
  {
    if segments == [] then stack
    else
      var s, rest := segments[0], segments[1..];
      if s == "" || s == "." then Resolve(stack, rest)
      else if s == ".." && stack != [] && stack[|stack| - 1] != ".." then Resolve(stack[..|stack| - 1], rest)
      else Resolve(stack + [s], rest)
  }

  function Clean(path: string): string {
    var stack := Resolve([], SplitOn(path, '/'));
    if stack == [] then "." else Join(stack, '/')
  }

  function CleanRelativePath(path: string): Option<string> {
    var trimmed := Trim(path);
    if trimmed == "" || trimmed[0] == '/' then None
    else
      var cleaned := Clean(trimmed);
      if cleaned == "." || cleaned == "" || cleaned == ".." || "../" <= cleaned then None else Some(cleaned)
  }

  /** Leading ".." segments, then names. */
  ghost predicate Resolved(stack: seq<string>) {
    && (forall s :: s in stack ==> s != "" && s != "." && '/' !in s)
    && (forall i, j :: 0 <= i < j < |stack| && stack[j] == ".." ==> stack[i] == "..")
  }

  lemma PopKeepsResolved(stack: seq<string>)
    requires Resolved(stack) && stack != []
    ensures Resolved(stack[..|stack| - 1])
    ensures forall p :: p in stack[..|stack| - 1] ==> p in stack
  {
    var front := stack[..|stack| - 1];
    assert forall p :: p in front ==> p in stack;
    forall i, j | 0 <= i < j < |front| && front[j] == ".."
      ensures front[i] == ".."
    {
      assert stack[j] == ".." && stack[i] == "..";
    }
  }

  /** A segment is pushed if it is a name, or ".." on top of nothing but "..". */
  lemma PushKeepsResolved(stack: seq<string>, s: string)
    requires Resolved(stack) && s != "" && s != "." && '/' !in s
    requires s == ".." && stack != [] ==> stack[|stack| - 1] == ".."
    ensures Resolved(stack + [s])
  {
    forall i, j | 0 <= i < j < |stack + [s]| && (stack + [s])[j] == ".."
      ensures (stack + [s])[i] == ".."
    {
      if j == |stack| && i < |stack| - 1 {
        assert stack[|stack| - 1] == "..";
      }
    }
  }

  lemma {:induction false} ResolveIsResolved(stack: seq<string>, segments: seq<string>)
    requires Resolved(stack) && forall s :: s in segments ==> '/' !in s
    ensures Resolved(Resolve(stack, segments))
    ensures forall r, c :: r in Resolve(stack, segments) && c in r ==>
              exists s :: (s in stack || s in segments) && c in s
    decreases |segments|
  {
    if segments != [] {
      var s, rest := segments[0], segments[1..];
      assert segments == [s] + rest;
      if s == "" || s == "." {
        ResolveIsResolved(stack, rest);
      } else if s == ".." && stack != [] && stack[|stack| - 1] != ".." {
        PopKeepsResolved(stack);
        ResolveIsResolved(stack[..|stack| - 1], rest);
      } else {
        PushKeepsResolved(stack, s);
        ResolveIsResolved(stack + [s], rest);
      }
    }
  }

  lemma {:induction false} ResolveKeepsResolved(stack: seq<string>, segments: seq<string>)
    requires Resolved(stack + segments)
    ensures Resolve(stack, segments) == stack + segments
    decreases |segments|
  {
    if segments == [] {
      assert stack + segments == stack;
    } else {
      var s := segments[0];
      assert s in stack + segments;
      assert (stack + segments)[|stack|] == s;
      assert stack + segments == stack + [s] + segments[1..];
      if s == ".." && stack != [] {
        assert (stack + segments)[|stack| - 1] == stack[|stack| - 1];
      }
      ResolveKeepsResolved(stack + [s], segments[1..]);
    }
  }

  /** A cleaned path stays inside the cache root: none of its segments is empty, "." or "..",
      and cleaning it again changes nothing. */
  lemma CleanedStaysInside(path: string)
    requires CleanRelativePath(path).Some?
    ensures var cleaned := CleanRelativePath(path).value;
            && (forall s :: s in SplitOn(cleaned, '/') ==> s != "" && s != "." && s != "..")
            && Clean(cleaned) == cleaned
            && forall c :: c in cleaned && c != '/' ==> c in path
  {
    var trimmed := Trim(path);
    SplitPieces(trimmed, '/');
    TrimIsIdempotent(path);
    ResolveIsResolved([], SplitOn(trimmed, '/'));
    var stack := Resolve([], SplitOn(trimmed, '/'));
    SplitUndoesJoin(stack, '/');
    if stack[0] == ".." {
      JoinStarts(stack);
    }
    JoinChars(stack, '/');
    ResolveKeepsResolved([], stack);
    assert [] + stack == stack;
  }

  lemma JoinStarts(stack: seq<string>)
    requires stack != [] && stack[0] == ".."
    ensures Join(stack, '/') == ".." || "../" <= Join(stack, '/')
  {
    if |stack| > 1 {
      assert stack[0] + "/" == "../";
    }
  }

  lemma {:induction false} JoinChars(parts: seq<string>, sep: char)
    ensures forall c :: c in Join(parts, sep) ==> c == sep || exists p :: p in parts && c in p
  {
    if |parts| > 1 {
      JoinChars(parts[1..], sep);
    }
  }

  // ----- File names -----

  /** Where a path leads from a directory of an absolute file system: at its root, ".." stays there. */
  function Walk(stack: seq<string>, segments: seq<string>): seq<string>
    decreases |segments|
  {
    if segments == [] then stack
    else
      var s, rest := segments[0], segments[1..];
      if s == "" || s == "." then Walk(stack, rest)
      else if s == ".." then Walk(if stack == [] then [] else stack[..|stack| - 1], rest)
      else Walk(stack + [s], rest)
  }

  /** None of its segments is empty, "." or "..": it leads somewhere of its own. */
  predicate Canonical(path: string) {
    forall s :: s in SplitOn(path, '/') ==> s != "" && s != "." && s != ".."
  }

  lemma {:induction false} WalkOfNames(stack: seq<string>, segments: seq<string>)
    requires forall s :: s in segments ==> s != "" && s != "." && s != ".."
    ensures Walk(stack, segments) == stack + segments
    decreases |segments|
  {
    if segments == [] {
      assert stack + segments == stack;
    } else {
      assert segments[0] in segments && forall s :: s in segments[1..] ==> s in segments;
      WalkOfNames(stack + [segments[0]], segments[1..]);
      assert stack + [segments[0]] + segments[1..] == stack + segments;
    }
  }

  lemma {:induction false} JoinUndoesSplit(s: string, sep: char)
    ensures Join(SplitOn(s, sep), sep) == s
  {
    if s != "" {
      JoinUndoesSplit(s[1..], sep);
      JoinOfPrepend(s[0], sep, SplitOn(s[1..], sep));
      assert [s[0]] + s[1..] == s;
    }
  }

  lemma JoinOfPrepend(c: char, sep: char, pieces: seq<string>)
    requires 0 < |pieces|
    ensures Join(Prepend(c, sep, pieces), sep) == [c] + Join(pieces, sep)
  {
    if c == sep {
      assert ([""] + pieces)[1..] == pieces;
    } else {
      assert ([[c] + pieces[0]] + pieces[1..])[1..] == pieces[1..];
      assert |pieces| > 1 ==> [c] + pieces[0] + [sep] + Join(pieces[1..], sep) ==
                              [c] + (pieces[0] + [sep] + Join(pieces[1..], sep));
    }
  }

  /** Canonical paths that lead from a directory to the same place are the same path. */
  lemma CanonicalPathsDiffer(base: seq<string>, p: string, q: string)
    requires Canonical(p) && Canonical(q) && Walk(base, SplitOn(p, '/')) == Walk(base, SplitOn(q, '/'))
    ensures p == q
  {
    var a, b := SplitOn(p, '/'), SplitOn(q, '/');
    WalkOfNames(base, a);
    WalkOfNames(base, b);
    assert (base + a)[|base|..] == a && (base + b)[|base|..] == b;
    JoinUndoesSplit(p, '/');
    JoinUndoesSplit(q, '/');
  }

  lemma {:induction false} WalkOfMore(base: seq<string>, segments: seq<string>, s: string)
    ensures Walk(base, segments + [s]) == Walk(Walk(base, segments), [s])
    decreases |segments|
  {
    if segments == [] {
      assert segments + [s] == [s] && [s][1..] == [];
    } else {
      var first, rest := segments[0], segments[1..];
      assert (segments + [s])[1..] == rest + [s];
      if first == "" || first == "." {
        WalkOfMore(base, rest, s);
      } else if first == ".." {
        WalkOfMore(if base == [] then [] else base[..|base| - 1], rest, s);
      } else {
        WalkOfMore(base + [first], rest, s);
      }
    }
  }

  /** Resolving segments does not change where they lead. */
  lemma {:induction false} ResolvedLeadsThere(base: seq<string>, stack: seq<string>, segments: seq<string>)
    requires Resolved(stack)
    requires forall s :: s in segments ==> '/' !in s
    ensures Walk(base, Resolve(stack, segments)) == Walk(Walk(base, stack), segments)
    decreases |segments|
  {
    if segments != [] {
      var s, rest := segments[0], segments[1..];
      assert [s][1..] == [] && s in segments;
      var there := Walk(base, stack);
      if s == "" || s == "." {
        ResolvedLeadsThere(base, stack, rest);
      } else if s == ".." && stack != [] && stack[|stack| - 1] != ".." {
        var front, last := stack[..|stack| - 1], stack[|stack| - 1];
        PopKeepsResolved(stack);
        assert stack == front + [last] && last in stack && [last][1..] == [];
        WalkOfMore(base, front, last);
        assert Walk(Walk(base, front), [last]) == Walk(base, front) + [last];
        ResolvedLeadsThere(base, front, rest);
      } else {
        PushKeepsResolved(stack, s);
        WalkOfMore(base, stack, s);
        ResolvedLeadsThere(base, stack + [s], rest);
      }
    }
  }

  /** The cleaned path leads where the path does, which is to a file of its own below the directory. */
  lemma CleanedLeadsThere(base: seq<string>, path: string)
    requires CleanRelativePath(path).Some?
    ensures var cleaned := CleanRelativePath(path).value;
            && Canonical(cleaned)
            && Walk(base, SplitOn(cleaned, '/')) == Walk(base, SplitOn(Trim(path), '/')) == base + SplitOn(cleaned, '/')
  {
    var cleaned := CleanRelativePath(path).value;
    var segments := SplitOn(Trim(path), '/');
    CleanedStaysInside(path);
    WalkOfNames(base, SplitOn(cleaned, '/'));
    SplitPieces(Trim(path), '/');
    ResolvedLeadsThere(base, [], segments);
    ResolveIsResolved([], segments);
    SplitUndoesJoin(Resolve([], segments), '/');
  }

  /** A canonical path with no spaces around it is its own cleaned path. */
  lemma CanonicalIsClean(path: string)
    requires Canonical(path) && Trim(path) == path
    ensures CleanRelativePath(path) == Some(path)
  {
    hide Trim;
    var segments := SplitOn(path, '/');
    SplitPieces(path, '/');
    JoinUndoesSplit(path, '/');
    SplitStarts(path);
    hide SplitOn, Join;
    assert segments[0] in segments && forall j :: 0 <= j < |segments| ==> segments[j] in segments;
    assert [] + segments == segments;
    ResolveKeepsResolved([], segments);
    hide Resolve;
  }

  lemma SplitStarts(path: string)
    ensures "../" <= path || path == ".." ==> SplitOn(path, '/')[0] == ".."
    ensures path == "" || path[0] == '/' ==> SplitOn(path, '/')[0] == ""
    ensures path == "." ==> SplitOn(path, '/')[0] == "."
  {
    if "../" <= path {
      var rest := path[2..];
      assert rest[0] == '/' && SplitOn(rest, '/')[0] == "";
      assert path[1..][1..] == rest && SplitOn(path[1..], '/')[0] == "." + "";
      assert SplitOn(path, '/')[0] == "." + ("." + "");
    }
  }

  // ----- Lists of paths -----

  /** First-seen order, duplicates dropped. */
  function Dedup(s: seq<string>): (r: seq<string>)
    ensures forall x :: x in r <==> x in s
  {
    if s == [] then []
    else
      var front, last := s[..|s| - 1], s[|s| - 1];
      assert s == front + [last];
      var r := Dedup(front);
      if last in r then r else r + [last]
  }

  ghost function FirstAt(s: seq<string>, x: string): (i: nat)
    requires x in s
    ensures i < |s| && s[i] == x && x !in s[..i]
  {
    if s[0] == x then 0 else 1 + FirstAt(s[1..], x)
  }

  lemma {:induction false} FirstAtAppend(front: seq<string>, last: string, x: string)
    requires x in front
    ensures FirstAt(front + [last], x) == FirstAt(front, x)
  {
    if front[0] != x {
      assert (front + [last])[1..] == front[1..] + [last];
      FirstAtAppend(front[1..], last, x);
    }
  }

  lemma {:induction false} DedupIsFirstSeenOrder(s: seq<string>)
    ensures NoDup(Dedup(s))
    ensures forall i, j :: 0 <= i < j < |Dedup(s)| ==> FirstAt(s, Dedup(s)[i]) < FirstAt(s, Dedup(s)[j])
  {
    if s != [] {
      var front, last := s[..|s| - 1], s[|s| - 1];
      DedupIsFirstSeenOrder(front);
      forall x | x in front
        ensures FirstAt(s, x) == FirstAt(front, x)
      {
        assert s == front + [last];
        FirstAtAppend(front, last, x);
      }
    }
  }

  function CleanLines(lines: seq<string>): seq<string> {
    if lines == [] then []
    else
      var rest := CleanLines(lines[..|lines| - 1]);
      match CleanRelativePath(lines[|lines| - 1])
      case Some(path) => rest + [path]
      case None => rest
  }

  function Indexed(paths: seq<string>, index: set<string>): (r: seq<string>)
    ensures forall x :: x in r <==> x in paths && x in index
  {
    if paths == [] then []
    else
      var front, last := paths[..|paths| - 1], paths[|paths| - 1];
      assert paths == front + [last];
      var rest := Indexed(front, index);
      if last in index then rest + [last] else rest
  }

  function Trimmed(paths: seq<string>): seq<string> {
    if paths == [] then []
    else
      var rest, path := Trimmed(paths[..|paths| - 1]), Trim(paths[|paths| - 1]);
      if path == "" then rest else rest + [path]
  }

  // ----- Manifest bodies -----

  function Lines(text: string): seq<string> {
    var pieces := SplitOn(text, '\n');
    if pieces[|pieces| - 1] == "" then pieces[..|pieces| - 1] else pieces
  }

  /** The distinct clean paths a manifest lists. */
  function ReadPaths(text: string): seq<string> {
    Dedup(CleanLines(Lines(text)))
  }

  /** What loading a manifest yields: the listed paths that are still indexed. */
  function Load(text: string, index: set<string>): seq<string> {
    Indexed(ReadPaths(text), index)
  }

  function Union(existing: seq<string>, paths: seq<string>): seq<string> {
    Dedup(Trimmed(existing + paths))
  }

  function Body(paths: seq<string>): string {
    var body := Join(paths, '\n');
    if body == "" then body else body + "\n"
  }

  function Merged(text: string, index: set<string>, paths: seq<string>): string {
    Body(Union(Load(text, index), paths))
  }

  ghost predicate TrimHas(all: seq<string>, p: string) {
    exists a: nat :: a < |all| && Trim(all[a]) == p
  }

  /** Trimmed, `p` is in the list before `q` is. */
  ghost predicate TrimSeenBefore(all: seq<string>, p: string, q: string) {
    exists a: nat :: a < |all| && Trim(all[a]) == p && forall b: nat :: b <= a ==> Trim(all[b]) != q
  }

  /** What the list has but for spaces, each path once, in the order of the list. */
  ghost predicate IsUnion(all: seq<string>, union: seq<string>) {
    && NoDup(union) && (forall p :: p in union <==> p != "" && TrimHas(all, p))
    && forall i, j :: 0 <= i < j < |union| ==> TrimSeenBefore(all, union[i], union[j])
  }

  lemma OneMoreTrimmed(front: seq<string>, last: string)
    ensures forall p :: TrimHas(front + [last], p) <==> TrimHas(front, p) || p == Trim(last)
    ensures forall p, q :: TrimSeenBefore(front, p, q) ==> TrimSeenBefore(front + [last], p, q)
    ensures forall p :: TrimHas(front, p) && !TrimHas(front, Trim(last)) ==>
      TrimSeenBefore(front + [last], p, Trim(last))
  {
    hide Trim;
    var all := front + [last];
    assert all[|front|] == last && forall a: nat :: a < |front| ==> all[a] == front[a];
    forall p | TrimHas(front, p)
      ensures TrimHas(all, p) && (!TrimHas(front, Trim(last)) ==> TrimSeenBefore(all, p, Trim(last)))
    {
      var a: nat :| a < |front| && Trim(front[a]) == p;
      assert Trim(all[a]) == p;
    }
    forall p, q | TrimSeenBefore(front, p, q)
      ensures TrimSeenBefore(all, p, q)
    {
      var a: nat :| a < |front| && Trim(front[a]) == p && forall b: nat :: b <= a ==> Trim(front[b]) != q;
      assert Trim(all[a]) == p;
    }
  }

  lemma OneMoreInUnion(front: seq<string>, last: string, union: seq<string>)
    requires IsUnion(front, union)
    ensures var p := Trim(last);
            IsUnion(front + [last], if p == "" || p in union then union else union + [p])
  {
    OneMoreTrimmed(front, last);
    hide Trim, TrimHas, TrimSeenBefore;
    assert forall i :: 0 <= i < |union| ==> union[i] in union;
  }

  lemma {:induction false} UnionIs(all: seq<string>)
    ensures IsUnion(all, Dedup(Trimmed(all)))
  {
    hide IsUnion, Trim, Dedup;
    if all == [] {
      NothingInUnion();
    } else {
      var front, last := all[..|all| - 1], all[|all| - 1];
      UnionIs(front);
      OneMoreInUnion(front, last, Dedup(Trimmed(front)));
      assert all == front + [last];
      DedupStep(Trimmed(front), Trim(last));
      hide Trimmed;
    }
  }

  lemma NothingInUnion()
    ensures IsUnion([], Dedup(Trimmed([])))
  {
  }

  lemma {:induction false} CleanLinesHas(lines: seq<string>, line: string)
    requires line in lines && CleanRelativePath(line).Some?
    ensures CleanRelativePath(line).value in CleanLines(lines)
  {
    var last := lines[|lines| - 1];
    if last != line {
      CleanLinesHas(lines[..|lines| - 1], line);
    }
  }

  lemma {:induction false} CleanLinesFrom(lines: seq<string>, path: string)
    requires path in CleanLines(lines)
    ensures exists line :: line in lines && CleanRelativePath(line) == Some(path)
  {
    var last := lines[|lines| - 1];
    if CleanRelativePath(last) != Some(path) {
      CleanLinesFrom(lines[..|lines| - 1], path);
    }
  }

  lemma {:induction false} TrimmedHas(paths: seq<string>, path: string)
    requires path in paths && Trim(path) != ""
    ensures Trim(path) in Trimmed(paths)
  {
    var last := paths[|paths| - 1];
    if last != path {
      TrimmedHas(paths[..|paths| - 1], path);
    }
  }

  lemma {:induction false} JoinedPieces(parts: seq<string>, part: string, sep: char)
    requires part in parts && sep !in part
    ensures part in SplitOn(Join(parts, sep), sep)
  {
    SplitWhole(part, sep);
    if |parts| > 1 {
      SplitAppend(parts[0], sep, Join(parts[1..], sep));
      if part != parts[0] {
        JoinedPieces(parts[1..], part, sep);
      }
    }
  }

  /** Every written path without a line break is a line of the file. */
  lemma BodyHasLine(paths: seq<string>, path: string)
    requires path in paths && path != "" && '\n' !in path
    ensures path in Lines(Body(paths))
  {
    var body := Join(paths, '\n');
    JoinedPieces(paths, path, '\n');
    SplitAppend(body, '\n', "");
    assert body + "\n" + "" == body + "\n";
    assert SplitOn("", '\n') == [""];
    assert (SplitOn(body, '\n') + [""])[..|SplitOn(body, '\n')|] == SplitOn(body, '\n');
  }

  /** The lines written are the lines read. */
  lemma LinesOfBody(paths: seq<string>)
    requires forall p :: p in paths ==> p != "" && '\n' !in p
    ensures Lines(Body(paths)) == paths
  {
    if paths != [] {
      assert paths[0] in paths;
      var body := Join(paths, '\n');
      SplitUndoesJoin(paths, '\n');
      SplitAppend(body, '\n', "");
      assert body + "\n" + "" == body + "\n" && SplitOn("", '\n') == [""];
    }
  }

  /** Writing clean paths and reading them back gives the same paths in the same order. */
  lemma ManifestRoundTrip(paths: seq<string>)
    requires NoDup(paths)
    requires forall p :: p in paths ==> CleanRelativePath(p) == Some(p) && '\n' !in p
    ensures ReadPaths(Body(paths)) == paths
  {
    LinesOfBody(paths);
    CleanLinesOfClean(paths);
    DedupOfDistinct(paths);
  }

  lemma {:induction false} CleanLinesOfClean(paths: seq<string>)
    requires forall p :: p in paths ==> CleanRelativePath(p) == Some(p)
    ensures CleanLines(paths) == paths
  {
    hide CleanRelativePath;
    if paths != [] {
      assert forall p :: p in paths[..|paths| - 1] ==> p in paths;
      CleanLinesOfClean(paths[..|paths| - 1]);
      assert paths[|paths| - 1] in paths;
      assert paths == paths[..|paths| - 1] + [paths[|paths| - 1]];
    }
  }

  lemma {:induction false} DedupOfDistinct(paths: seq<string>)
    requires NoDup(paths)
    ensures Dedup(paths) == paths
  {
    if paths != [] {
      DedupOfDistinct(paths[..|paths| - 1]);
      assert paths == paths[..|paths| - 1] + [paths[|paths| - 1]];
    }
  }

  /** Paths that a manifest can list: clean ones. */
  predicate Listable(path: string) {
    CleanRelativePath(path) == Some(path) && '\n' !in path
  }

  /** What is written is listed. */
  lemma BodyLists(paths: seq<string>, path: string)
    requires path in paths && Listable(path)
    ensures path in ReadPaths(Body(paths))
  {
    BodyHasLine(paths, path);
    CleanLinesHas(Lines(Body(paths)), path);
  }

  /** A union lists every listable path of either side. */
  lemma UnionLists(existing: seq<string>, paths: seq<string>, path: string)
    requires path in existing + paths && Listable(path)
    ensures path in ReadPaths(Body(Union(existing, paths)))
  {
    TrimIsIdempotent(path);
    TrimmedHas(existing + paths, path);
    BodyHasLine(Union(existing, paths), Trim(path));
    CleanLinesHas(Lines(Body(Union(existing, paths))), Trim(path));
  }

  /** The lines of joined texts are the lines of each. */
  lemma {:induction false} JoinedLines(parts: seq<string>, line: string)
    requires parts != []
    ensures line in SplitOn(Join(parts, '\n'), '\n') <==> exists part :: part in parts && line in SplitOn(part, '\n')
  {
    if |parts| > 1 {
      SplitAppend(parts[0], '\n', Join(parts[1..], '\n'));
      JoinedLines(parts[1..], line);
      hide SplitOn, Join;
      assert parts == [parts[0]] + parts[1..];
      assert Join(parts, '\n') == parts[0] + "\n" + Join(parts[1..], '\n') by {
        JoinFirst(parts);
      }
      assert forall part :: part in parts <==> part == parts[0] || part in parts[1..];
    }
  }

  lemma JoinFirst(parts: seq<string>)
    requires |parts| > 1
    ensures Join(parts, '\n') == parts[0] + "\n" + Join(parts[1..], '\n')
  {
  }

  /** The lines of a written file are the lines of the paths written. */
  lemma BodyLines(paths: seq<string>, line: string)
    requires forall p :: p in paths ==> p != ""
    ensures line in Lines(Body(paths)) <==> exists path :: path in paths && line in SplitOn(path, '\n')
  {
    if paths != [] {
      assert paths[0] in paths;
      var body := Join(paths, '\n');
      assert body != "";
      SplitAppend(body, '\n', "");
      assert body + "\n" + "" == body + "\n" && SplitOn("", '\n') == [""];
      assert (SplitOn(body, '\n') + [""])[..|SplitOn(body, '\n')|] == SplitOn(body, '\n');
      JoinedLines(paths, line);
    }
  }

  lemma {:induction false} TrimmedFrom(paths: seq<string>, path: string)
    ensures path in Trimmed(paths) <==> path != "" && exists p :: p in paths && Trim(p) == path
  {
    hide Trim;
    if paths != [] {
      TrimmedFrom(paths[..|paths| - 1], path);
      assert paths == paths[..|paths| - 1] + [paths[|paths| - 1]];
    }
  }

  /** Some line of a path that is written cleans to this one. */
  ghost predicate CleansTo(paths: seq<string>, path: string) {
    exists p, line :: p in paths && line in SplitOn(Trim(p), '\n') && CleanRelativePath(line) == Some(path)
  }

  /** What the next load finds after a merge: the indexed paths that some line of the paths loaded
      before or merged now cleans to. */
  lemma ListedAfterMerge(text: string, index: set<string>, paths: seq<string>, path: string)
    ensures path in Load(Merged(text, index, paths), index) <==>
            path in index && CleansTo(Load(text, index) + paths, path)
  {
    hide Lines, Load, Body, Trim, CleanRelativePath, SplitOn, Trimmed, CleanLines;
    var all := Load(text, index) + paths;
    var written := Union(Load(text, index), paths);
    var lines := Lines(Body(written));
    forall p
      ensures p in written <==> p != "" && exists q :: q in all && Trim(q) == p
    {
      TrimmedFrom(all, p);
    }
    forall line
      ensures line in lines <==> exists p :: p in written && line in SplitOn(p, '\n')
    {
      BodyLines(written, line);
    }
    LoadHas(Body(written), index, path);
    if CleansTo(all, path) {
      var q, line :| q in all && line in SplitOn(Trim(q), '\n') && CleanRelativePath(line) == Some(path);
      BlankIsNotClean(line);
      assert Trim(q) != "" by {
        SplitWhole("", '\n');
      }
      assert Trim(q) in written;
      assert line in lines;
    }
  }

  lemma BlankIsNotClean(line: string)
    requires CleanRelativePath(line).Some?
    ensures line != ""
  {
  }

  lemma LoadHas(text: string, index: set<string>, path: string)
    ensures path in Load(text, index) <==>
            path in index && exists line :: line in Lines(text) && CleanRelativePath(line) == Some(path)
  {
    hide Lines, CleanRelativePath;
    if path in CleanLines(Lines(text)) {
      CleanLinesFrom(Lines(text), path);
    } else {
      forall line | line in Lines(text)
        ensures CleanRelativePath(line) != Some(path)
      {
        if CleanRelativePath(line) == Some(path) {
          CleanLinesHas(Lines(text), line);
        }
      }
    }
  }

  /** Every path that a manifest lists is canonical. */
  lemma ListedAreCanonical(text: string)
    ensures forall p :: p in ReadPaths(text) ==> Canonical(p)
  {
    hide Lines, CleanRelativePath, Canonical;
    forall p | p in ReadPaths(text)
      ensures Canonical(p)
    {
      CleanLinesFrom(Lines(text), p);
      var line :| line in Lines(text) && CleanRelativePath(line) == Some(p);
      CleanedIsCanonical(line);
    }
  }

  lemma CleanedIsCanonical(path: string)
    requires CleanRelativePath(path).Some?
    ensures Canonical(CleanRelativePath(path).value)
  {
    CleanedStaysInside(path);
  }

  /** A path cleans to itself exactly if it is listable: the source merges whatever path an object
      was saved under, but reads back only the cleaned form. */
  lemma ListableCleansToItself(path: string)
    ensures CleansTo([path], path) <==> Listable(path)
  {
    TrimIsIdempotent(path);
    if Listable(path) {
      SplitWhole(Trim(path), '\n');
      assert Trim(path) in SplitOn(Trim(path), '\n') && CleanRelativePath(Trim(path)) == Some(path);
    }
    if CleansTo([path], path) {
      var line :| line in SplitOn(Trim(path), '\n') && CleanRelativePath(line) == Some(path);
      SplitPieces(Trim(path), '\n');
      CleanedStaysInside(line);
      assert '\n' !in path;
      SplitWhole(Trim(path), '\n');
    }
  }

  /** An indexed path merged into a manifest whose loaded paths are listable is listed by the next
      load exactly when it is listable itself. */
  lemma MergedPathIsListed(text: string, index: set<string>, path: string)
    requires path in index && forall p :: p in Load(text, index) ==> Listable(p)
    ensures path in Load(Merged(text, index, [path]), index) <==> Listable(path)
  {
    hide Load, Merged, Trim, SplitOn, CleanRelativePath;
    ListedAfterMerge(text, index, [path], path);
    ListableCleansToItself(path);
    var all := Load(text, index) + [path];
    if CleansTo(all, path) && path !in Load(text, index) {
      var p, line :| p in all && line in SplitOn(Trim(p), '\n') && CleanRelativePath(line) == Some(path);
      if p in Load(text, index) {
        ListableIsOneLine(p);
      } else {
        assert CleansTo([path], path);
      }
    } else if Listable(path) {
      assert path in all;
    }
  }

  lemma ListableIsOneLine(path: string)
    requires Listable(path)
    ensures SplitOn(Trim(path), '\n') == [Trim(path)] && CleanRelativePath(Trim(path)) == Some(path)
  {
    TrimIsIdempotent(path);
    SplitWhole(Trim(path), '\n');
  }

  /** An absolute path is merged, and then never listed. */
  lemma AbsolutePathIsNotListed()
    ensures "/a" !in Load(Merged("", {"/a"}, ["/a"]), {"/a"})
  {
    assert TrimRight("/a") == "/a" && TrimLeft("/a") == "/a";
    assert CleanRelativePath("/a") == None;
    assert Load("", {"/a"}) == [];
    MergedPathIsListed("", {"/a"}, "/a");
  }

  // ----- The loops that compute them -----

  lemma LineStep(lines: seq<string>, i: nat)
    requires i < |lines|
    ensures var line := Trim(lines[i]);
            CleanLines(lines[..i + 1]) == match if line == "" then None else CleanRelativePath(line)
                                          case Some(path) => CleanLines(lines[..i]) + [path]
                                          case None => CleanLines(lines[..i])
  {
    TrimIsIdempotent(lines[i]);
    assert lines[..i + 1][..i] == lines[..i];
  }

  lemma TrimStep(paths: seq<string>, i: nat)
    requires i < |paths|
    ensures Trimmed(paths[..i + 1]) ==
            if Trim(paths[i]) == "" then Trimmed(paths[..i]) else Trimmed(paths[..i]) + [Trim(paths[i])]
  {
    assert paths[..i + 1][..i] == paths[..i];
  }

  lemma IndexStep(paths: seq<string>, index: set<string>, i: nat)
    requires i < |paths|
    ensures Indexed(paths[..i + 1], index) ==
            if paths[i] in index then Indexed(paths[..i], index) + [paths[i]] else Indexed(paths[..i], index)
  {
    assert paths[..i + 1][..i] == paths[..i];
  }

  lemma DedupStep(s: seq<string>, x: string)
    ensures Dedup(s + [x]) == if x in Dedup(s) then Dedup(s) else Dedup(s) + [x]
  {
    assert (s + [x])[..|s|] == s;
  }

  lemma NothingScanned(lines: seq<string>)
    ensures Dedup(CleanLines(lines[..0])) == []
  {
  }

  /** The scan of a manifest's lines that every reader starts with. */
  method ScanLines(lines: seq<string>) returns (paths: seq<string>, changed: bool)
    ensures paths == Dedup(CleanLines(lines))
    ensures |paths| <= |lines| && (changed <==> |paths| < |lines|)
  {
    var seen: set<string> := {};
    paths, changed := [], false;
    hide Trim, CleanRelativePath, CleanLines, Dedup;
    NothingScanned(lines);
    for i := 0 to |lines|
      invariant paths == Dedup(CleanLines(lines[..i]))
      invariant seen == set p | p in paths
      invariant |paths| <= i && (changed <==> |paths| < i)
    {
      LineStep(lines, i);
      var raw := Trim(lines[i]);
      var cleaned := if raw == "" then None else CleanRelativePath(raw);
      if cleaned.None? {
        changed := true;
      } else {
        DedupStep(CleanLines(lines[..i]), cleaned.value);
        if cleaned.value in seen {
          changed := true;
        } else {
          seen := seen + {cleaned.value};
          paths := paths + [cleaned.value];
        }
      }
    }
    assert lines[..|lines|] == lines;
  }

  lemma LoadIs(text: string, index: set<string>)
    ensures forall p :: p in Load(text, index) <==>
      p in index && exists line :: line in Lines(text) && CleanRelativePath(line) == Some(p)
  {
    hide Load, Lines, CleanRelativePath;
    forall p
      ensures p in Load(text, index) <==>
        p in index && exists line :: line in Lines(text) && CleanRelativePath(line) == Some(p)
    {
      LoadHas(text, index, p);
    }
  }

  /** Reads a manifest; `changed` says that some line was blank, invalid, repeated or no longer
      indexed, so that rewriting the manifest would drop it. */
  method LoadManifest(text: string, index: set<string>) returns (paths: seq<string>, changed: bool)
    ensures paths == Load(text, index)
    ensures forall p :: p in paths <==>
      p in index && exists line :: line in Lines(text) && CleanRelativePath(line) == Some(p)
    ensures changed <==> |paths| < |Lines(text)|
  {
    hide CleanRelativePath, Lines, CleanLines, Dedup;
    LoadIs(text, index);
    var candidates;
    candidates, changed := ScanLines(Lines(text));
    paths := [];
    for i := 0 to |candidates|
      invariant paths == Indexed(candidates[..i], index)
      invariant |paths| <= i && (changed <==> |paths| < |Lines(text)| - |candidates| + i)
    {
      IndexStep(candidates, index, i);
      if candidates[i] !in index {
        changed := true;
      } else {
        paths := paths + [candidates[i]];
      }
    }
    assert candidates[..|candidates|] == candidates;
  }

  method UnionManifestPaths(existing: seq<string>, paths: seq<string>) returns (merged: seq<string>)
    ensures merged == Union(existing, paths)
    ensures IsUnion(existing + paths, merged)
  {
    var all := existing + paths;
    UnionIs(all);
    hide IsUnion;
    var seen: set<string> := {};
    merged := [];
    assert merged == Dedup(Trimmed(all[..0]));
    hide Trim, Trimmed, Dedup;
    for i := 0 to |all|
      invariant merged == Dedup(Trimmed(all[..i]))
      invariant forall p :: p in seen <==> p in merged
    {
      TrimStep(all, i);
      var path := Trim(all[i]);
      if path == "" {
        continue;
      }
      DedupStep(Trimmed(all[..i]), path);
      if path in seen {
        continue;
      }
      seen := seen + {path};
      merged := merged + [path];
    }
    assert all[..|all|] == all;
  }
}
