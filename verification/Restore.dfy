/** Resolving a restore request to the paths to serve: which manifests match, their union, the
    default fallback, and the selection that fits a byte budget. */
module Restore {
  import opened Common
  import opened Manifest

  // ----- Which file a manifest is -----

  /** manifests/<scope>/<prefix>/<commit>.zst and manifests/<scope>/changes/<escaped id>.zst */
  datatype ManifestId = CommitManifest(scope: string, commit: string)
    | ChangesManifest(scope: string, changesID: string)

  datatype ManifestFile = ManifestFile(text: string, modTime: int)

  const MAX_MANIFEST_KEY_LEN := 100

  predicate IsAlnum(c: char) {
    'A' <= c <= 'Z' || 'a' <= c <= 'z' || '0' <= c <= '9'
  }

  predicate ValidKeyName(key: string) {
    && key != "" && IsAlnum(key[0])
    && forall c :: c in key ==> IsAlnum(c) || c in "._-"
  }

  function ByteLen(s: string): nat {
    if s == "" then 0
    else
      var c := s[0];
      (if c < '\U{80}' then 1 else if c < '\U{800}' then 2 else if c < '\U{10000}' then 3 else 4) + ByteLen(s[1..])
  }

  function ScopeDir(buildType: string): Option<string> {
    var t := Trim(buildType);
    if t == "" then Some("default")
    else if ByteLen(t) > MAX_MANIFEST_KEY_LEN || !ValidKeyName(t) then None
    else Some("buildtype-" + t)
  }

  /** What a request field names: nothing, an invalid key, or a manifest. */
  datatype Target = Blank | Invalid | At(id: ManifestId)

  function CommitTarget(commit: string, buildType: string): Target {
    var key := Trim(commit);
    if key == "" then Blank
    else if ByteLen(key) > MAX_MANIFEST_KEY_LEN || !ValidKeyName(key) || ScopeDir(buildType).None? then Invalid
    else At(CommitManifest(ScopeDir(buildType).value, key))
  }

  function ChangesTarget(changesID: string, buildType: string): Target {
    var key := Trim(changesID);
    if key == "" then Blank
    else if ByteLen(key) > MAX_MANIFEST_KEY_LEN || ScopeDir(buildType).None? then Invalid
    else At(ChangesManifest(ScopeDir(buildType).value, key))
  }

  datatype Request = Request(commit: string, changesID: string, buildType: string, baseCommit: string,
                             parentCommit: string, maxFileBytes: int, maxPreloadTotalBytes: int)

  /** The manifest is one of this build type's. */
  ghost predicate IsOf(id: ManifestId, buildType: string) {
    id.scope == if Trim(buildType) == "" then "default" else "buildtype-" + Trim(buildType)
  }

  /** A name that no manifest of a commit, and no scope, can have. */
  ghost predicate Unusable(name: string) {
    Trim(name) != "" && (ByteLen(Trim(name)) > 100 || !ValidKeyName(Trim(name)))
  }

  /** The manifest is that of this commit, for this build type. */
  ghost predicate IsOfCommit(id: ManifestId, commit: string, buildType: string) {
    IsOf(id, buildType) && Trim(commit) != "" && id == CommitManifest(id.scope, Trim(commit))
  }

  ghost predicate IsOfChanges(id: ManifestId, changesID: string, buildType: string) {
    IsOf(id, buildType) && Trim(changesID) != "" && id == ChangesManifest(id.scope, Trim(changesID))
  }

  /** What a target is, spelled out. */
  lemma TargetsAre(name: string, buildType: string)
    ensures var t := CommitTarget(name, buildType);
            && (t.Blank? <==> Trim(name) == "")
            && (t.Invalid? <==> Trim(name) != "" && (Unusable(name) || Unusable(buildType)))
            && (!t.Invalid? ==> forall id :: t == At(id) <==> IsOfCommit(id, name, buildType))
    ensures var t := ChangesTarget(name, buildType);
            && (t.Blank? <==> Trim(name) == "")
            && (t.Invalid? <==> Trim(name) != "" && (ByteLen(Trim(name)) > 100 || Unusable(buildType)))
            && (!t.Invalid? ==> forall id :: t == At(id) <==> IsOfChanges(id, name, buildType))
    ensures Unusable(name) || ByteLen(Trim(name)) > 100 ==> Trim(name) != ""
    ensures ScopeDir(buildType).None? <==> Unusable(buildType)
    ensures forall id: ManifestId :: !Unusable(buildType) ==>
      (IsOf(id, buildType) <==> ScopeDir(buildType) == Some(id.scope))
  {
    assert ByteLen("") == 0;
    hide Trim, ByteLen, ValidKeyName;
  }

  /** The manifest is that of the request's commit, its parent, its changes or its base. */
  ghost predicate LooksUp(req: Request, id: ManifestId) {
    || IsOfCommit(id, req.commit, req.buildType) || IsOfCommit(id, req.parentCommit, req.buildType)
    || IsOfChanges(id, req.changesID, req.buildType) || IsOfCommit(id, req.baseCommit, req.buildType)
  }

  ghost predicate NamesNothing(req: Request) {
    Trim(req.commit) == "" && Trim(req.parentCommit) == "" && Trim(req.changesID) == "" && Trim(req.baseCommit) == ""
  }

  ghost predicate IsMalformed(req: Request) {
    || Unusable(req.commit) || Unusable(req.parentCommit) || ByteLen(Trim(req.changesID)) > 100
    || Unusable(req.baseCommit) || (Unusable(req.buildType) && !NamesNothing(req))
  }

  /** The sources that have a manifest, in the order of preference. */
  ghost function NamesFound(req: Request, files: map<ManifestId, ManifestFile>): seq<string> {
    (if exists id :: id in files && IsOfCommit(id, req.commit, req.buildType) then ["commit"] else []) +
    (if exists id :: id in files && IsOfCommit(id, req.parentCommit, req.buildType) then ["parent"] else []) +
    (if exists id :: id in files && IsOfChanges(id, req.changesID, req.buildType) then ["changes"] else []) +
    (if exists id :: id in files && IsOfCommit(id, req.baseCommit, req.buildType) then ["base"] else [])
  }

  /** The named sources in the order a restore tries them. */
  function Sources(req: Request): (r: seq<(string, Target)>)
    ensures |r| == 4
  {
    [ ("commit", CommitTarget(req.commit, req.buildType)),
      ("parent", CommitTarget(req.parentCommit, req.buildType)),
      ("changes", ChangesTarget(req.changesID, req.buildType)),
      ("base", CommitTarget(req.baseCommit, req.buildType)) ]
  }

  // ----- What a restore should resolve to -----

  type Files = map<ManifestId, ManifestFile>

  predicate Matches(source: (string, Target), files: Files) {
    source.1.At? && source.1.id in files
  }

  /** The path lists of the sources that have a manifest, in order. */
  function MatchedLists(sources: seq<(string, Target)>, files: Files, index: set<string>): seq<seq<string>> {
    if sources == [] then []
    else
      var rest, last := MatchedLists(sources[..|sources| - 1], files, index), sources[|sources| - 1];
      if Matches(last, files) then rest + [Load(files[last.1.id].text, index)] else rest
  }

  function MatchedNames(sources: seq<(string, Target)>, files: Files): seq<string> {
    if sources == [] then []
    else
      var rest, last := MatchedNames(sources[..|sources| - 1], files), sources[|sources| - 1];
      if Matches(last, files) then rest + [last.0] else rest
  }

  function Concat(lists: seq<seq<string>>): seq<string> {
    if lists == [] then [] else Concat(lists[..|lists| - 1]) + lists[|lists| - 1]
  }

  /** What a restore request names, spelled out. */
  lemma SourcesAre(req: Request)
    ensures (forall s :: s in Sources(req) ==> s.1.Blank?) <==> NamesNothing(req)
    ensures (exists s :: s in Sources(req) && s.1.Invalid?) <==> IsMalformed(req)
    ensures NamesNothing(req) ==> !IsMalformed(req)
  {
    hide Trim, CommitTarget, ChangesTarget, ScopeDir, ByteLen, ValidKeyName, Unusable, IsOfCommit, IsOfChanges, IsOf;
    TargetsAre(req.commit, req.buildType);
    TargetsAre(req.parentCommit, req.buildType);
    TargetsAre(req.changesID, req.buildType);
    TargetsAre(req.baseCommit, req.buildType);
    AmongFour(Sources(req));
  }

  lemma AmongFour(s: seq<(string, Target)>)
    requires |s| == 4
    ensures (forall x :: x in s ==> x.1.Blank?) <==> s[0].1.Blank? && s[1].1.Blank? && s[2].1.Blank? && s[3].1.Blank?
    ensures (exists x :: x in s && x.1.Invalid?) <==>
      s[0].1.Invalid? || s[1].1.Invalid? || s[2].1.Invalid? || s[3].1.Invalid?
  {
  }

  lemma LookedUp(req: Request, id: ManifestId)
    requires !IsMalformed(req)
    ensures var s := Sources(req);
            && (s[0].1 == At(id) <==> IsOfCommit(id, req.commit, req.buildType))
            && (s[1].1 == At(id) <==> IsOfCommit(id, req.parentCommit, req.buildType))
            && (s[2].1 == At(id) <==> IsOfChanges(id, req.changesID, req.buildType))
            && (s[3].1 == At(id) <==> IsOfCommit(id, req.baseCommit, req.buildType))
  {
    SourcesAre(req);
    hide Trim, CommitTarget, ChangesTarget, ScopeDir, ByteLen, ValidKeyName, IsOfCommit, IsOfChanges, IsMalformed;
    TargetsAre(req.commit, req.buildType);
    TargetsAre(req.parentCommit, req.buildType);
    TargetsAre(req.changesID, req.buildType);
    TargetsAre(req.baseCommit, req.buildType);
    var s := Sources(req);
    assert s[0] in s && s[1] in s && s[2] in s && s[3] in s;
  }

  /** The sources matched are those whose manifests exist. */
  lemma FoundAre(req: Request, files: Files)
    requires !IsMalformed(req)
    ensures MatchedNames(Sources(req), files) == NamesFound(req, files)
  {
    hide CommitTarget, ChangesTarget, IsOfCommit, IsOfChanges, IsMalformed;
    var s := Sources(req);
    forall id
      ensures s[0].1 == At(id) <==> IsOfCommit(id, req.commit, req.buildType)
      ensures s[1].1 == At(id) <==> IsOfCommit(id, req.parentCommit, req.buildType)
      ensures s[2].1 == At(id) <==> IsOfChanges(id, req.changesID, req.buildType)
      ensures s[3].1 == At(id) <==> IsOfCommit(id, req.baseCommit, req.buildType)
    {
      LookedUp(req, id);
    }
    FourNames(s, files);
    hide MatchedNames;
  }

  function NameIfMatched(source: (string, Target), files: Files): seq<string> {
    if Matches(source, files) then [source.0] else []
  }

  lemma FourNames(s: seq<(string, Target)>, files: Files)
    requires |s| == 4
    ensures MatchedNames(s, files) == NameIfMatched(s[0], files) + NameIfMatched(s[1], files) +
                                      NameIfMatched(s[2], files) + NameIfMatched(s[3], files)
  {
    hide MatchedNames, NameIfMatched;
    NamesStep([], s[0], files);
    NamesStep([s[0]], s[1], files);
    NamesStep([s[0], s[1]], s[2], files);
    NamesStep([s[0], s[1], s[2]], s[3], files);
    assert [] + [s[0]] == [s[0]] && [s[0]] + [s[1]] == [s[0], s[1]];
    assert [s[0], s[1]] + [s[2]] == [s[0], s[1], s[2]] && [s[0], s[1], s[2]] + [s[3]] == s;
  }

  lemma NamesStep(front: seq<(string, Target)>, last: (string, Target), files: Files)
    ensures MatchedNames(front + [last], files) == MatchedNames(front, files) + NameIfMatched(last, files)
    ensures MatchedNames([], files) == []
  {
    assert (front + [last])[..|front|] == front;
  }

  /** What the manifest of this name lists, if it has a name and is there. */
  function ListIfFound(name: string, id: ManifestId, files: Files, index: set<string>): seq<seq<string>> {
    if Trim(name) != "" && id in files then [Load(files[id].text, index)] else []
  }

  /** What the manifests of a request list, in the order of preference. */
  ghost function ListsFound(req: Request, files: Files, index: set<string>): seq<seq<string>> {
    var scope := if Trim(req.buildType) == "" then "default" else "buildtype-" + Trim(req.buildType);
    ListIfFound(req.commit, CommitManifest(scope, Trim(req.commit)), files, index) +
    ListIfFound(req.parentCommit, CommitManifest(scope, Trim(req.parentCommit)), files, index) +
    ListIfFound(req.changesID, ChangesManifest(scope, Trim(req.changesID)), files, index) +
    ListIfFound(req.baseCommit, CommitManifest(scope, Trim(req.baseCommit)), files, index)
  }

  function ListIfMatched(source: (string, Target), files: Files, index: set<string>): seq<seq<string>> {
    if Matches(source, files) then [Load(files[source.1.id].text, index)] else []
  }

  lemma ListsStep(front: seq<(string, Target)>, last: (string, Target), files: Files, index: set<string>)
    ensures MatchedLists(front + [last], files, index) ==
            MatchedLists(front, files, index) + ListIfMatched(last, files, index)
    ensures MatchedLists([], files, index) == []
  {
    hide Load;
    assert (front + [last])[..|front|] == front;
  }

  lemma FourLists(s: seq<(string, Target)>, files: Files, index: set<string>)
    requires |s| == 4
    ensures MatchedLists(s, files, index) == ListIfMatched(s[0], files, index) + ListIfMatched(s[1], files, index) +
                                             ListIfMatched(s[2], files, index) + ListIfMatched(s[3], files, index)
  {
    hide MatchedLists, ListIfMatched;
    ListsStep([], s[0], files, index);
    ListsStep([s[0]], s[1], files, index);
    ListsStep([s[0], s[1]], s[2], files, index);
    ListsStep([s[0], s[1], s[2]], s[3], files, index);
    assert [] + [s[0]] == [s[0]] && [s[0]] + [s[1]] == [s[0], s[1]];
    assert [s[0], s[1]] + [s[2]] == [s[0], s[1], s[2]] && [s[0], s[1], s[2]] + [s[3]] == s;
  }

  lemma ListOf(source: (string, Target), name: string, id: ManifestId, files: Files, index: set<string>)
    requires forall x :: source.1 == At(x) <==> Trim(name) != "" && x == id
    ensures ListIfMatched(source, files, index) == ListIfFound(name, id, files, index)
  {
    hide Trim, Load;
    assert source.1 == At(id) <==> Trim(name) != "";
  }

  /** The lists matched, when no source rereads what another has rewritten, are those of the manifests named. */
  lemma ListsAre(req: Request, files: Files, index: set<string>)
    requires !IsMalformed(req)
    ensures MatchedLists(Sources(req), files, index) == ListsFound(req, files, index)
  {
    hide Trim, IsMalformed, Load, MatchedLists, Sources;
    var scope := if Trim(req.buildType) == "" then "default" else "buildtype-" + Trim(req.buildType);
    var s := Sources(req);
    FourLists(s, files, index);
    forall id
      ensures s[0].1 == At(id) <==> IsOfCommit(id, req.commit, req.buildType)
      ensures s[1].1 == At(id) <==> IsOfCommit(id, req.parentCommit, req.buildType)
      ensures s[2].1 == At(id) <==> IsOfChanges(id, req.changesID, req.buildType)
      ensures s[3].1 == At(id) <==> IsOfCommit(id, req.baseCommit, req.buildType)
    {
      LookedUp(req, id);
    }
    ListOf(s[0], req.commit, CommitManifest(scope, Trim(req.commit)), files, index);
    ListOf(s[1], req.parentCommit, CommitManifest(scope, Trim(req.parentCommit)), files, index);
    ListOf(s[2], req.changesID, ChangesManifest(scope, Trim(req.changesID)), files, index);
    ListOf(s[3], req.baseCommit, CommitManifest(scope, Trim(req.baseCommit)), files, index);
    hide ListIfMatched, ListIfFound, IsOfCommit, IsOfChanges;
  }

  // ----- Self-healing -----

  /** What a read leaves of a manifest: it is rewritten if that drops some line. */
  function Healed(file: ManifestFile, index: set<string>, now: int, fails: bool): ManifestFile {
    if |Load(file.text, index)| < |Lines(file.text)| && !fails then ManifestFile(Body(Load(file.text, index)), now)
    else file
  }

  ghost predicate AllListable(paths: seq<string>) {
    forall p :: p in paths ==> Listable(p)
  }

  /** Nothing is dropped from the manifest, or everything in it is in cleaned form. */
  ghost predicate HealsToTheSame(text: string, index: set<string>) {
    |Load(text, index)| == |Lines(text)| || AllListable(Load(text, index))
  }

  /** Rewriting a manifest with what was loaded from it keeps what it loads to exactly if all of that
      is listable: the cleaned form of a line may itself have another cleaned form. */
  lemma RewrittenLoadsTheSame(text: string, index: set<string>)
    ensures Load(Body(Load(text, index)), index) == Load(text, index) <==> AllListable(Load(text, index))
  {
    var paths := Load(text, index);
    LoadedFacts(text, index);
    if AllListable(paths) {
      ManifestRoundTrip(paths);
      IndexedOfIndexed(paths, index);
    }
    if Load(Body(paths), index) == paths {
      LinesOfBody(paths);
      hide CleanLines, Lines, Body, CleanRelativePath;
      KeptAll(paths, index);
    }
  }

  lemma HealedLoadsTheSame(file: ManifestFile, index: set<string>, now: int)
    ensures Load(Healed(file, index, now, false).text, index) == Load(file.text, index) <==>
      HealsToTheSame(file.text, index)
  {
    hide Load, Lines, AllListable;
    LoadIsShort(file.text, index);
    RewrittenLoadsTheSame(file.text, index);
  }

  lemma LoadIsShort(text: string, index: set<string>)
    ensures |Load(text, index)| <= |Lines(text)|
  {
    hide Lines;
    CleanLinesLength(Lines(text));
    DedupLength(CleanLines(Lines(text)));
    IndexedLength(ReadPaths(text), index);
  }

  /** Healing twice is healing once, if it keeps what is loaded. */
  lemma HealedOnce(file: ManifestFile, index: set<string>, now: int)
    requires HealsToTheSame(file.text, index)
    ensures Healed(Healed(file, index, now, false), index, now, false) == Healed(file, index, now, false)
  {
    hide Load, Lines;
    HealedLoadsTheSame(file, index, now);
    LoadedFacts(file.text, index);
    LinesOfBody(Load(file.text, index));
  }

  /** Two equal lines in a form that takes two cleanings: the first load drops one and writes back the
      path loaded, and the second load finds a path that the manifest never listed. */
  lemma RewrittenCanLoadAnother()
    ensures var text, index := Body(["./ ./ a", "./ ./ a"]), {" ./ a", " a"};
            Load(text, index) == [" ./ a"] && |Lines(text)| == 2 && Load(Body([" ./ a"]), index) == [" a"]
  {
    hide Lines, Body, CleanRelativePath, Load;
    TwoCleanings();
    LinesOfBody(["./ ./ a", "./ ./ a"]);
    LinesOfBody([" ./ a"]);
    LoadOfSame(Body(["./ ./ a", "./ ./ a"]), " ./ a", {" ./ a", " a"});
    LoadOfSame(Body([" ./ a"]), " a", {" ./ a", " a"});
  }

  /** A manifest all of whose lines have the same cleaned form. */
  lemma LoadOfSame(text: string, path: string, index: set<string>)
    requires Lines(text) != [] && path in index
    requires forall line :: line in Lines(text) ==> CleanRelativePath(line) == Some(path)
    ensures Load(text, index) == [path]
  {
    hide Lines, CleanRelativePath, Load;
    LoadedFacts(text, index);
    forall p
      ensures p in Load(text, index) <==> p == path
    {
      LoadHas(text, index, p);
      assert Lines(text)[0] in Lines(text);
    }
    var paths := Load(text, index);
    NoDupCount(paths);
    assert path in paths && Elements(paths) == {path};
  }

  lemma TwoCleanings()
    ensures CleanRelativePath("./ ./ a") == Some(" ./ a") && CleanRelativePath(" ./ a") == Some(" a")
  {
    hide Trim, Join, Resolve, CleanRelativePath;
    Untrimmed("./ ./ a");
    Untrimmed("./ a");
    assert " " + "./ a" == " ./ a";
    JoinDot([" .", " a"]);
    JoinDot([" a"]);
    JoinNames();
    ResolveDot([" .", " a"]);
    ResolveDot([" a"]);
    assert "./" + " ./ a" == "./ ./ a" && "./" + " a" == "./ a";
    OneCleaning("./ ./ a", "./ ./ a", ["."] + [" .", " a"], [" .", " a"]);
    OneCleaning(" ./ a", "./ a", ["."] + [" a"], [" a"]);
  }

  lemma Untrimmed(s: string)
    requires s != "" && !IsSpace(s[0]) && !IsSpace(s[|s| - 1])
    ensures Trim(s) == s && Trim(" " + s) == s
  {
    assert (" " + s)[1..] == s;
  }

  lemma JoinNames()
    ensures Join([" .", " a"], '/') == " ./ a" && Join([" a"], '/') == " a"
  {
    assert [" .", " a"][1..] == [" a"];
  }

  lemma JoinDot(rest: seq<string>)
    requires rest != []
    ensures Join(["."] + rest, '/') == "./" + Join(rest, '/')
  {
    assert (["."] + rest)[1..] == rest;
  }

  lemma ResolveDot(names: seq<string>)
    requires forall s :: s in names ==> s != "" && s != "." && s != ".." && '/' !in s
    ensures Resolve([], ["."] + names) == names
  {
    assert (["."] + names)[1..] == names && [] + names == names;
    assert forall i :: 0 <= i < |names| ==> names[i] in names;
    ResolveKeepsResolved([], names);
  }

  lemma OneCleaning(path: string, trimmed: string, segments: seq<string>, stack: seq<string>)
    requires Trim(path) == trimmed && Join(segments, '/') == trimmed && segments != [] && Resolve([], segments) == stack
    requires stack != [] && trimmed != "" && trimmed[0] != '/' && forall s :: s in segments ==> '/' !in s
    requires Join(stack, '/') != "" && Join(stack, '/')[0] != '.'
    ensures CleanRelativePath(path) == Some(Join(stack, '/'))
  {
    hide Trim, Join, Resolve, SplitOn;
    SplitUndoesJoin(segments, '/');
  }

  /** The loaded paths are distinct, indexed, and lines of their own. */
  lemma LoadedFacts(text: string, index: set<string>)
    ensures NoDup(Load(text, index))
    ensures forall p :: p in Load(text, index) ==> p in index && p != "" && '\n' !in p
  {
    hide CleanRelativePath, Dedup, CleanLines, Lines;
    DedupIsFirstSeenOrder(CleanLines(Lines(text)));
    IndexedIsDistinct(ReadPaths(text), index);
    forall p | p in Load(text, index)
      ensures p != "" && '\n' !in p
    {
      CleanLinesFrom(Lines(text), p);
      var line :| line in Lines(text) && CleanRelativePath(line) == Some(p);
      CleanedLine(text, line);
    }
  }

  lemma CleanedLine(text: string, line: string)
    requires line in Lines(text) && CleanRelativePath(line).Some?
    ensures CleanRelativePath(line).value != "" && '\n' !in CleanRelativePath(line).value
  {
    SplitPieces(text, '\n');
    CleanedStaysInside(line);
  }

  /** Lines of which a reading loses none are all listable. */
  lemma KeptAll(paths: seq<string>, index: set<string>)
    requires Indexed(Dedup(CleanLines(paths)), index) == paths && forall p :: p in paths ==> '\n' !in p
    ensures AllListable(paths)
  {
    hide CleanRelativePath;
    CleanLinesLength(paths);
    DedupLength(CleanLines(paths));
    IndexedLength(Dedup(CleanLines(paths)), index);
    forall p | p in paths
      ensures Listable(p)
    {
      var i :| 0 <= i < |paths| && paths[i] == p;
      assert CleanRelativePath(paths[i]) == Some(CleanLines(paths)[i]);
    }
  }

  lemma {:induction false} CleanLinesLength(lines: seq<string>)
    ensures |CleanLines(lines)| <= |lines|
    ensures |CleanLines(lines)| == |lines| ==> forall i :: 0 <= i < |lines| ==>
      CleanRelativePath(lines[i]) == Some(CleanLines(lines)[i])
  {
    hide CleanRelativePath;
    if lines != [] {
      CleanLinesLength(lines[..|lines| - 1]);
    }
  }

  lemma {:induction false} DedupLength(s: seq<string>)
    ensures |Dedup(s)| <= |s| && (|Dedup(s)| == |s| ==> Dedup(s) == s)
  {
    if s != [] {
      DedupLength(s[..|s| - 1]);
      assert s == s[..|s| - 1] + [s[|s| - 1]];
    }
  }

  lemma {:induction false} IndexedLength(paths: seq<string>, index: set<string>)
    ensures |Indexed(paths, index)| <= |paths|
      && (|Indexed(paths, index)| == |paths| ==> Indexed(paths, index) == paths)
  {
    if paths != [] {
      IndexedLength(paths[..|paths| - 1], index);
      assert paths == paths[..|paths| - 1] + [paths[|paths| - 1]];
    }
  }

  lemma {:induction false} IndexedIsDistinct(paths: seq<string>, index: set<string>)
    requires NoDup(paths)
    ensures NoDup(Indexed(paths, index))
  {
    if paths != [] {
      IndexedIsDistinct(paths[..|paths| - 1], index);
      assert paths[|paths| - 1] !in paths[..|paths| - 1];
    }
  }

  lemma {:induction false} IndexedOfIndexed(paths: seq<string>, index: set<string>)
    requires forall p :: p in paths ==> p in index
    ensures Indexed(paths, index) == paths
  {
    if paths != [] {
      IndexedOfIndexed(paths[..|paths| - 1], index);
      assert paths == paths[..|paths| - 1] + [paths[|paths| - 1]];
    }
  }

  /** The manifests once these sources have been read in turn, the write-back of the k-th failing as
      `fails` says. */
  function FilesAfter(sources: seq<(string, Target)>, files: Files, index: set<string>, now: int,
                      fails: nat -> bool): Files
  {
    if sources == [] then files
    else
      var k := |sources| - 1;
      var f := FilesAfter(sources[..k], files, index, now, fails);
      if Matches(sources[k], f) then f[sources[k].1.id := Healed(f[sources[k].1.id], index, now, fails(k))] else f
  }

  /** What is loaded for each of them: a later source finds a manifest as an earlier one left it. */
  function LoadedLists(sources: seq<(string, Target)>, files: Files, index: set<string>, now: int,
                       fails: nat -> bool): seq<seq<string>>
  {
    if sources == [] then []
    else
      var k := |sources| - 1;
      var rest, f :=
        LoadedLists(sources[..k], files, index, now, fails), FilesAfter(sources[..k], files, index, now, fails);
      if Matches(sources[k], f) then rest + [Load(f[sources[k].1.id].text, index)] else rest
  }

  /** The k-th source names this manifest. */
  ghost predicate Names(sources: seq<(string, Target)>, k: int, id: ManifestId) {
    0 <= k < |sources| && sources[k].1 == At(id)
  }

  /** Some source has this manifest written back. */
  ghost predicate Rewritten(sources: seq<(string, Target)>, id: ManifestId, fails: nat -> bool) {
    exists k: nat :: Names(sources, k, id) && !fails(k)
  }

  /** A manifest that is read again after it was written back heals to the same. */
  ghost predicate RereadsAreSafe(sources: seq<(string, Target)>, files: Files, index: set<string>, fails: nat -> bool) {
    forall i: nat, j: nat, id :: i < j && Names(sources, i, id) && Names(sources, j, id) && id in files && !fails(i) ==>
      HealsToTheSame(files[id].text, index)
  }

  lemma NamesOfFront(sources: seq<(string, Target)>)
    requires sources != []
    ensures var n := |sources| - 1;
            forall i, id :: Names(sources[..n], i, id) <==> Names(sources, i, id) && i != n
  {
    forall i, id
      ensures Names(sources[..|sources| - 1], i, id) <==> Names(sources, i, id) && i != |sources| - 1
    {
      if 0 <= i < |sources| - 1 {
        assert sources[..|sources| - 1][i] == sources[i];
      }
    }
  }

  lemma {:induction false} FilesAfterFrame(sources: seq<(string, Target)>, files: Files, index: set<string>, now: int,
                                           fails: nat -> bool)
    ensures FilesAfter(sources, files, index, now, fails).Keys == files.Keys
    ensures forall id :: id in files && (forall k :: !Names(sources, k, id)) ==>
              FilesAfter(sources, files, index, now, fails)[id] == files[id]
  {
    hide Healed;
    if sources != [] {
      var k := |sources| - 1;
      FilesAfterFrame(sources[..k], files, index, now, fails);
      NamesOfFront(sources);
      assert sources[k].1.At? ==> Names(sources, k, sources[k].1.id);
      hide Names;
    }
  }

  lemma RereadsOfFront(sources: seq<(string, Target)>, files: Files, index: set<string>, fails: nat -> bool)
    requires sources != [] && RereadsAreSafe(sources, files, index, fails)
    ensures RereadsAreSafe(sources[..|sources| - 1], files, index, fails)
  {
    NamesOfFront(sources);
    hide Names, HealsToTheSame;
  }

  lemma RewrittenStep(sources: seq<(string, Target)>, id: ManifestId, fails: nat -> bool)
    requires sources != []
    ensures var k: nat := |sources| - 1;
            Rewritten(sources, id, fails) <==>
              Rewritten(sources[..k], id, fails) || (sources[k].1 == At(id) && !fails(k))
  {
    var k: nat := |sources| - 1;
    NamesOfFront(sources);
    assert Names(sources, k, id) <==> sources[k].1 == At(id);
    hide Names;
  }

  /** As long as rereads are safe, every manifest is as it was or healed once. */
  lemma {:induction false} HealedAtMostOnce(sources: seq<(string, Target)>, files: Files, index: set<string>, now: int,
                                            fails: nat -> bool, id: ManifestId)
    requires RereadsAreSafe(sources, files, index, fails) && id in files
    ensures FilesAfter(sources, files, index, now, fails).Keys == files.Keys
    ensures FilesAfter(sources, files, index, now, fails)[id] ==
            if Rewritten(sources, id, fails) then Healed(files[id], index, now, false) else files[id]
  {
    hide HealsToTheSame;
    FilesAfterFrame(sources, files, index, now, fails);
    if sources != [] {
      var k: nat := |sources| - 1;
      RereadsOfFront(sources, files, index, fails);
      HealedAtMostOnce(sources[..k], files, index, now, fails, id);
      RewrittenStep(sources, id, fails);
      hide Rewritten, RereadsAreSafe;
      if sources[k].1 == At(id) && !fails(k) && Rewritten(sources[..k], id, fails) {
        RereadIsSafe(sources, files, index, fails, id);
        HealedOnce(files[id], index, now);
      }
    }
  }

  lemma RereadIsSafe(sources: seq<(string, Target)>, files: Files, index: set<string>, fails: nat -> bool,
                     id: ManifestId)
    requires sources != [] && id in files && RereadsAreSafe(sources, files, index, fails)
    requires sources[|sources| - 1].1 == At(id) && Rewritten(sources[..|sources| - 1], id, fails)
    ensures HealsToTheSame(files[id].text, index)
  {
    hide HealsToTheSame;
    var i: nat :| Names(sources[..|sources| - 1], i, id) && !fails(i);
    assert Names(sources, i, id) && Names(sources, |sources| - 1, id);
  }

  lemma RereadsAdd(sources: seq<(string, Target)>, files: Files, index: set<string>, fails: nat -> bool)
    requires sources != [] && RereadsAreSafe(sources[..|sources| - 1], files, index, fails)
    ensures var last := sources[|sources| - 1];
            RereadsAreSafe(sources, files, index, fails) <==>
            (Matches(last, files) && Rewritten(sources[..|sources| - 1], last.1.id, fails) ==>
             HealsToTheSame(files[last.1.id].text, index))
  {
    hide HealsToTheSame;
    var k: nat := |sources| - 1;
    var last := sources[k];
    NamesOfFront(sources);
    assert forall id :: Names(sources, k, id) <==> last.1 == At(id);
    assert forall i, id :: Names(sources, i, id) ==> i <= k;
    hide Names;
    if RereadsAreSafe(sources, files, index, fails) && Matches(last, files)
      && Rewritten(sources[..k], last.1.id, fails) {
      RereadIsSafe(sources, files, index, fails, last.1.id);
    }
  }

  /** Reading the sources in turn loads what each manifest held at the start exactly if every reread
      is safe. */
  lemma {:induction false} LoadedIsMatched(sources: seq<(string, Target)>, files: Files, index: set<string>, now: int,
                                           fails: nat -> bool)
    ensures |LoadedLists(sources, files, index, now, fails)| == |MatchedLists(sources, files, index)|
    ensures LoadedLists(sources, files, index, now, fails) == MatchedLists(sources, files, index) <==>
            RereadsAreSafe(sources, files, index, fails)
  {
    hide HealsToTheSame, Rewritten, RereadsAreSafe, Load;
    if sources == [] {
      NoRereads(files, index, fails);
    } else {
      var k: nat := |sources| - 1;
      var front, last := sources[..k], sources[k];
      LoadedIsMatched(front, files, index, now, fails);
      FilesAfterFrame(front, files, index, now, fails);
      if Matches(last, files) {
        var f := FilesAfter(front, files, index, now, fails);
        SnocEqual(LoadedLists(front, files, index, now, fails), MatchedLists(front, files, index),
                  Load(f[last.1.id].text, index), Load(files[last.1.id].text, index));
      }
      if RereadsAreSafe(front, files, index, fails) {
        RereadsAdd(sources, files, index, fails);
        if Matches(last, files) {
          HealedAtMostOnce(front, files, index, now, fails, last.1.id);
          HealedLoadsTheSame(files[last.1.id], index, now);
        }
      } else if RereadsAreSafe(sources, files, index, fails) {
        RereadsOfFront(sources, files, index, fails);
      }
    }
  }

  lemma SnocEqual<T>(a: seq<T>, b: seq<T>, x: T, y: T)
    requires |a| == |b|
    ensures a + [x] == b + [y] <==> a == b && x == y
  {
    if a + [x] == b + [y] {
      assert (a + [x])[..|a|] == a && (b + [y])[..|a|] == b;
      assert (a + [x])[|a|] == x && (b + [y])[|a|] == y;
    }
  }

  /** What the first source's manifest lists is loaded. */
  lemma {:induction false} FirstIsLoaded(sources: seq<(string, Target)>, files: Files, index: set<string>, now: int,
                                         fails: nat -> bool, path: string)
    requires sources != [] && Matches(sources[0], files) && path in Load(files[sources[0].1.id].text, index)
    ensures LoadedLists(sources, files, index, now, fails) != []
    ensures path in Concat(LoadedLists(sources, files, index, now, fails))
  {
    hide Load, Healed;
    var k: nat := |sources| - 1;
    if k > 0 {
      FirstIsLoaded(sources[..k], files, index, now, fails, path);
    }
  }

  lemma NoRereads(files: Files, index: set<string>, fails: nat -> bool)
    ensures RereadsAreSafe([], files, index, fails)
  {
  }

  // ----- The default source -----

  const DEFAULT_MANIFEST_SAMPLE_SIZE := 2

  /** Trunk manifests before those of changes, then the more recently written. */
  predicate RanksBefore(files: Files, a: ManifestId, b: ManifestId)
    requires a in files && b in files
  {
    if a.ChangesManifest? != b.ChangesManifest? then a.CommitManifest? else files[a].modTime > files[b].modTime
  }

  function InScope(files: Files, scope: string, exclude: set<ManifestId>): set<ManifestId> {
    set id | id in files && id.scope == scope && id !in exclude
  }

  /** The sample: as many as there are up to the sample size, none outranked by one left out. */
  ghost predicate IsSample(files: Files, candidates: set<ManifestId>, sample: seq<ManifestId>)
    requires candidates <= files.Keys
  {
    && NoDup(sample) && (forall id :: id in sample ==> id in candidates)
    && |sample| == (if |candidates| < DEFAULT_MANIFEST_SAMPLE_SIZE then |candidates| else DEFAULT_MANIFEST_SAMPLE_SIZE)
    && (forall i, j :: 0 <= i < j < |sample| ==> !RanksBefore(files, sample[j], sample[i]))
    && (forall id, out :: id in sample && out in candidates && out !in sample ==> !RanksBefore(files, out, id))
  }

  function LoadAll(files: Files, ids: seq<ManifestId>, index: set<string>): seq<seq<string>>
    requires forall id :: id in ids ==> id in files
  {
    if ids == [] then [] else LoadAll(files, ids[..|ids| - 1], index) + [Load(files[ids[|ids| - 1]].text, index)]
  }

  /** Some candidate is outranked by none. */
  lemma {:induction false} BestExists(files: Files, candidates: set<ManifestId>)
    requires candidates <= files.Keys && candidates != {}
    ensures exists best :: best in candidates && forall id :: id in candidates ==> !RanksBefore(files, id, best)
  {
    var one :| one in candidates;
    var rest := candidates - {one};
    if rest == {} {
      assert candidates == {one};
      assert !RanksBefore(files, one, one);
    } else {
      BestExists(files, rest);
      var best :| best in rest && forall id :: id in rest ==> !RanksBefore(files, id, best);
      if RanksBefore(files, one, best) {
        forall id | id in candidates
          ensures !RanksBefore(files, id, one)
        {
          assert id != one ==> id in rest && !RanksBefore(files, id, best);
        }
      } else {
        assert forall id :: id in candidates ==> !RanksBefore(files, id, best);
      }
    }
  }

  /** The best of what is left, found so far: the ranking's first `|sample|` members. */
  ghost predicate IsFront(files: Files, candidates: set<ManifestId>, todo: set<ManifestId>, sample: seq<ManifestId>)
    requires candidates <= files.Keys && todo <= candidates
  {
    && NoDup(sample) && (forall id :: id in candidates <==> id in todo || id in sample)
    && (forall id :: id in sample ==> id !in todo && id in candidates)
    && |todo| + |sample| == |candidates|
    && (forall i, j :: 0 <= i < j < |sample| ==> !RanksBefore(files, sample[j], sample[i]))
    && (forall id, out :: id in sample && out in todo ==> !RanksBefore(files, out, id))
  }

  lemma FrontGrows(files: Files, candidates: set<ManifestId>, todo: set<ManifestId>, sample: seq<ManifestId>,
                   best: ManifestId)
    requires candidates <= files.Keys && todo <= candidates && IsFront(files, candidates, todo, sample)
    requires best in todo && forall id :: id in todo ==> !RanksBefore(files, id, best)
    ensures IsFront(files, candidates, todo - {best}, sample + [best])
  {
    hide RanksBefore;
    assert forall id :: id in sample + [best] <==> id in sample || id == best;
    assert |todo - {best}| == |todo| - 1;
  }

  /** A trunk manifest next to one of changes, or else one written no earlier. */
  ghost predicate Preferred(files: Files, a: ManifestId, b: ManifestId)
    requires a in files && b in files
  {
    || (a.CommitManifest? && b.ChangesManifest?)
    || (a.CommitManifest? && b.CommitManifest? && files[a].modTime >= files[b].modTime)
    || (a.ChangesManifest? && b.ChangesManifest? && files[a].modTime >= files[b].modTime)
  }

  lemma UnoutrankedIsPreferred(files: Files, a: ManifestId, b: ManifestId)
    requires a in files && b in files && !RanksBefore(files, b, a)
    ensures Preferred(files, a, b)
  {
  }

  /** Two manifests, or all there are: each preferred to those after it and to those left out. */
  ghost predicate IsPreferredSample(files: Files, candidates: set<ManifestId>, sample: seq<ManifestId>)
    requires candidates <= files.Keys
  {
    && NoDup(sample) && (forall id :: id in sample ==> id in candidates)
    && |sample| <= 2 && (|sample| < 2 ==> forall id :: id in candidates ==> id in sample)
    && (forall i, j :: 0 <= i < j < |sample| ==> Preferred(files, sample[i], sample[j]))
    && (forall id, out :: id in sample && out in candidates && out !in sample ==> Preferred(files, id, out))
  }

  lemma SampleIsPreferred(files: Files, candidates: set<ManifestId>, sample: seq<ManifestId>)
    requires candidates <= files.Keys && IsSample(files, candidates, sample)
    ensures IsPreferredSample(files, candidates, sample)
  {
    hide RanksBefore, Preferred;
    NoDupCount(sample);
    forall id | |sample| < 2 && id in candidates
      ensures id in sample
    {
      if id !in sample {
        SubsetCount(Elements(sample) + {id}, candidates);
      }
    }
    forall i, j | 0 <= i < j < |sample|
      ensures Preferred(files, sample[i], sample[j])
    {
      UnoutrankedIsPreferred(files, sample[i], sample[j]);
    }
    forall id, out | id in sample && out in candidates && out !in sample
      ensures Preferred(files, id, out)
    {
      UnoutrankedIsPreferred(files, id, out);
    }
  }

  method SampleManifests(files: Files, candidates: set<ManifestId>) returns (sample: seq<ManifestId>)
    requires candidates <= files.Keys
    ensures IsSample(files, candidates, sample)
    ensures IsPreferredSample(files, candidates, sample)
  {
    hide RanksBefore;
    var todo := candidates;
    sample := [];
    while todo != {} && |sample| < DEFAULT_MANIFEST_SAMPLE_SIZE
      invariant todo <= candidates && IsFront(files, candidates, todo, sample)
      invariant |sample| <= DEFAULT_MANIFEST_SAMPLE_SIZE
      decreases |todo|
    {
      BestExists(files, todo);
      var best :| best in todo && forall id :: id in todo ==> !RanksBefore(files, id, best);
      FrontGrows(files, candidates, todo, sample, best);
      sample := sample + [best];
      todo := todo - {best};
    }
    SampleIsPreferred(files, candidates, sample);
  }

  // ----- First-seen unions -----

  /** Appends what has not been seen yet. */
  function Extend(result: seq<string>, paths: seq<string>): seq<string> {
    if paths == [] then result
    else
      var r := Extend(result, paths[..|paths| - 1]);
      if paths[|paths| - 1] in r then r else r + [paths[|paths| - 1]]
  }

  lemma {:induction false} ExtendIsDedup(s: seq<string>, paths: seq<string>)
    ensures Extend(Dedup(s), paths) == Dedup(s + paths)
  {
    if paths == [] {
      assert s + paths == s;
    } else {
      ExtendIsDedup(s, paths[..|paths| - 1]);
      assert s + paths == s + paths[..|paths| - 1] + [paths[|paths| - 1]];
      DedupStep(s + paths[..|paths| - 1], paths[|paths| - 1]);
    }
  }

  /** How many of `paths` the result does not have. */
  function CountNew(result: seq<string>, paths: seq<string>): nat {
    if paths == [] then 0
    else CountNew(result, paths[..|paths| - 1]) + if paths[|paths| - 1] in result then 0 else 1
  }

  /** Extending keeps what was there, adds exactly what was missing, and repeats nothing. */
  lemma {:induction false} ExtendFacts(result: seq<string>, paths: seq<string>)
    requires NoDup(result)
    ensures NoDup(Extend(result, paths)) && result <= Extend(result, paths)
    ensures forall p :: p in Extend(result, paths) <==> p in result || p in paths
    ensures NoDup(paths) ==> |Extend(result, paths)| == |result| + CountNew(result, paths)
  {
    if paths != [] {
      var front, last := paths[..|paths| - 1], paths[|paths| - 1];
      assert paths == front + [last];
      ExtendFacts(result, front);
      assert NoDup(paths) ==> NoDup(front) && last !in front;
    }
  }

  method AppendUnseen(result: seq<string>, paths: seq<string>) returns (r: seq<string>)
    ensures r == Extend(result, paths)
  {
    var seen := set p | p in result;
    r := result;
    for i := 0 to |paths|
      invariant r == Extend(result, paths[..i]) && seen == set p | p in r
    {
      assert paths[..i + 1][..i] == paths[..i];
      if paths[i] in seen {
        continue;
      }
      seen := seen + {paths[i]};
      r := r + [paths[i]];
    }
    assert paths[..|paths|] == paths;
  }

  method CountNovel(result: seq<string>, paths: seq<string>) returns (n: nat)
    ensures n == CountNew(result, paths)
  {
    n := 0;
    for i := 0 to |paths|
      invariant n == CountNew(result, paths[..i])
    {
      assert paths[..i + 1][..i] == paths[..i];
      if paths[i] !in result {
        n := n + 1;
      }
    }
    assert paths[..|paths|] == paths;
  }

  // ----- Resolution -----

  /** Read in turn, the lists bring `p` before they bring `q`. */
  ghost predicate SeenBefore(lists: seq<seq<string>>, p: string, q: string) {
    exists k: nat, a: nat ::
      && k < |lists| && a < |lists[k]| && lists[k][a] == p && q !in lists[k][..a + 1]
      && forall list :: list in lists[..k] ==> q !in list
  }

  ghost predicate SomeLists(lists: seq<seq<string>>, p: string) {
    exists list :: list in lists && p in list
  }

  /** What the lists bring, each path once, in the order in which they bring them. */
  ghost predicate ListsInOrder(result: seq<string>, lists: seq<seq<string>>) {
    && NoDup(result) && (forall p :: p in result <==> SomeLists(lists, p))
    && forall i, j :: 0 <= i < j < |result| ==> SeenBefore(lists, result[i], result[j])
  }

  /** What a restore resolves to, as sets: with a matched source the default paths come after the matched
      ones if more of them are missing there than there are matched ones, and else not at all. */
  ghost predicate Resolves(lists: seq<seq<string>>, names: seq<string>, def: seq<string>, paths: seq<string>,
                           sources: seq<string>)
  {
    var matched := set list, p | list in lists && p in list :: p;
    var missing := set p | p in def && p !in matched;
    if lists == [] then paths == def && sources == (if def == [] then ["none"] else ["default"])
    else if |missing| > |matched| then ListsInOrder(paths, lists + [def]) && sources == names + ["default"]
    else ListsInOrder(paths, lists) && sources == names
  }

  lemma OneMoreSeen(s: seq<string>, lists: seq<seq<string>>, front: seq<string>, x: string)
    requires ListsInOrder(s, lists + [front])
    ensures ListsInOrder(if x in s then s else s + [x], lists + [front + [x]])
  {
    var before, after := lists + [front], lists + [front + [x]];
    var r := if x in s then s else s + [x];
    assert before[|lists|] == front && after[|lists|] == front + [x];
    forall p
      ensures SomeLists(after, p) <==> SomeLists(before, p) || p == x
    {
      if list :| list in before && p in list {
        assert list in lists || list == front;
        assert front + [x] in after;
      }
      if p == x {
        assert front + [x] in after && x in front + [x];
      }
      if list :| list in after && p in list {
        assert list in lists || list == front + [x];
        assert front in before && forall l :: l in lists ==> l in before;
      }
    }
    forall i, j | 0 <= i < j < |r|
      ensures SeenBefore(after, r[i], r[j])
    {
      if j < |s| {
        StaysBefore(lists, front, x, s[i], s[j]);
      } else {
        assert s[i] in s;
        UnseenIsLater(lists, front, x, s[i]);
      }
    }
  }

  lemma StaysBefore(lists: seq<seq<string>>, front: seq<string>, x: string, p: string, q: string)
    requires SeenBefore(lists + [front], p, q)
    ensures SeenBefore(lists + [front + [x]], p, q)
  {
    var before, after := lists + [front], lists + [front + [x]];
    var k: nat, a: nat :| k < |before| && a < |before[k]| && before[k][a] == p && q !in before[k][..a + 1]
      && forall list :: list in before[..k] ==> q !in list;
    assert before[..k] == after[..k] == lists[..k];
    assert after[k][..a + 1] == before[k][..a + 1];
  }

  lemma UnseenIsLater(lists: seq<seq<string>>, front: seq<string>, x: string, p: string)
    requires SomeLists(lists + [front], p) && !SomeLists(lists + [front], x)
    ensures SeenBefore(lists + [front + [x]], p, x)
  {
    var before, after := lists + [front], lists + [front + [x]];
    var k :| 0 <= k < |before| && p in before[k];
    var a :| 0 <= a < |before[k]| && before[k][a] == p;
    assert before[..k] == after[..k] == lists[..k];
    assert after[k][..a + 1] == before[k][..a + 1];
    assert before[k] in before && forall list :: list in before[..k] ==> list in before;
    assert after[k][a] == p && x !in after[k][..a + 1];
  }

  lemma {:induction false} ExtendInOrder(result: seq<string>, lists: seq<seq<string>>, paths: seq<string>)
    requires ListsInOrder(result, lists)
    ensures ListsInOrder(Extend(result, paths), lists + [paths])
  {
    hide ListsInOrder;
    if paths == [] {
      EmptyListAdded(result, lists);
    } else {
      var front := paths[..|paths| - 1];
      ExtendInOrder(result, lists, front);
      OneMoreSeen(Extend(result, front), lists, front, paths[|paths| - 1]);
      assert front + [paths[|paths| - 1]] == paths;
    }
  }

  lemma EmptyListAdded(result: seq<string>, lists: seq<seq<string>>)
    requires ListsInOrder(result, lists)
    ensures ListsInOrder(result, lists + [[]])
  {
    var after := lists + [[]];
    forall p
      ensures SomeLists(after, p) <==> SomeLists(lists, p)
    {
      assert forall list :: list in after <==> list in lists || list == [];
    }
    forall i, j | 0 <= i < j < |result|
      ensures SeenBefore(after, result[i], result[j])
    {
      var p, q := result[i], result[j];
      var k: nat, a: nat :| k < |lists| && a < |lists[k]| && lists[k][a] == p && q !in lists[k][..a + 1]
        && forall list :: list in lists[..k] ==> q !in list;
      assert after[..k] == lists[..k] && after[k] == lists[k];
    }
  }

  lemma {:induction false} UnionIsInOrder(lists: seq<seq<string>>)
    ensures ListsInOrder(Dedup(Concat(lists)), lists)
  {
    if lists == [] {
    } else {
      var front, last := lists[..|lists| - 1], lists[|lists| - 1];
      UnionIsInOrder(front);
      ExtendInOrder(Dedup(Concat(front)), front, last);
      ExtendIsDedup(Concat(front), last);
      assert front + [last] == lists;
      hide ListsInOrder;
    }
  }

  /** What a list of matched sources and a default list resolve to: the default paths are added
      exactly when they bring more novel paths than were resolved, or when nothing matched. */
  function Resolution(lists: seq<seq<string>>, names: seq<string>, def: seq<string>): (seq<string>, seq<string>) {
    var resolved := Dedup(Concat(lists));
    if lists == [] then
      (def, if def == [] then ["none"] else ["default"])
    else if CountNew(resolved, def) > |resolved| then
      (Extend(resolved, def), names + ["default"])
    else
      (resolved, names)
  }

  /** A resolution lists no path twice, keeps the matched sources' paths in first-seen order at the
      front, and lists nothing else but default paths. */
  lemma ResolutionFacts(lists: seq<seq<string>>, names: seq<string>, def: seq<string>)
    requires NoDup(def)
    ensures var r := Resolution(lists, names, def).0;
            && NoDup(r)
            && (lists != [] ==> Dedup(Concat(lists)) <= r)
            && (forall p :: p in Concat(lists) ==> p in r)
            && (forall p :: p in r ==> p in Concat(lists) || p in def)
            && (|r| > |Dedup(Concat(lists))| ==> forall p :: p in def ==> p in r)
    ensures lists != [] && Resolution(lists, names, def).0 != Dedup(Concat(lists)) ==>
              |Resolution(lists, names, def).0| > 2 * |Dedup(Concat(lists))|
  {
    var resolved := Dedup(Concat(lists));
    DedupIsFirstSeenOrder(Concat(lists));
    ExtendFacts(resolved, def);
  }

  lemma ResolutionResolves(lists: seq<seq<string>>, names: seq<string>, def: seq<string>)
    requires NoDup(def)
    ensures var r := Resolution(lists, names, def);
            Resolves(lists, names, def, r.0, r.1)
  {
    hide ListsInOrder, Extend, Dedup, Concat, CountNew, NoDup;
    var resolved := Dedup(Concat(lists));
    UnionIsInOrder(lists);
    ExtendInOrder(resolved, lists, def) by {
      DedupIsFirstSeenOrder(Concat(lists));
    }
    NovelAreMissing(resolved, lists, def);
  }

  lemma NovelAreMissing(resolved: seq<string>, lists: seq<seq<string>>, def: seq<string>)
    requires ListsInOrder(resolved, lists) && NoDup(def)
    ensures var matched := set list, p | list in lists && p in list :: p;
            |resolved| == |matched| && CountNew(resolved, def) == |set p | p in def && p !in matched|
  {
    var matched := set list, p | list in lists && p in list :: p;
    hide Extend, CountNew;
    ExtendFacts(resolved, def);
    assert forall p :: p in matched <==> SomeLists(lists, p);
    hide SomeLists;
    NoDupCount(resolved);
    NoDupCount(Extend(resolved, def));
    assert Elements(resolved) == matched;
    assert Elements(Extend(resolved, def)) == matched + set p | p in def && p !in matched;
  }

  /** The paths of a default sample, united. */
  ghost predicate IsDefault(files: Files, scope: string, exclude: set<ManifestId>, index: set<string>, def: seq<string>)
  {
    exists sample :: IsSample(files, InScope(files, scope, exclude), sample)
      && def == Dedup(Concat(LoadAll(files, sample, index)))
  }

  /** The manifests of the request's build type that it does not name. */
  ghost function Unnamed(req: Request, files: Files): set<ManifestId> {
    set id | id in files && IsOf(id, req.buildType) && !LooksUp(req, id)
  }

  /** The default paths of a request: what two manifests of its build type list, or all there are,
      apart from those it names: those of commits first, then the later written. */
  ghost predicate IsDefaultOf(req: Request, files: Files, index: set<string>, def: seq<string>) {
    exists sample: seq<ManifestId>, lists: seq<seq<string>> ::
      && IsPreferredSample(files, Unnamed(req, files), sample)
      && |lists| == |sample| && (forall i :: 0 <= i < |sample| ==> lists[i] == Load(files[sample[i]].text, index))
      && ListsInOrder(def, lists)
  }

  lemma {:induction false} LoadAllAt(files: Files, ids: seq<ManifestId>, index: set<string>)
    requires forall id :: id in ids ==> id in files
    ensures |LoadAll(files, ids, index)| == |ids|
    ensures forall i :: 0 <= i < |ids| ==> LoadAll(files, ids, index)[i] == Load(files[ids[i]].text, index)
  {
    hide Load;
    if ids != [] {
      LoadAllAt(files, ids[..|ids| - 1], index);
    }
  }

  lemma DefaultIsOf(req: Request, files: Files, index: set<string>, def: seq<string>)
    requires !IsMalformed(req) && ScopeDir(req.buildType).Some?
    requires IsDefault(files, ScopeDir(req.buildType).value, MatchedIds(Sources(req), files), index, def)
    ensures IsDefaultOf(req, files, index, def)
  {
    hide RanksBefore, IsPreferredSample, Dedup, Concat, LoadAll, Load, ListsInOrder, Sources, IsMalformed;
    var scope, exclude := ScopeDir(req.buildType).value, MatchedIds(Sources(req), files);
    CandidatesAre(req, files);
    hide MatchedIds, InScope, LooksUp, IsOf, ScopeDir;
    var candidates := InScope(files, scope, exclude);
    var sample :| IsSample(files, candidates, sample) && def == Dedup(Concat(LoadAll(files, sample, index)));
    SampleIsPreferred(files, candidates, sample);
    SampleFacts(files, candidates, sample);
    LoadAllAt(files, sample, index);
    UnionIsInOrder(LoadAll(files, sample, index));
  }

  lemma CandidatesAre(req: Request, files: Files)
    requires !IsMalformed(req) && ScopeDir(req.buildType).Some?
    ensures InScope(files, ScopeDir(req.buildType).value, MatchedIds(Sources(req), files)) == Unnamed(req, files)
  {
    hide Trim, ScopeDir, IsMalformed, IsOf, LooksUp, MatchedIds, Sources;
    TargetsAre("", req.buildType);
    forall id | id in files
      ensures id in MatchedIds(Sources(req), files) <==> LooksUp(req, id)
      ensures id.scope == ScopeDir(req.buildType).value <==> IsOf(id, req.buildType)
    {
      MatchedIsLookedUp(req, files, id);
    }
  }

  lemma MatchedIsLookedUp(req: Request, files: Files, id: ManifestId)
    requires !IsMalformed(req) && id in files
    ensures id in MatchedIds(Sources(req), files) <==> LooksUp(req, id)
  {
    hide Trim, ScopeDir, IsMalformed, IsOfCommit, IsOfChanges, Sources;
    var s := Sources(req);
    LookedUp(req, id);
    if k :| 0 <= k < 4 && s[k].1 == At(id) {
      assert s[k] in s && Matches(s[k], files);
    }
  }

  /** Whatever a source's manifest lists at the start is loaded. */
  lemma {:induction false} NamedIsLoaded(sources: seq<(string, Target)>, files: Files, index: set<string>, now: int,
                                         fails: nat -> bool, k: nat, id: ManifestId, path: string)
    requires Names(sources, k, id) && id in files && path in Load(files[id].text, index)
    ensures SomeLists(LoadedLists(sources, files, index, now, fails), path)
  {
    hide Load, Healed;
    var n: nat := |sources| - 1;
    var front := sources[..n];
    var rest, f := LoadedLists(front, files, index, now, fails), FilesAfter(front, files, index, now, fails);
    NamesOfFront(sources);
    FilesAfterFrame(front, files, index, now, fails);
    if j: nat :| Names(front, j, id) {
      NamedIsLoaded(front, files, index, now, fails, j, id, path);
      var list :| list in rest && path in list;
      assert list in LoadedLists(sources, files, index, now, fails);
    } else {
      assert k == n && f[id] == files[id];
      assert Load(f[id].text, index) in LoadedLists(sources, files, index, now, fails);
    }
  }

  /** A restore serves what each manifest it looks up listed. */
  ghost predicate ServesNamed(req: Request, files: Files, index: set<string>, paths: seq<string>) {
    forall id, path :: id in files && LooksUp(req, id) && path in Load(files[id].text, index) ==> path in paths
  }

  lemma NothingLookedUp(req: Request, files: Files, index: set<string>)
    requires NamesNothing(req)
    ensures ServesNamed(req, files, index, [])
  {
    hide Trim, Load;
  }

  /** A resolution, spelled out. */
  lemma RestoreIs(req: Request, files: Files, index: set<string>, now: int, fails: nat -> bool, def: seq<string>)
    requires !IsMalformed(req) && ScopeDir(req.buildType).Some?
    requires IsDefault(files, ScopeDir(req.buildType).value, MatchedIds(Sources(req), files), index, def)
    ensures var lists := LoadedLists(Sources(req), files, index, now, fails);
            var r := Resolution(lists, MatchedNames(Sources(req), files), def);
            && IsDefaultOf(req, files, index, def)
            && Resolves(lists, NamesFound(req, files), def, r.0, r.1)
            && ServesNamed(req, files, index, r.0)
  {
    hide IsDefault, IsDefaultOf, IsMalformed, MatchedNames, MatchedIds, LoadedLists, Sources, Load, Resolution,
      Resolves,
      NamesFound, ScopeDir;
    var sources := Sources(req);
    var lists := LoadedLists(sources, files, index, now, fails);
    DefaultIsOf(req, files, index, def);
    FoundAre(req, files);
    DefaultIsDistinct(files, ScopeDir(req.buildType).value, MatchedIds(sources, files), index, def);
    ResolutionResolves(lists, MatchedNames(sources, files), def);
    forall id, path | id in files && LooksUp(req, id) && path in Load(files[id].text, index)
      ensures path in Resolution(lists, MatchedNames(sources, files), def).0
    {
      LookedUp(req, id);
      var k :| 0 <= k < 4 && sources[k].1 == At(id);
      assert Names(sources, k, id);
      NamedIsLoaded(sources, files, index, now, fails, k, id, path);
      MatchedAreServed(lists, MatchedNames(sources, files), def, path);
    }
  }

  lemma MatchedAreServed(lists: seq<seq<string>>, names: seq<string>, def: seq<string>, path: string)
    requires NoDup(def) && SomeLists(lists, path)
    ensures path in Resolution(lists, names, def).0
  {
    hide Dedup, Concat, Resolution;
    UnionIsInOrder(lists);
    ResolutionFacts(lists, names, def);
  }

  /** The manifests once these have been read, the write-back of the k-th failing as `fails` says. */
  function AllHealed(files: Files, ids: seq<ManifestId>, index: set<string>, now: int, fails: nat -> bool): (r: Files)
    requires forall id :: id in ids ==> id in files
    ensures r.Keys == files.Keys
  {
    if ids == [] then files
    else
      var k: nat := |ids| - 1;
      var f := AllHealed(files, ids[..k], index, now, fails);
      f[ids[k] := Healed(f[ids[k]], index, now, fails(k))]
  }

  /** The paths of a default sample, united, and the manifests once it has been read. */
  ghost predicate IsDefaultRead(files: Files, scope: string, exclude: set<ManifestId>, index: set<string>, now: int,
                                fails: nat -> bool, def: seq<string>, after: Files)
  {
    exists sample ::
      && IsSample(files, InScope(files, scope, exclude), sample) && def == Dedup(Concat(LoadAll(files, sample, index)))
      && after == AllHealed(files, sample, index, now, fails)
  }

  /** The sources before the first invalid one have been read, and no others. */
  ghost predicate StoppedAtInvalid(sources: seq<(string, Target)>, files: Files, index: set<string>, now: int,
                                   fails: nat -> bool, after: Files)
  {
    exists i: nat ::
      && i < |sources| && sources[i].1.Invalid? && (forall k :: 0 <= k < i ==> !sources[k].1.Invalid?)
      && after == FilesAfter(sources[..i], files, index, now, fails)
  }

  function MatchedIds(sources: seq<(string, Target)>, files: Files): set<ManifestId> {
    set s | s in sources && Matches(s, files) :: s.1.id
  }

  class ManifestDir {
    var files: Files

    constructor (files: Files)
      ensures this.files == files
    {
      this.files := files;
    }

    /** Adds paths to a manifest, atomically with respect to its other readers and writers; a write
        that fails leaves it as it was. */
    method MergeManifest(id: ManifestId, paths: seq<string>, index: set<string>, now: int, fails: bool)
      returns (ok: bool)
      modifies this
      ensures ok <==> !fails
      ensures !ok ==> files == old(files)
      ensures ok ==>
        var text := if id in old(files) then old(files)[id].text else "";
        files == old(files)[id := ManifestFile(Merged(text, index, paths), now)]
    {
      var text := if id in files then files[id].text else "";
      var existing, _ := LoadManifest(text, index);
      var merged := UnionManifestPaths(existing, paths);
      if fails {
        return false;
      }
      files := files[id := ManifestFile(Body(merged), now)];
      return true;
    }

    /** Loads a manifest and writes it back if anything was dropped; a failed write is ignored. */
    method LoadAndHeal(id: ManifestId, index: set<string>, now: int, fails: bool) returns (paths: seq<string>)
      requires id in files
      modifies this
      ensures paths == Load(old(files)[id].text, index)
      ensures files == old(files)[id := Healed(old(files)[id], index, now, fails)]
    {
      hide Lines, Load, Body;
      LoadIsShort(files[id].text, index);
      var changed;
      paths, changed := LoadManifest(files[id].text, index);
      if changed && !fails {
        files := files[id := ManifestFile(Body(paths), now)];
      }
    }

    /** The write-back of the k-th source's manifest fails as `fails` says, that of the k-th of the
        default sample as `sampleFails` says. */
    method RestorePaths(req: Request, index: set<string>, now: int, fails: nat -> bool, sampleFails: nat -> bool)
      returns (r: Option<(seq<string>, seq<string>)>)
      modifies this
      ensures r.None? <==> IsMalformed(req)
      ensures NamesNothing(req) ==> r == Some(([], ["none"])) && files == old(files)
      // What is served: the manifests looked up, in order of preference, and after them the default paths if
      // more of those are missing than there are paths that matched.
      ensures r.Some? && !NamesNothing(req) ==>
        exists def ::
          && IsDefaultOf(req, old(files), index, def)
          && Resolves(LoadedLists(Sources(req), old(files), index, now, fails), NamesFound(req, old(files)), def,
                      r.value.0, r.value.1)
      ensures r.Some? ==> ServesNamed(req, old(files), index, r.value.0)
      ensures (forall s :: s in Sources(req) ==> s.1.Blank?) ==> r == Some(([], ["none"])) && files == old(files)
      ensures (exists s :: s in Sources(req) && s.1.Invalid?) <==> r.None?
      ensures r.None? ==> StoppedAtInvalid(Sources(req), old(files), index, now, fails, files)
      ensures r.Some? && (exists s :: s in Sources(req) && !s.1.Blank?) ==>
        var sources, scope := Sources(req), ScopeDir(req.buildType).value;
        exists def ::
          && IsDefault(old(files), scope, MatchedIds(sources, old(files)), index, def)
          && IsDefaultRead(FilesAfter(sources, old(files), index, now, fails), scope, MatchedIds(sources, old(files)),
                           index, now, sampleFails, def, files)
          && r.value ==
               Resolution(LoadedLists(sources, old(files), index, now, fails), MatchedNames(sources, old(files)), def)
    {
      hide Sources, LoadedLists, FilesAfter, MatchedNames, MatchedIds, IsDefault, IsDefaultRead, ScopeDir,
        StoppedAtInvalid, Resolution, IsMalformed, NamesNothing, IsDefaultOf, Resolves, NamesFound, ServesNamed;
      SourcesAre(req);
      r := ResolvePaths(req, index, now, fails, sampleFails);
      if r.Some? && !NamesNothing(req) {
        SomeScope(req);
        ghost var sources, scope := Sources(req), ScopeDir(req.buildType).value;
        ghost var def :|
          && IsDefault(old(files), scope, MatchedIds(sources, old(files)), index, def)
          && r.value ==
               Resolution(LoadedLists(sources, old(files), index, now, fails), MatchedNames(sources, old(files)), def);
        RestoreIs(req, old(files), index, now, fails, def);
      }
      if NamesNothing(req) {
        NothingLookedUp(req, old(files), index);
      }
    }

    method ResolvePaths(req: Request, index: set<string>, now: int, fails: nat -> bool, sampleFails: nat -> bool)
      returns (r: Option<(seq<string>, seq<string>)>)
      modifies this
      ensures (forall s :: s in Sources(req) ==> s.1.Blank?) ==> r == Some(([], ["none"])) && files == old(files)
      ensures (exists s :: s in Sources(req) && s.1.Invalid?) <==> r.None?
      ensures r.None? ==> StoppedAtInvalid(Sources(req), old(files), index, now, fails, files)
      ensures r.Some? && (exists s :: s in Sources(req) && !s.1.Blank?) ==>
        var sources, scope := Sources(req), ScopeDir(req.buildType).value;
        exists def ::
          && IsDefault(old(files), scope, MatchedIds(sources, old(files)), index, def)
          && IsDefaultRead(FilesAfter(sources, old(files), index, now, fails), scope, MatchedIds(sources, old(files)),
                           index, now, sampleFails, def, files)
          && r.value ==
               Resolution(LoadedLists(sources, old(files), index, now, fails), MatchedNames(sources, old(files)), def)
    {
      hide Sources, LoadedLists, FilesAfter, MatchedNames, MatchedIds, IsDefault, IsDefaultRead, ScopeDir, Extend,
        Dedup, Concat, CountNew, StoppedAtInvalid;
      var sources := Sources(req);
      if forall s :: s in sources ==> s.1.Blank? {
        return Some(([], ["none"]));
      }
      var ok, lists, names, matched := LoadMatched(sources, index, now, fails);
      if !ok {
        return None;
      }
      var result := UniteLists(lists);
      SomeScope(req);
      var scope := ScopeDir(req.buildType).value;
      FilesAfterUnmatched(sources, old(files), index, now, fails);
      DefaultUnaffected(files, old(files), scope, matched, index);
      ReadIsDefault(files, scope, matched, index, now, sampleFails);
      var def := DefaultPaths(scope, if lists == [] then {} else matched, index, now, sampleFails);
      if lists == [] {
        return Some((def, if def == [] then ["none"] else ["default"]));
      }
      var novel := CountNovel(result, def);
      var total := |result| + novel;
      if total > 0 && (|result| as real) < (total as real) * SMALL_RESTORE_RATIO {
        result := AppendUnseen(result, def);
        names := names + ["default"];
      }
      return Some((result, names));
    }

    /** Loads each source's manifest in turn; stops at a source that names an invalid key. */
    method LoadMatched(sources: seq<(string, Target)>, index: set<string>, now: int, fails: nat -> bool)
      returns (ok: bool, lists: seq<seq<string>>, names: seq<string>, matched: set<ManifestId>)
      modifies this
      ensures ok <==> forall s :: s in sources ==> !s.1.Invalid?
      ensures ok ==> files == FilesAfter(sources, old(files), index, now, fails)
      ensures !ok ==> StoppedAtInvalid(sources, old(files), index, now, fails, files)
      ensures ok ==> matched == MatchedIds(sources, old(files)) && names == MatchedNames(sources, old(files))
      ensures ok ==> |lists| == |names| && (lists == [] ==> matched == {})
      ensures ok ==> lists == LoadedLists(sources, old(files), index, now, fails)
    {
      hide Load, Healed, MatchedIds, MatchedNames, FilesAfter, LoadedLists;
      NothingMatched(sources, files, index, now, fails);
      lists, names, matched := [], [], {};
      for i := 0 to |sources|
        invariant forall k :: 0 <= k < i ==> !sources[k].1.Invalid?
        invariant matched == MatchedIds(sources[..i], old(files)) && names == MatchedNames(sources[..i], old(files))
        invariant |lists| == |names| && (lists == [] ==> matched == {})
        invariant files == FilesAfter(sources[..i], old(files), index, now, fails)
        invariant lists == LoadedLists(sources[..i], old(files), index, now, fails)
      {
        MatchedStep(sources, old(files), index, now, fails, i);
        match sources[i].1
        case Blank =>
        case Invalid =>
          return false, lists, names, matched;
        case At(id) =>
          if id !in files {
            continue;
          }
          var paths := LoadAndHeal(id, index, now, fails(i));
          lists, names, matched := lists + [paths], names + [sources[i].0], matched + {id};
      }
      assert sources[..|sources|] == sources;
      return true, lists, names, matched;
    }

    method UniteLists(lists: seq<seq<string>>) returns (result: seq<string>)
      ensures result == Dedup(Concat(lists))
    {
      result := [];
      for i := 0 to |lists|
        invariant result == Dedup(Concat(lists[..i]))
      {
        assert lists[..i + 1][..i] == lists[..i];
        ExtendIsDedup(Concat(lists[..i]), lists[i]);
        result := AppendUnseen(result, lists[i]);
      }
      assert lists[..|lists|] == lists;
    }

    /** The union of a sample of a scope's manifests, healing each along the way. */
    method DefaultPaths(scope: string, exclude: set<ManifestId>, index: set<string>, now: int, fails: nat -> bool)
      returns (def: seq<string>)
      modifies this
      ensures IsDefaultRead(old(files), scope, exclude, index, now, fails, def, files)
    {
      hide IsSample, Load, Healed;
      var sample := SampleManifests(files, InScope(files, scope, exclude));
      SampleFacts(files, InScope(files, scope, exclude), sample);
      var lists: seq<seq<string>> := [];
      for i := 0 to |sample|
        invariant files.Keys == old(files.Keys)
        invariant forall k :: i <= k < |sample| ==> files[sample[k]] == old(files)[sample[k]]
        invariant lists == LoadAll(old(files), sample[..i], index)
        invariant files == AllHealed(old(files), sample[..i], index, now, fails)
      {
        assert sample[..i + 1][..i] == sample[..i];
        var paths := LoadAndHeal(sample[i], index, now, fails(i));
        lists := lists + [paths];
      }
      assert sample[..|sample|] == sample;
      def := UniteLists(lists);
    }
  }

  const SMALL_RESTORE_RATIO := 0.5

  lemma NothingMatched(sources: seq<(string, Target)>, files: Files, index: set<string>, now: int, fails: nat -> bool)
    ensures MatchedIds(sources[..0], files) == {} && MatchedNames(sources[..0], files) == []
    ensures LoadedLists(sources[..0], files, index, now, fails) == []
      && FilesAfter(sources[..0], files, index, now, fails) == files
  {
  }

  lemma MatchedStep(sources: seq<(string, Target)>, files: Files, index: set<string>, now: int, fails: nat -> bool,
                    i: nat)
    requires i < |sources|
    ensures var s, f := sources[i], FilesAfter(sources[..i], files, index, now, fails);
            && f.Keys == files.Keys
            && if Matches(s, files) then
              && MatchedIds(sources[..i + 1], files) == MatchedIds(sources[..i], files) + {s.1.id}
              && MatchedNames(sources[..i + 1], files) == MatchedNames(sources[..i], files) + [s.0]
              && LoadedLists(sources[..i + 1], files, index, now, fails) ==
                 LoadedLists(sources[..i], files, index, now, fails) + [Load(f[s.1.id].text, index)]
              && FilesAfter(sources[..i + 1], files, index, now, fails) ==
                   f[s.1.id := Healed(f[s.1.id], index, now, fails(i))]
            else
              && MatchedIds(sources[..i + 1], files) == MatchedIds(sources[..i], files)
              && MatchedNames(sources[..i + 1], files) == MatchedNames(sources[..i], files)
              && LoadedLists(sources[..i + 1], files, index, now, fails) ==
                   LoadedLists(sources[..i], files, index, now, fails)
              && FilesAfter(sources[..i + 1], files, index, now, fails) == f
  {
    hide Load, Healed;
    FilesAfterFrame(sources[..i], files, index, now, fails);
    assert sources[..i + 1][..i] == sources[..i];
    assert sources[..i + 1] == sources[..i] + [sources[i]];
  }

  lemma FilesAfterUnmatched(sources: seq<(string, Target)>, files: Files, index: set<string>, now: int,
                            fails: nat -> bool)
    ensures FilesAfter(sources, files, index, now, fails).Keys == files.Keys
    ensures forall id :: id in files && id !in MatchedIds(sources, files) ==>
              FilesAfter(sources, files, index, now, fails)[id] == files[id]
  {
    hide FilesAfter;
    FilesAfterFrame(sources, files, index, now, fails);
    forall id, k | id in files && Names(sources, k, id)
      ensures id in MatchedIds(sources, files)
    {
      assert sources[k] in sources && Matches(sources[k], files);
    }
  }

  lemma ReadIsDefault(files: Files, scope: string, exclude: set<ManifestId>, index: set<string>, now: int,
                      fails: nat -> bool)
    ensures forall def, after :: IsDefaultRead(files, scope, exclude, index, now, fails, def, after) ==>
              IsDefault(files, scope, exclude, index, def)
  {
    hide RanksBefore, LoadAll, Dedup, Concat, AllHealed;
  }

  /** A commit that is its own base, whose manifest takes two cleanings: the restore serves a path that
      the manifest never listed. */
  method RereadServesAnother(now: int) returns (r: Option<(seq<string>, seq<string>)>)
    ensures r == Some(([" ./ a", " a"], ["commit", "base"]))
  {
    var id := CommitManifest("default", "c");
    var index := {" ./ a", " a"};
    var req := Request("c", "", "", "c", "", 0, 0);
    var before: Files := map[id := ManifestFile(Body(["./ ./ a", "./ ./ a"]), 0)];
    hide Sources, LoadedLists, FilesAfter, MatchedNames, MatchedIds, IsDefault, IsDefaultRead, StoppedAtInvalid,
      ScopeDir, Resolution, Body;
    OwnBase(req);
    OwnBaseLoads(id, before, index, now);
    NothingElse(id, before, index);
    var dir := new ManifestDir(before);
    r := dir.RestorePaths(req, index, now, _ => false, _ => false);
  }

  lemma OwnBase(req: Request)
    requires req == Request("c", "", "", "c", "", 0, 0)
    ensures var id := CommitManifest("default", "c");
            Sources(req) == OwnBaseSources(id) && ScopeDir(req.buildType) == Some("default")
  {
    assert TrimLeft("c") == "c" && TrimRight("c") == "c" && TrimLeft("") == "" && TrimRight("") == "";
    assert ByteLen("c") == 1;
  }

  function OwnBaseSources(id: ManifestId): seq<(string, Target)> {
    [("commit", At(id)), ("parent", Blank), ("changes", Blank), ("base", At(id))]
  }

  lemma OwnBaseLoads(id: ManifestId, files: Files, index: set<string>, now: int)
    requires id in files && files[id].text == Body(["./ ./ a", "./ ./ a"]) && index == {" ./ a", " a"}
    ensures var sources := OwnBaseSources(id);
            && LoadedLists(sources, files, index, now, _ => false) == [[" ./ a"], [" a"]]
            && MatchedNames(sources, files) == ["commit", "base"] && MatchedIds(sources, files) == {id}
  {
    RewrittenCanLoadAnother();
    hide Load, Lines, Body;
    var sources, fails := OwnBaseSources(id), _ => false;
    NothingMatched(sources, files, index, now, fails);
    assert sources[..4] == sources;
    hide LoadedLists, FilesAfter, MatchedNames, MatchedIds;
    MatchedStep(sources, files, index, now, fails, 0);
    MatchedStep(sources, files, index, now, fails, 1);
    MatchedStep(sources, files, index, now, fails, 2);
    MatchedStep(sources, files, index, now, fails, 3);
  }

  lemma NothingElse(id: ManifestId, files: Files, index: set<string>)
    requires files.Keys == {id}
    ensures forall scope, def :: IsDefault(files, scope, {id}, index, def) ==> def == []
    ensures Resolution([[" ./ a"], [" a"]], ["commit", "base"], []) == ([" ./ a", " a"], ["commit", "base"])
  {
    forall scope, def | IsDefault(files, scope, {id}, index, def)
      ensures def == []
    {
      var candidates := InScope(files, scope, {id});
      assert candidates == {};
      var sample :| IsSample(files, candidates, sample) && def == Dedup(Concat(LoadAll(files, sample, index)));
      assert sample == [];
    }
    TwoLists([" ./ a"], [" a"]);
    DedupOfDistinct([" ./ a", " a"]);
    assert [" ./ a"] + [" a"] == [" ./ a", " a"];
  }

  lemma TwoLists(a: seq<string>, b: seq<string>)
    ensures Concat([a, b]) == a + b
  {
    var none: seq<seq<string>> := [];
    assert [a, b][..1] == [a] && [a][..0] == none;
    assert Concat(none) == [] && Concat([a]) == a && Concat([a, b]) == Concat([a]) + b;
  }

  /** The default sample looks only at manifests that no source matched, and those are untouched. */
  lemma DefaultUnaffected(a: Files, b: Files, scope: string, exclude: set<ManifestId>, index: set<string>)
    requires a.Keys == b.Keys && forall id :: id in a && id !in exclude ==> a[id] == b[id]
    ensures forall def :: IsDefault(a, scope, exclude, index, def) ==> IsDefault(b, scope, exclude, index, def)
  {
    hide RanksBefore, LoadAll, Dedup, Concat;
    var candidates := InScope(a, scope, exclude);
    assert candidates == InScope(b, scope, exclude);
    forall def | IsDefault(a, scope, exclude, index, def)
      ensures IsDefault(b, scope, exclude, index, def)
    {
      var sample :| IsSample(a, candidates, sample) && def == Dedup(Concat(LoadAll(a, sample, index)));
      SampleSame(a, b, candidates, sample);
      SampleFacts(a, candidates, sample);
      LoadAllSame(a, b, sample, index);
    }
  }

  lemma SampleSame(a: Files, b: Files, candidates: set<ManifestId>, sample: seq<ManifestId>)
    requires candidates <= a.Keys && candidates <= b.Keys && forall id :: id in candidates ==> a[id] == b[id]
    requires IsSample(a, candidates, sample)
    ensures IsSample(b, candidates, sample)
  {
    assert forall i :: 0 <= i < |sample| ==> sample[i] in candidates;
  }

  lemma {:induction false} LoadAllSame(a: Files, b: Files, ids: seq<ManifestId>, index: set<string>)
    requires forall id :: id in ids ==> id in a && id in b && a[id] == b[id]
    ensures LoadAll(a, ids, index) == LoadAll(b, ids, index)
  {
    if ids != [] {
      assert forall id :: id in ids[..|ids| - 1] ==> id in ids;
      LoadAllSame(a, b, ids[..|ids| - 1], index);
    }
  }

  lemma DefaultIsDistinct(files: Files, scope: string, exclude: set<ManifestId>, index: set<string>, def: seq<string>)
    requires IsDefault(files, scope, exclude, index, def)
    ensures NoDup(def)
  {
    hide RanksBefore, Dedup;
    var sample :| IsSample(files, InScope(files, scope, exclude), sample)
      && def == Dedup(Concat(LoadAll(files, sample, index)));
    DedupIsFirstSeenOrder(Concat(LoadAll(files, sample, index)));
  }

  lemma SampleFacts(files: Files, candidates: set<ManifestId>, sample: seq<ManifestId>)
    requires candidates <= files.Keys && IsSample(files, candidates, sample)
    ensures NoDup(sample) && forall id :: id in sample ==> id in files && id in candidates
  {
  }

  lemma SomeScope(req: Request)
    requires exists s :: s in Sources(req) && !s.1.Blank?
    requires forall s :: s in Sources(req) ==> !s.1.Invalid?
    ensures ScopeDir(req.buildType).Some?
  {
  }

  // ----- Selection within a budget -----

  /** A resolved path with what its index entry says. `stored` is what serving it costs. */
  datatype RestoreEntry = RestoreEntry(path: string, size: int, stored: int, modTimeMicro: int)

  predicate PathLess(a: string, b: string) {
    if a == "" || b == "" then a == "" && b != ""
    else a[0] < b[0] || (a[0] == b[0] && PathLess(a[1..], b[1..]))
  }

  /** Newest, then smallest, then path. */
  predicate ServedBefore(a: RestoreEntry, b: RestoreEntry) {
    if a.modTimeMicro != b.modTimeMicro then a.modTimeMicro > b.modTimeMicro
    else if a.size != b.size then a.size < b.size
    else PathLess(a.path, b.path)
  }

  lemma {:induction false} PathLessIsStrictTotal(a: string, b: string, c: string)
    ensures !PathLess(a, a)
    ensures PathLess(a, b) && PathLess(b, c) ==> PathLess(a, c)
    ensures PathLess(a, b) || a == b || PathLess(b, a)
  {
    if a != "" {
      PathLessIsStrictTotal(a[1..], if b == "" then "" else b[1..], if c == "" then "" else c[1..]);
      assert a == [a[0]] + a[1..];
      if b != "" {
        assert b == [b[0]] + b[1..];
      }
    }
  }

  lemma ServedBeforeIsStrictTotal(a: RestoreEntry, b: RestoreEntry, c: RestoreEntry)
    ensures !ServedBefore(a, a)
    ensures ServedBefore(a, b) && ServedBefore(b, c) ==> ServedBefore(a, c)
    ensures a.path != b.path ==> ServedBefore(a, b) || ServedBefore(b, a)
  {
    PathLessIsStrictTotal(a.path, b.path, c.path);
    PathLessIsStrictTotal(b.path, a.path, b.path);
  }

  function Insert(e: RestoreEntry, s: seq<RestoreEntry>): seq<RestoreEntry> {
    if s == [] || !ServedBefore(s[0], e) then [e] + s else [s[0]] + Insert(e, s[1..])
  }

  /** The stable sort. */
  function SortEntries(s: seq<RestoreEntry>): seq<RestoreEntry> {
    if s == [] then [] else Insert(s[0], SortEntries(s[1..]))
  }

  ghost predicate SortedEntries(s: seq<RestoreEntry>) {
    forall i, j :: 0 <= i < j < |s| ==> !ServedBefore(s[j], s[i])
  }

  lemma {:induction false} InsertFacts(e: RestoreEntry, s: seq<RestoreEntry>)
    requires SortedEntries(s)
    ensures SortedEntries(Insert(e, s)) && multiset(Insert(e, s)) == multiset(s) + multiset{e}
  {
    hide ServedBefore;
    if s != [] {
      assert s == [s[0]] + s[1..];
      if ServedBefore(s[0], e) {
        InsertFacts(e, s[1..]);
        var r := Insert(e, s[1..]);
        forall j | 0 <= j < |r|
          ensures !ServedBefore(r[j], s[0])
        {
          assert r[j] in multiset(r);
          ServedBeforeIsStrictTotal(s[0], e, s[0]);
          if r[j] != e {
            assert r[j] in s[1..];
          }
        }
      } else {
        forall j | 0 <= j < |s|
          ensures !ServedBefore(s[j], e)
        {
          NotBeforeComposes(s[j], s[0], e);
        }
      }
    }
  }

  lemma NotBeforeComposes(a: RestoreEntry, b: RestoreEntry, c: RestoreEntry)
    requires (a == b || !ServedBefore(a, b)) && !ServedBefore(b, c)
    ensures !ServedBefore(a, c)
  {
    PathLessIsStrictTotal(a.path, b.path, c.path);
    PathLessIsStrictTotal(b.path, c.path, a.path);
    PathLessIsStrictTotal(c.path, a.path, b.path);
    PathLessIsStrictTotal(a.path, c.path, b.path);
    PathLessIsStrictTotal(b.path, a.path, c.path);
  }

  lemma {:induction false} SortFacts(s: seq<RestoreEntry>)
    ensures SortedEntries(SortEntries(s)) && multiset(SortEntries(s)) == multiset(s)
  {
    if s != [] {
      assert s == [s[0]] + s[1..];
      SortFacts(s[1..]);
      InsertFacts(s[0], SortEntries(s[1..]));
    }
  }

  ghost predicate DistinctPaths(s: seq<RestoreEntry>) {
    forall a, b :: a in s && b in s && a.path == b.path ==> a == b
  }

  lemma HeadsAgree(a: seq<RestoreEntry>, b: seq<RestoreEntry>)
    requires SortedEntries(a) && SortedEntries(b) && a != [] && b != []
    requires a[0] in b && b[0] in a && DistinctPaths(a)
    ensures a[0] == b[0]
  {
    ServedBeforeIsStrictTotal(a[0], b[0], a[0]);
    var i :| 0 <= i < |b| && b[i] == a[0];
    var j :| 0 <= j < |a| && a[j] == b[0];
    assert i == 0 || !ServedBefore(b[i], b[0]);
    assert j == 0 || !ServedBefore(a[j], a[0]);
  }

  /** Two sorted lists of the same entries are the same list. */
  lemma {:induction false} SortedIsUnique(a: seq<RestoreEntry>, b: seq<RestoreEntry>)
    requires SortedEntries(a) && SortedEntries(b) && multiset(a) == multiset(b) && DistinctPaths(a)
    ensures a == b
  {
    hide SortedEntries, DistinctPaths;
    assert |multiset(a)| == |a| && |multiset(b)| == |b|;
    if a != [] {
      assert a[0] in multiset(b) && b[0] in multiset(a);
      HeadsAgree(a, b);
      SameTails(a, b);
      TailsStay(a);
      TailsStay(b);
      SortedIsUnique(a[1..], b[1..]);
      assert a == [a[0]] + a[1..] && b == [b[0]] + b[1..];
    }
  }

  lemma SameTails(a: seq<RestoreEntry>, b: seq<RestoreEntry>)
    requires a != [] && b != [] && a[0] == b[0] && multiset(a) == multiset(b)
    ensures multiset(a[1..]) == multiset(b[1..])
  {
    assert a == [a[0]] + a[1..] && b == [b[0]] + b[1..];
    assert multiset(a[1..]) == multiset(a) - multiset{a[0]};
    assert multiset(b[1..]) == multiset(b) - multiset{b[0]};
  }

  lemma TailsStay(a: seq<RestoreEntry>)
    requires a != []
    ensures SortedEntries(a) ==> SortedEntries(a[1..])
    ensures DistinctPaths(a) ==> DistinctPaths(a[1..])
  {
    assert forall x :: x in a[1..] ==> x in a;
  }

  function TotalStored(s: seq<RestoreEntry>): int {
    if s == [] then 0 else TotalStored(s[..|s| - 1]) + s[|s| - 1].stored
  }

  predicate FitsFileLimits(e: RestoreEntry, requestMax: int, storeMax: int) {
    (requestMax > 0 ==> e.size <= requestMax) && (storeMax > 0 ==> e.size <= storeMax)
  }

  function Filtered(s: seq<RestoreEntry>, requestMax: int, storeMax: int): (r: seq<RestoreEntry>)
    ensures forall e :: e in r <==> e in s && FitsFileLimits(e, requestMax, storeMax)
  {
    if s == [] then []
    else
      var front, last := s[..|s| - 1], s[|s| - 1];
      assert s == front + [last];
      var rest := Filtered(front, requestMax, storeMax);
      if FitsFileLimits(last, requestMax, storeMax) then rest + [last] else rest
  }

  /** `r` is the longest prefix of `s` whose total fits. */
  ghost predicate LongestFit(s: seq<RestoreEntry>, r: seq<RestoreEntry>, budget: int) {
    && r <= s && TotalStored(r) <= budget
    && forall n :: |r| < n <= |s| ==> TotalStored(s[..n]) > budget
  }

  lemma {:induction false} TotalGrows(s: seq<RestoreEntry>, m: nat, n: nat)
    requires m <= n <= |s| && forall e :: e in s ==> 0 <= e.stored
    ensures TotalStored(s[..m]) <= TotalStored(s[..n])
  {
    if m < n {
      assert s[..n][..n - 1] == s[..n - 1];
      assert s[n - 1] in s;
      TotalGrows(s, m, n - 1);
    }
  }

  /** What serving these costs. */
  ghost function Costs(s: seq<RestoreEntry>): map<nat, int> {
    map i: nat | i < |s| :: s[i].stored
  }

  lemma {:induction false} TotalStoredIs(s: seq<RestoreEntry>)
    ensures TotalStored(s) == Total(Costs(s))
  {
    if s == [] {
      assert Costs(s) == map[];
    } else {
      var front, last: nat := s[..|s| - 1], |s| - 1;
      TotalStoredIs(front);
      TotalInsert(Costs(front), last, s[last].stored);
      assert Costs(front) - {last} == Costs(front) && Costs(front)[last := s[last].stored] == Costs(s);
    }
  }

  /** The entry is within the limits on the size of a file, zero or less being none. */
  ghost predicate MayBeServed(e: RestoreEntry, requestMax: int, storeMax: int) {
    (requestMax <= 0 || e.size <= requestMax) && (storeMax <= 0 || e.size <= storeMax)
  }

  /** What is served fits the budget and comes newest first; nothing newer than what is served is left
      out, nor anything smaller of the same age; and the best of what is left out does not fit besides. */
  ghost predicate ServesNewest(entries: seq<RestoreEntry>, requestMax: int, storeMax: int, budget: int,
                               r: seq<RestoreEntry>)
  {
    && Total(Costs(r)) <= budget && (forall e :: e in r ==> e in entries && MayBeServed(e, requestMax, storeMax))
    && (forall i, j :: 0 <= i < j < |r| ==> NoOlder(r[i], r[j]))
    && (forall e, out :: e in r && out in entries && out !in r && MayBeServed(out, requestMax, storeMax) ==>
        NoOlder(e, out))
    && ((exists out :: out in entries && out !in r && MayBeServed(out, requestMax, storeMax)) ==>
          exists next :: next in entries && MayBeServed(next, requestMax, storeMax)
            && Total(Costs(r)) + next.stored > budget
            && forall out :: out in entries && out !in r && MayBeServed(out, requestMax, storeMax) ==>
                 NoOlder(next, out))
  }

  ghost predicate NoOlder(a: RestoreEntry, b: RestoreEntry) {
    && a.modTimeMicro >= b.modTimeMicro && (a.modTimeMicro == b.modTimeMicro ==> a.size <= b.size)
    && (a.modTimeMicro == b.modTimeMicro && a.size == b.size ==> a.path == b.path || ComesFirst(a.path, b.path))
  }

  /** In the order of their characters: what they differ in comes first in `a`, or is not there. */
  ghost predicate ComesFirst(a: string, b: string) {
    exists n: nat :: n <= |a| && n < |b| && a[..n] == b[..n] && (n == |a| || a[n] < b[n])
  }

  lemma {:induction false} PathLessIsOrder(a: string, b: string)
    requires !PathLess(b, a)
    ensures a == b || ComesFirst(a, b)
  {
    if a == "" {
      assert b != "" ==> a[..0] == b[..0];
    } else if b != "" && a[0] == b[0] {
      var x, y := a[1..], b[1..];
      PathLessIsOrder(x, y);
      assert a == [a[0]] + x && b == [b[0]] + y;
      if x != y {
        var n: nat :| n <= |x| && n < |y| && x[..n] == y[..n] && (n == |x| || x[n] < y[n]);
        assert a[..n + 1] == [a[0]] + x[..n] && b[..n + 1] == [b[0]] + y[..n];
      }
    } else if b != "" {
      assert a[..0] == b[..0];
    }
  }

  lemma SortedIsNewestFirst(s: seq<RestoreEntry>, r: seq<RestoreEntry>)
    requires SortedEntries(s) && r <= s
    ensures forall i, j :: 0 <= i < j < |r| ==> NoOlder(r[i], r[j])
    ensures forall e, out :: e in r && out in s && out !in r ==> NoOlder(e, out)
    ensures |r| < |s| ==> forall out :: out in s && out !in r ==> NoOlder(s[|r|], out)
  {
    hide PathLess, ComesFirst;
    forall i, j | 0 <= i <= j < |s|
      ensures NoOlder(s[i], s[j])
    {
      if i < j {
        assert !ServedBefore(s[j], s[i]);
        if s[i].modTimeMicro == s[j].modTimeMicro && s[i].size == s[j].size {
          PathLessIsOrder(s[i].path, s[j].path);
        }
      }
    }
    assert forall k :: 0 <= k < |r| ==> s[k] in r;
    forall out | out in s && out !in r
      ensures exists j :: |r| <= j < |s| && s[j] == out
    {
      var j :| 0 <= j < |s| && s[j] == out;
    }
    hide NoOlder, SortedEntries, ServedBefore;
  }

  /** The entries that may be served, as they come. */
  ghost predicate ServesAll(entries: seq<RestoreEntry>, requestMax: int, storeMax: int, r: seq<RestoreEntry>) {
    exists at: seq<nat> :: AreAt(r, entries, at) && AreAllowed(at, entries, requestMax, storeMax)
  }

  /** These are the entries at these positions, in order. */
  ghost predicate AreAt(r: seq<RestoreEntry>, entries: seq<RestoreEntry>, at: seq<nat>) {
    && |at| == |r| && (forall i, j :: 0 <= i < j < |at| ==> at[i] < at[j])
    && forall i :: 0 <= i < |at| ==> at[i] < |entries| && r[i] == entries[at[i]]
  }

  ghost predicate AreAllowed(at: seq<nat>, entries: seq<RestoreEntry>, requestMax: int, storeMax: int) {
    forall k: nat :: k < |entries| ==> (k in at <==> MayBeServed(entries[k], requestMax, storeMax))
  }

  lemma OneMoreAt(r: seq<RestoreEntry>, front: seq<RestoreEntry>, last: RestoreEntry, at: seq<nat>)
    requires AreAt(r, front, at)
    ensures AreAt(r, front + [last], at) && AreAt(r + [last], front + [last], at + [|front|])
  {
  }

  lemma OneMoreAllowed(r: seq<RestoreEntry>, at: seq<nat>, front: seq<RestoreEntry>, last: RestoreEntry,
                       requestMax: int, storeMax: int)
    requires AreAt(r, front, at) && AreAllowed(at, front, requestMax, storeMax)
    ensures var now := if MayBeServed(last, requestMax, storeMax) then at + [|front|] else at;
            AreAllowed(now, front + [last], requestMax, storeMax)
  {
    hide MayBeServed;
    var n: nat := |front|;
    assert forall k: nat :: k in at + [n] <==> k in at || k == n;
  }

  lemma {:induction false} FilteredServesAll(entries: seq<RestoreEntry>, requestMax: int, storeMax: int)
    ensures ServesAll(entries, requestMax, storeMax, Filtered(entries, requestMax, storeMax))
  {
    hide AreAt, AreAllowed;
    if entries == [] {
      NothingServed(requestMax, storeMax);
    } else {
      var front, last := entries[..|entries| - 1], entries[|entries| - 1];
      FilteredServesAll(front, requestMax, storeMax);
      FilteredOneMore(front, last, requestMax, storeMax, Filtered(front, requestMax, storeMax));
      assert entries == front + [last];
      hide ServesAll;
    }
  }

  lemma NothingServed(requestMax: int, storeMax: int)
    ensures ServesAll([], requestMax, storeMax, [])
  {
    assert AreAt([], [], []);
  }

  lemma FilteredOneMore(front: seq<RestoreEntry>, last: RestoreEntry, requestMax: int, storeMax: int,
                        r: seq<RestoreEntry>)
    requires ServesAll(front, requestMax, storeMax, r)
    ensures var now := if FitsFileLimits(last, requestMax, storeMax) then r + [last] else r;
            ServesAll(front + [last], requestMax, storeMax, now)
  {
    assert FitsFileLimits(last, requestMax, storeMax) <==> MayBeServed(last, requestMax, storeMax);
    hide AreAt, AreAllowed, FitsFileLimits, MayBeServed;
    var at :| AreAt(r, front, at) && AreAllowed(at, front, requestMax, storeMax);
    OneMoreAllowed(r, at, front, last, requestMax, storeMax);
    OneMoreAt(r, front, last, at);
  }

  lemma SortKeepsFiltered(entries: seq<RestoreEntry>, requestMax: int, storeMax: int)
    ensures SortedEntries(SortEntries(Filtered(entries, requestMax, storeMax)))
    ensures forall e :: e in SortEntries(Filtered(entries, requestMax, storeMax)) <==>
      e in entries && MayBeServed(e, requestMax, storeMax)
  {
    var filtered := Filtered(entries, requestMax, storeMax);
    assert forall e :: e in filtered <==> e in entries && MayBeServed(e, requestMax, storeMax);
    hide Filtered, SortEntries, SortedEntries, MayBeServed;
    SortFacts(filtered);
    assert forall e :: e in SortEntries(filtered) <==> e in multiset(SortEntries(filtered));
    assert forall e :: e in filtered <==> e in multiset(filtered);
  }

  lemma SelectionServesNewest(entries: seq<RestoreEntry>, requestMax: int, storeMax: int, budget: int,
                              r: seq<RestoreEntry>)
    requires LongestFit(SortEntries(Filtered(entries, requestMax, storeMax)), r, budget)
    ensures ServesNewest(entries, requestMax, storeMax, budget, r)
  {
    hide SortEntries, SortedEntries, Costs, NoOlder, MayBeServed, TotalStored, FitsFileLimits;
    var s := SortEntries(Filtered(entries, requestMax, storeMax));
    SortKeepsFiltered(entries, requestMax, storeMax);
    hide Filtered;
    TotalStoredIs(r);
    SortedIsNewestFirst(s, r);
    if |r| < |s| {
      NextDoesNotFit(s, r, budget);
      hide LongestFit;
      assert s[|r|] in s;
    } else {
      assert r == s;
    }
  }

  lemma NextDoesNotFit(s: seq<RestoreEntry>, r: seq<RestoreEntry>, budget: int)
    requires LongestFit(s, r, budget) && |r| < |s|
    ensures TotalStored(r) + s[|r|].stored > budget
  {
    assert s[..|r| + 1][..|r|] == r;
  }

  /** With a budget, serves the longest prefix of the filtered entries that fits, in serving order;
      without one, all of them as they come. */
  method SelectRestoreEntries(entries: seq<RestoreEntry>, requestMax: int, budget: int, storeMax: int)
    returns (r: seq<RestoreEntry>)
    requires forall e :: e in entries ==> 0 <= e.stored
    ensures budget <= 0 ==> r == Filtered(entries, requestMax, storeMax)
    ensures budget <= 0 ==> ServesAll(entries, requestMax, storeMax, r)
    ensures budget > 0 ==> ServesNewest(entries, requestMax, storeMax, budget, r)
    ensures budget > 0 ==> LongestFit(SortEntries(Filtered(entries, requestMax, storeMax)), r, budget)
  {
    r := Select(entries, requestMax, budget, storeMax);
    FilteredServesAll(entries, requestMax, storeMax);
    hide LongestFit, ServesNewest, ServesAll, SortEntries, Filtered;
    if budget > 0 {
      SelectionServesNewest(entries, requestMax, storeMax, budget, r);
    }
  }

  method Select(entries: seq<RestoreEntry>, requestMax: int, budget: int, storeMax: int)
    returns (r: seq<RestoreEntry>)
    requires forall e :: e in entries ==> 0 <= e.stored
    ensures budget <= 0 ==> r == Filtered(entries, requestMax, storeMax)
    ensures budget > 0 ==> LongestFit(SortEntries(Filtered(entries, requestMax, storeMax)), r, budget)
  {
    var filtered: seq<RestoreEntry> := [];
    for i := 0 to |entries|
      invariant filtered == Filtered(entries[..i], requestMax, storeMax)
    {
      assert entries[..i + 1][..i] == entries[..i];
      if requestMax > 0 && entries[i].size > requestMax {
        continue;
      }
      if storeMax > 0 && entries[i].size > storeMax {
        continue;
      }
      filtered := filtered + [entries[i]];
    }
    assert entries[..|entries|] == entries;
    if budget <= 0 || |filtered| < 2 {
      if |filtered| == 1 {
        assert SortEntries(filtered) == filtered by {
          assert filtered == [filtered[0]];
          assert SortEntries([]) == [];
        }
        assert TotalStored(filtered) == filtered[0].stored;
      }
      if budget > 0 && |filtered| == 1 && filtered[0].stored > budget {
        return [];
      }
      return filtered;
    }
    r := TakeWhileFits(SortEntries(filtered), budget) by {
      SortFacts(filtered);
      forall e | e in SortEntries(filtered)
        ensures 0 <= e.stored
      {
        assert e in multiset(filtered);
      }
    }
  }

  method TakeWhileFits(s: seq<RestoreEntry>, budget: int) returns (r: seq<RestoreEntry>)
    requires 0 < budget && forall e :: e in s ==> 0 <= e.stored
    ensures LongestFit(s, r, budget)
  {
    var total := 0;
    var limit := 0;
    while limit < |s|
      invariant limit <= |s| && total == TotalStored(s[..limit]) && total <= budget
    {
      assert s[..limit + 1][..limit] == s[..limit];
      if total + s[limit].stored > budget {
        forall n | limit < n <= |s|
          ensures TotalStored(s[..n]) > budget
        {
          TotalGrows(s, limit + 1, n);
        }
        break;
      }
      total := total + s[limit].stored;
      limit := limit + 1;
    }
    r := s[..limit];
  }

  /** With a positive budget the selection does not depend on the order of the input. */
  lemma SelectionIgnoresOrder(a: seq<RestoreEntry>, b: seq<RestoreEntry>, requestMax: int, storeMax: int, budget: int,
                              ra: seq<RestoreEntry>, rb: seq<RestoreEntry>)
    requires multiset(a) == multiset(b) && DistinctPaths(a)
    requires LongestFit(SortEntries(Filtered(a, requestMax, storeMax)), ra, budget)
    requires LongestFit(SortEntries(Filtered(b, requestMax, storeMax)), rb, budget)
    ensures ra == rb
  {
    hide Filtered, SortEntries, SortedEntries, LongestFit, FitsFileLimits, DistinctPaths;
    var fa, fb := Filtered(a, requestMax, storeMax), Filtered(b, requestMax, storeMax);
    FilteredCounts(a, requestMax, storeMax);
    FilteredCounts(b, requestMax, storeMax);
    assert multiset(fa) == multiset(fb);
    SortFacts(fa);
    SortFacts(fb);
    DistinctWithin(a, SortEntries(fa)) by {
      forall x | x in SortEntries(fa)
        ensures x in a
      {
        assert x in multiset(fa);
      }
    }
    SortedIsUnique(SortEntries(fa), SortEntries(fb));
    LongestFitIsUnique(SortEntries(fa), ra, rb, budget);
  }

  lemma DistinctWithin(a: seq<RestoreEntry>, b: seq<RestoreEntry>)
    requires DistinctPaths(a) && forall x :: x in b ==> x in a
    ensures DistinctPaths(b)
  {
  }

  lemma LongestFitIsUnique(s: seq<RestoreEntry>, a: seq<RestoreEntry>, b: seq<RestoreEntry>, budget: int)
    requires LongestFit(s, a, budget) && LongestFit(s, b, budget)
    ensures a == b
  {
    assert a == s[..|a|] && b == s[..|b|];
  }

  lemma {:induction false} FilteredCounts(s: seq<RestoreEntry>, requestMax: int, storeMax: int)
    ensures forall e :: multiset(Filtered(s, requestMax, storeMax))[e] ==
              if FitsFileLimits(e, requestMax, storeMax) then multiset(s)[e] else 0
  {
    if s != [] {
      FilteredCounts(s[..|s| - 1], requestMax, storeMax);
      assert s == s[..|s| - 1] + [s[|s| - 1]];
    }
  }
}
