/** Concurrent merges, self-healing restores, saves and evictions over shared manifest files,
    one mutex per manifest. Each step is what one thread does without being interleaved. */
module ManifestConcurrency {
  import opened Common
  import opened Manifest

  datatype Job = Merge(paths: seq<string>) | SelfHeal

  /** Where a thread is: the manifest it has locked, and what it has read so far. */
  datatype Phase =
    | Idle
    | Locked(file: string, job: Job)
    | HasText(file: string, job: Job, text: string)
    | HasPaths(file: string, job: Job, paths: seq<string>, changed: bool)
    | Finished(file: string)

  datatype State = State(
    index: set<string>,
    files: map<string, string>,
    locks: map<string, nat>,
    threads: map<nat, Phase>)

  datatype Step =
    | Lock(thread: nat, file: string, job: Job)
    | ReadFile(thread: nat)
    | FilterByIndex(thread: nat)
    | WriteFile(thread: nat)
    | WriteFails(thread: nat)
    | Unlock(thread: nat)
    | Save(path: string)
    | Evict(path: string)

  function PhaseOf(s: State, t: nat): Phase {
    if t in s.threads then s.threads[t] else Idle
  }

  function TextOf(s: State, file: string): string {
    if file in s.files then s.files[file] else ""
  }

  /** What a thread writes back: a merge always, a self-heal only when something was dropped. */
  function WriteBack(p: Phase): Option<string>
    requires p.HasPaths?
  {
    match p.job
    case Merge(paths) => Some(Body(Union(p.paths, paths)))
    case SelfHeal => if p.changed then Some(Body(p.paths)) else None
  }

  ghost predicate Enabled(s: State, step: Step) {
    match step
    case Lock(t, file, _) => PhaseOf(s, t).Idle? && file !in s.locks
    case ReadFile(t) => PhaseOf(s, t).Locked?
    case FilterByIndex(t) => PhaseOf(s, t).HasText?
    case WriteFile(t) => PhaseOf(s, t).HasPaths?
    case WriteFails(t) => PhaseOf(s, t).HasPaths?
    case Unlock(t) => PhaseOf(s, t).Finished?
    case Save(_) => true
    case Evict(_) => true
  }

  ghost function Apply(s: State, step: Step): State
    requires Enabled(s, step)
  {
    match step
    case Lock(t, file, job) =>
      s.(locks := s.locks[file := t], threads := s.threads[t := Locked(file, job)])
    case ReadFile(t) =>
      var p := PhaseOf(s, t);
      // A missing manifest is an empty one to a merge; a restore gives up on it.
      if p.file !in s.files && p.job.SelfHeal? then s.(threads := s.threads[t := Finished(p.file)])
      else s.(threads := s.threads[t := HasText(p.file, p.job, TextOf(s, p.file))])
    case FilterByIndex(t) =>
      var p := PhaseOf(s, t);
      var paths := Load(p.text, s.index);
      s.(threads := s.threads[t := HasPaths(p.file, p.job, paths, |paths| < |Lines(p.text)|)])
    case WriteFile(t) =>
      var p := PhaseOf(s, t);
      s.(files := if WriteBack(p).Some? then s.files[p.file := WriteBack(p).value] else s.files,
         threads := s.threads[t := Finished(p.file)])
    case WriteFails(t) =>
      s.(threads := s.threads[t := Finished(PhaseOf(s, t).file)])
    case Unlock(t) =>
      s.(locks := s.locks - {PhaseOf(s, t).file}, threads := s.threads[t := Idle])
    case Save(path) => s.(index := s.index + {path})
    case Evict(path) => s.(index := s.index - {path})
  }

  /** A thread inside a manifest's critical section holds its lock, and the text it read there is
      still what the file holds. */
  ghost predicate Inv(s: State) {
    forall t :: t in s.threads && !s.threads[t].Idle? ==>
      && s.threads[t].file in s.locks && s.locks[s.threads[t].file] == t
      && (s.threads[t].HasText? ==> s.threads[t].text == TextOf(s, s.threads[t].file))
  }

  /** The path is indexed and listed, and whoever is about to rewrite the manifest has seen it. */
  ghost predicate Safe(s: State, file: string, path: string) {
    && path in s.index
    && file in s.files && path in ReadPaths(s.files[file])
    && forall t :: t in s.threads && s.threads[t].HasPaths? && s.threads[t].file == file ==>
         path in s.threads[t].paths
  }

  lemma InvIsKept(s: State, step: Step)
    requires Inv(s) && Enabled(s, step)
    ensures Inv(Apply(s, step))
  {
  }

  lemma SafeIsKept(s: State, step: Step, file: string, path: string)
    requires Inv(s) && Enabled(s, step) && Listable(path) && Safe(s, file, path)
    requires path in Apply(s, step).index
    ensures Safe(Apply(s, step), file, path)
  {
    hide ReadPaths, Body, Union, Lines, Listable;
    if step.WriteFile? {
      var p := PhaseOf(s, step.thread);
      if p.file == file {
        match p.job
        case Merge(paths) => UnionLists(p.paths, paths, path);
        case SelfHeal => BodyLists(p.paths, path);
      }
    }
  }

  /** The step in which a merge of `path` into `file` is written. */
  ghost predicate WritesMergeOf(s: State, step: Step, file: string, path: string) {
    && step.WriteFile? && Enabled(s, step)
    && var p := PhaseOf(s, step.thread);
       p.file == file && p.job.Merge? && path in p.job.paths
  }

  lemma WrittenMergeIsSafe(s: State, step: Step, file: string, path: string)
    requires Inv(s) && WritesMergeOf(s, step, file, path) && Listable(path) && path in s.index
    ensures Safe(Apply(s, step), file, path)
  {
    var p := PhaseOf(s, step.thread);
    UnionLists(p.paths, p.job.paths, path);
  }

  // ----- Runs -----

  ghost predicate Initial(s: State) {
    s.locks == map[] && s.threads == map[]
  }

  /** `states[i]` takes `steps[i]` to `states[i + 1]`, from any index and any manifests on disk. */
  ghost predicate IsRun(states: seq<State>, steps: seq<Step>) {
    && |states| == |steps| + 1
    && Initial(states[0])
    && forall i :: 0 <= i < |steps| ==> Enabled(states[i], steps[i]) && states[i + 1] == Apply(states[i], steps[i])
  }

  lemma {:induction false} InvHolds(states: seq<State>, steps: seq<Step>, i: nat)
    requires IsRun(states, steps) && i < |states|
    ensures Inv(states[i])
  {
    if i > 0 {
      InvHolds(states, steps, i - 1);
      InvIsKept(states[i - 1], steps[i - 1]);
    }
  }

  lemma {:induction false} StaysSafe(states: seq<State>, steps: seq<Step>, i: nat, j: nat, file: string, path: string)
    requires IsRun(states, steps) && i < j < |states|
    requires WritesMergeOf(states[i], steps[i], file, path) && Listable(path)
    requires forall k :: i <= k <= j ==> path in states[k].index
    ensures Safe(states[j], file, path)
  {
    hide Apply, Enabled, Inv, Safe, Listable, ReadPaths;
    var k := j - 1;
    InvHolds(states, steps, k);
    assert Enabled(states[k], steps[k]) && states[k + 1] == Apply(states[k], steps[k]);
    if k == i {
      WrittenMergeIsSafe(states[i], steps[i], file, path);
    } else {
      StaysSafe(states, steps, i, k, file, path);
      SafeIsKept(states[k], steps[k], file, path);
    }
  }

  /** No lost update: a path whose merge into a manifest was written at step `i`, and which has
      stayed indexed from then to state `j`, is still listed in that manifest there. */
  lemma NoLostUpdate(states: seq<State>, steps: seq<Step>, i: nat, j: nat, file: string, path: string)
    requires IsRun(states, steps) && i < j < |states|
    requires WritesMergeOf(states[i], steps[i], file, path) && Listable(path)
    requires forall k :: i <= k <= j ==> path in states[k].index
    ensures file in states[j].files && path in ReadPaths(states[j].files[file])
  {
    StaysSafe(states, steps, i, j, file, path);
  }

  /** Two threads are never inside the same manifest's critical section. */
  lemma MutualExclusion(states: seq<State>, steps: seq<Step>, i: nat, t: nat, u: nat)
    requires IsRun(states, steps) && i < |states| && t != u
    requires !PhaseOf(states[i], t).Idle? && !PhaseOf(states[i], u).Idle?
    ensures PhaseOf(states[i], t).file != PhaseOf(states[i], u).file
  {
    InvHolds(states, steps, i);
  }
}
