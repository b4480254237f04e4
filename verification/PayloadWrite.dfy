/**
 * writePayloadWithRollback() of cmd/tool/main.go: six files on the ESP, an
 * ordered sequence of removals and writes, and a rollback. Any operation may
 * fail, with or without having taken effect, and the machine may crash
 * between any two of them: every state the ESP passes through is recorded.
 */
module PayloadWrite {
  import opened Bytes
  import opened Wrappers

  type Blob = seq<Byte>

  datatype Name = Kernel | Initrd | Cmdline | Metadata | Checksum | Blksum

  /** The ESP's files; None for one that is not there. */
  datatype Esp = Esp(kernel: Option<Blob>, initrd: Option<Blob>, cmdline: Option<Blob>, metadata: Option<Blob>,
                     checksum: Option<Blob>, blksum: Option<Blob>)

  /** In the order they are backed up. */
  const NAMES := [Kernel, Initrd, Cmdline, Metadata, Checksum, Blksum]

  lemma Distinct(j: nat, i: nat)
    requires j < i < |NAMES|
    ensures NAMES[j] != NAMES[i]
  {
  }

  function Get(e: Esp, n: Name): Option<Blob> {
    match n
    case Kernel => e.kernel
    case Initrd => e.initrd
    case Cmdline => e.cmdline
    case Metadata => e.metadata
    case Checksum => e.checksum
    case Blksum => e.blksum
  }

  function With(e: Esp, n: Name, data: Option<Blob>): Esp {
    match n
    case Kernel => e.(kernel := data)
    case Initrd => e.(initrd := data)
    case Cmdline => e.(cmdline := data)
    case Metadata => e.(metadata := data)
    case Checksum => e.(checksum := data)
    case Blksum => e.(blksum := data)
  }

  /** The generation being installed; without manifests on an architecture whose loader reads none. */
  datatype Generation = Generation(kernel: Blob, initrd: Blob, cmdline: Blob, metadata: Blob, sums: Option<(Blob, Blob)>)

  function Files(g: Generation): Esp {
    Esp(Some(g.kernel), Some(g.initrd), Some(g.cmdline), Some(g.metadata),
        if g.sums.Some? then Some(g.sums.value.0) else None, if g.sums.Some? then Some(g.sums.value.1) else None)
  }

  // ---- What can happen to one operation ----

  /** WriteFile can report a failure after its rename has taken effect. */
  datatype Effect = Done | Refused | DoneButFailed

  type Env = nat -> Effect

  /** The files now, the operations so far, and the state after each of them. */
  datatype World = World(files: Esp, t: nat, trace: seq<Esp>)

  datatype Step = Ok(w: World) | Err(w: World) {
    predicate IsFailure() { Err? }
    function PropagateFailure(): Step { this }
    function Extract(): World { w }
  }

  function Applied(env: Env, w: World, files: Esp): (s: Step)
    ensures s.w.trace == w.trace + [s.w.files] && s.w.t == w.t + 1
    ensures s.w.files == w.files || s.w.files == files
    ensures s.Ok? ==> s.w.files == files
  {
    match env(w.t)
    case Done => Ok(World(files, w.t + 1, w.trace + [files]))
    case Refused => Err(World(w.files, w.t + 1, w.trace + [w.files]))
    case DoneButFailed => Err(World(files, w.t + 1, w.trace + [files]))
  }

  /** Removing a file that is not there counts as success. */
  function Remove(env: Env, w: World, n: Name): Step {
    Applied(env, w, With(w.files, n, None))
  }

  function Put(env: Env, w: World, n: Name, data: Blob): Step {
    Applied(env, w, With(w.files, n, Some(data)))
  }

  /** Reads a file back and compares. */
  function Check(env: Env, w: World, n: Name, data: Blob): (s: Step)
    ensures s.w.files == w.files && s.w.trace == w.trace + [s.w.files] && s.w.t == w.t + 1
    ensures s.Ok? ==> Get(w.files, n) == Some(data)
  {
    var w' := World(w.files, w.t + 1, w.trace + [w.files]);
    if env(w.t).Done? && Get(w.files, n) == Some(data) then Ok(w') else Err(w')
  }

  /** A file as it was before: written back, or removed when there was none. */
  function Restore(env: Env, w: World, n: Name, prior: Option<Blob>): Step {
    match prior
    case None => Remove(env, w, n)
    case Some(data) => Put(env, w, n, data)
  }

  // ---- Forward ----

  function Clear(env: Env, w: World): Step {
    var w :- Remove(env, w, Checksum);
    Remove(env, w, Blksum)
  }

  function WritePayload(env: Env, w: World, g: Generation): Step {
    var w :- Put(env, w, Kernel, g.kernel);
    var w :- Put(env, w, Initrd, g.initrd);
    Put(env, w, Cmdline, g.cmdline)
  }

  function VerifyPayload(env: Env, w: World, g: Generation): Step {
    var w :- Check(env, w, Kernel, g.kernel);
    var w :- Check(env, w, Initrd, g.initrd);
    Check(env, w, Cmdline, g.cmdline)
  }

  function WriteManifests(env: Env, w: World, g: Generation): Step {
    match g.sums
    case None => Ok(w)
    case Some(s) =>
      var w :- Put(env, w, Blksum, s.1);
      var w :- Check(env, w, Blksum, s.1);
      var w :- Put(env, w, Checksum, s.0);
      Check(env, w, Checksum, s.0)
  }

  function Forward(env: Env, w: World, g: Generation): Step {
    var w :- Clear(env, w);
    var w :- WritePayload(env, w, g);
    var w :- VerifyPayload(env, w, g);
    var w :- Put(env, w, Metadata, g.metadata);
    WriteManifests(env, w, g)
  }

  // ---- Back ----

  /** The next step happens whether or not the last one failed, but a failure is remembered. */
  function And(first: Step, next: Step): Step {
    if first.Ok? then next else Err(next.w)
  }

  /** The six restores that are always attempted, manifests removed first. */
  function Undo(env: Env, w: World, prior: Esp): Step {
    var a := Remove(env, w, Checksum);
    UndoFiles(env, And(a, Remove(env, a.w, Blksum)), prior)
  }

  function UndoFiles(env: Env, s: Step, prior: Esp): Step {
    var a := And(s, Restore(env, s.w, Kernel, prior.kernel));
    var b := And(a, Restore(env, a.w, Initrd, prior.initrd));
    var c := And(b, Restore(env, b.w, Cmdline, prior.cmdline));
    And(c, Restore(env, c.w, Metadata, prior.metadata))
  }

  function RestoreIfAny(env: Env, w: World, n: Name, prior: Option<Blob>): Step {
    if prior.None? then Ok(w) else Put(env, w, n, prior.value)
  }

  /** BLKSUM before CHECKSUM, and only when everything else is back. */
  function Rollback(env: Env, w: World, prior: Esp): Step {
    var w :- Undo(env, w, prior);
    var w :- RestoreIfAny(env, w, Blksum, prior.blksum);
    RestoreIfAny(env, w, Checksum, prior.checksum)
  }

  datatype Result = Installed(w: World) | Untouched(w: World) | RolledBack(w: World) | HalfRolledBack(w: World)

  /** The six reads of the backup; any failure stops everything before the first write. */
  function BackupFails(env: Env, t: nat): bool {
    !env(t).Done? || !env(t + 1).Done? || !env(t + 2).Done? || !env(t + 3).Done? || !env(t + 4).Done? || !env(t + 5).Done?
  }

  function Install(env: Env, w: World, g: Option<Generation>): Result {
    if BackupFails(env, w.t) || g.None? then Untouched(w)
    else
      var s := Forward(env, w.(t := w.t + 6), g.value);
      if s.Ok? then Installed(s.w)
      else
        var r := Rollback(env, s.w, w.files);
        if r.Ok? then RolledBack(r.w) else HalfRolledBack(r.w)
  }

  // ---- Which runs succeed ----

  /** Operations from .. to - 1 all work. */
  ghost predicate AllDone(env: Env, from: nat, to: nat) {
    forall t :: from <= t < to ==> env(t).Done?
  }

  /** Of at most n operations from w on, the last one made is the first that did not work. */
  ghost predicate StoppedAt(env: Env, w: World, w': World, n: nat) {
    w.t < w'.t <= w.t + n && AllDone(env, w.t, w'.t - 1) && !env(w'.t - 1).Done?
  }

  lemma StoppedLater(env: Env, w: World, w1: World, w': World, m: nat, n: nat)
    ensures w.t <= w1.t && AllDone(env, w.t, w1.t) && StoppedAt(env, w1, w', m) && w1.t + m <= w.t + n ==> StoppedAt(env, w, w', n)
  {
  }

  lemma AllDoneJoin(env: Env, a: nat, b: nat, c: nat)
    requires a <= b <= c
    ensures AllDone(env, a, c) <==> AllDone(env, a, b) && AllDone(env, b, c)
  {
  }

  lemma ClearIff(env: Env, w: World)
    ensures var s := Clear(env, w);
      && (s.Ok? <==> AllDone(env, w.t, w.t + 2)) && (s.Err? ==> StoppedAt(env, w, s.w, 2))
      && (s.Ok? ==> s.w.t == w.t + 2 && s.w.files == NoManifest(w.files))
  {
    assert AllDone(env, w.t, w.t + 2) <==> env(w.t).Done? && env(w.t + 1).Done?;
  }

  lemma PayloadIff(env: Env, w: World, g: Generation)
    ensures var s := WritePayload(env, w, g);
      && (s.Ok? <==> AllDone(env, w.t, w.t + 3)) && (s.Err? ==> StoppedAt(env, w, s.w, 3))
      && (s.Ok? ==> s.w.t == w.t + 3 && s.w.files == w.files.(kernel := Some(g.kernel), initrd := Some(g.initrd), cmdline := Some(g.cmdline)))
  {
    assert AllDone(env, w.t, w.t + 3) <==> env(w.t).Done? && env(w.t + 1).Done? && env(w.t + 2).Done?;
  }

  lemma VerifyIff(env: Env, w: World, g: Generation)
    requires w.files.kernel == Some(g.kernel) && w.files.initrd == Some(g.initrd) && w.files.cmdline == Some(g.cmdline)
    ensures var s := VerifyPayload(env, w, g);
      && (s.Ok? <==> AllDone(env, w.t, w.t + 3)) && (s.Err? ==> StoppedAt(env, w, s.w, 3))
      && (s.Ok? ==> s.w.t == w.t + 3 && s.w.files == w.files)
  {
    assert AllDone(env, w.t, w.t + 3) <==> env(w.t).Done? && env(w.t + 1).Done? && env(w.t + 2).Done?;
  }

  lemma ManifestsIff(env: Env, w: World, g: Generation)
    ensures var s := WriteManifests(env, w, g);
      && (s.Ok? <==> AllDone(env, w.t, w.t + if g.sums.Some? then 4 else 0))
      && (s.Err? ==> g.sums.Some? && StoppedAt(env, w, s.w, 4))
  {
    if g.sums.Some? {
      assert AllDone(env, w.t, w.t + 4) <==>
        env(w.t).Done? && env(w.t + 1).Done? && env(w.t + 2).Done? && env(w.t + 3).Done?;
    }
  }

  /** The operations of the forward steps: nine, and four more for the manifests. */
  function Steps(g: Generation): nat {
    if g.sums.Some? then 13 else 9
  }

  lemma ForwardIff(env: Env, w: World, g: Generation)
    ensures var s := Forward(env, w, g);
      (s.Ok? <==> AllDone(env, w.t, w.t + Steps(g))) && (s.Err? ==> StoppedAt(env, w, s.w, Steps(g)))
  {
    hide Clear, WritePayload, VerifyPayload, WriteManifests, AllDone;
    var w' := Forward(env, w, g).w;
    AllDoneJoin(env, w.t, w.t + 2, w.t + Steps(g));
    AllDoneJoin(env, w.t + 2, w.t + 5, w.t + Steps(g));
    AllDoneJoin(env, w.t + 5, w.t + 8, w.t + Steps(g));
    AllDoneJoin(env, w.t + 8, w.t + 9, w.t + Steps(g));
    ClearIff(env, w);
    if Clear(env, w).Ok? {
      var w1 := Clear(env, w).w;
      PayloadIff(env, w1, g);
      StoppedLater(env, w, w1, w', 3, Steps(g));
      if WritePayload(env, w1, g).Ok? {
        var w2 := WritePayload(env, w1, g).w;
        VerifyIff(env, w2, g);
        AllDoneJoin(env, w.t, w1.t, w2.t);
        StoppedLater(env, w, w2, w', 3, Steps(g));
        if VerifyPayload(env, w2, g).Ok? {
          var w3 := VerifyPayload(env, w2, g).w;
          var s4 := Put(env, w3, Metadata, g.metadata);
          OneDone(env, w3.t);
          NoneDone(env, w3.t);
          ManifestsIff(env, s4.w, g);
          AllDoneJoin(env, w.t, w2.t, w3.t);
          AllDoneJoin(env, w.t, w3.t, s4.w.t);
          StoppedLater(env, w, w3, w', 1, Steps(g));
          StoppedLater(env, w, s4.w, w', 4, Steps(g));
        }
      }
    }
  }

  lemma OneDone(env: Env, t: nat)
    ensures AllDone(env, t, t + 1) <==> env(t).Done?
  {
  }

  /** The operations of a rollback: six, and one for each manifest there was. */
  function StepsBack(prior: Esp): nat {
    6 + (if prior.blksum.Some? then 1 else 0) + if prior.checksum.Some? then 1 else 0
  }

  lemma UndoIff(env: Env, w: World, prior: Esp)
    ensures var s := Undo(env, w, prior); s.w.t == w.t + 6 && (s.Ok? <==> AllDone(env, w.t, w.t + 6))
  {
    hide Restore, And;
    var a := OneBack(env, Ok(w), Checksum, None);
    var b := OneBack(env, a, Blksum, None);
    var c := OneBack(env, b, Kernel, prior.kernel);
    var d := OneBack(env, c, Initrd, prior.initrd);
    var e := OneBack(env, d, Cmdline, prior.cmdline);
    var f := OneBack(env, e, Metadata, prior.metadata);
    BackFirst(env, w, prior);
    assert AllDone(env, w.t, w.t + 6) <==>
      env(w.t).Done? && env(w.t + 1).Done? && env(w.t + 2).Done? && env(w.t + 3).Done? && env(w.t + 4).Done? && env(w.t + 5).Done?;
  }

  lemma BackFirst(env: Env, w: World, prior: Esp)
    ensures Undo(env, w, prior) ==
      UndoFiles(env, And(And(Ok(w), Restore(env, w, Checksum, None)), Restore(env, And(Ok(w), Restore(env, w, Checksum, None)).w, Blksum, None)), prior)
  {
    hide UndoFiles;
  }

  lemma RollbackIff(env: Env, w: World, prior: Esp)
    ensures Rollback(env, w, prior).Ok? <==> AllDone(env, w.t, w.t + StepsBack(prior))
  {
    hide Undo, AllDone;
    UndoIff(env, w, prior);
    AllDoneJoin(env, w.t, w.t + 6, w.t + StepsBack(prior));
    AllDoneJoin(env, w.t + 6, w.t + 7, w.t + 8);
    NoneDone(env, w.t + 6);
    OneDone(env, w.t + 6);
    OneDone(env, w.t + 7);
  }

  lemma NoneDone(env: Env, t: nat)
    ensures AllDone(env, t, t)
  {
  }

  /**
   * The outcome of every run: installed exactly when every operation works,
   * untouched exactly when a read of the backup fails, and otherwise rolled
   * back in full exactly when every operation of the rollback works.
   */
  lemma InstallIff(env: Env, e: Esp, g: Generation)
    ensures var r := Install(env, World(e, 0, []), Some(g));
      && (r.Installed? <==> AllDone(env, 0, 6 + Steps(g)))
      && (r.Untouched? <==> !AllDone(env, 0, 6))
      && (r.RolledBack? <==>
            && AllDone(env, 0, 6) && !AllDone(env, 6, 6 + Steps(g))
            && var s := Forward(env, World(e, 6, []), g);
            && StoppedAt(env, World(e, 6, []), s.w, Steps(g)) && AllDone(env, s.w.t, s.w.t + StepsBack(e)))
  {
    var w := World(e, 6, []);
    assert AllDone(env, 0, 6) <==> !BackupFails(env, 0);
    hide Forward, Rollback, BackupFails, AllDone;
    AllDoneJoin(env, 0, 6, 6 + Steps(g));
    ForwardIff(env, w, g);
    RollbackIff(env, Forward(env, w, g).w, e);
  }

  // ---- What a boot may find ----

  /** The manifest, the kernel and the initrd are those of g, and a block table, if any, is g's too. */
  ghost predicate Matches(e: Esp, g: Esp) {
    e.checksum == g.checksum && e.kernel == g.kernel && e.initrd == g.initrd && (e.blksum.Some? ==> e.blksum == g.blksum)
  }

  /** A CHECKSUM that is present belongs, with its files, to one generation. */
  ghost predicate Safe(e: Esp, prior: Esp, target: Esp) {
    e.checksum.Some? ==> Matches(e, prior) || Matches(e, target)
  }

  /** Every state from operation `from` on is safe. */
  ghost predicate AllSafe(trace: seq<Esp>, from: nat, prior: Esp, target: Esp) {
    forall i :: from <= i < |trace| ==> Safe(trace[i], prior, target)
  }

  // ---- Forward: no manifest until the new payload has been verified ----

  function NoManifest(e: Esp): Esp {
    e.(checksum := None, blksum := None)
  }

  /** What each phase of the write leaves behind: safe states so far, and only grown. */
  ghost predicate Grown(w: World, w': World, from: nat, prior: Esp, target: Esp) {
    from <= |w.trace| && w.trace <= w'.trace && AllSafe(w'.trace, from, prior, target)
  }

  lemma ClearSafe(env: Env, w: World, from: nat, target: Esp)
    requires from <= |w.trace| && AllSafe(w.trace, from, w.files, target)
    ensures var s := Clear(env, w);
            && Grown(w, s.w, from, w.files, target)
            && (s.Ok? ==> s.w.files == NoManifest(w.files))
            && (s.w.files.checksum.Some? ==> s.w.files == w.files)
  {
  }

  lemma PayloadSafe(env: Env, w: World, g: Generation, from: nat, prior: Esp, target: Esp)
    requires from <= |w.trace| && AllSafe(w.trace, from, prior, target) && w.files.checksum.None?
    ensures var s := WritePayload(env, w, g);
            && Grown(w, s.w, from, prior, target) && s.w.files.checksum.None?
            && (s.Ok? ==> s.w.files == w.files.(kernel := Some(g.kernel), initrd := Some(g.initrd), cmdline := Some(g.cmdline)))
  {
  }

  lemma VerifySafe(env: Env, w: World, g: Generation, from: nat, prior: Esp, target: Esp)
    requires from <= |w.trace| && AllSafe(w.trace, from, prior, target) && w.files.checksum.None?
    ensures var s := VerifyPayload(env, w, g); Grown(w, s.w, from, prior, target) && s.w.files == w.files
  {
  }

  lemma ManifestsSafe(env: Env, w: World, g: Generation, from: nat, prior: Esp)
    requires from <= |w.trace| && AllSafe(w.trace, from, prior, Files(g)) && w.files == NoManifest(Files(g))
    ensures var s := WriteManifests(env, w, g);
            && Grown(w, s.w, from, prior, Files(g))
            && (s.Ok? || s.w.files.checksum.Some? ==> s.w.files == Files(g))
  {
  }

  lemma ForwardSafe(env: Env, w: World, g: Generation, from: nat)
    requires from <= |w.trace| && AllSafe(w.trace, from, w.files, Files(g))
    ensures var s := Forward(env, w, g);
            && Grown(w, s.w, from, w.files, Files(g))
            && (s.Ok? ==> s.w.files == Files(g))
            && (s.w.files.checksum.Some? ==> s.w.files == w.files || s.w.files == Files(g))
  {
    var prior, target := w.files, Files(g);
    ClearSafe(env, w, from, target);
    var s1 := Clear(env, w);
    if s1.Ok? {
      PayloadSafe(env, s1.w, g, from, prior, target);
      var s2 := WritePayload(env, s1.w, g);
      if s2.Ok? {
        VerifySafe(env, s2.w, g, from, prior, target);
        var s3 := VerifyPayload(env, s2.w, g);
        if s3.Ok? {
          var s4 := Put(env, s3.w, Metadata, g.metadata);
          if s4.Ok? {
            assert s4.w.files == NoManifest(target);
            ManifestsSafe(env, s4.w, g, from, prior);
          }
        }
      }
    }
  }

  // ---- Back: no manifest until everything else is as it was ----

  /** One restore leaves the file as it was before, or as it is. */
  lemma OneBack(env: Env, s: Step, n: Name, data: Option<Blob>) returns (r: Step)
    ensures r == And(s, Restore(env, s.w, n, data)) && r.w.trace == s.w.trace + [r.w.files]
    ensures r.w.files == s.w.files || r.w.files == With(s.w.files, n, data)
    ensures r.Ok? ==> s.Ok? && r.w.files == With(s.w.files, n, data)
    ensures r.w.t == s.w.t + 1 && (r.Ok? <==> s.Ok? && env(s.w.t).Done?)
  {
    r := And(s, Restore(env, s.w, n, data));
  }

  /** The four payload files come back one by one, each in turn old or as it was. */
  lemma UndoFilesStates(env: Env, s: Step, prior: Esp) returns (a: Esp, b: Esp, c: Esp, d: Esp)
    ensures a == s.w.files || a == s.w.files.(kernel := prior.kernel)
    ensures b == a || b == a.(initrd := prior.initrd)
    ensures c == b || c == b.(cmdline := prior.cmdline)
    ensures d == c || d == c.(metadata := prior.metadata)
    ensures var r := UndoFiles(env, s, prior);
            && r.w.trace == s.w.trace + [a, b, c, d] && r.w.files == d
            && (r.Ok? ==> s.Ok? && d == prior.(checksum := s.w.files.checksum, blksum := s.w.files.blksum))
  {
    hide Restore, And;
    var s1 := OneBack(env, s, Kernel, prior.kernel);
    var s2 := OneBack(env, s1, Initrd, prior.initrd);
    var s3 := OneBack(env, s2, Cmdline, prior.cmdline);
    var s4 := OneBack(env, s3, Metadata, prior.metadata);
    a, b, c, d := s1.w.files, s2.w.files, s3.w.files, s4.w.files;
    assert s.w.trace + [a] + [b] + [c] + [d] == s.w.trace + [a, b, c, d];
    assert UndoFiles(env, s, prior) == s4;
  }

  /** Once there is no manifest, restoring the payload passes through safe states only. */
  lemma UndoWithoutManifest(env: Env, w: World, prior: Esp, from: nat, target: Esp)
    requires from <= |w.trace| && AllSafe(w.trace, from, prior, target)
    requires Remove(env, w, Checksum).w.files.checksum.None?
    ensures var s := Undo(env, w, prior);
            && Grown(w, s.w, from, prior, target) && s.w.files.checksum.None?
            && (s.Ok? ==> s.w.files == NoManifest(prior))
  {
    var a := Remove(env, w, Checksum);
    var b := And(a, Remove(env, a.w, Blksum));
    assert b.w.trace == w.trace + [a.w.files] + [b.w.files];
    hide Remove, UndoFiles;
    var e1, e2, e3, e4 := UndoFilesStates(env, b, prior);
  }

  /** A failure before anything changed: the old manifest stays beside the old files. */
  lemma UndoUntouched(env: Env, w: World, prior: Esp, from: nat, target: Esp)
    requires from <= |w.trace| && AllSafe(w.trace, from, prior, target) && w.files == prior
    requires Remove(env, w, Checksum).w.files.checksum.Some?
    ensures var s := Undo(env, w, prior); Grown(w, s.w, from, prior, target) && s.Err? && Safe(s.w.files, prior, target)
  {
    var a := Remove(env, w, Checksum);
    var b := And(a, Remove(env, a.w, Blksum));
    assert b.w.trace == w.trace + [a.w.files] + [b.w.files];
    hide Remove, UndoFiles;
    var e1, e2, e3, e4 := UndoFilesStates(env, b, prior);
  }

  lemma UndoKept(env: Env, w: World, prior: Esp)
    requires Remove(env, w, Checksum).w.files.checksum.Some?
    ensures var s := Undo(env, w, prior); s.Err? && w.trace <= s.w.trace
  {
    var a := Remove(env, w, Checksum);
    var b := And(a, Remove(env, a.w, Blksum));
    assert b.w.trace == w.trace + [a.w.files] + [b.w.files];
    hide UndoFiles;
    var e1, e2, e3, e4 := UndoFilesStates(env, b, prior);
  }

  /** The rollback starts with the new manifest in place and cannot remove it. */
  ghost predicate Stuck(env: Env, w: World, target: Esp) {
    w.files.checksum.Some? && w.files == target && Remove(env, w, Checksum).w.files.checksum.Some?
  }

  /** The ESP once the rollback has dealt with the manifests and the kernel. */
  function KernelBack(env: Env, w: World, prior: Esp): Esp {
    var a := Remove(env, w, Checksum);
    var b := And(a, Remove(env, a.w, Blksum));
    Restore(env, b.w, Kernel, prior.kernel).w.files
  }

  /** Then the states are safe exactly if the one after the kernel and the last one are. */
  lemma UndoStuck(env: Env, w: World, prior: Esp, from: nat, target: Esp)
    requires from <= |w.trace| && AllSafe(w.trace, from, prior, target) && Stuck(env, w, target)
    ensures var s := Undo(env, w, prior);
            && s.Err? && w.trace <= s.w.trace
            && (AllSafe(s.w.trace, from, prior, target) <==>
                  Safe(KernelBack(env, w, prior), prior, target) && Safe(s.w.files, prior, target))
  {
    var a := Remove(env, w, Checksum);
    var b := And(a, Remove(env, a.w, Blksum));
    assert b.w.trace == w.trace + [a.w.files] + [b.w.files];
    var s := Undo(env, w, prior);
    KernelFirst(env, b, prior);
    hide Remove, UndoFiles, Restore;
    var e1, e2, e3, e4 := UndoFilesStates(env, b, prior);
    assert s.w.trace == b.w.trace + [e1, e2, e3, e4];
    var n := |b.w.trace|;
    assert s.w.trace[n] == e1 && s.w.trace[n + 3] == e4;
    StuckStates(a.w.files, b.w.files, e1, e2, e3, e4, prior, target);
  }

  lemma KernelFirst(env: Env, s: Step, prior: Esp)
    ensures var r := UndoFiles(env, s, prior);
      |r.w.trace| > |s.w.trace| && r.w.trace[|s.w.trace|] == Restore(env, s.w, Kernel, prior.kernel).w.files
  {
    var e1, e2, e3, e4 := UndoFilesStates(env, s, prior);
  }

  /** The states between the kernel's and the last one add nothing. */
  lemma StuckStates(a: Esp, b: Esp, e1: Esp, e2: Esp, e3: Esp, e4: Esp, prior: Esp, target: Esp)
    requires a == target && (b == a || b == a.(blksum := None))
    requires e1 == b || e1 == b.(kernel := prior.kernel)
    requires e2 == e1 || e2 == e1.(initrd := prior.initrd)
    requires e3 == e2 || e3 == e2.(cmdline := prior.cmdline)
    requires e4 == e3 || e4 == e3.(metadata := prior.metadata)
    ensures Safe(a, prior, target) && Safe(b, prior, target)
    ensures Safe(e2, prior, target) == Safe(e3, prior, target) == Safe(e4, prior, target)
  {
  }

  /** The last two files go back in an order that keeps every state safe. */
  lemma RedoSafe(env: Env, w: World, prior: Esp, from: nat, target: Esp)
    requires from <= |w.trace| && AllSafe(w.trace, from, prior, target) && w.files == NoManifest(prior)
    ensures var b := RestoreIfAny(env, w, Blksum, prior.blksum);
            var s := if b.Ok? then RestoreIfAny(env, b.w, Checksum, prior.checksum) else b;
            && Grown(w, s.w, from, prior, target) && (s.Ok? ==> s.w.files == prior) && Safe(s.w.files, prior, target)
  {
  }

  lemma RollbackSafe(env: Env, w: World, prior: Esp, from: nat, target: Esp)
    requires from <= |w.trace| && AllSafe(w.trace, from, prior, target)
    requires w.files.checksum.Some? ==> w.files == prior || w.files == target
    ensures var r := Rollback(env, w, prior);
            && w.trace <= r.w.trace && (r.Ok? ==> r.w.files == prior)
            && (!Stuck(env, w, target) ==> AllSafe(r.w.trace, from, prior, target))
            && (Stuck(env, w, target) ==>
                  (AllSafe(r.w.trace, from, prior, target) <==>
                     Safe(KernelBack(env, w, prior), prior, target) && Safe(r.w.files, prior, target)))
  {
    hide Undo, RestoreIfAny, KernelBack;
    var gone := Remove(env, w, Checksum).w.files.checksum.None?;
    var u := Undo(env, w, prior);
    if gone {
      UndoWithoutManifest(env, w, prior, from, target);
      if u.Ok? {
        RedoSafe(env, u.w, prior, from, target);
      }
    } else {
      UndoKept(env, w, prior);
      if w.files == prior {
        UndoUntouched(env, w, prior, from, target);
      }
      if w.files == target {
        UndoStuck(env, w, prior, from, target);
      }
    }
  }

  // ---- The whole installation ----

  /** Every state of the ESP during the call. */
  ghost predicate CrashSafe(env: Env, e: Esp, g: Generation) {
    AllSafe(Install(env, World(e, 0, []), Some(g)).w.trace, 0, e, Files(g))
  }

  /** The rollback of this run starts with the new CHECKSUM in place and cannot remove it. */
  ghost predicate StuckRun(env: Env, e: Esp, g: Generation) {
    && !BackupFails(env, 0)
    && var s := Forward(env, World(e, 6, []), g);
       s.Err? && Stuck(env, s.w, Files(g))
  }

  /**
   * A nil return means six new files; an error with a full rollback, or
   * before the first write, six old ones. Whatever fails and wherever the
   * machine stops, a CHECKSUM present belongs with the files beside it -
   * unless the rollback cannot remove the new CHECKSUM; and when it cannot,
   * the run is safe exactly if it is so once the kernel is back and at its end.
   */
  lemma InstallSafe(env: Env, e: Esp, g: Generation)
    ensures var r := Install(env, World(e, 0, []), Some(g));
            && (r.Installed? ==> r.w.files == Files(g))
            && (r.Untouched? || r.RolledBack? ==> r.w.files == e)
    ensures !StuckRun(env, e, g) ==> CrashSafe(env, e, g)
    ensures StuckRun(env, e, g) ==>
      (CrashSafe(env, e, g) <==>
         && Safe(KernelBack(env, Forward(env, World(e, 6, []), g).w, e), e, Files(g))
         && Safe(Install(env, World(e, 0, []), Some(g)).w.files, e, Files(g)))
  {
    hide KernelBack;
    if !BackupFails(env, 0) {
      var w := World(e, 6, []);
      ForwardSafe(env, w, g, 0);
      var s := Forward(env, w, g);
      if s.Err? {
        RollbackSafe(env, s.w, e, 0, Files(g));
      }
    }
  }

  /**
   * The write of CHECKSUM takes effect and fails; the rollback's removal of it
   * is refused, and with `table` that of BLKSUM too; all else works.
   */
  function WorstCase(table: bool): Env {
    (t: nat) => if t == 17 then DoneButFailed else if t == 18 || (table && t == 19) then Refused else Done
  }

  lemma WorstForward(e: Esp, g: Generation, table: bool)
    requires g.sums.Some?
    ensures var s := Forward(WorstCase(table), World(e, 6, []), g); s.Err? && s.w.t == 18 && s.w.files == Files(g)
  {
    var env := WorstCase(table);
    var s1 := Clear(env, World(e, 6, []));
    assert s1.Ok? && s1.w.t == 8 && s1.w.files == NoManifest(e);
    var s2 := WritePayload(env, s1.w, g);
    assert s2.Ok? && s2.w.t == 11;
    var s3 := VerifyPayload(env, s2.w, g);
    assert s3.Ok? && s3.w.t == 14;
    var s4 := Put(env, s3.w, Metadata, g.metadata);
    assert s4.Ok? && s4.w.t == 15 && s4.w.files == NoManifest(Files(g));
  }

  /** Such a run leaves the new CHECKSUM beside the old files, and passes through the old kernel beside the new initrd. */
  lemma WorstCaseRun(e: Esp, g: Generation, table: bool)
    requires g.sums.Some?
    ensures var env := WorstCase(table);
            var r := Install(env, World(e, 0, []), Some(g));
            var blksum := if table then Files(g).blksum else None;
            && StuckRun(env, e, g)
            && r.HalfRolledBack? && r.w.files == e.(checksum := Files(g).checksum, blksum := blksum)
            && KernelBack(env, Forward(env, World(e, 6, []), g).w, e) == Files(g).(kernel := e.kernel, blksum := blksum)
  {
    hide Forward, UndoFiles;
    var env := WorstCase(table);
    WorstForward(e, g, table);
    var s := Forward(env, World(e, 6, []), g);
    var a := Remove(env, s.w, Checksum);
    var b := And(a, Remove(env, a.w, Blksum));
    assert b.Err? && b.w.t == 20 && b.w.files == Files(g).(blksum := if table then Files(g).blksum else None);
    AllBack(env, b, e);
  }

  lemma AllBack(env: Env, s: Step, prior: Esp)
    requires forall t {:trigger env(t)} :: t >= s.w.t ==> env(t) == Done
    ensures var r := UndoFiles(env, s, prior);
            r.w.files == prior.(checksum := s.w.files.checksum, blksum := s.w.files.blksum) && (r.Err? <==> s.Err?)
  {
  }

  /** The same kernel and initrd; or the same manifests, and one of the two files the same. */
  ghost predicate Harmless(e: Esp, target: Esp) {
    || (e.kernel == target.kernel && e.initrd == target.initrd)
    || (e.checksum == target.checksum && e.blksum == target.blksum && (e.kernel == target.kernel || e.initrd == target.initrd))
  }

  /**
   * No pattern of failures can leave a manifest beside files it does not
   * belong to exactly when there is no manifest to install, the kernel and
   * initrd are already in place, or the manifests are and one of the two is.
   */
  lemma AlwaysSafeIff(e: Esp, g: Generation)
    ensures (forall env: Env :: CrashSafe(env, e, g)) <==> g.sums.None? || Harmless(e, Files(g))
  {
    hide CrashSafe;
    if g.sums.None? || Harmless(e, Files(g)) {
      forall env: Env
        ensures CrashSafe(env, e, g)
      {
        HarmlessSafe(env, e, g);
      }
    } else {
      var table := e.checksum == Files(g).checksum && e.blksum != Files(g).blksum;
      HarmfulRun(e, g, table);
      assert !CrashSafe(WorstCase(table), e, g);
    }
  }

  lemma HarmfulRun(e: Esp, g: Generation, table: bool)
    requires g.sums.Some? && !Harmless(e, Files(g)) && table == (e.checksum == Files(g).checksum && e.blksum != Files(g).blksum)
    ensures !CrashSafe(WorstCase(table), e, g)
  {
    hide Install, Forward, KernelBack, StuckRun, CrashSafe, WorstCase;
    WorstCaseRun(e, g, table);
    InstallSafe(WorstCase(table), e, g);
  }

  lemma HarmlessSafe(env: Env, e: Esp, g: Generation)
    requires g.sums.None? || Harmless(e, Files(g))
    ensures CrashSafe(env, e, g)
  {
    InstallSafe(env, e, g);
    hide Forward, UndoFiles, CrashSafe;
    if StuckRun(env, e, g) {
      var s := Forward(env, World(e, 6, []), g);
      var a := Remove(env, s.w, Checksum);
      var b := And(a, Remove(env, a.w, Blksum));
      KernelFirst(env, b, e);
      var e1, e2, e3, e4 := UndoFilesStates(env, b, e);
      HarmlessStates(b.w.files, e1, e2, e3, e4, e, Files(g));
    }
  }

  lemma HarmlessStates(b: Esp, e1: Esp, e2: Esp, e3: Esp, e4: Esp, prior: Esp, target: Esp)
    requires Harmless(prior, target) && (b == target || b == target.(blksum := None))
    requires e1 == b || e1 == b.(kernel := prior.kernel)
    requires e2 == e1 || e2 == e1.(initrd := prior.initrd)
    requires e3 == e2 || e3 == e2.(cmdline := prior.cmdline)
    requires e4 == e3 || e4 == e3.(metadata := prior.metadata)
    ensures Safe(e1, prior, target) && Safe(e4, prior, target)
  {
  }

  /** Safe states are coherent for the loader whenever both generations are. */
  lemma SafeIsCoherent(e: Esp, prior: Esp, target: Esp, describes: (Blob, Option<Blob>, Option<Blob>) -> bool)
    requires Safe(e, prior, target)
    requires prior.checksum.Some? ==> describes(prior.checksum.value, prior.kernel, prior.initrd)
    requires target.checksum.Some? ==> describes(target.checksum.value, target.kernel, target.initrd)
    ensures e.checksum.Some? ==> describes(e.checksum.value, e.kernel, e.initrd)
  {
  }

  // ---- The tool itself ----

  class Installer {
    const env: Env
    var files: Esp
    var t: nat
    ghost var trace: seq<Esp>

    ghost function View(): World
      reads this
    {
      World(files, t, trace)
    }

    constructor (env: Env, files: Esp)
      ensures this.env == env && View() == World(files, 0, [])
    {
      this.env, this.files, t, trace := env, files, 0, [];
    }

    /** One file operation that would leave the ESP as `next`. */
    method Operate(next: Esp) returns (ok: bool)
      modifies this
      ensures View() == Applied(env, old(View()), next).w && ok == Applied(env, old(View()), next).Ok?
    {
      var effect := env(t);
      if !effect.Refused? {
        files := next;
      }
      t := t + 1;
      trace := trace + [files];
      ok := effect.Done?;
    }

    method VerifyFile(n: Name, data: Blob) returns (ok: bool)
      modifies this
      ensures View() == Check(env, old(View()), n, data).w && ok == Check(env, old(View()), n, data).Ok?
    {
      ok := env(t).Done? && Get(files, n) == Some(data);
      t := t + 1;
      trace := trace + [files];
    }

    /** The restore closure of rollbackPayload(). */
    method RestoreFile(n: Name, want: Option<Blob>) returns (ok: bool)
      modifies this
      ensures View() == Restore(env, old(View()), n, want).w && ok == Restore(env, old(View()), n, want).Ok?
    {
      ok := Operate(With(files, n, want));
    }

    method RollbackPayload(backup: Esp) returns (ok: bool)
      modifies this
      ensures View() == Rollback(env, old(View()), backup).w && ok == Rollback(env, old(View()), backup).Ok?
    {
      var good := RestoreFile(Checksum, None);
      ok := good;
      good := RestoreFile(Blksum, None);
      ok := ok && good;
      good := RestoreFile(Kernel, backup.kernel);
      ok := ok && good;
      good := RestoreFile(Initrd, backup.initrd);
      ok := ok && good;
      good := RestoreFile(Cmdline, backup.cmdline);
      ok := ok && good;
      good := RestoreFile(Metadata, backup.metadata);
      ok := ok && good;
      if ok && backup.blksum.Some? {
        ok := RestoreFile(Blksum, backup.blksum);
      }
      if ok && backup.checksum.Some? {
        ok := RestoreFile(Checksum, backup.checksum);
      }
    }

    /** Everything up to the first failure. */
    method WriteForward(g: Generation) returns (ok: bool)
      modifies this
      ensures View() == Forward(env, old(View()), g).w && ok == Forward(env, old(View()), g).Ok?
    {
      ok := Operate(With(files, Checksum, None));
      if !ok { return; }
      ok := Operate(With(files, Blksum, None));
      if !ok { return; }
      ok := Operate(With(files, Kernel, Some(g.kernel)));
      if !ok { return; }
      ok := Operate(With(files, Initrd, Some(g.initrd)));
      if !ok { return; }
      ok := Operate(With(files, Cmdline, Some(g.cmdline)));
      if !ok { return; }
      ok := VerifyFile(Kernel, g.kernel);
      if !ok { return; }
      ok := VerifyFile(Initrd, g.initrd);
      if !ok { return; }
      ok := VerifyFile(Cmdline, g.cmdline);
      if !ok { return; }
      ok := Operate(With(files, Metadata, Some(g.metadata)));
      if !ok { return; }
      if g.sums.Some? {
        ok := Operate(With(files, Blksum, Some(g.sums.value.1)));
        if !ok { return; }
        ok := VerifyFile(Blksum, g.sums.value.1);
        if !ok { return; }
        ok := Operate(With(files, Checksum, Some(g.sums.value.0)));
        if !ok { return; }
        ok := VerifyFile(Checksum, g.sums.value.0);
      }
    }

    /** backupPayload(): a file that is not there is remembered as such, a read that fails ends it. */
    method BackupPayload() returns (ok: bool, backup: Esp)
      ensures ok == !BackupFails(env, t)
      ensures ok ==> backup == files
    {
      var names := NAMES;
      backup := Esp(None, None, None, None, None, None);
      var i := 0;
      while i < 6
        invariant 0 <= i <= 6
        invariant forall j :: t <= j < t + i ==> env(j).Done?
        invariant forall j :: 0 <= j < i ==> Get(backup, names[j]) == Get(files, names[j])
      {
        if !env(t + i).Done? {
          return false, backup;
        }
        ghost var had := backup;
        backup := With(backup, names[i], Get(files, names[i]));
        forall j | 0 <= j <= i ensures Get(backup, names[j]) == if j == i then Get(files, names[i]) else Get(had, names[j]) {
          if j < i {
            Distinct(j, i);
          }
        }
        i := i + 1;
      }
      assert Get(backup, names[0]) == Get(files, names[0]) && Get(backup, names[1]) == Get(files, names[1]);
      assert Get(backup, names[2]) == Get(files, names[2]) && Get(backup, names[3]) == Get(files, names[3]);
      assert Get(backup, names[4]) == Get(files, names[4]) && Get(backup, names[5]) == Get(files, names[5]);
      ok := true;
    }

    /** `g` is None when the manifests cannot be generated. */
    method WritePayloadWithRollback(g: Option<Generation>) returns (ok: bool)
      modifies this
      ensures View() == Install(env, old(View()), g).w && ok == Install(env, old(View()), g).Installed?
    {
      hide Forward, Rollback, BackupFails;
      var ready, backup := BackupPayload();
      if !ready || g.None? {
        return false;
      }
      t := t + 6;
      ok := WriteForward(g.value);
      if !ok {
        var _ := RollbackPayload(backup);
      }
    }
  }
}
