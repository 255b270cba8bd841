/** The installer as a state machine over files and shell variables. Every command may fail, which
    ends the script except where the shell ignores it, and a trapped signal may arrive after every
    command; so what holds in each state of the history holds wherever the script stops. */
module Installer {
  import opened Text
  import FI = FirstInstall

  /** The file names of the script. Other is any name spelled differently from these and their copies. */
  datatype Name =
    | ConfigYaml
    | MonitorBinary
    | MonitorService
    | UpdateService
    | BinaryCopy
    | UnitCopy
    | Other(text: string)
    | New(of: Name, pid: nat)      // $destination_path.new.$$

  function Spelling(n: Name): string
  {
    match n
    case ConfigYaml => "config.yaml"
    case MonitorBinary => "zimaos-monitor"
    case MonitorService => "zimaos-monitor.service"
    case UpdateService => "zimaos-monitor-update.service"
    case BinaryCopy => "binary.backup"
    case UnitCopy => "unit.backup"
    case Other(text) => text
    case New(of, pid) => Spelling(of) + ".new." + Decimal(pid)
  }

  predicate Plain(n: Name) { !n.Other? && !n.New? }

  /** Names of the script and their staged copies are spelled apart, for all process IDs. */
  lemma SpelledApart(m: Name, n: Name)
    requires Plain(m) || (m.New? && Plain(m.of))
    requires Plain(n) || (n.New? && Plain(n.of))
    requires Spelling(m) == Spelling(n)
    ensures m == n
  {
    if Plain(m) && Plain(n) {
      PlainApart(m, n);
    } else if Plain(m) {
      CopyIsNotPlain(m, n.of, n.pid);
    } else if Plain(n) {
      CopyIsNotPlain(n, m.of, m.pid);
    } else {
      CopiesApart(m.of, m.pid, n.of, n.pid);
    }
  }

  lemma PlainApart(m: Name, n: Name)
    requires Plain(m) && Plain(n) && Spelling(m) == Spelling(n)
    ensures m == n
  {
    assert |Spelling(m)| == |Spelling(n)| && Spelling(m)[0] == Spelling(n)[0];
  }

  lemma CopyIsNotPlain(m: Name, of: Name, pid: nat)
    requires Plain(m)
    ensures Spelling(m) != Spelling(New(of, pid))
  {
    DecimalRoundTrip(pid);
    var copy := Spelling(New(of, pid));
    assert copy[|copy| - 1] == Decimal(pid)[|Decimal(pid)| - 1];
    assert !IsDigit(Spelling(m)[|Spelling(m)| - 1]);
  }

  lemma CopiesApart(a: Name, p: nat, b: Name, q: nat)
    requires Plain(a) && Plain(b) && Spelling(New(a, p)) == Spelling(New(b, q))
    ensures a == b && p == q
  {
    CopyEndsInPid(a, p);
    CopyEndsInPid(b, q);
    DecimalInjective(p, q);
    var copy := Spelling(New(a, p));
    var tail := ".new." + Decimal(p);
    assert Spelling(a) == copy[..|copy| - |tail|] && Spelling(b) == copy[..|copy| - |tail|];
    PlainApart(a, b);
  }

  lemma CopyEndsInPid(a: Name, p: nat)
    ensures var levels := Split(Spelling(New(a, p)), '.');
            levels[|levels| - 1] == Decimal(p)
  {
    DecimalRoundTrip(p);
    LastLevel(Spelling(a) + ".new", Decimal(p), '.');
    assert Spelling(a) + ".new." + Decimal(p) == (Spelling(a) + ".new") + ['.'] + Decimal(p);
  }

  /** A file of the installation, of the systemd directory, of the private work directory, or of the
      root directory. */
  datatype Path = Install(name: Name) | Systemd(name: Name) | Work(name: Name) | Root(name: Name)

  const CONFIG := Install(ConfigYaml)
  const BINARY := Install(MonitorBinary)
  const UNIT_FILE := Systemd(MonitorService)
  const LEGACY_UNIT := Systemd(UpdateService)
  const WORK_CONFIG := Work(ConfigYaml)
  const BINARY_BACKUP := Work(BinaryCopy)
  const UNIT_BACKUP := Work(UnitCopy)
  /** $WORK_DIR/config.yaml when WORK_DIR is empty. */
  const ROOT_CONFIG := Root(ConfigYaml)

  function Staged(p: Path, pid: nat): Path
  {
    p.(name := New(p.name, pid))
  }

  predicate IsStaged(p: Path, pid: nat)
  {
    p.name.New? && p.name.pid == pid
  }

  type Files = map<Path, Bytes>

  function Get(files: Files, p: Path): Option<Bytes>
  {
    if p in files then Some(files[p]) else None
  }

  /** At most p differs. */
  ghost predicate SameExcept(before: Files, after: Files, p: Path)
  {
    forall q | q != p :: Get(after, q) == Get(before, q)
  }

  /** What a stop of the script leaves for cleanup: the files, whether the directory WORK_DIR names
      exists, and CURRENT_STAGED. */
  datatype State = State(files: Files, workDir: bool, currentStaged: Option<Path>)

  datatype Release = Release(binary: Bytes, unitFile: Bytes)

  // ------------------------------------------------------------------ cleanup

  /** Every staged file of this process is the one CURRENT_STAGED names, and the work directory holds
      only names that cleanup removes. */
  ghost predicate Tidy(s: State, pid: nat)
  {
    && (forall p | p in s.files && IsStaged(p, pid) :: s.currentStaged == Some(p))
    && (forall p | p in s.files && p.Work? :: s.workDir && p in {WORK_CONFIG, BINARY_BACKUP, UNIT_BACKUP})
    && (s.currentStaged.Some? ==> IsStaged(s.currentStaged.value, pid) && !s.currentStaged.value.Work?)
  }

  /** The exit and signal handler when its removals succeed; rmdir removes only an empty directory. */
  function Cleanup(s: State): State
  {
    var files := if s.currentStaged.Some? then s.files - {s.currentStaged.value} else s.files;
    if s.workDir then
      var rest := files - {WORK_CONFIG, BINARY_BACKUP, UNIT_BACKUP};
      State(rest, exists p | p in rest :: p.Work?, s.currentStaged)
    else s.(files := files)
  }

  /** NO RESIDUE. From every tidy state, cleanup removes all staged and work files of the process and
      nothing else. */
  lemma CleanupLeavesNoResidue(s: State, pid: nat)
    requires Tidy(s, pid)
    ensures !Cleanup(s).workDir
    ensures forall p :: p in Cleanup(s).files <==> p in s.files && !p.Work? && !IsStaged(p, pid)
    ensures forall p | p in Cleanup(s).files :: Cleanup(s).files[p] == s.files[p]
  {}

  // ---------------------------------------------------------------- wholeness

  /** Binary and unit are each as before or as released, so absent only if absent before. */
  ghost predicate Whole(files: Files, initial: Files, release: Release)
  {
    && (Get(files, BINARY) == Get(initial, BINARY) || Get(files, BINARY) == Some(release.binary))
    && (Get(files, UNIT_FILE) == Get(initial, UNIT_FILE) || Get(files, UNIT_FILE) == Some(release.unitFile))
  }

  ghost predicate KeepsConfig(before: Files, after: Files)
  {
    CONFIG in before ==> Get(after, CONFIG) == Get(before, CONFIG)
  }

  ghost predicate Good(s: State, initial: Files, release: Release, pid: nat)
  {
    Tidy(s, pid) && Whole(s.files, initial, release)
  }

  /** A history in which every state is tidy and whole and no configuration changes or disappears. */
  ghost predicate GoodHistory(history: seq<State>, initial: Files, release: Release, pid: nat)
  {
    && (forall k | 0 <= k < |history| :: Good(history[k], initial, release, pid))
    && (forall k | 0 < k < |history| :: KeepsConfig(history[k - 1].files, history[k].files))
  }

  /** A configuration that exists in some state of a good history is the same in all later ones. */
  lemma {:induction false} ConfigurationNeverChanges(history: seq<State>, initial: Files, release: Release, pid: nat,
                                                     j: nat, k: nat)
    requires GoodHistory(history, initial, release, pid) && j <= k < |history|
    ensures KeepsConfig(history[j].files, history[k].files)
  {
    if j < k {
      ConfigurationNeverChanges(history, initial, release, pid, j, k - 1);
    }
  }

  /** No command since the first n has failed. */
  ghost predicate AllSince(commands: seq<bool>, n: nat)
  {
    forall i | n <= i < |commands| :: commands[i]
  }

  lemma AllSinceSplits(before: seq<bool>, after: seq<bool>, n: nat)
    requires before <= after && n <= |before|
    ensures AllSince(after, n) <==> AllSince(before, n) && AllSince(after, |before|)
  {
    if AllSince(after, n) {
      forall i | n <= i < |before| ensures before[i] {
        assert after[i];
      }
    }
  }

  datatype Call = DaemonReload | Enable | EnableNow | Disable | Restart | Stop | IsEnabled | IsActive

  type Calls = seq<(Call, bool)>

  /** The calls go through the list in order up to the first that fails; ok means that none did. */
  ghost predicate UpTo(list: seq<Call>, calls: Calls, ok: bool)
  {
    && 0 < |calls| <= |list| && (ok ==> |calls| == |list|)
    && forall i | 0 <= i < |calls| :: calls[i] == (list[i], i + 1 < |calls| || ok)
  }

  /** The calls reload and put the service back into its earlier state. */
  ghost predicate PutsBack(calls: Calls, wasEnabled: bool, wasActive: bool)
  {
    && |calls| == 3 && calls[0].0 == DaemonReload
    && (if wasEnabled then calls[1].0 == Enable else calls[1].0 == Disable)
    && (if wasActive then calls[2].0 == Restart else calls[2].0 == Stop)
  }

  /** The calls of an upgrade: two questions, then the activation up to the first failure; and if that
      fails, those that put the service back into the state that the questions found. */
  ghost predicate IsUpgrade(calls: Calls, ok: bool)
  {
    exists active, enabled, activation, back ::
      && calls == [(IsActive, active), (IsEnabled, enabled)] + activation + back
      && UpTo([DaemonReload, Enable, Restart, IsEnabled, IsActive], activation, ok)
      && if ok then back == [] else PutsBack(back, enabled, active)
  }

  /** How the setup dialogue ends: with an error, without a confirmation (declined, or out of input), or
      confirmed, after which the new file can be stored or not. */
  datatype Dialogue = Fails | Declines | Confirms(content: Bytes, stored: bool)

  /** The files after the dialogue, the candidate that the script finds, whether the script goes on, and
      whether this dialogue wrote the candidate. */
  datatype Prepared = Prepared(files: Files, candidate: Option<Bytes>, ok: bool, written: bool)

  /** The dialogue writes only a file that does not exist; not confirming is no failure, and the script
      then looks whether there is a file. */
  function PreparedBy(files: Files, path: Path, d: Dialogue): Prepared
  {
    match d
    case Fails => Prepared(files, Get(files, path), false, false)
    case Declines => Prepared(files, Get(files, path), true, false)
    case Confirms(content, stored) =>
      if path in files || !stored then Prepared(files, Get(files, path), false, false)
      else Prepared(files[path := content], Some(content), true, true)
  }

  /** A candidate that was there before is taken for this dialogue's although nobody confirmed it. */
  lemma UnconfirmedCandidate(content: Bytes)
    ensures var before := map[ROOT_CONFIG := content];
            PreparedBy(before, ROOT_CONFIG, Declines) == Prepared(before, Some(content), true, false)
  {}

  /** The script goes on with a candidate that this dialogue confirmed and wrote exactly when the path
      was free before. */
  lemma CandidateConfirmedExactly(files: Files, path: Path, d: Dialogue)
    requires PreparedBy(files, path, d).ok && PreparedBy(files, path, d).candidate.Some?
    ensures PreparedBy(files, path, d).written <==> path !in files
    ensures PreparedBy(files, path, d).written <==> d.Confirms?
    ensures PreparedBy(files, path, d).candidate == if d.Confirms? then Some(d.content) else Get(files, path)
  {}

  datatype Exit =
    | Completed
    | NotActive          // first installation: installed, but the service did not become active
    | RolledBack         // upgrade: activation failed and the previous assets were restored
    | Cancelled          // setup ended without a candidate configuration
    | Stopped            // a command failed, or the script gave up

  class Script {
    const pid: nat
    const release: Release
    ghost const initial: Files
    var files: Files
    var workDir: bool
    var currentStaged: Option<Path>
    /** CANDIDATE_CONFIG, once it is set. */
    var candidateConfig: Path
    var hadBin: bool
    var hadUnit: bool
    var wasActive: bool
    var wasEnabled: bool
    /** The systemctl calls made so far, each with its success. */
    var calls: Calls
    /** How the other commands that can end the script have ended. */
    var commands: seq<bool>
    ghost var history: seq<State>
    /** Other first installations, and how far each has come. */
    var rivals: map<nat, FI.Proc>
    /** How far the commit of this one has come in the model of concurrent first installations, the world
        in which it began, and the events since, its own and the others'. */
    ghost var claim: FI.Proc
    ghost var claimStart: FI.World
    ghost var claimTrace: seq<FI.Event>

    ghost function Now(): State
      reads `files, `workDir, `currentStaged
    {
      State(files, workDir, currentStaged)
    }

    ghost predicate Valid()
      reads `files, `workDir, `currentStaged, `history
    {
      history != [] && history[|history| - 1] == Now() && GoodHistory(history, initial, release, pid)
    }

    constructor (pid: nat, release: Release, files: Files)
      requires forall p | p in files :: !IsStaged(p, pid) && !p.Work?
      ensures Valid() && this.files == files && initial == files && this.pid == pid && this.release == release
      ensures !workDir && currentStaged == None && calls == [] && commands == [] && history == [Now()]
      ensures !hadBin && !hadUnit && !wasActive && !wasEnabled && rivals == map[]
    {
      this.pid, this.release, this.initial, this.files := pid, release, files, files;
      workDir, currentStaged, calls, commands, candidateConfig := false, None, [], [], WORK_CONFIG;
      hadBin, hadUnit, wasActive, wasEnabled := false, false, false, false;
      history, rivals := [State(files, false, None)], map[];
      claim, claimStart, claimTrace := FI.Proc([], FI.Begin, None, false), FI.World(None, map[]), [];
    }

    /** Records a state in which the script can be stopped. */
    ghost method Reach()
      requires history != [] && GoodHistory(history, initial, release, pid)
      requires Good(Now(), initial, release, pid)
      requires KeepsConfig(history[|history| - 1].files, files)
      modifies `history
      ensures Valid() && history == old(history) + [Now()]
    {
      history := history + [Now()];
    }

    // -------------------------------------------------------------- commands

    /** One command, which may fail. */
    method Command() returns (ok: bool)
      modifies `commands
      ensures commands == old(commands) + [ok] && commands[|commands| - 1] == ok
    {
      ok := *;
      commands := commands + [ok];
    }

    method SetStaged(staged: Option<Path>)
      requires Valid() && (staged.Some? ==> IsStaged(staged.value, pid) && !staged.value.Work?)
      requires forall p | p in files && IsStaged(p, pid) :: staged == Some(p)
      modifies `currentStaged, `history
      ensures Valid() && currentStaged == staged && old(history) <= history
    {
      currentStaged := staged;
      Reach();
    }

    /** rm -f */
    method Remove(p: Path) returns (ok: bool)
      requires Valid() && p != CONFIG
      requires (p == BINARY || p == UNIT_FILE) ==> p !in initial
      modifies `files, `history, `commands
      ensures Valid() && old(history) <= history && commands == old(commands) + [ok]
      ensures commands[|commands| - 1] == ok
      ensures files == if ok then old(files) - {p} else old(files)
    {
      ok := Command();
      if ok {
        files := files - {p};
      }
      Reach();
    }

    /** rm -f of the staged file */
    method RemoveStaged() returns (ok: bool)
      requires Valid() && currentStaged.Some?
      modifies `files, `history, `commands
      ensures Valid() && old(history) <= history && commands == old(commands) + [ok]
      ensures commands[|commands| - 1] == ok
      ensures files == if ok then old(files) - {currentStaged.value} else old(files)
    {
      ok := Remove(currentStaged.value);
    }

    /** install writes the staged file piecemeal and may stop at any point. */
    method WriteStaged(content: Bytes) returns (ok: bool)
      requires Valid() && currentStaged.Some?
      modifies `files, `history, `commands
      ensures Valid() && old(history) <= history && commands == old(commands) + [ok]
      ensures commands[|commands| - 1] == ok
      ensures SameExcept(old(files), files, currentStaged.value)
      ensures ok ==> files == old(files)[currentStaged.value := content]
    {
      var part: Bytes := *;
      PutStaged(part);
      ok := Command();
      if ok {
        PutStaged(content);
      }
    }

    method PutStaged(content: Bytes)
      requires Valid() && currentStaged.Some?
      modifies `files, `history
      ensures Valid() && old(history) <= history && files == old(files)[currentStaged.value := content]
    {
      files := files[currentStaged.value := content];
      Reach();
    }

    /** So do cp and the setup dialogue in the work directory. */
    method WriteWork(p: Path, content: Bytes) returns (ok: bool)
      requires Valid() && workDir && p in {WORK_CONFIG, BINARY_BACKUP, UNIT_BACKUP}
      modifies `files, `history, `commands
      ensures Valid() && old(history) <= history && commands == old(commands) + [ok]
      ensures commands[|commands| - 1] == ok
      ensures SameExcept(old(files), files, p)
      ensures ok ==> files == old(files)[p := content]
    {
      var part: Bytes := *;
      PutWork(p, part);
      ok := Command();
      if ok {
        PutWork(p, content);
      }
    }

    method PutWork(p: Path, content: Bytes)
      requires Valid() && workDir && p in {WORK_CONFIG, BINARY_BACKUP, UNIT_BACKUP}
      modifies `files, `history
      ensures Valid() && old(history) <= history && files == old(files)[p := content]
    {
      files := files[p := content];
      Reach();
    }

    /** mv -f of the staged file: one atomic rename. */
    method MoveStaged(dst: Path, content: Bytes) returns (ok: bool)
      requires Valid() && currentStaged == Some(Staged(dst, pid)) && Get(files, Staged(dst, pid)) == Some(content)
      requires Allowed(dst, content)
      modifies `files, `history, `commands
      ensures Valid() && old(history) <= history && commands == old(commands) + [ok]
      ensures commands[|commands| - 1] == ok
      ensures files == if ok then (old(files) - {Staged(dst, pid)})[dst := content] else old(files)
    {
      ok := Command();
      if ok {
        MovedIsGood(dst, content);
        files := (files - {Staged(dst, pid)})[dst := content];
      }
      Reach();
    }

    lemma MovedIsGood(dst: Path, content: Bytes)
      requires Valid() && currentStaged == Some(Staged(dst, pid)) && Allowed(dst, content)
      ensures var moved := (files - {Staged(dst, pid)})[dst := content];
              Good(Now().(files := moved), initial, release, pid) && KeepsConfig(files, moved)
    {
      assert Good(Now(), initial, release, pid);
    }

    /** The contents that stage_file may put on a path. */
    ghost predicate Allowed(dst: Path, content: Bytes)
    {
      || (dst == BINARY && (content == release.binary || Get(initial, BINARY) == Some(content)))
      || (dst == UNIT_FILE && (content == release.unitFile || Get(initial, UNIT_FILE) == Some(content)))
    }

    method StageFile(dst: Path, content: Bytes) returns (ok: bool)
      requires Valid() && currentStaged == None && Allowed(dst, content)
      modifies `files, `currentStaged, `history, `commands
      ensures Valid() && old(history) <= history
      ensures old(commands) <= commands && (ok <==> AllSince(commands, |old(commands)|))
      ensures ok ==> currentStaged == None && files == old(files)[dst := content]
    {
      BeginStaging(dst);
      ok := RemoveStaged();
      if !ok {
        return;
      }
      ok := WriteStaged(content);
      if !ok {
        return;
      }
      StagingEffect(old(files), Staged(dst, pid), dst, content);
      ok := MoveStaged(dst, content);
      if !ok {
        return;
      }
      EndStaging();
    }

    method BeginStaging(dst: Path)
      requires Valid() && currentStaged == None && !dst.Work?
      modifies `currentStaged, `history
      ensures Valid() && old(history) <= history
      ensures currentStaged == Some(Staged(dst, pid)) && Staged(dst, pid) !in files && Staged(dst, pid) != dst
    {
      NoStagedFile();
      SetStaged(Some(Staged(dst, pid)));
    }

    method EndStaging()
      requires Valid() && currentStaged.Some? && currentStaged.value !in files
      modifies `currentStaged, `history
      ensures Valid() && old(history) <= history && currentStaged == None
    {
      assert Tidy(Now(), pid);
      SetStaged(None);
    }

    static lemma StagingEffect(before: Files, staged: Path, dst: Path, content: Bytes)
      requires staged !in before && staged != dst
      ensures ((before - {staged})[staged := content] - {staged})[dst := content] == before[dst := content]
    {}

    lemma NoStagedFile()
      requires Valid() && currentStaged == None
      ensures forall p | p in files :: !IsStaged(p, pid)
    {
      assert Tidy(Now(), pid);
    }

    method RunSystemctl(call: Call) returns (ok: bool)
      modifies `calls
      ensures calls == old(calls) + [(call, ok)]
    {
      ok := *;
      calls := calls + [(call, ok)];
    }

    // --------------------------------------------------------------- upgrade

    /** mktemp and the assignment of WORK_DIR count as one step. */
    method CreateWorkDir() returns (ok: bool)
      requires Valid() && !workDir
      modifies `workDir, `history, `commands
      ensures Valid() && old(history) <= history && (ok ==> workDir) && commands == old(commands) + [ok]
      ensures commands[|commands| - 1] == ok
    {
      var made: bool := *;
      ok := Command();
      workDir := made || ok;
      Reach();
    }

    method BackupAsset(p: Path, backup: Path) returns (had: bool, ok: bool)
      requires Valid() && workDir && p != backup && backup in {BINARY_BACKUP, UNIT_BACKUP}
      modifies `files, `history, `commands
      ensures Valid() && old(history) <= history
      ensures old(commands) <= commands && (ok <==> AllSince(commands, |old(commands)|))
      ensures had <==> p in old(files)
      ensures ok ==> files == if had then old(files)[backup := old(files)[p]] else old(files)
    {
      had, ok := p in files, true;
      if had {
        ok := WriteWork(backup, files[p]);
      }
    }

    /** The backups and flags describe the assets found at the start. */
    ghost predicate BackedUp()
      reads `files, `workDir, `hadBin, `hadUnit
    {
      && workDir && (hadBin <==> BINARY in initial) && (hadUnit <==> UNIT_FILE in initial)
      && (hadBin ==> Get(files, BINARY_BACKUP) == Get(initial, BINARY))
      && (hadUnit ==> Get(files, UNIT_BACKUP) == Get(initial, UNIT_FILE))
    }

    method BackupFiles() returns (ok: bool)
      requires Valid() && !workDir && currentStaged == None && files == initial
      modifies `files, `history, `workDir, `hadBin, `hadUnit, `commands
      ensures Valid() && old(history) <= history
      ensures old(commands) <= commands && (ok <==> AllSince(commands, |old(commands)|))
      ensures ok ==> BackedUp()
    {
      ok := CreateWorkDir();
      if !ok {
        return;
      }
      hadBin, ok := BackupAsset(BINARY, BINARY_BACKUP);
      if !ok {
        return;
      }
      hadUnit, ok := BackupAsset(UNIT_FILE, UNIT_BACKUP);
    }

    method BackupUpgradeAssets() returns (ok: bool)
      requires Valid() && !workDir && currentStaged == None && files == initial
      modifies `files, `history, `workDir, `hadBin, `hadUnit, `wasActive, `wasEnabled, `calls, `commands
      ensures Valid() && old(history) <= history && currentStaged == None
      ensures old(commands) <= commands && (ok <==> AllSince(commands, |old(commands)|))
      ensures ok ==> BackedUp()
      ensures calls == old(calls) + if ok then [(IsActive, wasActive), (IsEnabled, wasEnabled)] else []
    {
      ok := BackupFiles();
      if !ok {
        return;
      }
      wasActive := RunSystemctl(IsActive);
      wasEnabled := RunSystemctl(IsEnabled);
    }

    method StageReleaseAssets() returns (ok: bool)
      requires Valid() && currentStaged == None
      modifies `files, `currentStaged, `history, `commands
      ensures Valid() && old(history) <= history
      ensures old(commands) <= commands && (ok <==> AllSince(commands, |old(commands)|))
      ensures ok ==> currentStaged == None
      ensures ok ==> files == old(files)[BINARY := release.binary][UNIT_FILE := release.unitFile] - {LEGACY_UNIT}
    {
      ok := Command();   // install -d
      if !ok {
        return;
      }
      ok := StageFile(BINARY, release.binary);
      if !ok {
        return;
      }
      ok := StageFile(UNIT_FILE, release.unitFile);
      if !ok {
        return;
      }
      ok := Remove(LEGACY_UNIT);
    }

    method RestoreAsset(had: bool, backup: Path, dst: Path) returns (ok: bool)
      requires Valid() && currentStaged == None && (dst == BINARY || dst == UNIT_FILE)
      requires if had then backup in files && Get(initial, dst) == Some(files[backup]) else dst !in initial
      modifies `files, `currentStaged, `history, `commands
      ensures Valid() && old(history) <= history
      ensures old(commands) <= commands && (ok <==> AllSince(commands, |old(commands)|))
      ensures ok ==> currentStaged == None && Get(files, dst) == Get(initial, dst) && SameExcept(old(files), files, dst)
    {
      if had {
        ok := StageFile(dst, files[backup]);
      } else {
        ok := Remove(dst);
      }
    }

    method RestoreAssets() returns (ok: bool)
      requires Valid() && currentStaged == None && BackedUp()
      modifies `files, `currentStaged, `history, `commands
      ensures Valid() && old(history) <= history
      ensures old(commands) <= commands && (ok <==> AllSince(commands, |old(commands)|))
      ensures ok ==> currentStaged == None
      ensures ok ==> Get(files, BINARY) == Get(initial, BINARY) && Get(files, UNIT_FILE) == Get(initial, UNIT_FILE)
    {
      ok := RestoreAsset(hadBin, BINARY_BACKUP, BINARY);
      if ok {
        ok := RestoreAsset(hadUnit, UNIT_BACKUP, UNIT_FILE);
      }
    }

    /** Restores the assets, then reloads and puts the service back into its earlier state, whatever
        systemctl answers. */
    method RollbackUpgrade() returns (ok: bool, ghost asked: Calls)
      requires Valid() && currentStaged == None && BackedUp()
      modifies `files, `currentStaged, `history, `calls, `commands
      ensures Valid() && old(history) <= history
      ensures old(commands) <= commands && (ok <==> AllSince(commands, |old(commands)|))
      ensures ok ==> currentStaged == None
      ensures ok ==> Get(files, BINARY) == Get(initial, BINARY) && Get(files, UNIT_FILE) == Get(initial, UNIT_FILE)
      ensures calls == old(calls) + asked
      ensures if ok then PutsBack(asked, wasEnabled, wasActive) else asked == []
    {
      asked := [];
      ok := RestoreAssets();
      if ok {
        asked := RestoreService();
      }
    }

    method RestoreService() returns (ghost asked: Calls)
      modifies `calls
      ensures calls == old(calls) + asked && PutsBack(asked, wasEnabled, wasActive)
    {
      var a := RunSystemctl(DaemonReload);
      var b := RunSystemctl(if wasEnabled then Enable else Disable);
      var c := RunSystemctl(if wasActive then Restart else Stop);
      asked := [(DaemonReload, a), (if wasEnabled then Enable else Disable, b),
                (if wasActive then Restart else Stop, c)];
    }

    method VerifyService() returns (ok: bool, ghost asked: Calls)
      modifies `calls
      ensures calls == old(calls) + asked && UpTo([IsEnabled, IsActive], asked, ok)
    {
      ok := RunSystemctl(IsEnabled);
      asked := [(IsEnabled, ok)];
      if ok {
        ok := RunSystemctl(IsActive);
        asked := asked + [(IsActive, ok)];
      }
    }

    method ActivateUpgrade() returns (ok: bool, ghost asked: Calls)
      modifies `calls
      ensures calls == old(calls) + asked && UpTo([DaemonReload, Enable, Restart, IsEnabled, IsActive], asked, ok)
    {
      ok := RunSystemctl(DaemonReload);
      asked := [(DaemonReload, ok)];
      if !ok {
        return;
      }
      ok := RunSystemctl(Enable);
      asked := asked + [(Enable, ok)];
      if !ok {
        return;
      }
      ok := RunSystemctl(Restart);
      asked := asked + [(Restart, ok)];
      if !ok {
        return;
      }
      ghost var last;
      ok, last := VerifyService();
      asked := asked + last;
    }

    /** Upgrade over an existing configuration. Whatever fails and wherever it stops, the history is
        good. It stops early exactly when a command fails; otherwise it is complete, with both new assets,
        exactly when every step of the activation succeeds, and else rolled back to both earlier ones. */
    method InstallUpgrade() returns (exit: Exit, ghost asked: Calls)
      requires Valid() && !workDir && currentStaged == None && files == initial && CONFIG in initial
      modifies `files, `currentStaged, `workDir, `history, `calls, `commands, `hadBin, `hadUnit, `wasActive, `wasEnabled
      ensures Valid() && old(history) <= history
      ensures exit in {Completed, RolledBack, Stopped}
      ensures Get(files, CONFIG) == Get(initial, CONFIG)
      ensures calls == old(calls) + asked && old(commands) <= commands
      ensures exit == Stopped <==> !AllSince(commands, |old(commands)|)
      ensures exit != Stopped ==> IsUpgrade(asked, exit == Completed)
      ensures exit == Completed ==>
                Get(files, BINARY) == Some(release.binary) && Get(files, UNIT_FILE) == Some(release.unitFile)
      ensures exit == RolledBack ==>
                Get(files, BINARY) == Get(initial, BINARY) && Get(files, UNIT_FILE) == Get(initial, UNIT_FILE)
    {
      ghost var h := |history| - 1;
      exit, asked := UpgradeSteps();
      ConfigurationNeverChanges(history, initial, release, pid, h, |history| - 1);
    }

    /** Backup, staging and chmod 600 of the configuration. */
    method ReplaceAssets() returns (ok: bool, ghost asked: Calls)
      requires Valid() && !workDir && currentStaged == None && files == initial
      modifies `files, `currentStaged, `workDir, `history, `calls, `commands, `hadBin, `hadUnit, `wasActive, `wasEnabled
      ensures Valid() && old(history) <= history
      ensures old(commands) <= commands && (ok <==> AllSince(commands, |old(commands)|))
      ensures calls == old(calls) + asked && (ok ==> asked == [(IsActive, wasActive), (IsEnabled, wasEnabled)])
      ensures ok ==> currentStaged == None && BackedUp()
      ensures ok ==> Get(files, BINARY) == Some(release.binary) && Get(files, UNIT_FILE) == Some(release.unitFile)
    {
      ok := BackupUpgradeAssets();
      asked := if ok then [(IsActive, wasActive), (IsEnabled, wasEnabled)] else [];
      if !ok {
        return;
      }
      ghost var before, begun := files, commands;
      ok := StageReleaseAssets();
      if !ok {
        return;
      }
      assert Get(files, BINARY_BACKUP) == Get(before, BINARY_BACKUP);
      assert Get(files, UNIT_BACKUP) == Get(before, UNIT_BACKUP);
      AllSinceSplits(begun, commands, |old(commands)|);
      ok := Command();   // chmod
    }

    method UpgradeSteps() returns (exit: Exit, ghost asked: Calls)
      requires Valid() && !workDir && currentStaged == None && files == initial
      modifies `files, `currentStaged, `workDir, `history, `calls, `commands, `hadBin, `hadUnit, `wasActive, `wasEnabled
      ensures Valid() && old(history) <= history
      ensures exit in {Completed, RolledBack, Stopped}
      ensures calls == old(calls) + asked && old(commands) <= commands
      ensures exit == Stopped <==> !AllSince(commands, |old(commands)|)
      ensures exit != Stopped ==> IsUpgrade(asked, exit == Completed)
      ensures exit == Completed ==>
                Get(files, BINARY) == Some(release.binary) && Get(files, UNIT_FILE) == Some(release.unitFile)
      ensures exit == RolledBack ==>
                Get(files, BINARY) == Get(initial, BINARY) && Get(files, UNIT_FILE) == Get(initial, UNIT_FILE)
    {
      var ok;
      ok, asked := ReplaceAssets();
      if !ok {
        return Stopped, asked;
      }
      ghost var replaced, questions, more := commands, asked, [];
      exit, more := ActivateOrRollBack();
      AllSinceSplits(replaced, commands, |old(commands)|);
      CallsAppended(old(calls), questions, more);
      asked := questions + more;
      if exit != Stopped {
        UpgradeCalls(questions, more, wasActive, wasEnabled, exit == Completed);
      }
    }

    static lemma CallsAppended(before: Calls, a: Calls, b: Calls)
      ensures before + a + b == before + (a + b)
    {}

    static lemma UpgradeCalls(questions: Calls, more: Calls, active: bool, enabled: bool, ok: bool)
      requires questions == [(IsActive, active), (IsEnabled, enabled)] && Activates(more, enabled, active, ok)
      ensures IsUpgrade(questions + more, ok)
    {
      var activation, back :| more == activation + back
                              && UpTo([DaemonReload, Enable, Restart, IsEnabled, IsActive], activation, ok)
                              && if ok then back == [] else PutsBack(back, enabled, active);
      CallsAppended(questions, activation, back);
    }

    /** The calls of the activation and, if it fails, of the rollback. */
    static ghost predicate Activates(calls: Calls, enabled: bool, active: bool, ok: bool)
    {
      exists activation, back ::
        && calls == activation + back
        && UpTo([DaemonReload, Enable, Restart, IsEnabled, IsActive], activation, ok)
        && if ok then back == [] else PutsBack(back, enabled, active)
    }

    method ActivateOrRollBack() returns (exit: Exit, ghost asked: Calls)
      requires Valid() && currentStaged == None && BackedUp()
      requires Get(files, BINARY) == Some(release.binary) && Get(files, UNIT_FILE) == Some(release.unitFile)
      modifies `files, `currentStaged, `history, `calls, `commands
      ensures Valid() && old(history) <= history
      ensures exit in {Completed, RolledBack, Stopped}
      ensures calls == old(calls) + asked && old(commands) <= commands
      ensures exit == Stopped <==> !AllSince(commands, |old(commands)|)
      ensures exit != Stopped ==> Activates(asked, wasEnabled, wasActive, exit == Completed)
      ensures exit == Completed ==> files == old(files)
      ensures exit == RolledBack ==>
                Get(files, BINARY) == Get(initial, BINARY) && Get(files, UNIT_FILE) == Get(initial, UNIT_FILE)
    {
      var ok;
      ok, asked := ActivateUpgrade();
      if ok {
        assert asked == asked + [];
        return Completed, asked;
      }
      ghost var activation, back := asked, [];
      ok, back := RollbackUpgrade();
      CallsAppended(old(calls), activation, back);
      asked := activation + back;
      return if ok then RolledBack else Stopped, asked;
    }

    // ---------------------------------------------------------- first install

    /** The events since the commit began are a run of the model of concurrent first installations, and it
        has led to these files. */
    ghost predicate Tracks(config: Option<Bytes>)
      reads `rivals, `claim, `claimStart, `claimTrace
    {
      FI.Run(claimStart, claimTrace) == Some(FI.World(config, rivals[pid := claim]))
    }

    ghost predicate Committing()
      reads `files, `rivals, `claim, `claimStart, `claimTrace
    {
      Tracks(Get(files, CONFIG)) && claim.staged == Get(files, Staged(CONFIG, pid))
    }

    /** Records a step of the commit. */
    ghost method Claimed(a: FI.Action, config: Option<Bytes>, next: FI.Proc)
      requires Tracks(config) && FI.ProcStep(claim, config, a) == Some(FI.Local(next, Get(files, CONFIG)))
      requires next.staged == Get(files, Staged(CONFIG, pid))
      modifies `claim, `claimTrace
      ensures Committing() && claim == next && claimTrace == old(claimTrace) + [FI.Act(pid, a)]
    {
      FI.RunNext(claimStart, claimTrace, FI.Act(pid, a));
      assert rivals[pid := claim][pid := next] == rivals[pid := next];
      claim, claimTrace := next, claimTrace + [FI.Act(pid, a)];
    }

    /** Other first installations and other programs: a configuration may appear as a regular file, and
        then stays. */
    method Others()
      requires Valid() && Committing()
      modifies `files, `history, `rivals, `claimTrace
      ensures Valid() && old(history) <= history && Committing() && old(claimTrace) <= claimTrace
      ensures SameExcept(old(files), files, CONFIG)
      ensures CONFIG in old(files) || CONFIG !in files ==> files == old(files)
    {
      var n: int := *;
      while n > 0
        invariant Valid() && old(history) <= history && Committing() && old(claimTrace) <= claimTrace
        invariant SameExcept(old(files), files, CONFIG)
        invariant CONFIG in old(files) || CONFIG !in files ==> files == old(files)
        decreases n
      {
        var ev: FI.Event := *;
        OtherEvent(ev);
        n := n - 1;
      }
    }

    method OtherEvent(ev: FI.Event)
      requires Valid() && Committing()
      modifies `files, `history, `rivals, `claimTrace
      ensures Valid() && old(history) <= history && Committing() && old(claimTrace) <= claimTrace
      ensures SameExcept(old(files), files, CONFIG)
      ensures CONFIG in old(files) || CONFIG !in files ==> files == old(files)
    {
      if (ev.Spawn? || ev.Act?) && ev.pid == pid {
        return;
      }
      var config, others := Get(files, CONFIG), rivals;
      var next := FI.Step(FI.World(config, others), ev);
      if next.None? || (ev.Spawn? && ev.pid in others) {
        return;
      }
      OtherStepLifts(config, others, pid, claim, ev);
      FI.RunNext(claimStart, claimTrace, ev);
      rivals := next.value.procs;
      claimTrace := claimTrace + [ev];
      if CONFIG !in files && next.value.config.Some? {
        files := files[CONFIG := next.value.config.value];
      }
      Reach();
    }

    /** Commits the candidate where there is no configuration. Together with whatever others do meanwhile,
        the commit is a run of the model of concurrent first installations. */
    method CommitFirstConfiguration(candidate: Bytes) returns (ok: bool)
      requires Valid() && currentStaged == None
      modifies `files, `currentStaged, `history, `rivals, `claim, `claimStart, `claimTrace, `commands
      ensures Valid() && old(history) <= history
      ensures old(commands) <= commands && (ok ==> AllSince(commands, |old(commands)|))
      ensures !ok ==> CONFIG in files || !AllSince(commands, |old(commands)|)
      ensures ok ==> currentStaged == None && CONFIG !in old(files) && files == old(files)[CONFIG := candidate]
      ensures Tracks(Get(files, CONFIG))
      ensures claimStart
           == FI.World(Get(old(files), CONFIG), old(rivals)[pid := FI.Proc(candidate, FI.Begin, None, false)])
      ensures claim.candidate == candidate && (ok ==> claim.committed)
    {
      NoStagedFile();
      claim := FI.Proc(candidate, FI.Begin, None, false);
      claimStart, claimTrace := FI.World(Get(files, CONFIG), rivals[pid := claim]), [];
      ok := StageConfiguration(candidate);
      if !ok {
        return;
      }
      ghost var staged := commands;
      ok := LinkConfiguration();
      if !ok {
        return;
      }
      AllSinceSplits(staged, commands, |old(commands)|);
      LinkEffect(old(files), Staged(CONFIG, pid), candidate);
      ok := DropStaged();
    }

    static lemma LinkEffect(before: Files, staged: Path, candidate: Bytes)
      requires staged !in before && staged != CONFIG
      ensures before[staged := candidate][CONFIG := candidate] - {staged} == before[CONFIG := candidate]
      ensures CONFIG in before[staged := candidate] <==> CONFIG in before
    {}

    /** The first check and the staged copy; the configuration may appear during both. */
    method StageConfiguration(candidate: Bytes) returns (ok: bool)
      requires Valid() && currentStaged == None && Committing() && claim == FI.Proc(candidate, FI.Begin, None, false)
      modifies `files, `currentStaged, `history, `rivals, `claim, `claimTrace, `commands
      ensures Valid() && old(history) <= history && Committing() && claim.candidate == candidate
      ensures Staged(CONFIG, pid) !in old(files)
      ensures old(commands) <= commands && (ok ==> AllSince(commands, |old(commands)|))
      ensures !ok ==> CONFIG in files || !AllSince(commands, |old(commands)|)
      ensures ok ==> currentStaged == Some(Staged(CONFIG, pid)) && CONFIG !in old(files)
      ensures ok ==> claim == FI.Proc(candidate, FI.Staged, Some(candidate), false)
      ensures ok && CONFIG !in files ==> files == old(files)[Staged(CONFIG, pid) := candidate]
    {
      NoStagedFile();
      Others();
      var free := CONFIG !in files;
      Claimed(FI.Check, Get(files, CONFIG), claim.(pc := if free then FI.FirstChecked else FI.Ended));
      if !free {
        return false;
      }
      BeginStaging(CONFIG);
      ok := CopyCandidate(candidate);
    }

    /** install of the candidate, piecewise, while others go on. */
    method CopyCandidate(candidate: Bytes) returns (ok: bool)
      requires Valid() && currentStaged == Some(Staged(CONFIG, pid)) && Committing()
      requires claim == FI.Proc(candidate, FI.FirstChecked, None, false)
      modifies `files, `history, `rivals, `claim, `claimTrace, `commands
      ensures Valid() && old(history) <= history && Committing() && claim.candidate == candidate
      ensures commands == old(commands) + [ok] && commands[|commands| - 1] == ok
      ensures ok ==> claim == FI.Proc(candidate, FI.Staged, Some(candidate), false)
      ensures ok && CONFIG !in files ==>
                CONFIG !in old(files) && files == old(files)[Staged(CONFIG, pid) := candidate]
    {
      var part: Bytes := *;
      CopyPart(part);
      ok := Command();
      if ok {
        CopyWhole(candidate);
      } else {
        Claimed(FI.Stop, Get(files, CONFIG), claim.(pc := FI.Ended));
      }
    }

    method CopyWhole(candidate: Bytes)
      requires Valid() && currentStaged == Some(Staged(CONFIG, pid)) && Committing()
      requires claim.pc == FI.Staging && claim.candidate == candidate
      modifies `files, `history, `rivals, `claim, `claimTrace
      ensures Valid() && old(history) <= history && Committing()
      ensures claim == old(claim).(pc := FI.Staged, staged := Some(candidate))
      ensures CONFIG !in files ==> CONFIG !in old(files) && files == old(files)[Staged(CONFIG, pid) := candidate]
    {
      CopyPart(candidate);
      Claimed(FI.WriteEnds, Get(files, CONFIG), claim.(pc := FI.Staged));
    }

    method CopyPart(part: Bytes)
      requires Valid() && currentStaged == Some(Staged(CONFIG, pid)) && Committing()
      requires claim.pc == FI.FirstChecked || claim.pc == FI.Staging
      modifies `files, `history, `rivals, `claim, `claimTrace
      ensures Valid() && old(history) <= history && Committing()
      ensures claim == old(claim).(pc := FI.Staging, staged := Some(part))
      ensures CONFIG !in files ==> CONFIG !in old(files) && files == old(files)[Staged(CONFIG, pid) := part]
    {
      Others();
      PutStaged(part);
      Claimed(FI.WriteSome(part), Get(files, CONFIG), claim.(pc := FI.Staging, staged := Some(part)));
    }

    method CheckAgain() returns (free: bool)
      requires Valid() && currentStaged == Some(Staged(CONFIG, pid)) && Committing() && claim.pc == FI.Staged
      modifies `files, `history, `rivals, `claim, `claimTrace
      ensures Valid() && old(history) <= history && Committing()
      ensures claim == old(claim).(pc := if free then FI.SecondChecked else FI.Ended)
      ensures free <==> CONFIG !in files
      ensures free ==> files == old(files) && CONFIG !in old(files)
    {
      Others();
      free := CONFIG !in files;
      Claimed(FI.Check, Get(files, CONFIG), claim.(pc := if free then FI.SecondChecked else FI.Ended));
    }

    /** The second check and ln without force; what is staged is dropped when either refuses. */
    method LinkConfiguration() returns (ok: bool)
      requires Valid() && currentStaged == Some(Staged(CONFIG, pid)) && Committing() && claim.pc == FI.Staged
      requires claim.staged == Some(claim.candidate) && !claim.committed
      modifies `files, `currentStaged, `history, `rivals, `claim, `claimTrace, `commands
      ensures Valid() && old(history) <= history && Committing() && claim.candidate == old(claim).candidate
      ensures old(commands) <= commands && (ok ==> AllSince(commands, |old(commands)|))
      ensures !ok ==> CONFIG in files || !AllSince(commands, |old(commands)|)
      ensures ok ==> currentStaged == Some(Staged(CONFIG, pid)) && CONFIG !in old(files)
      ensures ok ==> files == old(files)[CONFIG := claim.candidate] && claim.committed && claim.pc == FI.Committed
    {
      var free := CheckAgain();
      ok := free;
      if ok {
        ok := LinkStaged();
      }
      if !ok {
        ghost var linked := commands;
        var _ := DropStaged();
        assert free ==> commands[|old(commands)|] == linked[|old(commands)|];
      }
    }

    /** ln is atomic and refuses an existing target. */
    method LinkStaged() returns (ok: bool)
      requires Valid() && currentStaged == Some(Staged(CONFIG, pid)) && Committing() && claim.pc == FI.SecondChecked
      requires claim.staged == Some(claim.candidate) && CONFIG !in files
      modifies `files, `history, `rivals, `claim, `claimTrace, `commands
      ensures Valid() && old(history) <= history && Committing() && claim.candidate == old(claim).candidate
      ensures ok ==> files == old(files)[CONFIG := claim.candidate] && claim.committed && claim.pc == FI.Committed
      ensures !ok ==> claim.pc == FI.Ended
      ensures old(commands) <= commands && |commands| == |old(commands)| + 1
      ensures if ok then commands[|old(commands)|] else CONFIG in files || !commands[|old(commands)|]
    {
      Others();
      ok := Command();
      ok := ok && CONFIG !in files;
      if ok {
        PutConfiguration();
      } else {
        Claimed(FI.Link(false), Get(files, CONFIG), claim.(pc := FI.Ended));
      }
    }

    /** The link itself. */
    method PutConfiguration()
      requires Valid() && currentStaged == Some(Staged(CONFIG, pid)) && Committing() && claim.pc == FI.SecondChecked
      requires claim.staged == Some(claim.candidate) && CONFIG !in files
      modifies `files, `history, `claim, `claimTrace
      ensures Valid() && old(history) <= history && Committing()
      ensures claim == old(claim).(pc := FI.Committed, committed := true)
      ensures files == old(files)[CONFIG := claim.candidate]
    {
      ghost var config := Get(files, CONFIG);
      files := files[CONFIG := files[Staged(CONFIG, pid)]];
      Reach();
      Claimed(FI.Link(true), config, claim.(pc := FI.Committed, committed := true));
    }

    method DropStaged() returns (ok: bool)
      requires Valid() && currentStaged == Some(Staged(CONFIG, pid)) && Committing()
      requires claim.pc == FI.Committed || claim.pc == FI.Ended
      modifies `files, `currentStaged, `history, `claim, `claimTrace, `commands
      ensures Valid() && old(history) <= history && Committing()
      ensures claim.candidate == old(claim).candidate && claim.committed == old(claim).committed
      ensures commands == old(commands) + [ok] && commands[|commands| - 1] == ok
      ensures CONFIG in old(files) ==> CONFIG in files
      ensures ok ==> currentStaged == None && files == old(files) - {Staged(CONFIG, pid)}
    {
      ok := RemoveStaged();
      if !ok {
        Claimed(FI.Stop, Get(files, CONFIG), claim.(pc := FI.Ended));
        return;
      }
      EndStaging();
      Claimed(FI.RemoveStaged, Get(files, CONFIG), claim.(pc := FI.Ended, staged := None));
    }

    method ActivateFirstInstall() returns (ok: bool, ghost asked: Calls)
      modifies `calls
      ensures calls == old(calls) + asked && UpTo([DaemonReload, EnableNow, IsEnabled, IsActive], asked, ok)
    {
      ok := RunSystemctl(DaemonReload);
      asked := [(DaemonReload, ok)];
      if !ok {
        return;
      }
      ok := RunSystemctl(EnableNow);
      asked := asked + [(EnableNow, ok)];
      if !ok {
        return;
      }
      ghost var last;
      ok, last := VerifyService();
      asked := asked + last;
    }

    /** create_work_dir where the shell ignores its failures: without a directory WORK_DIR is empty and
        the candidate path lies in the root directory. */
    method TryWorkDir()
      requires Valid() && !workDir
      modifies `workDir, `candidateConfig, `history
      ensures Valid() && old(history) <= history
      ensures candidateConfig == if workDir then WORK_CONFIG else ROOT_CONFIG
    {
      workDir := *;
      candidateConfig := if workDir then WORK_CONFIG else ROOT_CONFIG;
      Reach();
    }

    /** Writes only a file that does not exist, and removes what it cannot finish. */
    method WriteExclusive(content: Bytes) returns (ok: bool)
      requires Valid() && candidateConfig == if workDir then WORK_CONFIG else ROOT_CONFIG
      modifies `files, `history
      ensures Valid() && old(history) <= history
      ensures ok ==> candidateConfig !in old(files)
      ensures files == if ok then old(files)[candidateConfig := content] else old(files)
    {
      if candidateConfig in files {
        return false;
      }
      var part: Bytes := *;
      PutCandidate(part);
      ok := *;
      if ok {
        PutCandidate(content);
      } else {
        DropCandidate();
      }
    }

    method PutCandidate(content: Bytes)
      requires Valid() && candidateConfig == if workDir then WORK_CONFIG else ROOT_CONFIG
      modifies `files, `history
      ensures Valid() && old(history) <= history && files == old(files)[candidateConfig := content]
    {
      files := files[candidateConfig := content];
      Reach();
    }

    method DropCandidate()
      requires Valid() && candidateConfig == if workDir then WORK_CONFIG else ROOT_CONFIG
      modifies `files, `history
      ensures Valid() && old(history) <= history && files == old(files) - {candidateConfig}
    {
      files := files - {candidateConfig};
      Reach();
    }

    /** The setup dialogue, and what the script then takes for the candidate. */
    method PrepareFirstConfiguration() returns (candidate: Option<Bytes>, ok: bool, ghost dialogue: Dialogue)
      requires Valid() && !workDir
      modifies `files, `workDir, `candidateConfig, `history
      ensures Valid() && old(history) <= history
      ensures candidateConfig == if workDir then WORK_CONFIG else ROOT_CONFIG
      ensures var p := PreparedBy(old(files), candidateConfig, dialogue);
              files == p.files && candidate == p.candidate && ok == p.ok
    {
      TryWorkDir();
      dialogue := Fails;
      ok := *;
      var confirmed: bool := *;
      if ok && confirmed {
        var content: Bytes := *;
        ok := WriteExclusive(content);
        dialogue := Confirms(content, ok);
      } else if ok {
        dialogue := Declines;
      }
      candidate := Get(files, candidateConfig);
    }

    /** No file of the work directory exists before the directory does. */
    lemma NoWorkFile(p: Path)
      requires Valid() && !workDir && p.Work?
      ensures p !in files
    {
      assert Tidy(Now(), pid);
    }

    /** First installation: a cancelled one changes no file, and an installed configuration is the
        candidate, put where there was none. The candidate is the one that the dialogue of this run
        confirmed exactly when there was a work directory or no earlier file in its place; otherwise it is
        that earlier file, which nobody confirmed. It is cancelled exactly when the dialogue was declined
        and left no candidate; it stops only when the dialogue or a command fails or a configuration has
        appeared; it is complete exactly when every step of the activation succeeds. */
    method InstallFresh() returns (exit: Exit, candidate: Option<Bytes>, ghost dialogue: Dialogue, ghost asked: Calls)
      requires Valid() && !workDir && currentStaged == None && files == initial && CONFIG !in initial
      modifies `files, `currentStaged, `workDir, `candidateConfig, `history, `calls, `commands, `rivals, `claim,
               `claimStart, `claimTrace
      ensures Valid() && old(history) <= history
      ensures exit in {Completed, NotActive, Cancelled, Stopped}
      ensures exit == Cancelled <==> dialogue == Declines && candidate == None
      ensures exit == Cancelled ==> files == initial
      ensures calls == old(calls) + asked && old(commands) <= commands
      ensures exit == Completed || exit == NotActive ==>
                && AllSince(commands, |old(commands)|)
                && UpTo([DaemonReload, EnableNow, IsEnabled, IsActive], asked, exit == Completed)
      ensures exit == Stopped ==>
                dialogue == Fails || dialogue.Confirms? || CONFIG in files || !AllSince(commands, |old(commands)|)
      ensures exit == Stopped && dialogue.Confirms? ==>
                || !dialogue.stored || candidateConfig in initial
                || CONFIG in files || !AllSince(commands, |old(commands)|)
      ensures exit == Completed || exit == NotActive ==>
                && candidate.Some? && Get(files, CONFIG) == candidate
                && Get(files, BINARY) == Some(release.binary) && Get(files, UNIT_FILE) == Some(release.unitFile)
      ensures exit == Completed || exit == NotActive ==>
                && (dialogue.Confirms? <==> workDir || ROOT_CONFIG !in initial)
                && candidate == if dialogue.Confirms? then Some(dialogue.content) else Get(initial, ROOT_CONFIG)
      ensures exit == Completed || exit == NotActive ==>
                Get(files, ROOT_CONFIG) == if workDir then Get(initial, ROOT_CONFIG) else candidate
    {
      NoWorkFile(WORK_CONFIG);
      var ok;
      candidate, ok, dialogue := PrepareFirstConfiguration();
      asked := [];
      if !ok {
        return Stopped, candidate, dialogue, [];
      }
      if candidate.None? {
        return Cancelled, candidate, dialogue, [];
      }
      CandidateConfirmedExactly(initial, candidateConfig, dialogue);
      exit, asked := InstallAndActivate(candidate.value);
    }

    method InstallAndActivate(candidate: Bytes) returns (exit: Exit, ghost asked: Calls)
      requires Valid() && currentStaged == None
      modifies `files, `currentStaged, `history, `calls, `commands, `rivals, `claim, `claimStart, `claimTrace
      ensures Valid() && old(history) <= history
      ensures exit in {Completed, NotActive, Stopped}
      ensures calls == old(calls) + asked && old(commands) <= commands
      ensures if exit == Stopped then CONFIG in files || !AllSince(commands, |old(commands)|)
              else && AllSince(commands, |old(commands)|)
                   && UpTo([DaemonReload, EnableNow, IsEnabled, IsActive], asked, exit == Completed)
      ensures exit != Stopped ==>
                && Get(files, CONFIG) == Some(candidate)
                && Get(files, BINARY) == Some(release.binary) && Get(files, UNIT_FILE) == Some(release.unitFile)
                && Get(files, WORK_CONFIG) == Get(old(files), WORK_CONFIG)
                && Get(files, ROOT_CONFIG) == Get(old(files), ROOT_CONFIG)
    {
      var ok := InstallFiles(candidate);
      if !ok {
        return Stopped, [];
      }
      ok, asked := ActivateFirstInstall();
      return if ok then Completed else NotActive, asked;
    }

    /** Assets first, the configuration last; the candidate stays where it is. */
    method InstallFiles(candidate: Bytes) returns (ok: bool)
      requires Valid() && currentStaged == None
      modifies `files, `currentStaged, `history, `commands, `rivals, `claim, `claimStart, `claimTrace
      ensures Valid() && old(history) <= history
      ensures old(commands) <= commands
      ensures if ok then AllSince(commands, |old(commands)|)
              else CONFIG in files || !AllSince(commands, |old(commands)|)
      ensures ok ==> Get(files, CONFIG) == Some(candidate)
      ensures ok ==> Get(files, BINARY) == Some(release.binary) && Get(files, UNIT_FILE) == Some(release.unitFile)
      ensures ok ==> Get(files, WORK_CONFIG) == Get(old(files), WORK_CONFIG)
      ensures ok ==> Get(files, ROOT_CONFIG) == Get(old(files), ROOT_CONFIG)
    {
      ok := StageReleaseAssets();
      if ok {
        ghost var staged := commands;
        ok := CommitFirstConfiguration(candidate);
        AllSinceSplits(staged, commands, |old(commands)|);
      }
    }

    // ------------------------------------------------------------------- exit

    /** The trap on exit: removals may fail; when they succeed nothing of this process is left. */
    method OnExit() returns (ok: bool)
      requires Valid()
      modifies `files, `workDir, `commands
      ensures commands == old(commands) + [ok]
      ensures !ok ==> files == old(files)
      ensures ok ==> State(files, workDir, currentStaged) == Cleanup(old(Now()))
      ensures ok ==> !workDir && forall p :: p in files <==> p in old(files) && !IsStaged(p, pid) && !p.Work?
      ensures ok ==> forall p | p in files :: files[p] == old(files)[p]
    {
      CleanupLeavesNoResidue(Now(), pid);
      ok := Command();
      if !ok {
        return;
      }
      if currentStaged.Some? {
        files := files - {currentStaged.value};
      }
      if workDir {
        files := files - {WORK_CONFIG, BINARY_BACKUP, UNIT_BACKUP};
        workDir := exists p | p in files :: p.Work?;
      }
    }

    /** main and the trap on exit. Every state passed is in the history; if the removals of the trap
        succeed, neither a staged file nor anything in the work directory is left, whichever way the
        script ended. A first installation leaves a copy of the configuration in the root directory
        exactly when it got no work directory, and its configuration was confirmed in this run exactly
        when it got one or found no such copy. If preflight fails, or what is on the path of the configuration is
        not a regular file, nothing is touched. */
    method RunScript(ready: bool, irregular: bool)
      returns (exit: Exit, clean: bool, ghost hadWorkDir: bool, ghost dialogue: Dialogue)
      requires Valid() && !workDir && currentStaged == None && files == initial && commands == []
      requires forall p | p in initial :: !p.Work?
      modifies this
      ensures GoodHistory(history, initial, release, pid) && old(history) <= history
      ensures commands != [] && clean == commands[|commands| - 1]
      ensures clean ==> !workDir && forall p | p in files :: !IsStaged(p, pid) && !p.Work?
      ensures clean ==>
                forall p: Path | !p.Work? && !IsStaged(p, pid) ::
                  Get(files, p) == Get(history[|history| - 1].files, p)
      ensures clean && CONFIG !in initial && (exit == Completed || exit == NotActive) ==>
                && CONFIG in files
                && Get(files, ROOT_CONFIG) == (if hadWorkDir then Get(initial, ROOT_CONFIG) else Get(files, CONFIG))
                && (dialogue.Confirms? <==> hadWorkDir || ROOT_CONFIG !in initial)
                && Get(files, CONFIG)
                   == if dialogue.Confirms? then Some(dialogue.content) else Get(initial, ROOT_CONFIG)
      ensures !ready || irregular ==> exit == Stopped && history == old(history) && files == old(files)
      ensures exit == Stopped && ready && !irregular && CONFIG in initial ==> false in commands[..|commands| - 1]
      ensures exit == Completed || exit == RolledBack || exit == NotActive ==> false !in commands[..|commands| - 1]
    {
      exit, dialogue := Stopped, Fails;
      if ready && !irregular {
        exit, dialogue := InstallOrUpgrade();
      }
      hadWorkDir := workDir;
      ghost var ran := commands;
      clean := OnExit();
      assert commands[..|commands| - 1] == ran;
    }

    method InstallOrUpgrade() returns (exit: Exit, ghost dialogue: Dialogue)
      requires Valid() && !workDir && currentStaged == None && files == initial && commands == []
      requires forall p | p in initial :: !p.Work?
      modifies this
      ensures Valid() && old(history) <= history
      ensures CONFIG in initial ==> Get(files, CONFIG) == Get(initial, CONFIG)
      ensures CONFIG !in initial && (exit == Completed || exit == NotActive) ==>
                && CONFIG in files
                && Get(files, ROOT_CONFIG) == (if workDir then Get(initial, ROOT_CONFIG) else Get(files, CONFIG))
                && (dialogue.Confirms? <==> workDir || ROOT_CONFIG !in initial)
                && Get(files, CONFIG)
                   == if dialogue.Confirms? then Some(dialogue.content) else Get(initial, ROOT_CONFIG)
      ensures exit == Stopped && CONFIG in initial ==> false in commands
      ensures exit == Completed || exit == RolledBack || exit == NotActive ==> false !in commands
    {
      dialogue := Fails;
      ghost var asked;
      if CONFIG in files {
        exit, asked := InstallUpgrade();
      } else {
        var candidate;
        exit, candidate, dialogue, asked := InstallFresh();
      }
    }
  }

  /** An event of others is the same event with this installation present. */
  lemma OtherStepLifts(config: Option<Bytes>, others: map<nat, FI.Proc>, pid: nat, own: FI.Proc, ev: FI.Event)
    requires (ev.Spawn? || ev.Act? ==> ev.pid != pid)
    requires FI.Step(FI.World(config, others), ev).Some?
    ensures var next := FI.Step(FI.World(config, others), ev).value;
            && FI.Step(FI.World(config, others[pid := own]), ev)
                 == Some(FI.World(next.config, next.procs[pid := own]))
            && (config.Some? ==> next.config == config)
  {
    var next := FI.Step(FI.World(config, others), ev).value;
    if ev.Spawn? {
      var p := FI.Proc(ev.candidate, FI.Begin, None, false);
      assert others[pid := own][ev.pid := p] == others[ev.pid := p][pid := own];
    } else if ev.Act? {
      var p := next.procs[ev.pid];
      assert others[pid := own][ev.pid := p] == others[ev.pid := p][pid := own];
    }
  }
}
