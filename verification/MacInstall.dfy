/** Persisting the fallback MAC addresses: StoreMac(), EnsureMac() and main() over a file system whose
    unsynced data and latest directory updates may be lost when the machine stops. */
module MacInstall {
  import opened Common
  import opened MacText

  // ---------------------------------------------------------------------------------------------
  // The file system
  // ---------------------------------------------------------------------------------------------

  /** The first `synced` bytes of a file are on stable storage. */
  datatype File = File(content: string, synced: nat)

  /** Names refer to files by number; an unlinked file keeps its number. */
  datatype Disk = Disk(names: map<string, nat>, files: map<nat, File>) {

    ghost predicate Valid() {
      && (forall path <- names :: names[path] in files)
      && (forall n <- files :: files[n].synced <= |files[n].content|)
    }

    /** What a running process reads at `path`. */
    function Content(path: string): Option<string>
      requires Valid()
    {
      if path in names then Some(files[names[path]].content) else None
    }

    /** The file at `path`, if there is one, is entirely on stable storage. */
    ghost predicate Settled(path: string)
      requires Valid()
    {
      path in names ==> files[names[path]].synced == |files[names[path]].content|
    }
  }

  /** What `path` may hold after the machine stopped in the last of these states and came up again:
      the directory as it was in any of them, for its updates reach the disk in order but late, and of
      the file it refers to any prefix that includes the synced part. If only the process stops, the
      last state itself remains, which is one of the possibilities. */
  ghost predicate MayHold(history: seq<Disk>, path: string, content: Option<string>) {
    exists d <- history :: FoundIn(d, history[|history| - 1].files, path, content)
  }

  /** What may be found at `path` in the directory of `d` and these files. */
  ghost predicate FoundIn(d: Disk, files: map<nat, File>, path: string, content: Option<string>) {
    if path !in d.names then content == None
    else
      && content.Some? && d.names[path] in files
      && var f := files[d.names[path]];
         f.synced <= |content.value| && content.value <= f.content
  }

  /** Nothing can be found at `path` but what could have been found there in state `first`, and the whole
      new text. */
  ghost predicate AtomicAt(history: seq<Disk>, path: string, first: Disk, text: string) {
    forall content :: MayHold(history, path, content) ==> MayHold([first], path, content) || content == Some(text)
  }

  /** A file on stable storage is found with its contents. */
  lemma SettledIsFound(d: Disk, path: string, content: Option<string>)
    requires d.Valid() && d.Settled(path) && MayHold([d], path, content)
    ensures content == d.Content(path)
  {
    if path in d.names {
      SyncedIsWhole(d.files[d.names[path]], content.value);
    }
  }

  // ---------------------------------------------------------------------------------------------
  // What keeps the target safe
  // ---------------------------------------------------------------------------------------------

  /** `d` names the same file at `path` as `first`, if any, and that file has not changed. */
  ghost predicate KeepsOld(first: Disk, d: Disk, path: string) {
    && (path in d.names <==> path in first.names)
    && (path in d.names ==> d.names[path] == first.names[path])
    && OldFileKept(first, d, path)
  }

  ghost predicate OldFileKept(first: Disk, d: Disk, path: string) {
    path in first.names ==>
      first.names[path] in first.files && first.names[path] in d.files
      && d.files[first.names[path]] == first.files[first.names[path]]
  }

  ghost predicate Untouched(history: seq<Disk>, path: string) {
    && history != [] && history[0].Valid()
    && forall d <- history :: KeepsOld(history[0], d, path)
  }

  /** A directory entry for a file that is entirely on stable storage gives back all of it. */
  lemma SyncedIsWhole(f: File, found: string)
    requires f.synced == |f.content|
    requires f.synced <= |found| && found <= f.content
    ensures found == f.content
  {
    assert found == f.content[..|found|];
  }

  lemma UntouchedIsKept(history: seq<Disk>, path: string)
    requires Untouched(history, path)
    ensures forall content :: MayHold(history, path, content) ==> MayHold([history[0]], path, content)
  {
    var first, last := history[0], history[|history| - 1];
    assert last in history;
    forall content | MayHold(history, path, content)
      ensures MayHold([first], path, content)
    {
      assert first in [first];
    }
  }

  lemma UntouchedIsAtomic(history: seq<Disk>, path: string, text: string)
    requires Untouched(history, path)
    ensures AtomicAt(history, path, history[0], text)
  {
    UntouchedIsKept(history, path);
  }

  /** Naming a file that is complete and on stable storage is safe, even if that last directory update
      is lost. */
  lemma InstallIsAtomic(history: seq<Disk>, d: Disk, path: string, text: string)
    requires Untouched(history, path) && OldFileKept(history[0], d, path)
    requires path in d.names && d.names[path] in d.files && d.files[d.names[path]] == File(text, |text|)
    ensures AtomicAt(history + [d], path, history[0], text)
  {
    var grown, first := history + [d], history[0];
    assert grown[|grown| - 1] == d && first in [first];
    forall content | MayHold(grown, path, content)
      ensures MayHold([first], path, content) || content == Some(text)
    {
      if content.Some? && content.value <= text && |content.value| >= |text| {
        SyncedIsWhole(File(text, |text|), content.value);
      }
    }
  }

  /** Nothing but the entry `temporary` differs, and files that `before` does not have. */
  ghost predicate Aside(before: Disk, d: Disk, temporary: string) {
    && d.names - {temporary} == before.names - {temporary}
    && forall n <- before.files :: n in d.files && d.files[n] == before.files[n]
  }

  lemma AsideKeepsOld(before: Disk, d: Disk, temporary: string, path: string)
    requires before.Valid() && Aside(before, d, temporary) && path != temporary
    ensures KeepsOld(before, d, path)
  {
    assert path in d.names <==> path in d.names - {temporary};
    assert path in before.names <==> path in before.names - {temporary};
    if path in d.names {
      assert (d.names - {temporary})[path] == (before.names - {temporary})[path];
    }
  }

  /** Whenever the machine stops: after every step of the history. */
  ghost predicate AlwaysAtomic(history: seq<Disk>, path: string, first: Disk, text: string) {
    forall n :: 0 < n <= |history| ==> AtomicAt(history[..n], path, first, text)
  }

  ghost predicate AllAside(history: seq<Disk>, first: Disk, temporary: string) {
    history != [] && history[0] == first && forall d <- history :: Aside(first, d, temporary)
  }

  lemma AsideIsUntouched(history: seq<Disk>, first: Disk, temporary: string, path: string)
    requires AllAside(history, first, temporary) && first.Valid() && path != temporary
    ensures Untouched(history, path)
  {
    forall d <- history
      ensures KeepsOld(first, d, path)
    {
      AsideKeepsOld(first, d, temporary, path);
    }
  }

  lemma AsideIsAtomic(history: seq<Disk>, first: Disk, temporary: string, path: string, text: string)
    requires AllAside(history, first, temporary) && first.Valid() && path != temporary
    ensures AlwaysAtomic(history, path, first, text)
  {
    forall n | 0 < n <= |history|
      ensures AtomicAt(history[..n], path, first, text)
    {
      AsideIsUntouched(history[..n], first, temporary, path);
      UntouchedIsAtomic(history[..n], path, text);
    }
  }

  /** Staying aside and then naming a complete file on stable storage. */
  lemma AsideThenInstall(history: seq<Disk>, d: Disk, first: Disk, temporary: string, path: string, text: string)
    requires AllAside(history, first, temporary) && first.Valid() && path != temporary
    requires OldFileKept(first, d, path)
    requires path in d.names && d.names[path] in d.files && d.files[d.names[path]] == File(text, |text|)
    ensures AlwaysAtomic(history + [d], path, first, text)
  {
    var grown := history + [d];
    AsideIsAtomic(history, first, temporary, path, text);
    AsideIsUntouched(history, first, temporary, path);
    InstallIsAtomic(history, d, path, text);
    forall n | 0 < n <= |grown|
      ensures AtomicAt(grown[..n], path, first, text)
    {
      if n <= |history| {
        assert grown[..n] == history[..n];
      } else {
        assert grown[..n] == grown;
      }
    }
  }

  // ---------------------------------------------------------------------------------------------
  // One target after the other
  // ---------------------------------------------------------------------------------------------

  /** Only an address can be found at `path`, or what could have been found there in state `first`. */
  ghost predicate SafeAt(history: seq<Disk>, path: string, first: Disk) {
    forall content :: MayHold(history, path, content) ==>
      MayHold([first], path, content) || (content.Some? && IsMac(content.value))
  }

  ghost predicate AlwaysSafe(history: seq<Disk>, path: string, first: Disk) {
    forall n :: 0 < n <= |history| ==> SafeAt(history[..n], path, first)
  }

  ghost predicate FilesKept(first: Disk, d: Disk) {
    forall n <- first.files :: n in d.files && d.files[n] == first.files[n]
  }

  ghost predicate OthersKept(first: Disk, d: Disk, path: string) {
    forall p :: p != path && p != path + ".tmp" ==> KeepsOld(first, d, p)
  }

  /** A history that leaves all files that it finds alone, and all names but `path` and its temporary name. */
  ghost predicate Quiet(history: seq<Disk>, path: string) {
    && history != [] && history[0].Valid()
    && forall d <- history :: FilesKept(history[0], d) && OthersKept(history[0], d, path)
  }

  /** The files that `path` referred to on the way still exist. */
  ghost predicate Lasting(history: seq<Disk>, path: string) {
    history != [] && forall d <- history :: path in d.names ==> d.names[path] in history[|history| - 1].files
  }

  lemma AsideKeepsOthers(first: Disk, d: Disk, path: string)
    requires first.Valid() && Aside(first, d, path + ".tmp")
    ensures OthersKept(first, d, path) && KeepsOld(first, d, path) && FilesKept(first, d)
  {
    assert |path + ".tmp"| != |path|;
    forall p | p != path + ".tmp"
      ensures KeepsOld(first, d, p)
    {
      AsideKeepsOld(first, d, path + ".tmp", p);
    }
  }

  lemma AsideIsQuiet(history: seq<Disk>, path: string)
    requires history != [] && AllAside(history, history[0], path + ".tmp") && history[0].Valid()
    ensures Quiet(history, path) && Lasting(history, path)
  {
    assert history[|history| - 1] in history;
    forall d <- history
      ensures OthersKept(history[0], d, path) && KeepsOld(history[0], d, path) && FilesKept(history[0], d)
    {
      AsideKeepsOthers(history[0], d, path);
    }
  }

  lemma InstallIsQuiet(history: seq<Disk>, d: Disk, path: string)
    requires history != [] && AllAside(history, history[0], path + ".tmp") && history[0].Valid() && d.Valid()
    requires FilesKept(history[0], d) && OthersKept(history[0], d, path)
    ensures Quiet(history + [d], path) && Lasting(history + [d], path)
  {
    var grown := history + [d];
    assert grown[|grown| - 1] == d && grown[0] == history[0];
    forall e <- grown
      ensures FilesKept(grown[0], e) && OthersKept(grown[0], e, path)
      ensures path in e.names ==> e.names[path] in d.files
    {
      if e in history {
        AsideKeepsOthers(history[0], e, path);
      }
    }
  }

  lemma AtomicIsSafe(history: seq<Disk>, path: string, first: Disk, text: string)
    requires AlwaysAtomic(history, path, first, text) && IsMac(text)
    ensures AlwaysSafe(history, path, first)
  {
    forall n | 0 < n <= |history|
      ensures SafeAt(history[..n], path, first)
    {
      assert AtomicAt(history[..n], path, first, text);
    }
  }

  lemma StandingStillIsSafe(d: Disk, path: string)
    requires d.Valid()
    ensures Quiet([d], path) && Lasting([d], path) && AlwaysSafe([d], path, d)
  {
    AsideIsQuiet([d], path);
    assert [d][..1] == [d];
  }

  /** A history about `path` that is safe at every moment. */
  ghost predicate SafePhase(history: seq<Disk>, path: string) {
    Quiet(history, path) && Lasting(history, path) && AlwaysSafe(history, path, history[0])
  }

  /** The states of the second phase are reached from those of the first. */
  ghost predicate Follows(one: seq<Disk>, two: seq<Disk>) {
    one != [] && two != [] && two[0] == one[|one| - 1]
  }

  /** While the second target is written, even though the directory update that installed the first may
      still be lost, a stop finds at the first path nothing that it could not have found before. */
  lemma FirstStaysSafe(one: seq<Disk>, two: seq<Disk>, path: string, other: string)
    requires Follows(one, two) && Lasting(one, path) && Quiet(two, other)
    requires path != other && path != other + ".tmp"
    ensures forall content :: MayHold(one + two[1..], path, content) ==> MayHold(one, path, content)
  {
    var all, between, last := one + two[1..], two[0], two[|two| - 1];
    assert all[|all| - 1] == last && last in two && between in one;
    forall content | MayHold(all, path, content)
      ensures MayHold(one, path, content)
    {
      var d :| d in all && FoundIn(d, last.files, path, content);
      assert FilesKept(between, last);
      if d in one {
        assert FoundIn(d, between.files, path, content);
      } else {
        assert d in two && KeepsOld(between, d, path);
        assert FoundIn(between, between.files, path, content);
      }
    }
  }

  /** The second target is safe throughout. */
  lemma SecondIsSafe(one: seq<Disk>, two: seq<Disk>, path: string, other: string)
    requires Follows(one, two) && Quiet(one, path) && Quiet(two, other)
    requires other != path && other != path + ".tmp"
    requires SafeAt(two, other, two[0])
    ensures SafeAt(one + two[1..], other, one[0])
  {
    var all, first, between, last := one + two[1..], one[0], two[0], two[|two| - 1];
    assert all[|all| - 1] == last && last in two && between in one && KeepsOld(first, between, other);
    assert first in [first] && between in [between];
    forall content | MayHold(all, other, content)
      ensures MayHold([first], other, content) || (content.Some? && IsMac(content.value))
    {
      var d :| d in all && FoundIn(d, last.files, other, content);
      if d in one {
        assert KeepsOld(first, d, other);
        assert FoundIn(first, first.files, other, content);
      } else {
        assert d in two && MayHold(two, other, content);
        if MayHold([between], other, content) {
          assert FoundIn(between, between.files, other, content);
          assert FoundIn(first, first.files, other, content);
        }
      }
    }
  }

  lemma OtherIsSafe(history: seq<Disk>, path: string, other: string, n: nat)
    requires Quiet(history, path) && 0 < n <= |history| && other != path && other != path + ".tmp"
    ensures SafeAt(history[..n], other, history[0])
  {
    forall d <- history[..n]
      ensures KeepsOld(history[0], d, other)
    {
      assert d in history && OthersKept(history[0], d, path);
    }
    UntouchedIsKept(history[..n], other);
  }

  /** Writing one target and then another is safe for both, at every moment. */
  lemma OneAfterTheOther(one: seq<Disk>, two: seq<Disk>, path: string, other: string)
    requires Follows(one, two) && SafePhase(one, path) && SafePhase(two, other)
    requires path != other && path != other + ".tmp" && other != path + ".tmp"
    ensures AlwaysSafe(one + two[1..], path, one[0]) && AlwaysSafe(one + two[1..], other, one[0])
  {
    var all := one + two[1..];
    forall n | 0 < n <= |all|
      ensures SafeAt(all[..n], path, one[0]) && SafeAt(all[..n], other, one[0])
    {
      if n <= |one| {
        assert all[..n] == one[..n];
        OtherIsSafe(one, path, other, n);
      } else {
        var m := n - |one| + 1;
        assert all[..n] == one + two[..m][1..] && one[..|one|] == one;
        FirstStaysSafe(one, two[..m], path, other);
        SecondIsSafe(one, two[..m], path, other);
      }
    }
  }

  /** Only the file `fd` differs between the two disks. */
  ghost predicate OnlyFileChanges(before: Disk, after: Disk, fd: nat) {
    && after.names == before.names && after.files.Keys == before.files.Keys
    && forall n <- before.files :: n != fd ==> after.files[n] == before.files[n]
  }

  // ---------------------------------------------------------------------------------------------
  // System calls
  // ---------------------------------------------------------------------------------------------

  datatype Errno = Ok | Enoent | OtherError

  /** The kernel decides the outcome of each call freely. `patience` bounds how often reads and writes
      will still be interrupted or move nothing. `trace` records the disk after every call that may write
      to it, `random` the bytes read from /dev/urandom, and `failures` counts the calls that failed on
      their own account, interruptions not included. */
  class Kernel {
    var disk: Disk
    var patience: nat
    ghost var trace: seq<Disk>
    ghost var random: seq<Byte>
    ghost var failures: nat

    ghost predicate Valid()
      reads this
    {
      disk.Valid() && trace != [] && trace[|trace| - 1] == disk
    }

    constructor (disk: Disk, patience: nat)
      requires disk.Valid()
      ensures Valid() && this.disk == disk && trace == [disk]
    {
      this.disk, this.patience := disk, patience;
      trace, random, failures := [disk], [], 0;
    }

    method Unlink(path: string) returns (err: Errno)
      requires Valid()
      modifies this`failures, this`disk, this`trace
      ensures Valid() && trace == old(trace) + [disk]
      ensures err == Ok ==> path in old(disk).names && disk == old(disk).(names := old(disk).names - {path})
      ensures err == Enoent ==> path !in disk.names
      ensures err != Ok ==> disk == old(disk)
      ensures failures == old(failures) + if err == OtherError then 1 else 0
    {
      var fails: bool := *;
      if fails {
        err := OtherError;
      } else if path !in disk.names {
        err := Enoent;
      } else {
        err := Ok;
        disk := disk.(names := disk.names - {path});
      }
      if err == OtherError {
        failures := failures + 1;
      }
      trace := trace + [disk];
    }

    /** open() with O_CREAT | O_EXCL. */
    method CreateExclusive(path: string) returns (fd: Option<nat>)
      requires Valid()
      modifies this`failures, this`disk, this`trace
      ensures Valid() && trace == old(trace) + [disk]
      ensures fd.None? ==> disk == old(disk)
      ensures fd.Some? ==>
                && path !in old(disk).names && fd.value !in old(disk).files
                && disk == Disk(old(disk).names[path := fd.value], old(disk).files[fd.value := File("", 0)])
      ensures failures == old(failures) + if fd.None? && path !in old(disk).names then 1 else 0
    {
      var fails: bool := *;
      if fails || path in disk.names {
        fd := None;
      } else {
        var n :| n !in disk.files by { FreeNumber(disk.files.Keys); }
        fd := Some(n);
        disk := Disk(disk.names[path := n], disk.files[n := File("", 0)]);
      }
      if fd.None? && path !in disk.names {
        failures := failures + 1;
      }
      trace := trace + [disk];
    }

    /** fchmod() and fchown(): they do not touch names or contents. */
    method SetOwnerAndMode() returns (ok: bool)
      requires Valid()
      modifies this`failures, this`trace
      ensures Valid() && trace == old(trace) + [disk]
      ensures failures == old(failures) + if !ok then 1 else 0
    {
      ok := *;
      if !ok {
        failures := failures + 1;
      }
      trace := trace + [disk];
    }

    /** Writes some of `data` at the end of the file. The count is negative on an error. */
    method Write(fd: nat, data: string) returns (count: int, interrupted: bool)
      requires Valid() && fd in disk.files && data != []
      modifies this`failures, this`disk, this`trace, this`patience
      ensures Valid() && trace == old(trace) + [disk] && patience <= old(patience)
      ensures OnlyFileChanges(old(disk), disk, fd)
      ensures count <= |data|
      ensures disk.files[fd].content == old(disk).files[fd].content + (if count > 0 then data[..count] else "")
      ensures count == 0 || (count < 0 && interrupted) ==> patience < old(patience)
      ensures failures == old(failures) + if count < 0 && !interrupted then 1 else 0
    {
      count := *;
      interrupted := *;
      if patience == 0 && (count == 0 || (count < 0 && interrupted)) {
        count, interrupted := -1, false;
      }
      if count > |data| {
        count := |data|;
      }
      if count == 0 || (count < 0 && interrupted) {
        patience := patience - 1;
      }
      if count > 0 {
        var file := disk.files[fd];
        disk := disk.(files := disk.files[fd := file.(content := file.content + data[..count])]);
      }
      if count < 0 && !interrupted {
        failures := failures + 1;
      }
      trace := trace + [disk];
    }

    method Fsync(fd: nat) returns (ok: bool)
      requires Valid() && fd in disk.files
      modifies this`failures, this`disk, this`trace
      ensures Valid() && trace == old(trace) + [disk]
      ensures OnlyFileChanges(old(disk), disk, fd)
      ensures disk.files[fd].content == old(disk).files[fd].content
      ensures ok ==> disk.files[fd].synced == |disk.files[fd].content|
      ensures failures == old(failures) + if !ok then 1 else 0
    {
      ok := *;
      if ok {
        var content := disk.files[fd].content;
        disk := disk.(files := disk.files[fd := File(content, |content|)]);
      }
      if !ok {
        failures := failures + 1;
      }
      trace := trace + [disk];
    }

    method Close() returns (ok: bool)
      requires Valid()
      modifies this`failures, this`trace
      ensures Valid() && trace == old(trace) + [disk]
      ensures failures == old(failures) + if !ok then 1 else 0
    {
      ok := *;
      if !ok {
        failures := failures + 1;
      }
      trace := trace + [disk];
    }

    method Rename(from: string, to: string) returns (ok: bool)
      requires Valid() && from != to
      modifies this`failures, this`disk, this`trace
      ensures Valid() && trace == old(trace) + [disk]
      ensures !ok ==> disk == old(disk)
      ensures ok ==> from in old(disk).names
                     && disk == old(disk).(names := old(disk).names[to := old(disk).names[from]] - {from})
      ensures failures == old(failures) + if !ok && from in old(disk).names then 1 else 0
    {
      ok := *;
      if !ok && from in disk.names {
        failures := failures + 1;
      }
      if from !in disk.names {
        ok := false;
      }
      if ok {
        disk := disk.(names := disk.names[to := disk.names[from]] - {from});
      }
      trace := trace + [disk];
    }

    /** open() and one read() of at most `size` bytes; a regular file is read up to its end. */
    method OpenAndRead(path: string, size: nat) returns (data: Option<string>)
      requires Valid()
      modifies this`patience, this`failures
      ensures data.Some? ==> path in disk.names
                             && data.value == Prefix(disk.files[disk.names[path]].content, size)
      ensures failures == old(failures) + if data.None? && path in disk.names then 1 else 0
    {
      var fails: bool := *;
      if path !in disk.names {
        return None;
      }
      if fails {
        failures := failures + 1;
        return None;
      }
      // do { ... } while (count < 0 && errno == EINTR)
      var interrupted: bool := *;
      while interrupted && patience > 0
        invariant failures == old(failures)
        decreases patience
      {
        patience := patience - 1;
        interrupted := *;
      }
      fails := *;
      if fails {
        failures := failures + 1;
        return None;
      }
      return Some(Prefix(disk.files[disk.names[path]].content, size));
    }

    /** open() of /dev/urandom. */
    method OpenRandom() returns (ok: bool)
      modifies this`failures
      ensures failures == old(failures) + if !ok then 1 else 0
    {
      ok := *;
      if !ok {
        failures := failures + 1;
      }
    }

    /** One read() from /dev/urandom into `data` from `current` on. It fails if it gets nothing. */
    method ReadRandom(data: array<Byte>, current: nat) returns (count: int, interrupted: bool)
      requires current < data.Length
      modifies this`patience, this`failures, this`random, data
      ensures count <= data.Length - current && patience <= old(patience)
      ensures count < 0 && interrupted ==> patience < old(patience)
      ensures data[..current] == old(data[..current])
      ensures random == old(random) + if count > 0 then data[current..current + count] else []
      ensures failures == old(failures) + if count == 0 || (count < 0 && !interrupted) then 1 else 0
    {
      count := *;
      interrupted := *;
      if count > data.Length - current {
        count := data.Length - current;
      }
      if count < 0 && interrupted {
        if patience == 0 {
          interrupted := false;
        } else {
          patience := patience - 1;
        }
      }
      if count == 0 || (count < 0 && !interrupted) {
        failures := failures + 1;
      }
      var i := current;
      while i < current + count
        invariant current <= i <= data.Length
        invariant data[..current] == old(data[..current])
        modifies data
      {
        data[i] := *;
        i := i + 1;
      }
      if count > 0 {
        random := random + data[current..current + count];
      }
    }
  }

  function Prefix(text: string, size: nat): string {
    if |text| > size then text[..size] else text
  }

  lemma FreeNumber(used: set<nat>)
    ensures exists n: nat :: n !in used
  {
    var bound := BoundOf(used);
    assert bound !in used;
  }

  lemma BoundOf(used: set<nat>) returns (bound: nat)
    ensures forall n <- used :: n < bound
  {
    bound := 0;
    var left := used;
    while left != {}
      invariant left <= used && forall n <- used - left :: n < bound
      decreases left
    {
      var n :| n in left;
      assert used - (left - {n}) == (used - left) + {n};
      left := left - {n};
      bound := if n < bound then bound else n + 1;
    }
    assert used - left == used;
  }

  // ---------------------------------------------------------------------------------------------
  // The program
  // ---------------------------------------------------------------------------------------------

  /** Fills the array with random bytes. */
  method ReadFully(k: Kernel, data: array<Byte>) returns (ok: bool)
    modifies k`patience, k`failures, k`random, data
    ensures ok ==> k.random == old(k.random) + data[..]
    ensures ok <==> k.failures == old(k.failures)
    ensures k.failures >= old(k.failures)
  {
    var current := 0;
    while current < data.Length
      invariant 0 <= current <= data.Length
      invariant k.random == old(k.random) + data[..current]
      invariant k.failures == old(k.failures)
      decreases data.Length - current, k.patience
    {
      ghost var earlier := data[..current];
      var count, interrupted := k.ReadRandom(data, current);
      if count < 0 {
        if interrupted {
          assert data[..current] == earlier;
          continue;
        }
        return false;
      }
      if count == 0 {
        return false;
      }
      assert data[..current + count] == earlier + data[current..current + count];
      current := current + count;
    }
    assert data[..current] == data[..];
    return true;
  }

  /** A fallback address of six random bytes. */
  method GenerateMac(k: Kernel, address: array<Byte>) returns (ok: bool)
    requires address.Length == 6
    modifies k`patience, k`failures, k`random, address
    ensures ok ==> DrawnSince(old(k.random), k.random) && address[..] == LocalAddress(k.random[|old(k.random)|..])
    ensures ok <==> k.failures == old(k.failures)
    ensures k.failures >= old(k.failures)
  {
    var opens := k.OpenRandom();
    if !opens {
      return false;
    }
    ok := ReadFully(k, address);
    if !ok {
      return false;
    }
    ghost var bytes := address[..];
    assert k.random[|old(k.random)|..] == bytes;
    MakeLocalIsMasking(address[0]);
    address[0] := (((address[0] as bv8) & 0xfe) | 0x02) as int;
    assert address[..] == LocalAddress(bytes);
    return true;
  }

  /** Six more bytes have been read from /dev/urandom. */
  ghost predicate DrawnSince(before: seq<Byte>, random: seq<Byte>) {
    before <= random && |random| == |before| + 6
  }

  /** The text of the address made of those bytes. */
  ghost function DrawnText(before: seq<Byte>, random: seq<Byte>): string
    requires DrawnSince(before, random)
  {
    Print(LocalAddress(random[|before|..]))
  }

  /** Appends all of `data` to the file, however many pieces the kernel takes it in. */
  method WriteFully(k: Kernel, fd: nat, data: string) returns (ok: bool)
    requires k.Valid() && fd in k.disk.files
    modifies k`disk, k`trace, k`patience, k`failures
    ensures k.Valid() && old(k.trace) <= k.trace
    ensures forall d <- k.trace[|old(k.trace)|..] :: OnlyFileChanges(old(k.disk), d, fd)
    ensures OnlyFileChanges(old(k.disk), k.disk, fd)
    ensures ok ==> k.disk.files[fd].content == old(k.disk.files[fd].content) + data
    ensures ok <==> k.failures == old(k.failures)
    ensures k.failures >= old(k.failures)
  {
    var current := 0;
    while current < |data|
      invariant 0 <= current <= |data|
      invariant k.Valid() && old(k.trace) <= k.trace
      invariant forall d <- k.trace[|old(k.trace)|..] :: OnlyFileChanges(old(k.disk), d, fd)
      invariant OnlyFileChanges(old(k.disk), k.disk, fd)
      invariant k.disk.files[fd].content == old(k.disk.files[fd].content) + data[..current]
      invariant k.failures == old(k.failures)
      decreases |data| - current, k.patience
    {
      ghost var before := k.trace;
      var count, interrupted := k.Write(fd, data[current..]);
      assert k.trace[|old(k.trace)|..] == before[|old(k.trace)|..] + [k.disk];
      if count < 0 {
        if interrupted {
          continue;
        }
        return false;
      }
      assert data[..current + count] == data[..current] + data[current..][..count];
      current := current + count;
    }
    return true;
  }

  /** StoreMac() up to the rename: a new file with the text, on stable storage, under the temporary name. */
  method WriteTemporary(k: Kernel, temporary: string, text: string) returns (ok: bool)
    requires k.Valid()
    modifies k`disk, k`trace, k`patience, k`failures
    ensures k.Valid() && old(k.trace) <= k.trace
    ensures forall d <- k.trace[|old(k.trace)|..] :: Aside(old(k.disk), d, temporary)
    ensures Aside(old(k.disk), k.disk, temporary)
    ensures ok ==>
              && temporary in k.disk.names && k.disk.names[temporary] !in old(k.disk).files
              && k.disk.files[k.disk.names[temporary]] == File(text, |text|)
    ensures ok <==> k.failures == old(k.failures)
    ensures k.failures >= old(k.failures)
  {
    ghost var first, n := k.disk, |k.trace|;
    var created := CreateTemporary(k, temporary);
    if created.None? {
      return false;
    }
    ghost var early, empty, m := k.trace[n..], k.disk, |k.trace|;
    ok := FillFile(k, created.value, text);
    FillingStaysAside(first, empty, k.trace[m..] + [k.disk], created.value, temporary);
    assert k.trace[n..] == early + k.trace[m..];
    if !ok {
      ghost var before := k.trace[n..];
      var _ := k.Unlink(temporary);
      assert k.trace[n..] == before + [k.disk];
    }
  }

  /** Removes a stale temporary file and creates an empty one. */
  method CreateTemporary(k: Kernel, temporary: string) returns (fd: Option<nat>)
    requires k.Valid()
    modifies k`disk, k`trace, k`failures
    ensures k.Valid() && old(k.trace) <= k.trace
    ensures forall d <- k.trace[|old(k.trace)|..] :: Aside(old(k.disk), d, temporary)
    ensures Aside(old(k.disk), k.disk, temporary)
    ensures fd.Some? ==>
              && fd.value !in old(k.disk).files && temporary in k.disk.names && k.disk.names[temporary] == fd.value
              && fd.value in k.disk.files && k.disk.files[fd.value] == File("", 0)
    ensures fd.Some? <==> k.failures == old(k.failures)
    ensures k.failures >= old(k.failures)
  {
    ghost var n := |k.trace|;
    var err := k.Unlink(temporary);
    assert k.trace[n..] == [k.disk];
    if err == OtherError {
      return None;
    }
    ghost var unlinked := k.disk;
    fd := k.CreateExclusive(temporary);
    assert k.trace[n..] == [unlinked, k.disk];
  }

  lemma FillingStaysAside(first: Disk, empty: Disk, filling: seq<Disk>, fd: nat, temporary: string)
    requires Aside(first, empty, temporary) && fd !in first.files
    requires forall d <- filling :: OnlyFileChanges(empty, d, fd)
    ensures forall d <- filling :: Aside(first, d, temporary)
  {
  }

  /** The calls on the open file: permissions, the text, fsync, close. */
  method FillFile(k: Kernel, fd: nat, text: string) returns (ok: bool)
    requires k.Valid() && fd in k.disk.files && k.disk.files[fd] == File("", 0)
    modifies k`disk, k`trace, k`patience, k`failures
    ensures k.Valid() && old(k.trace) <= k.trace
    ensures forall d <- k.trace[|old(k.trace)|..] :: OnlyFileChanges(old(k.disk), d, fd)
    ensures OnlyFileChanges(old(k.disk), k.disk, fd)
    ensures ok ==> k.disk.files[fd] == File(text, |text|)
    ensures ok <==> k.failures == old(k.failures)
    ensures k.failures >= old(k.failures)
  {
    ok := k.SetOwnerAndMode();
    if ok {
      ok := WriteFully(k, fd, text);
    }
    if ok {
      ok := k.Fsync(fd);
    }
    var closed := k.Close();
    ok := ok && closed;
  }

  /** It succeeds exactly if no call fails. Every failure leaves the target as it was; success leaves a
      complete valid address on stable storage, made of six random bytes. And if the machine stops after
      any system call, the target holds that address, or what a stop before the first call could have left:
      its old contents, if they were on stable storage. The other names, and all files that were there,
      stay as they are throughout. */
  method StoreMac(k: Kernel, path: string) returns (ok: bool, ghost text: string)
    requires k.Valid()
    modifies k`disk, k`trace, k`patience, k`failures, k`random
    ensures k.Valid() && old(k.trace) <= k.trace
    ensures !ok ==> KeepsOld(old(k.disk), k.disk, path)
    ensures ok ==> path in k.disk.names && k.disk.files[k.disk.names[path]] == File(text, |text|)
                   && IsMac(text) && ValidContent(text) && IsLocalMac(text)
    ensures ok ==> DrawnSince(old(k.random), k.random) && text == DrawnText(old(k.random), k.random)
    ensures ok <==> k.failures == old(k.failures)
    ensures k.failures >= old(k.failures)
    ensures ok ==> k.disk.names[path] !in old(k.disk).files && k.trace != old(k.trace)
    ensures old(k.disk).files.Keys <= k.disk.files.Keys
    ensures forall p :: p != path && p != path + ".tmp" ==> KeepsOld(old(k.disk), k.disk, p)
    ensures AlwaysAtomic(k.trace[|old(k.trace)| - 1..], path, old(k.disk), text)
    ensures AlwaysSafe(k.trace[|old(k.trace)| - 1..], path, old(k.disk))
    ensures Quiet(k.trace[|old(k.trace)| - 1..], path) && Lasting(k.trace[|old(k.trace)| - 1..], path)
  {
    var printed;
    ok, printed := FallbackText(k);
    text := printed;
    ok := StoreText(k, path, ok, printed);
  }

  /** StoreMac() after the attempt to make an address. */
  method StoreText(k: Kernel, path: string, made: bool, text: string) returns (ok: bool)
    requires k.Valid() && (made ==> IsMac(text))
    modifies k`disk, k`trace, k`patience, k`failures
    ensures k.Valid() && old(k.trace) <= k.trace
    ensures !ok ==> KeepsOld(old(k.disk), k.disk, path) && (made ==> k.failures > old(k.failures))
    ensures ok ==> made && k.failures == old(k.failures)
    ensures !made ==> k.failures == old(k.failures)
    ensures ok ==> path in k.disk.names && k.disk.files[k.disk.names[path]] == File(text, |text|)
    ensures ok ==> k.disk.names[path] !in old(k.disk).files && k.trace != old(k.trace)
    ensures k.failures >= old(k.failures) && old(k.disk).files.Keys <= k.disk.files.Keys
    ensures forall p :: p != path && p != path + ".tmp" ==> KeepsOld(old(k.disk), k.disk, p)
    ensures AlwaysAtomic(k.trace[|old(k.trace)| - 1..], path, old(k.disk), text)
    ensures AlwaysSafe(k.trace[|old(k.trace)| - 1..], path, old(k.disk))
    ensures Quiet(k.trace[|old(k.trace)| - 1..], path) && Lasting(k.trace[|old(k.trace)| - 1..], path)
  {
    if !made {
      NothingHappened(k.trace, path, text);
      return false;
    }
    ok := InstallText(k, path, text);
    AtomicIsSafe(k.trace[|old(k.trace)| - 1..], path, old(k.disk), text);
  }

  /** A random address in text form. */
  method FallbackText(k: Kernel) returns (ok: bool, text: string)
    modifies k`patience, k`failures, k`random
    ensures ok ==> DrawnSince(old(k.random), k.random) && text == DrawnText(old(k.random), k.random)
    ensures ok ==> IsMac(text) && ValidContent(text) && IsLocalMac(text)
    ensures ok <==> k.failures == old(k.failures)
    ensures k.failures >= old(k.failures)
  {
    var address := new Byte[6];
    ok := GenerateMac(k, address);
    if !ok {
      return false, "";
    }
    text := Print(address[..]);
    GeneratedIsAcceptable(k.random[|old(k.random)|..]);
    PrintedIsValidContent(address[..]);
  }

  lemma NothingHappened(trace: seq<Disk>, path: string, text: string)
    requires trace != [] && trace[|trace| - 1].Valid()
    ensures var history := trace[|trace| - 1..];
            && AlwaysAtomic(history, path, trace[|trace| - 1], text)
            && AlwaysSafe(history, path, trace[|trace| - 1]) && Quiet(history, path) && Lasting(history, path)
  {
    var last := trace[|trace| - 1];
    assert trace[|trace| - 1..] == [last];
    StandingStillIsSafe(last, path);
    AsideIsAtomic([last], last, path + ".tmp", path, text);
  }

  /** The file operations of StoreMac(). */
  method InstallText(k: Kernel, path: string, text: string) returns (ok: bool)
    requires k.Valid()
    modifies k`disk, k`trace, k`patience, k`failures
    ensures k.Valid() && old(k.trace) <= k.trace
    ensures !ok ==> KeepsOld(old(k.disk), k.disk, path)
    ensures ok ==> path in k.disk.names && k.disk.files[k.disk.names[path]] == File(text, |text|)
    ensures ok ==> k.disk.names[path] !in old(k.disk).files && k.trace != old(k.trace)
    ensures old(k.disk).files.Keys <= k.disk.files.Keys
    ensures forall p :: p != path && p != path + ".tmp" ==> KeepsOld(old(k.disk), k.disk, p)
    ensures AlwaysAtomic(k.trace[|old(k.trace)| - 1..], path, old(k.disk), text)
    ensures Quiet(k.trace[|old(k.trace)| - 1..], path) && Lasting(k.trace[|old(k.trace)| - 1..], path)
    ensures ok <==> k.failures == old(k.failures)
    ensures k.failures >= old(k.failures)
  {
    ghost var first, start := k.disk, |k.trace| - 1;
    var temporary := path + ".tmp";
    ok := WriteTemporary(k, temporary, text);
    ghost var aside, written := k.trace[start..], k.disk;
    assert aside == [first] + k.trace[start + 1..];
    if ok {
      ok := k.Rename(temporary, path);
      assert k.trace[start..] == aside + [k.disk];
      if ok {
        AsideThenInstall(aside, k.disk, first, temporary, path, text);
        RenamedKeepsOthers(first, written, k.disk, path);
        InstallIsQuiet(aside, k.disk, path);
        return;
      }
      var _ := k.Unlink(temporary);
      assert k.trace[start..] == aside + [written] + [k.disk];
    }
    assert AllAside(k.trace[start..], first, temporary);
    AsideIsAtomic(k.trace[start..], first, temporary, path, text);
    AsideIsQuiet(k.trace[start..], path);
    AsideKeepsOthers(first, k.disk, path);
  }

  lemma RenamedKeepsOthers(first: Disk, written: Disk, d: Disk, path: string)
    requires first.Valid() && Aside(first, written, path + ".tmp") && path + ".tmp" in written.names
    requires d == written.(names := written.names[path := written.names[path + ".tmp"]] - {path + ".tmp"})
    ensures OthersKept(first, d, path) && FilesKept(first, d)
  {
    AsideKeepsOthers(first, written, path);
    forall p | p != path && p != path + ".tmp"
      ensures KeepsOld(first, d, p)
    {
      assert KeepsOld(first, written, p);
    }
  }

  // ---------------------------------------------------------------------------------------------
  // The whole program
  // ---------------------------------------------------------------------------------------------

  const BLUETOOTH_PATH := "/data/misc/bluedroid/macbt"
  const WIFI_PATH := "/data/misc/wifi/macwifi"

  ghost predicate HoldsMac(d: Disk, path: string)
    requires d.Valid()
  {
    path in d.names && ValidContent(d.files[d.names[path]].content)
  }

  method TrimmedText(data: string) returns (text: string)
    ensures text == TrimEnd(data)
  {
    text := data;
    while text != [] && IsSpace(text[|text| - 1])
      invariant TrimEnd(text) == TrimEnd(data)
    {
      text := text[..|text| - 1];
    }
  }

  /** True exactly for a file that holds an address and that this call managed to open and read. */
  method HasValidMac(k: Kernel, path: string) returns (valid: bool, ghost readable: bool)
    requires k.Valid()
    modifies k`patience, k`failures
    ensures valid <==> readable && HoldsMac(k.disk, path)
    ensures k.failures >= old(k.failures)
    ensures !readable ==> path !in k.disk.names || k.failures > old(k.failures)
  {
    var data := k.OpenAndRead(path, READ_SIZE);
    readable := data.Some?;
    if data.None? || data.value == [] {
      return false, readable;
    }
    var text := TrimmedText(data.value);
    var address := new Byte[6];
    valid := ParseMac(text, address);
  }

  /** The file at `path` is the one that was there, exactly if it was valid and read. */
  ghost predicate KeptIffRead(base: Disk, d: Disk, path: string, readable: bool)
    requires base.Valid()
  {
    && path in d.names
    && (d.names[path] in base.files <==> readable && HoldsMac(base, path))
    && (readable && HoldsMac(base, path) ==> KeepsOld(base, d, path))
  }

  /** The path was not found valid, and it is as it was. */
  ghost predicate LeftInvalid(base: Disk, d: Disk, path: string, readable: bool)
    requires base.Valid()
  {
    !(readable && HoldsMac(base, path)) && KeepsOld(base, d, path)
  }

  /** A new file at the path holds a locally administered address. */
  ghost predicate ReplacedIsLocal(base: Disk, d: Disk, path: string) {
    path in d.names && d.names[path] !in base.files ==>
      d.names[path] in d.files && IsLocalMac(d.files[d.names[path]].content)
  }

  /** What EnsureMac() makes of a path: on success it holds an address, in the file that was there exactly if
      that was valid and read, and a replacement is locally administered; on failure it is left as it was,
      not found valid. */
  ghost predicate Ensured(base: Disk, d: Disk, path: string, ok: bool, readable: bool)
    requires base.Valid() && d.Valid()
  {
    if ok then HoldsMac(d, path) && KeptIffRead(base, d, path, readable) && ReplacedIsLocal(base, d, path)
    else LeftInvalid(base, d, path, readable)
  }

  /** Nothing happens to the path afterwards. */
  lemma EnsuredStays(base: Disk, between: Disk, d: Disk, path: string, ok: bool, readable: bool)
    requires base.Valid() && between.Valid() && d.Valid() && base.files.Keys <= between.files.Keys
    requires Ensured(base, between, path, ok, readable) && KeepsOld(between, d, path)
    ensures Ensured(base, d, path, ok, readable)
  {
  }

  /** Nothing has happened to the path before. */
  lemma EnsuredLater(base: Disk, between: Disk, d: Disk, path: string, ok: bool, readable: bool)
    requires base.Valid() && between.Valid() && d.Valid() && base.files.Keys <= between.files.Keys
    requires KeepsOld(base, between, path) && Ensured(between, d, path, ok, readable)
    ensures Ensured(base, d, path, ok, readable)
  {
  }

  /** A valid file that could be read is left alone. Otherwise success means it was replaced, even if it
      was valid: then the path names a file that did not exist before, which holds the address made of the
      six random bytes read for it. It fails only if some call fails. */
  method EnsureMac(k: Kernel, path: string) returns (ok: bool, ghost readable: bool)
    requires k.Valid()
    modifies k`disk, k`trace, k`patience, k`failures, k`random
    ensures k.Valid() && old(k.trace) <= k.trace && old(k.disk).files.Keys <= k.disk.files.Keys
    ensures Ensured(old(k.disk), k.disk, path, ok, readable)
    ensures k.failures >= old(k.failures) + if ok then 0 else 1
    ensures !readable ==> path !in old(k.disk).names || k.failures > old(k.failures)
    ensures readable && old(HoldsMac(k.disk, path)) ==> ok && k.disk == old(k.disk) && k.trace == old(k.trace)
    ensures ok && !(readable && old(HoldsMac(k.disk, path))) ==>
              && k.trace != old(k.trace) && DrawnSince(old(k.random), k.random)
              && k.disk.files[k.disk.names[path]].content == DrawnText(old(k.random), k.random)
    ensures forall p :: p != path && p != path + ".tmp" ==> KeepsOld(old(k.disk), k.disk, p)
    ensures SafePhase(k.trace[|old(k.trace)| - 1..], path)
  {
    var valid;
    valid, readable := HasValidMac(k, path);
    if valid {
      NothingHappened(k.trace, path, "");
      return true, readable;
    }
    ghost var text;
    ok, text := StoreMac(k, path);
  }

  /** Which of the four times that main() looks at a file it managed to open and read it. */
  datatype Looks = Looks(bluetoothFirst: bool, wifiFirst: bool, bluetooth: bool, wifi: bool) {
    predicate All() {
      bluetoothFirst && wifiFirst && bluetooth && wifi
    }
  }

  ghost predicate BothHold(d: Disk)
    requires d.Valid()
  {
    HoldsMac(d, BLUETOOTH_PATH) && HoldsMac(d, WIFI_PATH)
  }

  /** What the vendor helper may have changed before main() ensures the addresses. */
  ghost function AfterHelper(start: Disk, helped: Disk, seen: bool): Disk
    requires start.Valid()
  {
    if seen && BothHold(start) then start else helped
  }


  /** main() after the vendor helper. */
  method EnsureBoth(k: Kernel)
    returns (exitCode: int, ghost bluetooth: bool, ghost wifi: bool, ghost bluetoothOk: bool, ghost wifiOk: bool)
    requires k.Valid()
    modifies k`disk, k`trace, k`patience, k`failures, k`random
    ensures k.Valid() && old(k.trace) <= k.trace
    ensures exitCode == if bluetoothOk && wifiOk then 0 else 1
    ensures Ensured(old(k.disk), k.disk, BLUETOOTH_PATH, bluetoothOk, bluetooth)
    ensures Ensured(old(k.disk), k.disk, WIFI_PATH, wifiOk, wifi)
    ensures k.failures >= old(k.failures) + (if bluetoothOk then 0 else 1) + (if wifiOk then 0 else 1)
    ensures k.failures == old(k.failures) && old(BothHold(k.disk)) ==> bluetooth && wifi
    ensures bluetooth && wifi && old(BothHold(k.disk)) ==>
              exitCode == 0 && k.disk == old(k.disk) && k.trace == old(k.trace)
    ensures exitCode == 0 ==> (k.trace == old(k.trace) <==> bluetooth && wifi && old(BothHold(k.disk)))
    ensures AlwaysSafe(k.trace[|old(k.trace)| - 1..], BLUETOOTH_PATH, old(k.disk))
    ensures AlwaysSafe(k.trace[|old(k.trace)| - 1..], WIFI_PATH, old(k.disk))
  {
    ghost var t0, base := k.trace, k.disk;
    PathsDiffer();
    var firstOk, secondOk;
    firstOk, bluetooth := EnsureMac(k, BLUETOOTH_PATH);
    ghost var t1, between := k.trace, k.disk;
    assert KeepsOld(base, between, WIFI_PATH);
    secondOk, wifi := EnsureMac(k, WIFI_PATH);
    assert KeepsOld(between, k.disk, BLUETOOTH_PATH);
    bluetoothOk, wifiOk := firstOk, secondOk;
    BothPathsEnsured(base, between, k.disk, firstOk, bluetooth, secondOk, wifi);
    PhasesSafe(t0, t1, k.trace, t1[|t0| - 1..], k.trace[|t1| - 1..], BLUETOOTH_PATH, WIFI_PATH);
    exitCode := if firstOk && secondOk then 0 else 1;
  }

  lemma BothPathsEnsured(base: Disk, between: Disk, d: Disk, bluetoothOk: bool, bluetooth: bool,
                         wifiOk: bool, wifi: bool)
    requires base.Valid() && between.Valid() && d.Valid() && base.files.Keys <= between.files.Keys
    requires Ensured(base, between, BLUETOOTH_PATH, bluetoothOk, bluetooth) && KeepsOld(base, between, WIFI_PATH)
    requires Ensured(between, d, WIFI_PATH, wifiOk, wifi) && KeepsOld(between, d, BLUETOOTH_PATH)
    ensures Ensured(base, d, BLUETOOTH_PATH, bluetoothOk, bluetooth) && Ensured(base, d, WIFI_PATH, wifiOk, wifi)
  {
    EnsuredStays(base, between, d, BLUETOOTH_PATH, bluetoothOk, bluetooth);
    EnsuredLater(base, between, d, WIFI_PATH, wifiOk, wifi);
  }

  lemma PhasesSafe(t0: seq<Disk>, t1: seq<Disk>, t2: seq<Disk>, one: seq<Disk>, two: seq<Disk>, path: string,
                   other: string)
    requires t0 != [] && t0 <= t1 <= t2 && one == t1[|t0| - 1..] && two == t2[|t1| - 1..]
    requires SafePhase(one, path) && SafePhase(two, other)
    requires path != other && path != other + ".tmp" && other != path + ".tmp"
    ensures AlwaysSafe(t2[|t0| - 1..], path, t0[|t0| - 1])
    ensures AlwaysSafe(t2[|t0| - 1..], other, t0[|t0| - 1])
  {
    JoinedHistory(t2, |t0|, |t1|, one);
    assert one[0] == t0[|t0| - 1];
    OneAfterTheOther(one, two, path, other);
  }

  lemma JoinedHistory(trace: seq<Disk>, n: nat, m: nat, one: seq<Disk>)
    requires 0 < n <= m <= |trace| && one == trace[..m][n - 1..]
    ensures trace[n - 1..] == one + trace[m - 1..][1..]
    ensures Follows(one, trace[m - 1..])
  {
  }

  /** main(). `helped` is the disk the vendor helper would leave behind, and `start` the moment after it.
      Each path is then ensured, whatever becomes of the other; the exit code tells whether both were; and
      no path fails without a failing call. From that moment on, whenever the machine stops, each path
      holds a valid address or what a stop then could have left there. */
  method Run(k: Kernel, helped: Disk)
    returns (exitCode: int, ghost looks: Looks, ghost start: nat, ghost bluetoothOk: bool, ghost wifiOk: bool)
    requires k.Valid() && helped.Valid()
    modifies k`disk, k`trace, k`patience, k`failures, k`random
    ensures k.Valid() && old(k.trace) <= k.trace
    ensures exitCode == if bluetoothOk && wifiOk then 0 else 1
    ensures exitCode == 0 ==> BothHold(k.disk)
    ensures k.failures >= old(k.failures) + (if bluetoothOk then 0 else 1) + (if wifiOk then 0 else 1)
    ensures k.failures == old(k.failures) && old(BothHold(k.disk)) ==> looks.All()
    ensures looks.All() && old(BothHold(k.disk)) ==> exitCode == 0 && k.disk == old(k.disk) && k.trace == old(k.trace)
    ensures exitCode == 0 ==> (k.trace == old(k.trace) <==> looks.All() && old(BothHold(k.disk)))
    ensures |old(k.trace)| - 1 <= start <= |old(k.trace)| && start < |k.trace|
    ensures k.trace[start] == AfterHelper(old(k.disk), helped, looks.bluetoothFirst && looks.wifiFirst)
    ensures k.trace[start].Valid()
    ensures Ensured(k.trace[start], k.disk, BLUETOOTH_PATH, bluetoothOk, looks.bluetooth)
    ensures Ensured(k.trace[start], k.disk, WIFI_PATH, wifiOk, looks.wifi)
    ensures AlwaysSafe(k.trace[start..], BLUETOOTH_PATH, k.trace[start])
    ensures AlwaysSafe(k.trace[start..], WIFI_PATH, k.trace[start])
  {
    ghost var bluetoothFirst, wifiFirst, bluetooth, wifi;
    bluetoothFirst, wifiFirst := LookAndHelp(k, helped);
    start := |k.trace| - 1;
    exitCode, bluetooth, wifi, bluetoothOk, wifiOk := EnsureBoth(k);
    looks := Looks(bluetoothFirst, wifiFirst, bluetooth, wifi);
  }

  /** main() up to the vendor helper, which runs unless both files are valid and were read. */
  method LookAndHelp(k: Kernel, helped: Disk) returns (ghost bluetoothFirst: bool, ghost wifiFirst: bool)
    requires k.Valid() && helped.Valid()
    modifies k`disk, k`trace, k`patience, k`failures
    ensures k.Valid()
    ensures k.disk == AfterHelper(old(k.disk), helped, bluetoothFirst && wifiFirst)
    ensures k.trace == if bluetoothFirst && wifiFirst && old(BothHold(k.disk)) then old(k.trace)
                       else old(k.trace) + [k.disk]
    ensures k.failures >= old(k.failures)
    ensures k.failures == old(k.failures) && old(BothHold(k.disk)) ==> bluetoothFirst && wifiFirst
  {
    wifiFirst := false;
    var valid;
    valid, bluetoothFirst := HasValidMac(k, BLUETOOTH_PATH);
    if valid {
      valid, wifiFirst := HasValidMac(k, WIFI_PATH);
    }
    if !valid {
      k.disk := helped;
      k.trace := k.trace + [helped];
    }
  }

  lemma PathsDiffer()
    ensures BLUETOOTH_PATH != WIFI_PATH && BLUETOOTH_PATH != WIFI_PATH + ".tmp" && WIFI_PATH != BLUETOOTH_PATH + ".tmp"
  {
    assert BLUETOOTH_PATH[11] == 'b' && WIFI_PATH[11] == 'w' && (WIFI_PATH + ".tmp")[11] == 'w';
    assert (BLUETOOTH_PATH + ".tmp")[11] == 'b';
  }

  /** Once a run has returned 0, a second run that opens and reads the files each time it looks at them
      returns 0 and makes no call that writes; and a second run that returns 0 makes none exactly if it
      does. If only a look in EnsureMac() fails, a valid address is replaced by a new one. `looks` is what
      the second run managed to read. */
  method RunTwice(k: Kernel, helped: Disk, helpedAgain: Disk)
    returns (firstCode: int, secondCode: int, ghost looks: Looks,
             ghost afterFirst: Disk, ghost traceAfterFirst: seq<Disk>, ghost failuresAfterFirst: nat)
    requires k.Valid() && helped.Valid() && helpedAgain.Valid()
    modifies k`disk, k`trace, k`patience, k`failures, k`random
    ensures k.Valid() && afterFirst.Valid()
    ensures firstCode == 0 ==> BothHold(afterFirst)
    ensures firstCode == 0 && k.failures == failuresAfterFirst ==> looks.All()
    ensures firstCode == 0 && looks.All() ==> secondCode == 0 && k.disk == afterFirst && k.trace == traceAfterFirst
    ensures firstCode == 0 && secondCode == 0 ==> (k.trace == traceAfterFirst <==> looks.All())
    ensures firstCode == 0 && secondCode == 0 && looks.bluetoothFirst && looks.wifiFirst ==>
              && BLUETOOTH_PATH in k.disk.names && WIFI_PATH in k.disk.names
              && (k.disk.names[BLUETOOTH_PATH] in afterFirst.files <==> looks.bluetooth)
              && (k.disk.names[WIFI_PATH] in afterFirst.files <==> looks.wifi)
  {
    ghost var looksOfFirst, start, bluetoothOk, wifiOk;
    firstCode, looksOfFirst, start, bluetoothOk, wifiOk := Run(k, helped);
    afterFirst, traceAfterFirst, failuresAfterFirst := k.disk, k.trace, k.failures;
    secondCode, looks, start, bluetoothOk, wifiOk := Run(k, helpedAgain);
  }
}
