/** Taking the binary out of a release archive: extractBinary, DownloadAndExtract
    and Cleanup of the downloader. */
module Extract {
  import opened Options
  import opened Text
  import opened Disk
  import Paths
  import Replace

  const MAX_EXTRACT_SIZE: nat := 500 * 1024 * 1024

  /** One entry of a tar stream. */
  datatype TarEntry = TarEntry(name: string, regular: bool, mode: Mode, data: string)

  /** What the gzip and tar readers deliver: entries, then the end or an error. */
  datatype Archive = Archive(readable: bool, entries: seq<TarEntry>, broken: bool)

  predicate Matches(e: TarEntry, binaryName: string) {
    Paths.Base(e.name) == binaryName && e.regular
  }

  /** The entry that counts. */
  function FirstMatch(entries: seq<TarEntry>, binaryName: string): Option<TarEntry> {
    if entries == [] then None
    else if Matches(entries[0], binaryName) then Some(entries[0])
    else FirstMatch(entries[1..], binaryName)
  }

  /** What is kept of an entry's data: all of it, up to 500 MiB. */
  function Limited(data: string): (kept: string)
    ensures |data| <= 524288000 ==> kept == data
    ensures |data| > 524288000 ==> kept == data[..524288000]
  {
    if |data| <= MAX_EXTRACT_SIZE then data else data[..MAX_EXTRACT_SIZE]
  }

  /** Nothing after the first match has any influence. */
  lemma {:induction false} FirstMatchDecides(a: seq<TarEntry>, b: seq<TarEntry>, binaryName: string)
    ensures FirstMatch(a + b, binaryName) == (if FirstMatch(a, binaryName).Some? then FirstMatch(a, binaryName) else FirstMatch(b, binaryName))
    ensures FirstMatch(a, binaryName).None? <==> forall e | e in a :: !Matches(e, binaryName)
  {
    if a == [] {
      assert a + b == b;
    } else {
      assert (a + b)[1..] == a[1..] + b;
      FirstMatchDecides(a[1..], b, binaryName);
      assert forall e | e in a :: e == a[0] || e in a[1..];
    }
  }

  /** The first regular entry with the binary's base name is the i-th. */
  ghost predicate FirstAt(entries: seq<TarEntry>, i: int, binaryName: string) {
    && 0 <= i < |entries| && entries[i].regular && Paths.Base(entries[i].name) == binaryName
    && forall j | 0 <= j < i :: !(entries[j].regular && Paths.Base(entries[j].name) == binaryName)
  }

  lemma {:induction false} FirstMatchIsFirst(entries: seq<TarEntry>, binaryName: string) returns (i: int)
    ensures FirstMatch(entries, binaryName).Some? ==> FirstAt(entries, i, binaryName) && FirstMatch(entries, binaryName).value == entries[i]
    ensures FirstMatch(entries, binaryName).None? ==> forall e | e in entries :: !(e.regular && Paths.Base(e.name) == binaryName)
  {
    i := 0;
    if entries != [] && !Matches(entries[0], binaryName) {
      var k := FirstMatchIsFirst(entries[1..], binaryName);
      i := k + 1;
      if FirstMatch(entries, binaryName).Some? {
        forall j | 0 <= j < i ensures !(entries[j].regular && Paths.Base(entries[j].name) == binaryName) {
          if j > 0 { assert entries[j] == entries[1..][j - 1]; }
        }
      } else {
        assert forall e | e in entries :: e == entries[0] || e in entries[1..];
      }
    }
  }

  datatype Problem =
    | TempDirFailed | DownloadFailed | Unreadable | TarBroken | NotFound | BadPath | CreateFailed
    | CopyFailed | TooSmall | ChmodFailed

  datatype Outcome = Extracted(path: string) | Failed(problem: Problem)

  /** Files outside a directory. */
  function Outside(m: Files, dir: string): Files { map p | p in m && !Under(dir, p) :: m[p] }

  /** At every recorded point the files outside the directory are the same. */
  ghost predicate Contained(h: seq<Files>, from: nat, before: Files, dir: string) {
    forall i | from <= i < |h| :: Outside(h[i], dir) == Outside(before, dir)
  }

  lemma ContainedThen(h: seq<Files>, h0: seq<Files>, from: nat, before: Files, mid: Files, dir: string)
    requires h0 <= h && Contained(h0, from, before, dir) && Outside(mid, dir) == Outside(before, dir)
    requires Contained(h, |h0|, mid, dir)
    ensures Contained(h, from, before, dir)
  {
    forall i | from <= i < |h| ensures Outside(h[i], dir) == Outside(before, dir) {
      if i < |h0| { assert h[i] == h0[i]; }
    }
  }

  lemma InsideChange(m: Files, m': Files, p: string, dir: string)
    requires Under(dir, p) && m' - {p} == m - {p}
    ensures Outside(m', dir) == Outside(m, dir)
  {
    forall q | !Under(dir, q) ensures (q in m <==> q in m') && (q in m ==> m'[q] == m[q]) {
      assert q in m <==> q in m - {p};
      assert q in m' <==> q in m' - {p};
      assert q in m ==> m[q] == (m - {p})[q];
    }
  }

  lemma OverwriteMore(text: string, data: string, k: nat, n: nat)
    requires k + n <= |data|
    ensures k <= |Overwrite(text, 0, data[..k])|
    ensures Overwrite(Overwrite(text, 0, data[..k]), k, data[k..k + n]) == Overwrite(text, 0, data[..k + n])
  {
    assert data[..k + n] == data[..k] + data[k..k + n];
  }

  /** The file is opened without O_TRUNC: what was there before is fully replaced
      exactly if it was not longer. */
  lemma StaleTailExactly(text: string, data: string)
    ensures Overwrite(text, 0, data) == data <==> |text| <= |data|
  {
    assert |Overwrite(text, 0, data)| == if |text| <= |data| then |data| else |text|;
  }

  lemma Shorter(data: string, k: nat, size: nat, n: nat)
    requires k + size <= |data| && n <= size
    ensures data[k..k + size][..n] == data[k..k + n]
  {
  }

  /** io.Copy from a limited reader over an opened file: pieces of any size. */
  method CopyLimited(disk: Disk, path: string, data: string) returns (written: nat, ok: bool)
    requires path in disk.files
    modifies disk
    ensures disk.dirs == old(disk.dirs) && disk.stuck == old(disk.stuck)
    ensures old(disk.history) <= disk.history
    ensures forall i | |old(disk.history)| <= i < |disk.history| :: disk.history[i] - {path} == old(disk.files) - {path}
    ensures disk.files - {path} == old(disk.files) - {path} && path in disk.files
    ensures old(disk.faults) <= disk.faults && (disk.faults == old(disk.faults) ==> ok)
    ensures ok ==> written == |Limited(data)|
                   && disk.files[path].data == Overwrite(old(disk.files[path].data), 0, Limited(data))
  {
    var all := Limited(data);
    ghost var text := disk.files[path].data;
    written := 0;
    assert Overwrite(text, 0, all[..0]) == text;
    while written < |all|
      invariant written <= |all| && path in disk.files
      invariant disk.files[path].data == Overwrite(text, 0, all[..written])
      invariant disk.dirs == old(disk.dirs) && disk.stuck == old(disk.stuck)
      invariant disk.files - {path} == old(disk.files) - {path}
      invariant old(disk.history) <= disk.history && old(disk.faults) <= disk.faults
      invariant forall i | |old(disk.history)| <= i < |disk.history| :: disk.history[i] - {path} == old(disk.files) - {path}
      decreases |all| - written
    {
      var size: nat :| 0 < size <= |all| - written;
      var piece := all[written..written + size];
      OverwriteMore(text, all, written, 0);
      var n, done := disk.WriteAt(path, written, piece);
      OverwriteMore(text, all, written, n);
      Shorter(all, written, size, n);
      written := written + n;
      if !done { return written, false; }
    }
    assert all[..written] == all;
    var hit := disk.Disturbed();  // the tar reader may fail as well
    ok := !hit;
  }

  /** A temporary directory's name: clean, and neither "/" nor ".". */
  predicate TempName(dir: string) { Paths.Clean(dir) == dir && dir != "/" && dir != "." }

  lemma PathIsInside(dir: string, binaryName: string)
    requires TempName(dir) && Paths.SanitizePath(dir, binaryName).Some?
    ensures var p := Paths.SanitizePath(dir, binaryName).value; p == dir || Under(dir, p)
  {
    Paths.SanitizeExactly(dir, binaryName);
    var p := Paths.SanitizePath(dir, binaryName).value;
    if p != dir {
      assert p[..|dir + "/"|] == dir + "/";
    }
  }

  ghost predicate Confined(h: seq<Files>, from: nat, m: Files, before: Files, path: string) {
    (forall i | from <= i < |h| :: h[i] - {path} == before - {path}) && m - {path} == before - {path}
  }

  /** Writes one entry to its place: create, copy, check the size, make executable. */
  method WriteEntry(disk: Disk, path: string, e: TarEntry) returns (r: Outcome)
    modifies disk
    ensures disk.dirs == old(disk.dirs) && (old(disk.stuck) ==> disk.stuck)
    ensures old(disk.history) <= disk.history
    ensures Confined(disk.history, |old(disk.history)|, disk.files, old(disk.files), path)
    ensures path in disk.dirs ==> r.Failed? && disk.files == old(disk.files)
    ensures path in disk.dirs ==> forall i | |old(disk.history)| <= i < |disk.history| :: disk.history[i] == old(disk.files)
    ensures old(disk.faults) <= disk.faults
    ensures disk.faults == old(disk.faults) ==> (r.Extracted? <==> path !in disk.dirs && |e.data| >= 102400)
    ensures r.Extracted? ==>
      && r.path == path && path in disk.files && disk.files[path].mode == 0x1ED && Executable(0x1ED)
      && |e.data| >= 102400
      && disk.files[path].data == Overwrite(if path in old(disk.files) then old(disk.files)[path].data else "", 0, Limited(e.data))
    ensures r.Failed? ==> r.problem in {CreateFailed, CopyFailed, TooSmall, ChmodFailed}
  {
    var created := disk.Open(path, e.mode, false);
    assert disk.files - {path} == old(disk.files) - {path};
    if !created { return Failed(CreateFailed); }
    var written, copied := CopyLimited(disk, path, e.data);
    if !copied { return Failed(CopyFailed); }
    if written < Replace.MIN_BINARY_SIZE {
      disk.Remove(path);
      return Failed(TooSmall);
    }
    var changed := disk.SetMeta(path, Some(0x1ED), None);  // 0755
    assert disk.files - {path} == old(disk.files) - {path};
    if !changed { return Failed(ChmodFailed); }
    return Extracted(path);
  }

  lemma ConfinedContained(h: seq<Files>, from: nat, m: Files, before: Files, path: string, dir: string)
    requires Confined(h, from, m, before, path) && Under(dir, path)
    ensures Contained(h, from, before, dir) && Outside(m, dir) == Outside(before, dir)
  {
    forall i | from <= i < |h| ensures Outside(h[i], dir) == Outside(before, dir) {
      InsideChange(before, h[i], path, dir);
    }
    InsideChange(before, m, path, dir);
  }

  /** Nothing stands against the extraction. */
  ghost predicate Extractable(archive: Archive, binaryName: string, destDir: string, dirs: set<string>) {
    && archive.readable
    && (var m := FirstMatch(archive.entries, binaryName); m.Some? && |m.value.data| >= 102400)
    && (var p := Paths.SanitizePath(destDir, binaryName); p.Some? && p.value !in dirs)
  }

  /** For every sequence of entries: the first regular entry with the binary's base
      name is written out, limited in size, and no other; none means "not found",
      and a first match that is too small is an error whatever follows it. Files
      outside the directory are never touched. */
  method ExtractBinary(disk: Disk, archive: Archive, binaryName: string, destDir: string) returns (r: Outcome)
    requires TempName(destDir) && destDir in disk.dirs
    modifies disk
    ensures disk.dirs == old(disk.dirs) && (old(disk.stuck) ==> disk.stuck)
    ensures old(disk.history) <= disk.history
    ensures Contained(disk.history, |old(disk.history)|, old(disk.files), destDir)
    ensures Outside(disk.files, destDir) == Outside(old(disk.files), destDir)
    ensures old(disk.faults) <= disk.faults
    ensures disk.faults == old(disk.faults) ==> (r.Extracted? <==> Extractable(archive, binaryName, destDir, disk.dirs))
    ensures archive.readable && FirstMatch(archive.entries, binaryName).None? ==> r == Failed(if archive.broken then TarBroken else NotFound)
    ensures r == Failed(NotFound) ==> FirstMatch(archive.entries, binaryName).None? && !archive.broken
    ensures r.Extracted? ==>
      && FirstMatch(archive.entries, binaryName).Some?
      && Paths.SanitizePath(destDir, binaryName) == Some(r.path)
      && Under(destDir, r.path) && r.path in disk.files && disk.files[r.path].mode == 0x1ED && Executable(0x1ED)
      && (var kept := Limited(FirstMatch(archive.entries, binaryName).value.data);
          && |kept| >= 102400
          && disk.files[r.path].data == Overwrite(if r.path in old(disk.files) then old(disk.files)[r.path].data else "", 0, kept))
  {
    if !archive.readable { return Failed(Unreadable); }
    var entries := archive.entries;
    for i := 0 to |entries|
      invariant FirstMatch(entries[i..], binaryName) == FirstMatch(entries, binaryName)
      invariant disk.files == old(disk.files) && disk.history == old(disk.history) && disk.faults == old(disk.faults)
      invariant disk.dirs == old(disk.dirs) && disk.stuck == old(disk.stuck)
    {
      assert entries[i..][1..] == entries[i + 1..];
      var name := Paths.Base(entries[i].name);
      if name != binaryName || !entries[i].regular { continue; }

      var path := Paths.SanitizePath(destDir, binaryName);
      if path.None? { return Failed(BadPath); }
      PathIsInside(destDir, binaryName);
      r := WriteEntry(disk, path.value, entries[i]);
      if Under(destDir, path.value) {
        ConfinedContained(disk.history, |old(disk.history)|, disk.files, old(disk.files), path.value, destDir);
      }
      return;
    }
    return Failed(if archive.broken then TarBroken else NotFound);
  }

  // ----- Downloader

  class Downloader {
    var tempDir: string

    constructor ()
      ensures tempDir == ""
    {
      tempDir := "";
    }

    /** downloadFile: any part of any contents may arrive. */
    method DownloadFile(disk: Disk, destPath: string, body: string) returns (ok: bool)
      modifies disk
      ensures disk.dirs == old(disk.dirs) && disk.stuck == old(disk.stuck)
      ensures old(disk.history) <= disk.history
      ensures Confined(disk.history, |old(disk.history)|, disk.files, old(disk.files), destPath)
      ensures old(disk.faults) <= disk.faults && (disk.faults == old(disk.faults) ==> (ok <==> destPath !in disk.dirs))
    {
      var hit := disk.Disturbed();  // the request, its status
      if hit { return false; }
      var created := disk.Open(destPath, 0x1B6, true);  // 0666
      assert disk.files - {destPath} == old(disk.files) - {destPath};
      if !created { return false; }
      var _, copied := CopyLimited(disk, destPath, body);
      return copied;
    }

    /** Everything happens inside a new directory. */
    method DownloadAndExtract(disk: Disk, tempName: string, body: string, archive: Archive, binaryName: string) returns (r: Outcome)
      requires TempName(tempName) && tempDir == ""
      modifies this, disk
      ensures (old(disk.stuck) ==> disk.stuck) && old(disk.history) <= disk.history
      ensures old(disk.faults) <= disk.faults
      ensures disk.faults == old(disk.faults) ==>
        (r.Extracted? <==> old(disk.Vacant(tempName)) && Extractable(archive, binaryName, tempName, old(disk.dirs) + {tempName}))
      ensures tempDir == "" ==> r.Failed? && disk.files == old(disk.files) && disk.dirs == old(disk.dirs)
      ensures tempDir == "" ==> forall i | |old(disk.history)| <= i < |disk.history| :: disk.history[i] == old(disk.files)
      ensures tempDir != "" ==>
        && tempDir == tempName && tempName !in old(disk.dirs) && disk.dirs == old(disk.dirs) + {tempName}
        && Outside(disk.files, tempName) == old(disk.files) == Outside(old(disk.files), tempName)
        && Contained(disk.history, |old(disk.history)|, old(disk.files), tempName)
      ensures r.Extracted? ==>
        && tempDir != "" && FirstMatch(archive.entries, binaryName).Some?
        && |FirstMatch(archive.entries, binaryName).value.data| >= 102400
        && Paths.SanitizePath(tempName, binaryName) == Some(r.path) && r.path in disk.files
        && disk.files[r.path].mode == 0x1ED && Executable(0x1ED) && Under(tempName, r.path)
        && (r.path != tempName + "/update.tar.gz" ==> disk.files[r.path].data == Limited(FirstMatch(archive.entries, binaryName).value.data))
    {
      var made := disk.MkdirTemp(tempName);
      if !made { return Failed(TempDirFailed); }
      tempDir := tempName;
      ghost var before := disk.files;
      AllOutside(before, tempName);

      var tarball := tempName + "/update.tar.gz";
      UnderDir(tempName, "update.tar.gz");
      assert tarball !in disk.dirs by { assert |tarball| > |tempName|; }
      label downloading:
      var loaded := DownloadFile(disk, tarball, body);
      ConfinedContained(disk.history, |old@downloading(disk.history)|, disk.files, before, tarball, tempName);
      ContainedThen(disk.history, old@downloading(disk.history), |old(disk.history)|, before, before, tempName);
      if !loaded { return Failed(DownloadFailed); }

      label extracting:
      r := ExtractBinary(disk, archive, binaryName, tempName);
      ContainedThen(disk.history, old@extracting(disk.history), |old(disk.history)|, before, old@extracting(disk.files), tempName);
      if r.Extracted? && r.path != tarball {
        FreshPath(before, old@extracting(disk.files), r.path, tarball, tempName);
      }
    }

    /** Cleanup removes the directory with everything in it. */
    method Cleanup(disk: Disk)
      modifies this, disk
      ensures tempDir == "" && (old(disk.stuck) ==> disk.stuck) && old(disk.history) <= disk.history
      ensures old(disk.faults) <= disk.faults
      ensures old(tempDir) == "" ==> disk.files == old(disk.files) && disk.dirs == old(disk.dirs) && disk.history == old(disk.history)
      ensures old(tempDir) != "" ==>
        && Contained(disk.history, |old(disk.history)|, old(disk.files), old(tempDir))
        && Outside(disk.files, old(tempDir)) == Outside(old(disk.files), old(tempDir))
        && (!disk.stuck ==> disk.files == Outside(old(disk.files), old(tempDir)) && disk.dirs == old(disk.dirs) - {old(tempDir)})
    {
      if tempDir != "" {
        disk.RemoveAll(tempDir);
        tempDir := "";
      }
    }
  }

  lemma AllOutside(m: Files, dir: string)
    requires forall p | p in m :: !Under(dir, p)
    ensures Outside(m, dir) == m
  {
  }

  lemma UnderDir(dir: string, name: string)
    ensures Under(dir, dir + "/" + name)
  {
    assert (dir + "/" + name)[..|dir + "/"|] == dir + "/";
  }

  lemma FreshPath(before: Files, mid: Files, path: string, tarball: string, dir: string)
    requires (forall p | p in before :: !Under(dir, p)) && mid - {tarball} == before - {tarball}
    requires Under(dir, path) && path != tarball
    ensures path !in mid
  {
    assert path in mid ==> path in mid - {tarball};
  }
}
