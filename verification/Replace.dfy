/** AtomicReplace and ValidateBinary of the updater. */
module Replace {
  import opened Options
  import opened Text
  import opened Disk
  import Paths

  const MIN_BINARY_SIZE: nat := 100 * 1024

  /** What ValidateBinary asks of a file. */
  predicate Sound(f: File) { |f.data| >= MIN_BINARY_SIZE && Executable(f.mode) }

  /** ".<base>.new" next to the target. */
  function TempPath(target: string): string {
    Paths.JoinPath(Paths.Dir(target), "." + Paths.Base(target) + ".new")
  }

  /** For any spelling of the target. */
  lemma TempIsNotTarget(target: string)
    ensures TempPath(target) != target
  {
    var base := Paths.Base(target);
    Paths.BaseHasNoSlash(target);
    if base == "/" {
      Paths.JoinedBase(Paths.Dir(target), ["."], ".new");
      assert "." + "/" + ".new" == Join(["."] + [".new"], '/');
    } else {
      var name := "." + base + ".new";
      assert name[0] == '.' && name[|name| - 1] == 'w';
      Paths.JoinedBase(Paths.Dir(target), [], name);
      assert [] + [name] == [name];
    }
  }

  /** Next to a clean target: the name with a dot before it and ".new" after it. */
  lemma TempPathIs(head: string, name: string)
    requires Paths.Plain(name) && (head == "" || head[|head| - 1] == '/') && Paths.Clean(head + name) == head + name
    ensures TempPath(head + name) == head + ("." + name + ".new")
  {
    Paths.BaseExactly(head, name, "");
    assert head + name + "" == head + name;
    TempOf(head + name, name);
    DottedIsPlain(name);
    Paths.NextTo(head, name, "." + name + ".new");
  }

  lemma TempOf(target: string, name: string)
    requires Paths.Base(target) == name
    ensures TempPath(target) == Paths.JoinPath(Paths.Dir(target), "." + name + ".new")
  {
  }

  lemma DottedIsPlain(name: string)
    requires Paths.Plain(name)
    ensures Paths.Plain("." + name + ".new")
  {
    var temp := "." + name + ".new";
    assert temp[0] == '.' && temp[|temp| - 1] == 'w';
  }

  datatype Problem = BadSource | OpenFailed | CreateFailed | CopyFailed | BadCopy | RenameFailed

  datatype Outcome = Replaced | Failed(problem: Problem)

  ghost predicate Same(m: Files, before: Files, p: string) {
    (p in m <==> p in before) && (p in m ==> m[p] == before[p])
  }

  /** The new file is in place: complete, large enough and executable. */
  ghost predicate Complete(m: Files, p: string, data: string) {
    p in m && m[p].data == data && Sound(m[p])
  }

  /** What a crash may leave: all other files as before, and the target as before
      or completely the new one. */
  ghost predicate Point(m: Files, before: Files, target: string, temp: string, data: string) {
    && m - {target, temp} == before - {target, temp}
    && (Same(m, before, target) || Complete(m, target, data))
  }

  ghost predicate Points(h: seq<Files>, from: nat, before: Files, target: string, temp: string, data: string) {
    forall i | from <= i < |h| :: Point(h[i], before, target, temp, data)
  }

  /** Before the rename: only the temporary file differs. */
  ghost predicate Staging(m: Files, before: Files, temp: string) {
    m - {temp} == before - {temp}
  }

  lemma StagingPoint(m: Files, before: Files, target: string, temp: string, data: string)
    requires Staging(m, before, temp) && target != temp
    ensures Point(m, before, target, temp, data)
  {
    assert m - {target, temp} == (m - {temp}) - {target};
    assert before - {target, temp} == (before - {temp}) - {target};
    assert target in m <==> target in m - {temp};
    assert target in before <==> target in before - {temp};
    assert target in m ==> m[target] == (m - {temp})[target];
  }

  datatype Verdict = Valid | NoStat | TooSmall | NotExecutable

  /** A file that can be examined is accepted exactly if it is sound. */
  method ValidateBinary(disk: Disk, path: string) returns (v: Verdict)
    modifies disk`faults
    ensures v != NoStat ==> path in disk.files && (v == Valid <==> Sound(disk.files[path]))
    ensures v == TooSmall ==> |disk.files[path].data| < 102400
    ensures v == NotExecutable ==> |disk.files[path].data| >= 102400 && !Executable(disk.files[path].mode)
    ensures old(disk.faults) <= disk.faults && (disk.faults == old(disk.faults) && path in disk.files ==> v != NoStat)
  {
    var info := disk.Stat(path);
    if info.None? { return NoStat; }
    if |info.value.data| < MIN_BINARY_SIZE { return TooSmall; }
    if info.value.mode & 0x49 == 0 { return NotExecutable; }
    return Valid;
  }

  /** io.Copy: reads and writes alternate, in pieces of any size. */
  method Copy(disk: Disk, src: string, dst: string) returns (ok: bool)
    requires src in disk.files && dst in disk.files && disk.files[dst].data == ""
    modifies disk
    ensures disk.dirs == old(disk.dirs) && disk.stuck == old(disk.stuck)
    ensures old(disk.history) <= disk.history
    ensures forall i | |old(disk.history)| <= i < |disk.history| :: Staging(disk.history[i], old(disk.files), dst)
    ensures Staging(disk.files, old(disk.files), dst) && dst in disk.files
    ensures disk.files[dst].mode == old(disk.files[dst].mode)
    ensures old(disk.faults) <= disk.faults && (disk.faults == old(disk.faults) ==> ok)
    ensures ok ==> disk.files[dst].data == (if src == dst then "" else old(disk.files[src].data))
  {
    var k := 0;
    ghost var data := disk.files[src].data;
    while k < |disk.files[src].data|
      invariant src in disk.files && dst in disk.files && k <= |data|
      invariant disk.files[src].data == data
      invariant disk.files[dst].data == data[..k]
      invariant disk.files[dst].mode == old(disk.files[dst].mode)
      invariant disk.dirs == old(disk.dirs) && disk.stuck == old(disk.stuck)
      invariant Staging(disk.files, old(disk.files), dst)
      invariant old(disk.history) <= disk.history
      invariant forall i | |old(disk.history)| <= i < |disk.history| :: Staging(disk.history[i], old(disk.files), dst)
      invariant src == dst ==> data == ""
      invariant old(disk.faults) <= disk.faults
      decreases |data| - k
    {
      var size: nat :| 0 < size <= |disk.files[src].data| - k;
      var piece := disk.files[src].data[k..k + size];
      var n, written := disk.WriteAt(dst, k, piece);
      Appended(data, k, n, piece);
      assert disk.files[dst].data == data[..k + n];
      if !written { return false; }
      k := k + size;
    }
    assert data[..k] == data;
    var hit := disk.Disturbed();  // a read may also have failed
    ok := !hit;
  }

  lemma Appended(data: string, k: nat, n: nat, piece: string)
    requires k + |piece| <= |data| && piece == data[k..k + |piece|] && n <= |piece|
    ensures Overwrite(data[..k], k, piece[..n]) == data[..k + n]
  {
    assert data[..k][..k] == data[..k];
  }

  /** Every call that may happen before the rename keeps all but the temporary
      file, at every recorded point. */
  ghost predicate Staged(h: seq<Files>, from: nat, before: Files, temp: string) {
    forall i | from <= i < |h| :: Staging(h[i], before, temp)
  }

  lemma StagedPoints(h: seq<Files>, from: nat, before: Files, target: string, temp: string, data: string)
    requires Staged(h, from, before, temp) && target != temp
    ensures Points(h, from, before, target, temp, data)
  {
    forall i | from <= i < |h| ensures Point(h[i], before, target, temp, data) {
      StagingPoint(h[i], before, target, temp, data);
    }
  }

  lemma StagingTransitive(a: Files, b: Files, c: Files, temp: string)
    requires Staging(b, a, temp) && Staging(c, b, temp)
    ensures Staging(c, a, temp)
  {
  }

  lemma StagingSource(m: Files, before: Files, temp: string, src: string)
    requires Staging(m, before, temp) && src != temp
    ensures Same(m, before, src)
  {
    assert src in m <==> src in m - {temp};
    assert src in before <==> src in before - {temp};
    assert src in m ==> m[src] == (m - {temp})[src];
  }

  /** The copy is validated and given the owner of the target, as far as possible. */
  method CheckCopy(disk: Disk, target: string, temp: string) returns (r: Outcome)
    requires temp in disk.files
    modifies disk
    ensures disk.dirs == old(disk.dirs) && (old(disk.stuck) ==> disk.stuck)
    ensures old(disk.history) <= disk.history
    ensures Staged(disk.history, |old(disk.history)|, old(disk.files), temp)
    ensures Staging(disk.files, old(disk.files), temp)
    ensures r.Replaced? ==> temp in disk.files && Sound(disk.files[temp]) && disk.files[temp].data == old(disk.files)[temp].data
    ensures r.Replaced? ==> disk.files[temp].mode == old(disk.files)[temp].mode
    ensures r.Failed? ==> r.problem == BadCopy && (disk.stuck || temp !in disk.files)
    ensures old(disk.faults) <= disk.faults
    ensures disk.faults == old(disk.faults) ==>
      && (r.Replaced? <==> Sound(old(disk.files)[temp]))
      && (r.Replaced? && target in old(disk.files) ==> disk.files[temp].owner == old(disk.files)[target].owner)
  {
    var verdict := ValidateBinary(disk, temp);
    if verdict != Valid {
      disk.Remove(temp);
      return Failed(BadCopy);
    }
    var targetInfo := disk.Stat(target);
    if targetInfo.Some? {
      var _ := disk.SetMeta(temp, None, Some(targetInfo.value.owner));  // errors ignored
    }
    return Replaced;
  }

  /** An empty temporary file, after any old one was removed. */
  method Create(disk: Disk, src: string, temp: string) returns (r: Outcome)
    modifies disk
    ensures disk.dirs == old(disk.dirs) && (old(disk.stuck) ==> disk.stuck)
    ensures old(disk.history) <= disk.history
    ensures Staged(disk.history, |old(disk.history)|, old(disk.files), temp)
    ensures Staging(disk.files, old(disk.files), temp)
    ensures r.Replaced? ==> src in disk.files && temp in disk.files && disk.files[temp].data == ""
    ensures r.Failed? ==> r.problem != BadSource && (disk.stuck || temp !in disk.files)
    ensures old(disk.faults) <= disk.faults
    ensures disk.faults == old(disk.faults) ==>
      && (r.Replaced? <==> src in old(disk.files) && src != temp && temp !in disk.dirs)
      && (r.Replaced? ==> disk.files[temp].mode == old(disk.files)[src].mode & !disk.umask)
  {
    disk.Remove(temp);
    var srcInfo := disk.Stat(src);
    if srcInfo.None? { return Failed(OpenFailed); }
    assert Staging(disk.files, old(disk.files), temp);
    var created := disk.Open(temp, srcInfo.value.mode, true);
    assert Staging(disk.files, old(disk.files), temp);
    return if created then Replaced else Failed(CreateFailed);
  }

  /** A complete temporary file, or none. */
  method Fill(disk: Disk, src: string, temp: string) returns (r: Outcome)
    modifies disk
    ensures disk.dirs == old(disk.dirs) && (old(disk.stuck) ==> disk.stuck)
    ensures old(disk.history) <= disk.history
    ensures Staged(disk.history, |old(disk.history)|, old(disk.files), temp)
    ensures Staging(disk.files, old(disk.files), temp)
    ensures r.Replaced? ==>
      && temp in disk.files && (src != temp ==> src in old(disk.files))
      && disk.files[temp].data == if src == temp then "" else old(disk.files)[src].data
    ensures r.Failed? ==> r.problem != BadSource && (disk.stuck || temp !in disk.files)
    ensures old(disk.faults) <= disk.faults
    ensures disk.faults == old(disk.faults) ==>
      && (r.Replaced? <==> src in old(disk.files) && src != temp && temp !in disk.dirs)
      && (r.Replaced? ==> disk.files[temp].mode == old(disk.files)[src].mode & !disk.umask)
  {
    ghost var before := disk.files;
    r := Create(disk, src, temp);
    if r.Failed? { return; }
    if src != temp { StagingSource(disk.files, before, temp, src); }
    label copying:
    var copied := Copy(disk, src, temp);
    StagedThen(disk.history, old@copying(disk.history), |old(disk.history)|, before, old@copying(disk.files), temp);
    StagingTransitive(before, old@copying(disk.files), disk.files, temp);
    if !copied {
      disk.Remove(temp);
      return Failed(CopyFailed);
    }
  }

  /** Nothing stands against a copy of the source that passes the second check. */
  ghost predicate Stageable(files: Files, dirs: set<string>, umask: Mode, src: string, temp: string) {
    && src in files && |files[src].data| >= 102400 && Executable(files[src].mode)
    && src != temp && temp !in dirs && Executable(files[src].mode & !umask)
  }

  /** The mode comes from the source, the owner from the target if there is one. */
  ghost predicate Inherits(f: File, files: Files, umask: Mode, src: string, target: string) {
    && src in files && f.mode == files[src].mode & !umask
    && (target in files ==> f.owner == files[target].owner)
  }

  /** All of AtomicReplace before the rename: on success the temporary file is a
      sound copy of the source. */
  method Stage(disk: Disk, src: string, target: string, temp: string) returns (r: Outcome)
    requires target != temp
    modifies disk
    ensures disk.dirs == old(disk.dirs) && (old(disk.stuck) ==> disk.stuck)
    ensures old(disk.history) <= disk.history
    ensures Staged(disk.history, |old(disk.history)|, old(disk.files), temp)
    ensures Staging(disk.files, old(disk.files), temp)
    ensures r.Replaced? ==>
      && temp in disk.files && Sound(disk.files[temp])
      && src in old(disk.files) && disk.files[temp].data == old(disk.files)[src].data
    ensures r == Failed(BadSource) ==> disk.files == old(disk.files)
    ensures r.Failed? && r.problem != BadSource && !disk.stuck ==> temp !in disk.files
    ensures old(disk.faults) <= disk.faults
    ensures disk.faults == old(disk.faults) ==>
      && (r.Replaced? <==> Stageable(old(disk.files), disk.dirs, disk.umask, src, temp))
      && (r.Replaced? ==> Inherits(disk.files[temp], old(disk.files), disk.umask, src, target))
  {
    ghost var before := disk.files;
    var verdict := ValidateBinary(disk, src);
    if verdict != Valid { return Failed(BadSource); }

    label filling:
    r := Fill(disk, src, temp);
    if r.Failed? { return; }
    StagingSource(disk.files, before, temp, target);

    label checking:
    r := CheckCopy(disk, target, temp);
    StagedThen(disk.history, old@checking(disk.history), |old@filling(disk.history)|, before, old@checking(disk.files), temp);
    StagingTransitive(before, old@checking(disk.files), disk.files, temp);
  }

  lemma StagedThen(h: seq<Files>, h0: seq<Files>, from: nat, before: Files, mid: Files, temp: string)
    requires h0 <= h && Staged(h0, from, before, temp) && Staging(mid, before, temp)
    requires Staged(h, |h0|, mid, temp)
    ensures Staged(h, from, before, temp)
  {
    forall i | from <= i < |h| ensures Staging(h[i], before, temp) {
      if i < |h0| {
        assert h[i] == h0[i];
      } else {
        StagingTransitive(before, mid, h[i], temp);
      }
    }
  }

  /** For any state of the disk, any paths, any failures and any sizes of the
      writes. At every point a crash can leave behind, the target is as before or
      a complete, sound copy of the source, and nothing but the target and the temporary file differs. On
      success the target is a sound copy of the source and the temporary file is
      gone; on failure the target was untouched at every point, and the temporary file is gone too
      unless a removal failed or the source was rejected at once. If no call fails, it
      succeeds exactly for a source of at least 100 KiB that stays executable under
      the umask, with no directory in the way, and the target then has the source's
      mode and its own owner. */
  method AtomicReplace(disk: Disk, src: string, target: string) returns (r: Outcome)
    modifies disk
    ensures disk.dirs == old(disk.dirs) && (old(disk.stuck) ==> disk.stuck)
    ensures old(disk.history) <= disk.history
    ensures Points(disk.history, |old(disk.history)|, old(disk.files), target, TempPath(target),
                   if src in old(disk.files) then old(disk.files)[src].data else "")
    ensures r.Replaced? ==>
      && src in old(disk.files) && target in disk.files
      && disk.files[target].data == old(disk.files)[src].data && Sound(disk.files[target])
      && disk.files - {target} == old(disk.files) - {target, TempPath(target)}
    ensures r.Failed? ==>
      && Staged(disk.history, |old(disk.history)|, old(disk.files), TempPath(target))
      && disk.files - {TempPath(target)} == old(disk.files) - {TempPath(target)}
      && (r.problem == BadSource ==> disk.files == old(disk.files))
      && (r.problem != BadSource && !disk.stuck ==> TempPath(target) !in disk.files)
    ensures old(disk.faults) <= disk.faults
    ensures disk.faults == old(disk.faults) ==>
      && (r.Replaced? <==> Stageable(old(disk.files), disk.dirs, disk.umask, src, TempPath(target)) && target !in disk.dirs)
      && (r.Replaced? ==> Inherits(disk.files[target], old(disk.files), disk.umask, src, target))
  {
    var temp := TempPath(target);
    TempIsNotTarget(target);
    ghost var before, data := disk.files, if src in disk.files then disk.files[src].data else "";
    r := Stage(disk, src, target, temp);
    StagedPoints(disk.history, |old(disk.history)|, before, target, temp, data);
    if r.Failed? { return; }

    label committing:
    r := Commit(disk, before, target, temp, data);
    if r.Replaced? {
      PointsThen(disk.history, old@committing(disk.history), |old(disk.history)|, before, target, temp, data);
    } else {
      StagedAfter(disk.history, old@committing(disk.history), |old(disk.history)|, before, temp);
      StagedPoints(disk.history, |old(disk.history)|, before, target, temp, data);
    }
  }

  /** The rename; if it fails the temporary file is removed. */
  method Commit(disk: Disk, ghost before: Files, target: string, temp: string, ghost data: string) returns (r: Outcome)
    requires target != temp && Staging(disk.files, before, temp) && Complete(disk.files, temp, data)
    modifies disk
    ensures disk.dirs == old(disk.dirs) && (old(disk.stuck) ==> disk.stuck)
    ensures old(disk.history) <= disk.history
    ensures r.Replaced? ==>
      && Points(disk.history, |old(disk.history)|, before, target, temp, data)
      && Complete(disk.files, target, data) && disk.files - {target} == before - {target, temp}
    ensures r.Failed? ==>
      && r.problem != BadSource && Staged(disk.history, |old(disk.history)|, before, temp)
      && Staging(disk.files, before, temp) && (disk.stuck || temp !in disk.files)
    ensures r.Replaced? ==> disk.files[target] == old(disk.files)[temp]
    ensures old(disk.faults) <= disk.faults && (disk.faults == old(disk.faults) ==> (r.Replaced? <==> target !in disk.dirs))
  {
    var renamed := disk.Rename(temp, target);
    if renamed {
      RenamedPoint(disk.files, old(disk.files), before, target, temp, data);
      return Replaced;
    }
    disk.Remove(temp);
    assert Staging(disk.files, old(disk.files), temp);
    StagingTransitive(before, old(disk.files), disk.files, temp);
    return Failed(RenameFailed);
  }

  lemma PointsThen(h: seq<Files>, h0: seq<Files>, from: nat, before: Files, target: string, temp: string, data: string)
    requires h0 <= h && Points(h0, from, before, target, temp, data) && Points(h, |h0|, before, target, temp, data)
    ensures Points(h, from, before, target, temp, data)
  {
    forall i | from <= i < |h| ensures Point(h[i], before, target, temp, data) {
      if i < |h0| { assert h[i] == h0[i]; }
    }
  }

  lemma StagedAfter(h: seq<Files>, h0: seq<Files>, from: nat, before: Files, temp: string)
    requires h0 <= h && Staged(h0, from, before, temp) && Staged(h, |h0|, before, temp)
    ensures Staged(h, from, before, temp)
  {
    forall i | from <= i < |h| ensures Staging(h[i], before, temp) {
      if i < |h0| { assert h[i] == h0[i]; }
    }
  }

  lemma RenamedPoint(m: Files, staged: Files, before: Files, target: string, temp: string, data: string)
    requires Staging(staged, before, temp) && target != temp
    requires Complete(staged, temp, data) && m == (staged - {temp})[target := staged[temp]]
    ensures Point(m, before, target, temp, data)
    ensures m - {target} == before - {target, temp}
  {
    assert m - {target} == (staged - {temp}) - {target};
    assert before - {target, temp} == (before - {temp}) - {target};
    assert m - {target, temp} == m - {target};
  }
}
