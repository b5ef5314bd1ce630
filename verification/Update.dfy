/** The update of the service by itself: CheckUpdate and PerformUpdate, and the
    handler that reports their progress and asks for the restart. */
module Update {
  import opened Options
  import opened Text
  import opened Disk
  import opened Extract
  import Assets
  import History
  import Paths
  import Protocol
  import Replace
  import Versions

  datatype Status = IsCurrent | IsAvailable | IsDownloading | IsApplied | IsRestarting | HasFailed

  /** One update response: status and the versions it carries. */
  datatype Notice = Notice(status: Status, current: string, latest: string)

  datatype Release = Release(tag: string, assets: seq<Assets.Asset>)

  datatype Result = Result(status: Status, current: string, latest: string)

  /** What the outside contributes to one update. The name and contents of the
      temporary directory's files come from here too. */
  datatype World = World(
    release: Option<Release>, cancelled: bool, os: string, arch: string,
    tempName: string, body: string, archive: Archive)

  /** The update_status of a response. */
  function StatusText(s: Status): string {
    match s
    case IsCurrent => "current"
    case IsAvailable => "available"
    case IsDownloading => "downloading"
    case IsApplied => "applied"
    case IsRestarting => "restarting"
    case HasFailed => "failed"
  }

  /** rs are the responses that carry some notices, with some messages. */
  ghost predicate Reports(rs: seq<Protocol.Response>, ns: seq<Notice>) {
    |rs| == |ns| && forall i | 0 <= i < |ns| ::
      rs[i] == Protocol.UpdateResponse(StatusText(ns[i].status), ns[i].current, ns[i].latest, rs[i].message)
  }

  lemma ReportsMore(rs: seq<Protocol.Response>, ns: seq<Notice>, r: Protocol.Response, n: Notice)
    requires Reports(rs, ns) && r == Protocol.UpdateResponse(StatusText(n.status), n.current, n.latest, r.message)
    ensures Reports(rs + [r], ns + [n])
  {
  }

  /** The receiver of onProgress: each notice becomes a response, marshalled by
      `format`, on the connection; a failed write is ignored. */
  class Client {
    const conn: Protocol.Conn
    const format: Protocol.Format
    ghost var notices: seq<Notice>
    ghost var responses: seq<Protocol.Response>

    constructor (conn: Protocol.Conn, format: Protocol.Format)
      requires conn.sent == "" && !conn.broken
      ensures Valid() && notices == [] && this.conn == conn && this.format == format
    {
      this.conn, this.format, notices, responses := conn, format, [], [];
    }

    ghost predicate Valid()
      reads this, conn
    {
      && Reports(responses, notices)
      && Protocol.Carries(conn.sent, conn.broken, Protocol.LinesOf(format, responses))
    }

    method Send(n: Notice)
      requires Valid()
      modifies this, conn
      ensures Valid() && notices == old(notices) + [n]
    {
      var message: string := *;
      var resp := Protocol.UpdateResponse(StatusText(n.status), n.current, n.latest, message);
      ReportsMore(responses, notices, resp, n);
      ghost var lines := Protocol.LinesOf(format, responses);
      var line := format(resp) + ['\n'];
      Protocol.WriteLine(conn, line, lines);
      assert Protocol.LinesOf(format, responses + [resp]) == lines + [line];
      notices, responses := notices + [n], responses + [resp];
    }
  }

  // ----- the version test

  method OffersNewer(current: string, tag: string) returns (newer: bool)
    ensures newer <==> History.Offers(current, tag)
  {
    var latestVersion := Versions.Normalize(tag);
    var currentVersion := Versions.Normalize(current);
    newer := Versions.IsNewerVersion(currentVersion, latestVersion);
  }

  /** "available" exactly when PerformUpdate would go on. */
  method CheckUpdate(current: string, release: Option<Release>) returns (r: Result)
    ensures r.current == current
    ensures release.None? ==> r.status == HasFailed && r.latest == ""
    ensures release.Some? ==> r.latest == release.value.tag && r.status in {IsAvailable, IsCurrent}
    ensures r.status == IsAvailable <==> release.Some? && History.Offers(current, release.value.tag)
  {
    if release.None? { return Result(HasFailed, current, ""); }
    var newer := OffersNewer(current, release.value.tag);
    return Result(if newer then IsAvailable else IsCurrent, current, release.value.tag);
  }

  // ----- paths

  /** For a clean path, the temporary file is in a directory exactly when the binary
      is. */
  lemma SiblingUnder(dir: string, target: string)
    requires Paths.Clean(target) == target
    ensures Under(dir, Replace.TempPath(target)) <==> Under(dir, target)
  {
    var d, base := Paths.Dir(target), Paths.Base(target);
    if target == "/" {
      Paths.JoinedBase(d, ["."], ".new");
      assert "." + "/" + ".new" == Join(["."] + [".new"], '/');
      Paths.NoElements();
      Paths.ElementsRender(true, []);
      assert [] + [".new"] == [".new"] && d == "/";
      assert Replace.TempPath(target) == "/" + ".new";
      SharedPrefix(dir, "/", ".new");
    } else {
      Paths.CleanBase(target);
      Paths.AfterSlashIsTail(target);
      var name := "." + base + ".new";
      assert name[0] == '.' && name[|name| - 1] == 'w';
      Paths.JoinedBase(d, [], name);
      assert [] + [name] == [name];
      Paths.SiblingPath(target, name);
      var head := target[..Paths.DirLength(target)];
      SharedPrefix(dir, head, Paths.AfterSlash(target));
      SharedPrefix(dir, head, name);
    }
  }

  lemma SharedPrefix(dir: string, head: string, tail: string)
    requires '/' !in tail
    ensures Under(dir, head + tail) <==> Under(dir, head)
  {
    var k := |dir|;
    if Under(dir, head + tail) {
      assert (head + tail)[k] == (dir + "/")[k] == '/';
      assert (head + tail)[..k + 1] == head[..k + 1];
    }
    if Under(dir, head) {
      assert (head + tail)[..k + 1] == head[..k + 1];
    }
  }

  lemma Cancel(dir: string, a: string, b: string)
    requires dir + "/" + a == dir + "/" + b
    ensures a == b
  {
    assert (dir + "/" + a)[|dir| + 1..] == a;
    assert (dir + "/" + b)[|dir| + 1..] == b;
  }

  lemma NamedPath(dir: string, name: string, path: string)
    requires TempName(dir) && (name == "/" || '/' !in name)
    requires Paths.SanitizePath(dir, name) == Some(path)
    ensures path == dir || path == dir + "/" + name
  {
    Paths.SanitizeExactly(dir, name);
    SplitWhole(name, '/');
    OneElement(name);
  }

  lemma NotTheTarball(dir: string, name: string, path: string, other: string)
    requires TempName(dir) && (name == "/" || '/' !in name) && name != other
    requires Paths.SanitizePath(dir, name) == Some(path)
    ensures path != dir + "/" + other
  {
    NamedPath(dir, name, path);
    if path == dir + "/" + other {
      assert |path| > |dir|;
      Cancel(dir, name, other);
      assert false;
    }
  }

  lemma SlashLiteral(dir: string)
    ensures dir + "/update.tar.gz" == dir + "/" + "update.tar.gz"
  {
    assert "/update.tar.gz" == "/" + "update.tar.gz";
  }

  lemma OneElement(name: string)
    requires '/' !in name && Paths.PassesFirst(name)
    ensures Paths.Elements(name) == [] || Paths.Elements(name) == [name]
    ensures Paths.Elements(name) == [] ==> Paths.Clean(name) == "."
  {
    SplitWhole(name, '/');
    assert [name][1..] == [];
    assert Paths.Resolve(false, [], [name]) == Paths.Resolve(false, Paths.Push(false, [], name), []);
    assert [] + [name] == [name] && [] + [".."] == [".."];
  }

  // ----- PerformUpdate

  function Statuses(ns: seq<Notice>): (ss: seq<Status>)
    ensures |ss| == |ns| && forall i | 0 <= i < |ns| :: ss[i] == ns[i].status
  {
    seq(|ns|, i requires 0 <= i < |ns| => ns[i].status)
  }

  /** Some asset of the release is for the platform. */
  predicate HasAsset(w: World) {
    w.release.Some? && exists a | a in w.release.value.assets :: Assets.Exact(a.name, w.os, w.arch) || Assets.Fallback(a.name, w.os, w.arch)
  }

  /** How far an update gets before the download: no release, nothing newer,
      cancelled, nothing for the platform, or on to the download. */
  datatype Gate = NoRelease | UpToDate | Cancelled | NoAsset | Open(tag: string)

  function GateOf(version: string, w: World): Gate {
    if w.release.None? then NoRelease
    else if !History.Offers(version, w.release.value.tag) then UpToDate
    else if w.cancelled then Cancelled
    else if !HasAsset(w) then NoAsset
    else Open(w.release.value.tag)
  }

  /** What is told by an update that ends there. */
  function Refusal(version: string, g: Gate): seq<Notice>
    requires !g.Open?
  {
    match g
    case UpToDate => [Notice(IsCurrent, version, "")]
    case Cancelled => []
    case _ => [Notice(HasFailed, version, "")]
  }

  /** The contents an update installs. */
  function Payload(w: World, binaryPath: string): string {
    match FirstMatch(w.archive.entries, Paths.Base(binaryPath))
    case Some(e) => Limited(e.data)
    case None => ""
  }

  /** The conditions of a normal installation: the fresh temporary directory is not
      an ancestor of the binary or of its temporary file, and the binary's name is
      not the tarball's. */
  predicate Ordinary(w: World, binaryPath: string) {
    && TempName(w.tempName) && Paths.Base(binaryPath) != "update.tar.gz"
    && !Under(w.tempName, binaryPath) && !Under(w.tempName, Replace.TempPath(binaryPath))
  }

  /** At every recorded point the binary is the old one or, if the update was
      applied, the complete new one. */
  ghost predicate OldOrNew(h: seq<Files>, from: nat, before: Files, path: string, data: string, applied: bool) {
    forall i | from <= i < |h| :: Replace.Same(h[i], before, path) || (applied && Replace.Complete(h[i], path, data))
  }

  lemma OutsideSame(m: Files, before: Files, dir: string, path: string)
    requires Outside(m, dir) == Outside(before, dir) && !Under(dir, path)
    ensures Replace.Same(m, before, path)
  {
    assert path in m <==> path in Outside(m, dir);
    assert path in before <==> path in Outside(before, dir);
    assert path in m ==> m[path] == Outside(m, dir)[path];
  }

  lemma ContainedOldOrNew(h: seq<Files>, from: nat, before: Files, dir: string, path: string, data: string)
    requires Contained(h, from, before, dir) && !Under(dir, path)
    ensures OldOrNew(h, from, before, path, data, false)
  {
    forall i | from <= i < |h| ensures Replace.Same(h[i], before, path) {
      OutsideSame(h[i], before, dir, path);
    }
  }

  lemma OldOrNewThen(h: seq<Files>, h0: seq<Files>, from: nat, before: Files, mid: Files, path: string, data: string, applied: bool)
    requires h0 <= h && OldOrNew(h0, from, before, path, data, applied) && OldOrNew(h, |h0|, mid, path, data, applied)
    requires Replace.Same(mid, before, path) || (applied && Replace.Complete(mid, path, data))
    ensures OldOrNew(h, from, before, path, data, applied)
  {
    forall i | from <= i < |h|
      ensures Replace.Same(h[i], before, path) || (applied && Replace.Complete(h[i], path, data))
    {
      if i < |h0| { assert h[i] == h0[i]; }
    }
  }

  lemma PointsOldOrNew(h: seq<Files>, from: nat, before: Files, target: string, temp: string, data: string)
    requires Replace.Points(h, from, before, target, temp, data)
    ensures OldOrNew(h, from, before, target, data, true)
  {
    forall i | from <= i < |h| ensures Replace.Same(h[i], before, target) || Replace.Complete(h[i], target, data) {
      assert Replace.Point(h[i], before, target, temp, data);
    }
  }

  lemma StagedOld(h: seq<Files>, from: nat, before: Files, target: string, temp: string, data: string)
    requires Replace.Staged(h, from, before, temp) && target != temp
    ensures OldOrNew(h, from, before, target, data, false)
  {
    forall i | from <= i < |h| ensures Replace.Same(h[i], before, target) {
      Replace.StagingSource(h[i], before, temp, target);
    }
  }

  /** After a successful replacement and the cleanup only the binary differs. */
  lemma OnlyTheBinary(before: Files, mid: Files, m: Files, dir: string, bin: string, temp: string)
    requires Outside(mid, dir) == before && m - {bin} == mid - {bin, temp}
    requires temp !in before && !Under(dir, bin)
    ensures Outside(m, dir) - {bin} == before - {bin}
  {
    forall p | p != bin ensures (p in Outside(m, dir) <==> p in before) && (p in before ==> Outside(m, dir)[p] == before[p]) {
      assert p in m <==> p in m - {bin};
      assert p in mid && p != temp <==> p in mid - {bin, temp};
      assert p in m ==> m[p] == (m - {bin})[p];
      assert p in mid && p != temp ==> mid[p] == (mid - {bin, temp})[p];
      assert p in before <==> p in Outside(mid, dir);
    }
  }

  /** After a failed one nothing does. */
  lemma NothingLeft(before: Files, mid: Files, m: Files, dir: string, temp: string)
    requires Outside(mid, dir) == before && m - {temp} == mid - {temp}
    requires temp !in before && (temp !in m || m == mid)
    ensures Outside(m, dir) == before
  {
    forall p ensures (p in Outside(m, dir) <==> p in before) && (p in before ==> Outside(m, dir)[p] == before[p]) {
      assert p != temp ==> (p in m <==> p in m - {temp}) && (p in mid <==> p in mid - {temp});
      assert p != temp && p in m ==> m[p] == (m - {temp})[p];
      assert p != temp && p in mid ==> mid[p] == (mid - {temp})[p];
      assert p in before <==> p in Outside(mid, dir);
    }
  }

  /** Nothing stands against taking the binary out of the archive: the temporary
      directory's name is free, and the archive has the binary in at least 100 KiB
      under a usable name. */
  ghost predicate Fetchable(w: World, binaryPath: string, vacant: bool) {
    var name := Paths.Base(binaryPath);
    && vacant && w.archive.readable
    && (var m := FirstMatch(w.archive.entries, name); m.Some? && |m.value.data| >= 102400)
    && Paths.PassesFirst(name) && Paths.Clean(name) != "."
  }

  /** Nothing stands against putting it in place: no directory is in the way, and the
      umask leaves an execute bit of 0755. */
  ghost predicate Placeable(binaryPath: string, dirs: set<string>, umask: Mode) {
    binaryPath !in dirs && Replace.TempPath(binaryPath) !in dirs && Executable(0x1ED & !umask)
  }

  ghost predicate Feasible(w: World, binaryPath: string, vacant: bool, dirs: set<string>, umask: Mode) {
    Fetchable(w, binaryPath, vacant) && Placeable(binaryPath, dirs + {w.tempName}, umask)
  }

  /** What the new binary inherits: 0755 under the umask, and the old one's owner. */
  ghost predicate Dressed(files: Files, before: Files, binaryPath: string, umask: Mode) {
    && binaryPath in files && files[binaryPath].mode == 0x1ED & !umask
    && (binaryPath in before ==> files[binaryPath].owner == before[binaryPath].owner)
  }

  lemma ExtractableExactly(w: World, name: string, dirs: set<string>)
    requires TempName(w.tempName) && w.tempName !in dirs && forall d | d in dirs :: !Under(w.tempName, d)
    ensures Extractable(w.archive, name, w.tempName, dirs + {w.tempName}) <==>
      && w.archive.readable
      && (var m := FirstMatch(w.archive.entries, name); m.Some? && |m.value.data| >= 102400)
      && Paths.PassesFirst(name) && Paths.Clean(name) != "."
  {
    Paths.SanitizeExactly(w.tempName, name);
    var p := Paths.SanitizePath(w.tempName, name);
    if p.Some? {
      PathIsInside(w.tempName, name);
      if Paths.Clean(name) != "." { assert |p.value| > |w.tempName|; }
    }
  }

  /** An extracted file, ready to be put in place. */
  ghost predicate Fetched(files: Files, path: string, w: World, binaryPath: string) {
    && path in files && files[path].data == Payload(w, binaryPath) && Under(w.tempName, path)
    && files[path].mode == 0x1ED && Executable(0x1ED) && |files[path].data| >= 102400
  }

  lemma FetchedIsStageable(files: Files, dirs: set<string>, umask: Mode, path: string, w: World, binaryPath: string)
    requires Ordinary(w, binaryPath) && Fetched(files, path, w, binaryPath)
    ensures var temp := Replace.TempPath(binaryPath);
            Replace.Stageable(files, dirs, umask, path, temp) <==> temp !in dirs && Executable(0x1ED & !umask)
  {
  }

  lemma InheritsIsDressed(files: Files, before: Files, umask: Mode, path: string, binaryPath: string)
    requires binaryPath in files && Replace.Inherits(files[binaryPath], before, umask, path, binaryPath)
    requires path in before && before[path].mode == 0x1ED
    ensures Dressed(files, before, binaryPath, umask)
  {
  }

  /** The replacement by an extracted file, while the temporary directory exists. */
  method Swap(disk: Disk, path: string, w: World, binaryPath: string, ghost before: Files) returns (applied: bool)
    requires Ordinary(w, binaryPath) && Outside(disk.files, w.tempName) == before && Fetched(disk.files, path, w, binaryPath)
    modifies disk
    ensures disk.dirs == old(disk.dirs) && (old(disk.stuck) ==> disk.stuck) && old(disk.history) <= disk.history
    ensures OldOrNew(disk.history, |old(disk.history)|, old(disk.files), binaryPath, Payload(w, binaryPath), applied)
    ensures if applied then Replace.Complete(disk.files, binaryPath, Payload(w, binaryPath))
            else Replace.Same(disk.files, old(disk.files), binaryPath)
    ensures !disk.stuck && Replace.TempPath(binaryPath) !in before ==>
      if applied then Outside(disk.files, w.tempName) - {binaryPath} == before - {binaryPath}
      else Outside(disk.files, w.tempName) == before
    ensures old(disk.faults) <= disk.faults
    ensures disk.faults == old(disk.faults) ==>
      && (applied <==> Placeable(binaryPath, disk.dirs, disk.umask))
      && (applied ==> Dressed(disk.files, old(disk.files), binaryPath, disk.umask))
  {
    ghost var temp, data, mid := Replace.TempPath(binaryPath), Payload(w, binaryPath), disk.files;
    Replace.TempIsNotTarget(binaryPath);
    FetchedIsStageable(disk.files, disk.dirs, disk.umask, path, w, binaryPath);
    var replaced := Replace.AtomicReplace(disk, path, binaryPath);
    applied := replaced.Replaced?;
    if applied {
      PointsOldOrNew(disk.history, |old(disk.history)|, mid, binaryPath, temp, data);
      SwapLeaves(disk.files, mid, before, w, binaryPath);
      if disk.faults == old(disk.faults) { InheritsIsDressed(disk.files, mid, disk.umask, path, binaryPath); }
    } else {
      StagedOld(disk.history, |old(disk.history)|, mid, binaryPath, temp, data);
      FailedSwapLeaves(disk.files, mid, before, w, binaryPath);
    }
  }

  lemma SwapLeaves(m: Files, mid: Files, before: Files, w: World, bin: string)
    requires Ordinary(w, bin) && Outside(mid, w.tempName) == before && m - {bin} == mid - {bin, Replace.TempPath(bin)}
    ensures Replace.TempPath(bin) !in before ==> Outside(m, w.tempName) - {bin} == before - {bin}
  {
    if Replace.TempPath(bin) !in before { OnlyTheBinary(before, mid, m, w.tempName, bin, Replace.TempPath(bin)); }
  }

  lemma FailedSwapLeaves(m: Files, mid: Files, before: Files, w: World, bin: string)
    requires Outside(mid, w.tempName) == before && m - {Replace.TempPath(bin)} == mid - {Replace.TempPath(bin)}
    ensures Replace.Same(m, mid, bin)
    ensures Replace.TempPath(bin) !in before && (Replace.TempPath(bin) !in m || m == mid) ==> Outside(m, w.tempName) == before
  {
    var temp := Replace.TempPath(bin);
    Replace.TempIsNotTarget(bin);
    Replace.StagingSource(m, mid, temp, bin);
    if temp !in before && (temp !in m || m == mid) { NothingLeft(before, mid, m, w.tempName, temp); }
  }

  /** Text is the data of the first regular entry with the binary's name, all of it up
      to 524288000 bytes. */
  ghost predicate IsPayload(text: string, entries: seq<TarEntry>, name: string) {
    exists i | 0 <= i < |entries| ::
      FirstAt(entries, i, name) && text == if |entries[i].data| <= 524288000 then entries[i].data else entries[i].data[..524288000]
  }

  lemma PayloadIs(w: World, binaryPath: string)
    requires FirstMatch(w.archive.entries, Paths.Base(binaryPath)).Some?
    ensures IsPayload(Payload(w, binaryPath), w.archive.entries, Paths.Base(binaryPath))
    ensures |FirstMatch(w.archive.entries, Paths.Base(binaryPath)).value.data| >= 102400 ==> |Payload(w, binaryPath)| >= 102400
  {
    var i := FirstMatchIsFirst(w.archive.entries, Paths.Base(binaryPath));
    assert FirstAt(w.archive.entries, i, Paths.Base(binaryPath));
  }

  /** The download and the extraction, into a new directory. */
  method Fetch(disk: Disk, downloader: Downloader, w: World, binaryPath: string) returns (path: Outcome)
    requires Ordinary(w, binaryPath) && downloader.tempDir == ""
    modifies disk, downloader
    ensures (old(disk.stuck) ==> disk.stuck) && old(disk.history) <= disk.history
    ensures OldOrNew(disk.history, |old(disk.history)|, old(disk.files), binaryPath, Payload(w, binaryPath), false)
    ensures downloader.tempDir == "" ==> path.Failed? && disk.files == old(disk.files) && disk.dirs == old(disk.dirs)
    ensures downloader.tempDir != "" ==>
      && downloader.tempDir == w.tempName && w.tempName !in old(disk.dirs) && disk.dirs == old(disk.dirs) + {w.tempName}
      && Outside(disk.files, w.tempName) == old(disk.files) && Replace.Same(disk.files, old(disk.files), binaryPath)
    ensures path.Extracted? ==>
      && downloader.tempDir != "" && Fetched(disk.files, path.path, w, binaryPath)
      && FirstMatch(w.archive.entries, Paths.Base(binaryPath)).Some?
    ensures old(disk.faults) <= disk.faults
    ensures disk.faults == old(disk.faults) ==> (path.Extracted? <==> Fetchable(w, binaryPath, old(disk.Vacant(w.tempName))))
  {
    ghost var before, data, name := disk.files, Payload(w, binaryPath), Paths.Base(binaryPath);
    path := downloader.DownloadAndExtract(disk, w.tempName, w.body, w.archive, Paths.Base(binaryPath));
    if old(disk.Vacant(w.tempName)) { ExtractableExactly(w, name, old(disk.dirs)); }
    if downloader.tempDir == "" { return; }
    ContainedOldOrNew(disk.history, |old(disk.history)|, before, w.tempName, binaryPath, data);
    OutsideSame(disk.files, before, w.tempName, binaryPath);
    if path.Extracted? {
      Paths.BaseHasNoSlash(binaryPath);
      NotTheTarball(w.tempName, name, path.path, "update.tar.gz");
      SlashLiteral(w.tempName);
      PayloadIs(w, binaryPath);
    }
  }

  /** The part of PerformUpdate that touches the disk: download, extract, replace,
      and the deferred cleanup on every way out. If no call fails it succeeds exactly
      when nothing stands against it. */
  method Install(disk: Disk, w: World, binaryPath: string) returns (applied: bool)
    requires Ordinary(w, binaryPath)
    modifies disk
    ensures (old(disk.stuck) ==> disk.stuck) && old(disk.history) <= disk.history
    ensures OldOrNew(disk.history, |old(disk.history)|, old(disk.files), binaryPath, Payload(w, binaryPath), applied)
    ensures applied ==>
      && FirstMatch(w.archive.entries, Paths.Base(binaryPath)).Some?
      && Replace.Complete(disk.files, binaryPath, Payload(w, binaryPath))
    ensures !applied ==> Replace.Same(disk.files, old(disk.files), binaryPath)
    ensures !disk.stuck && Replace.TempPath(binaryPath) !in old(disk.files) ==>
      && disk.dirs == old(disk.dirs)
      && (if applied then disk.files - {binaryPath} == old(disk.files) - {binaryPath} else disk.files == old(disk.files))
    ensures old(disk.faults) <= disk.faults
    ensures disk.faults == old(disk.faults) ==>
      && (applied <==> Feasible(w, binaryPath, old(disk.Vacant(w.tempName)), old(disk.dirs), disk.umask))
      && (applied ==> Dressed(disk.files, old(disk.files), binaryPath, disk.umask))
  {
    ghost var before, data := disk.files, Payload(w, binaryPath);
    var downloader := new Downloader();
    var path := Fetch(disk, downloader, w, binaryPath);
    if downloader.tempDir == "" {
      downloader.Cleanup(disk);
      return false;
    }
    ghost var mid, h1 := disk.files, disk.history;
    applied := false;
    if path.Extracted? {
      applied := Swap(disk, path.path, w, binaryPath, before);
    }
    Widen(h1, |old(disk.history)|, before, binaryPath, data, applied);
    OldOrNewThen(disk.history, h1, |old(disk.history)|, before, mid, binaryPath, data, applied);
    ghost var m, h2 := disk.files, disk.history;
    downloader.Cleanup(disk);
    ContainedOldOrNew(disk.history, |h2|, m, w.tempName, binaryPath, data);
    Widen(disk.history, |h2|, m, binaryPath, data, applied);
    OldOrNewThen(disk.history, h2, |old(disk.history)|, before, m, binaryPath, data, applied);
    OutsideSame(disk.files, m, w.tempName, binaryPath);
  }

  lemma Widen(h: seq<Files>, from: nat, before: Files, path: string, data: string, applied: bool)
    requires OldOrNew(h, from, before, path, data, false)
    ensures OldOrNew(h, from, before, path, data, applied)
  {
  }

  class Updater {
    const currentVersion: string
    const binaryPath: string

    constructor (currentVersion: string, binaryPath: string)
      ensures this.currentVersion == currentVersion && this.binaryPath == binaryPath
    {
      this.currentVersion, this.binaryPath := currentVersion, binaryPath;
    }

    /** The whole update, for every course of the outside: what the client is told,
        what is installed, and what is left on the disk. */
    method PerformUpdate(disk: Disk, w: World, client: Client) returns (result: Result, ghost gate: Gate)
      requires Ordinary(w, binaryPath) && client.Valid()
      modifies disk, client, client.conn
      ensures (old(disk.stuck) ==> disk.stuck) && old(disk.history) <= disk.history
      ensures client.Valid() && gate == GateOf(currentVersion, w)
      ensures client.notices == old(client.notices) +
        if gate.Open? then [Notice(IsDownloading, currentVersion, ""), Notice(result.status, currentVersion, "")]
        else Refusal(currentVersion, gate)
      ensures if gate.Open? then result.status in {IsApplied, HasFailed} && result.latest == gate.tag
              else result.status == if gate.UpToDate? then IsCurrent else HasFailed
      ensures result.current == currentVersion
      ensures if result.status == IsApplied then Replace.Complete(disk.files, binaryPath, Payload(w, binaryPath))
              else Replace.Same(disk.files, old(disk.files), binaryPath)
      ensures OldOrNew(disk.history, |old(disk.history)|, old(disk.files), binaryPath, Payload(w, binaryPath), result.status == IsApplied)
      ensures !gate.Open? ==> disk.files == old(disk.files) && disk.dirs == old(disk.dirs) && disk.history == old(disk.history)
      ensures !disk.stuck && Replace.TempPath(binaryPath) !in old(disk.files) ==>
        && disk.dirs == old(disk.dirs)
        && (if result.status == IsApplied then disk.files - {binaryPath} == old(disk.files) - {binaryPath}
            else disk.files == old(disk.files))
      ensures old(disk.faults) <= disk.faults
      ensures disk.faults == old(disk.faults) ==>
        && (result.status == IsApplied <==>
              gate.Open? && Feasible(w, binaryPath, old(disk.Vacant(w.tempName)), old(disk.dirs), disk.umask))
        && (result.status == IsApplied ==> Dressed(disk.files, old(disk.files), binaryPath, disk.umask))
    {
      ghost var start := client.notices;
      assert start + [] == start;
      result, gate := Decide(w, client);
      if result.status != IsDownloading { return; }
      assert client.notices == start;
      var applied := Proceed(disk, w, client);
      result := result.(status := if applied then IsApplied else HasFailed);
    }

    /** The steps before the download: which of them ends the update, and what the
        client is told then. */
    method Decide(w: World, client: Client) returns (result: Result, ghost gate: Gate)
      requires client.Valid()
      modifies client, client.conn
      ensures client.Valid() && gate == GateOf(currentVersion, w)
      ensures client.notices == old(client.notices) + if gate.Open? then [] else Refusal(currentVersion, gate)
      ensures result.status == if gate.Open? then IsDownloading else if gate.UpToDate? then IsCurrent else HasFailed
      ensures result.current == currentVersion && (gate.Open? ==> result.latest == gate.tag)
    {
      gate := GateOf(currentVersion, w);
      if w.release.None? {
        Progress(client, HasFailed);
        return Result(HasFailed, currentVersion, ""), gate;
      }
      var release := w.release.value;
      var newer := OffersNewer(currentVersion, release.tag);
      if !newer {
        Progress(client, IsCurrent);
        return Result(IsCurrent, currentVersion, release.tag), gate;
      }
      if w.cancelled {
        return Result(HasFailed, currentVersion, release.tag), gate;
      }
      var asset := Assets.FindAssetForPlatform(release.assets, w.os, w.arch);
      if asset.None? {
        Progress(client, HasFailed);
        return Result(HasFailed, currentVersion, release.tag), gate;
      }
      return Result(IsDownloading, currentVersion, release.tag), gate;
    }

    /** Download, install, and what is told meanwhile. */
    method Proceed(disk: Disk, w: World, client: Client) returns (applied: bool)
      requires Ordinary(w, binaryPath) && client.Valid()
      modifies disk, client, client.conn
      ensures (old(disk.stuck) ==> disk.stuck) && old(disk.history) <= disk.history
      ensures client.Valid()
      ensures client.notices == old(client.notices) +
        [Notice(IsDownloading, currentVersion, ""), Notice(if applied then IsApplied else HasFailed, currentVersion, "")]
      ensures if applied then Replace.Complete(disk.files, binaryPath, Payload(w, binaryPath))
              else Replace.Same(disk.files, old(disk.files), binaryPath)
      ensures OldOrNew(disk.history, |old(disk.history)|, old(disk.files), binaryPath, Payload(w, binaryPath), applied)
      ensures !disk.stuck && Replace.TempPath(binaryPath) !in old(disk.files) ==>
        && disk.dirs == old(disk.dirs)
        && (if applied then disk.files - {binaryPath} == old(disk.files) - {binaryPath} else disk.files == old(disk.files))
      ensures old(disk.faults) <= disk.faults
      ensures disk.faults == old(disk.faults) ==>
        && (applied <==> Feasible(w, binaryPath, old(disk.Vacant(w.tempName)), old(disk.dirs), disk.umask))
        && (applied ==> Dressed(disk.files, old(disk.files), binaryPath, disk.umask))
    {
      Progress(client, IsDownloading);
      applied := Install(disk, w, binaryPath);
      Progress(client, if applied then IsApplied else HasFailed);
    }

    /** The progress callback: the latest version is not known to it. */
    method Progress(client: Client, status: Status)
      requires client.Valid()
      modifies client, client.conn
      ensures client.Valid() && client.notices == old(client.notices) + [Notice(status, currentVersion, "")]
    {
      client.Send(Notice(status, currentVersion, ""));
    }
  }

  // ----- handleUpdate

  /** What a client of an update is told, by the course of the update. */
  function Story(version: string, binaryPath: string, g: Gate, replaced: bool): seq<Notice> {
    if binaryPath == "" then [Notice(HasFailed, version, "")]
    else if !g.Open? then Refusal(version, g)
    else if !replaced then [Notice(IsDownloading, version, ""), Notice(HasFailed, version, "")]
    else [Notice(IsDownloading, version, ""), Notice(IsApplied, version, ""), Notice(IsRestarting, version, g.tag)]
  }

  /** An update may replace the binary only past the steps that end it early. */
  predicate MayReplace(binaryPath: string, g: Gate) { binaryPath != "" && g.Open? }

  /** There are five stories; nothing at all is told exactly when an update to a
      newer release is cancelled before its download, and "restarting" exactly when
      the binary was replaced. */
  lemma FiveStories(version: string, binaryPath: string, w: World, replaced: bool)
    requires replaced ==> MayReplace(binaryPath, GateOf(version, w))
    ensures var ss := Statuses(Story(version, binaryPath, GateOf(version, w), replaced));
            && (ss == [HasFailed] || ss == [IsCurrent] || ss == [IsDownloading, HasFailed]
                || ss == [IsDownloading, IsApplied, IsRestarting] || ss == [])
            && (ss == [] <==> binaryPath != "" && w.release.Some? && History.Offers(version, w.release.value.tag) && w.cancelled)
            && (IsRestarting in ss <==> replaced)
  {
    var g := GateOf(version, w);
    StatusesOf(version, binaryPath, g, replaced);
    assert g.Cancelled? <==> w.release.Some? && History.Offers(version, w.release.value.tag) && w.cancelled;
  }

  lemma StatusesOf(version: string, binaryPath: string, g: Gate, replaced: bool)
    requires replaced ==> MayReplace(binaryPath, g)
    ensures Statuses(Story(version, binaryPath, g, replaced)) ==
      if replaced then [IsDownloading, IsApplied, IsRestarting]
      else if MayReplace(binaryPath, g) then [IsDownloading, HasFailed]
      else if binaryPath == "" || g.NoRelease? || g.NoAsset? then [HasFailed]
      else if g.UpToDate? then [IsCurrent]
      else []
  {
  }

  /** The story is told; "restarting" is told, and a restart is to be requested, if
      and only if the binary was replaced, and it then is a sound, complete new one,
      newer than the running version. Otherwise the binary was untouched at every
      point. If no call fails it is replaced exactly when the update gets to the
      download and nothing stands against it. */
  method HandleUpdate(version: string, binaryPath: string, disk: Disk, w: World, client: Client)
    returns (replaced: bool, ghost gate: Gate)
    requires client.Valid() && (binaryPath != "" ==> Ordinary(w, binaryPath))
    modifies disk, client, client.conn
    ensures client.Valid() && gate == GateOf(version, w)
    ensures client.notices == old(client.notices) + Story(version, binaryPath, gate, replaced)
    ensures replaced ==> MayReplace(binaryPath, gate) && Replace.Complete(disk.files, binaryPath, Payload(w, binaryPath))
    ensures !replaced ==> Replace.Same(disk.files, old(disk.files), binaryPath)
    ensures old(disk.history) <= disk.history
    ensures OldOrNew(disk.history, |old(disk.history)|, old(disk.files), binaryPath, Payload(w, binaryPath), replaced)
    ensures !replaced && !disk.stuck && Replace.TempPath(binaryPath) !in old(disk.files) ==> disk.files == old(disk.files)
    ensures old(disk.faults) <= disk.faults
    ensures disk.faults == old(disk.faults) ==>
      && (replaced <==> binaryPath != "" && gate.Open?
                        && Feasible(w, binaryPath, old(disk.Vacant(w.tempName)), old(disk.dirs), disk.umask))
      && (replaced ==> Dressed(disk.files, old(disk.files), binaryPath, disk.umask))
  {
    gate := GateOf(version, w);
    if binaryPath == "" {
      client.Send(Notice(HasFailed, version, ""));
      return false, gate;
    }
    var u := new Updater(version, binaryPath);
    ghost var start := client.notices;
    var result, _ := u.PerformUpdate(disk, w, client);
    replaced := result.status == IsApplied;
    if replaced { client.Send(Notice(IsRestarting, result.current, result.latest)); }
    assert client.notices == start + Story(version, binaryPath, gate, replaced);
  }

  /** The status a check reports: failed without a path to update or a release. */
  function CheckStatus(version: string, binaryPath: string, release: Option<Release>): Status {
    if binaryPath == "" || release.None? then HasFailed
    else if History.Offers(version, release.value.tag) then IsAvailable
    else IsCurrent
  }

  method HandleCheckUpdate(version: string, binaryPath: string, release: Option<Release>, client: Client)
    requires client.Valid()
    modifies client, client.conn
    ensures client.Valid()
    ensures client.notices == old(client.notices) + [Notice(CheckStatus(version, binaryPath, release), version,
              if binaryPath == "" || release.None? then "" else release.value.tag)]
  {
    if binaryPath == "" {
      client.Send(Notice(HasFailed, version, ""));
      return;
    }
    var result := CheckUpdate(version, release);
    client.Send(Notice(result.status, result.current, result.latest));
  }
}
