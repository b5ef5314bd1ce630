/**
 A file system as the updater sees it: regular files and directories by path.
 Any call may fail. `history` records the files after every call that changes
 them, which are the states a crash of the process can leave behind.
 */
module Disk {
  import opened Options
  import opened Text

  /** Permission bits; `owner` stands for uid and gid. */
  type Mode = bv16

  datatype File = File(data: string, mode: Mode, owner: nat)

  type Files = map<string, File>

  /** mode & 0111 != 0 */
  predicate Executable(m: Mode) { m & 0x49 != 0 }

  /** Some execute bit, the owner's, the group's or the others'. */
  lemma ExecutableExactly(m: Mode)
    ensures Executable(m) <==> m & 64 != 0 || m & 8 != 0 || m & 1 != 0
  {
  }

  /** A path inside a directory. */
  predicate Under(dir: string, p: string) { HasPrefix(p, dir + "/") }

  class Disk {
    var files: Files
    var dirs: set<string>
    const umask: Mode
    ghost var history: seq<Files>
    ghost var stuck: bool  // some removal has failed
    ghost var faults: nat  // failures that nothing in files and dirs explains

    /** os.Remove */
    method Remove(p: string)
      modifies this
      ensures dirs == old(dirs) && history == old(history) + [files]
      ensures files == old(files) - {p} || (files == old(files) && stuck)
      ensures stuck ==> old(stuck) || files == old(files)
      ensures old(stuck) ==> stuck
      ensures old(faults) <= faults && (faults == old(faults) ==> files == old(files) - {p} && stuck == old(stuck))
    {
      var fails: bool := *;
      if fails && p in files {
        stuck, faults := true, faults + 1;
      } else {
        files := files - {p};
      }
      history := history + [files];
    }

    /** os.Stat, or opening for reading. */
    method Stat(p: string) returns (r: Option<File>)
      modifies this`faults
      ensures r.Some? ==> p in files && r.value == files[p]
      ensures old(faults) <= faults && (faults == old(faults) && p in files ==> r.Some?)
    {
      var fails: bool := *;
      r := if fails || p !in files then None else Some(files[p]);
      if fails { faults := faults + 1; }
    }

    /** Whether something beyond the disk fails: a read, the network. */
    method Disturbed() returns (hit: bool)
      modifies this`faults
      ensures faults == if hit then old(faults) + 1 else old(faults)
    {
      hit := *;
      if hit { faults := faults + 1; }
    }

    /** os.OpenFile with O_CREATE|O_WRONLY, and O_TRUNC if asked. An existing file
        keeps its mode; a directory cannot be opened for writing. */
    method Open(p: string, mode: Mode, trunc: bool) returns (ok: bool)
      modifies this
      ensures dirs == old(dirs) && stuck == old(stuck) && history == old(history) + [files]
      ensures !ok ==> files == old(files)
      ensures ok ==> p !in dirs
      ensures ok && p in old(files) ==> files == old(files)[p := old(files)[p].(data := if trunc then "" else old(files)[p].data)]
      ensures ok && p !in old(files) ==> files == old(files)[p := File("", mode & !umask, 0)]
      ensures old(faults) <= faults && (faults == old(faults) ==> (ok <==> p !in dirs))
    {
      ok := *;
      if !ok { faults := faults + 1; }
      ok := ok && p !in dirs;
      if ok {
        if p in files {
          files := files[p := files[p].(data := if trunc then "" else files[p].data)];
        } else {
          files := files[p := File("", mode & !umask, 0)];
        }
      }
      history := history + [files];
    }

    /** A write at an offset not beyond the end, which may stop early. */
    method WriteAt(p: string, at: nat, data: string) returns (n: nat, ok: bool)
      requires p in files && at <= |files[p].data|
      modifies this
      ensures dirs == old(dirs) && stuck == old(stuck) && history == old(history) + [files]
      ensures n <= |data| && (ok <==> n == |data|)
      ensures files == old(files)[p := old(files)[p].(data := Overwrite(old(files)[p].data, at, data[..n]))]
      ensures old(faults) <= faults && (faults == old(faults) ==> ok)
    {
      n :| n <= |data|;
      ok := n == |data|;
      if !ok { faults := faults + 1; }
      files := files[p := files[p].(data := Overwrite(files[p].data, at, data[..n]))];
      history := history + [files];
    }

    /** os.Chmod and os.Chown, as a change of one file's metadata. */
    method SetMeta(p: string, mode: Option<Mode>, owner: Option<nat>) returns (ok: bool)
      modifies this
      ensures dirs == old(dirs) && stuck == old(stuck) && history == old(history) + [files]
      ensures !ok ==> files == old(files)
      ensures ok ==> p in old(files) && files == old(files)[p := old(files)[p].(
                       mode := if mode.Some? then mode.value else old(files)[p].mode,
                       owner := if owner.Some? then owner.value else old(files)[p].owner)]
      ensures old(faults) <= faults && (faults == old(faults) ==> (ok <==> p in old(files)))
    {
      ok := *;
      if !ok { faults := faults + 1; }
      ok := ok && p in files;
      if ok {
        var f := files[p];
        files := files[p := f.(mode := if mode.Some? then mode.value else f.mode,
                               owner := if owner.Some? then owner.value else f.owner)];
      }
      history := history + [files];
    }

    /** os.Rename: in one step the target is the source. A file cannot take the place
        of a directory. */
    method Rename(a: string, b: string) returns (ok: bool)
      requires a != b
      modifies this
      ensures dirs == old(dirs) && stuck == old(stuck) && history == old(history) + [files]
      ensures !ok ==> files == old(files)
      ensures ok ==> a in old(files) && b !in dirs && files == (old(files) - {a})[b := old(files)[a]]
      ensures old(faults) <= faults && (faults == old(faults) ==> (ok <==> a in old(files) && b !in dirs))
    {
      ok := *;
      if !ok { faults := faults + 1; }
      ok := ok && a in files && b !in dirs;
      if ok {
        files := (files - {a})[b := files[a]];
      }
      history := history + [files];
    }

    /** Nothing has this name or lies below it. */
    predicate Vacant(name: string)
      reads this
    {
      && name !in dirs && name !in files
      && (forall p | p in files :: !Under(name, p)) && (forall d | d in dirs :: !Under(name, d))
    }

    /** os.MkdirTemp: a directory that was not there, with nothing in it. `name` is
        the name it tries last. */
    method MkdirTemp(name: string) returns (ok: bool)
      modifies this
      ensures files == old(files) && stuck == old(stuck) && history == old(history) + [files]
      ensures ok ==> old(Vacant(name)) && dirs == old(dirs) + {name}
      ensures !ok ==> dirs == old(dirs)
      ensures old(faults) <= faults && (faults == old(faults) ==> (ok <==> old(Vacant(name))))
    {
      ok := *;
      if !ok { faults := faults + 1; }
      ok := ok && Vacant(name);
      if ok { dirs := dirs + {name}; }
      history := history + [files];
    }

    /** os.RemoveAll */
    method RemoveAll(dir: string)
      modifies this
      ensures history == old(history) + [files]
      ensures !stuck ==> files == (map p | p in old(files) && !Under(dir, p) :: old(files)[p]) && dirs == old(dirs) - {dir}
      ensures files.Keys <= old(files).Keys && forall p | p in old(files) && !Under(dir, p) :: p in files && files[p] == old(files)[p]
      ensures dirs == old(dirs) || dirs == old(dirs) - {dir}
      ensures old(stuck) ==> stuck
      ensures old(faults) <= faults && (faults == old(faults) ==> stuck == old(stuck))
    {
      var fails: bool := *;
      if fails {
        stuck, faults := true, faults + 1;
      } else {
        files := map p | p in files && !Under(dir, p) :: files[p];
        dirs := dirs - {dir};
      }
      history := history + [files];
    }
  }

  /** old with data written over it from a position on; the tail beyond stays. */
  function Overwrite(text: string, at: nat, data: string): string
    requires at <= |text|
  {
    text[..at] + data + (if at + |data| <= |text| then text[at + |data|..] else "")
  }
}
