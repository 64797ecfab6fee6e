// A directory tree as the installer sees it: whole files, and system calls any of which may fail.
module Disk {
  import opened Wrappers

  // Destination files, and the temporary files staged beside them.
  datatype Path = Target(name: string) | Temp(id: nat)

  datatype File = File(data: string, mode: nat)

  type Files = map<Path, File>

  // Which system calls fail, by how many were issued before.
  type Faults = nat -> bool

  const TEMP_MODE: nat := 0x180

  // The tree, the next unused temporary name, how many calls were issued, how many temporary files
  // a failed removal left behind, and every content the tree has gone through.
  datatype World = World(files: Files, next: nat, clock: nat, stuck: nat, history: seq<Files>)

  function Tick(w: World): World {
    w.(clock := w.clock + 1)
  }

  function Put(w: World, files: Files): World {
    w.(files := files, history := w.history + [files])
  }

  // Temporary names are never reused.
  predicate Fresh(w: World) {
    forall p | p in w.files && p.Temp? :: p.id < w.next
  }

  // Renaming replaces the destination or does nothing.
  function Rename(w: World, src: Path, dst: Path, faults: Faults): (World, bool) {
    if faults(w.clock) || src !in w.files then (Tick(w), false)
    else (Put(Tick(w), (w.files - {src})[dst := w.files[src]]), true)
  }

  function Remove(w: World, p: Path, faults: Faults): (World, bool) {
    if p !in w.files then (Tick(w), false)
    else if faults(w.clock) then (Tick(w).(stuck := w.stuck + (if p.Temp? then 1 else 0)), false)
    else (Put(Tick(w), w.files - {p}), true)
  }

  // Whether a file can be seen to exist.
  function Stat(w: World, p: Path, faults: Faults): (World, bool) {
    (Tick(w), !faults(w.clock) && p in w.files)
  }

  // Creates a temporary file, then fills it; a file that cannot be filled is removed again.
  function Stage(w: World, contents: File, faults: Faults): (World, Option<Path>) {
    if faults(w.clock) then (Tick(w), None)
    else
      var p := Temp(w.next);
      var created := Put(Tick(w), w.files[p := File([], TEMP_MODE)]).(next := w.next + 1);
      if faults(created.clock) then (Remove(Tick(created), p, faults).0, None)
      else (Put(Tick(created), created.files[p := contents]), Some(p))
  }

  // ---- The same calls on a live tree ----

  class Tree {
    var files: Files
    var next: nat
    var clock: nat
    ghost var stuck: nat
    ghost var history: seq<Files>
    const faults: Faults

    constructor (files: Files, next: nat, faults: Faults)
      ensures Now() == World(files, next, 0, 0, [files]) && this.faults == faults
    {
      this.files, this.next, this.clock, this.faults := files, next, 0, faults;
      this.stuck, this.history := 0, [files];
    }

    ghost function Now(): World
      reads this
    {
      World(files, next, clock, stuck, history)
    }

    // One call that only looks.
    method Look() returns (failed: bool)
      modifies this`clock
      ensures Now() == Tick(old(Now())) && failed == faults(old(clock))
    {
      failed := faults(clock);
      clock := clock + 1;
    }

    method Write(p: Path, contents: File)
      modifies this`files, this`history
      ensures Now() == Put(old(Now()), old(files)[p := contents])
    {
      files := files[p := contents];
      history := history + [files];
    }

    method RenameFile(src: Path, dst: Path) returns (ok: bool)
      modifies this
      ensures (Now(), ok) == Rename(old(Now()), src, dst, faults)
    {
      var failed := Look();
      ok := !failed && src in files;
      if ok {
        files := (files - {src})[dst := files[src]];
        history := history + [files];
      }
    }

    method RemoveFile(p: Path) returns (ok: bool)
      modifies this
      ensures (Now(), ok) == Remove(old(Now()), p, faults)
    {
      var failed := Look();
      ok := !failed && p in files;
      if ok {
        files := files - {p};
        history := history + [files];
      } else if p in files && p.Temp? {
        stuck := stuck + 1;
      }
    }

    method StatFile(p: Path) returns (found: bool)
      modifies this
      ensures (Now(), found) == Stat(old(Now()), p, faults)
    {
      var failed := Look();
      found := !failed && p in files;
    }

    method StageContents(contents: File) returns (path: Option<Path>)
      modifies this
      ensures (Now(), path) == Stage(old(Now()), contents, faults)
    {
      var failed := Look();
      if failed {
        return None;
      }
      var p := Temp(next);
      Write(p, File([], TEMP_MODE));
      next := next + 1;
      failed := Look();
      if failed {
        var _ := RemoveFile(p);
        return None;
      }
      Write(p, contents);
      path := Some(p);
    }
  }
}
