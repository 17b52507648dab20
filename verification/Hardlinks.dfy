/**
 * Fake hard links: every name of a linked file is a symlink to a backing file in the metadata
 * directory, next to which a counter is stored. The model refines a name space of real inodes.
 *
 * Names are regular files or fake hard links; contents are single values.
 */
module Hardlinks {
  import opened Wrappers

  type Name = nat
  type Uuid = nat
  type Content = nat

  datatype Node = Regular(content: Content) | Link(uuid: Uuid)

  /** Directory entries, the backing files and their counters. */
  datatype Store = Store(names: map<Name, Node>, backing: map<Uuid, Content>, counters: map<Uuid, nat>)

  datatype Errno = NoEntry | Exists

  // ---- The code, on the files it changes ----

  class HardlinkStore {
    var names: map<Name, Node>
    var backing: map<Uuid, Content>
    var counters: map<Uuid, nat>

    ghost function Abs(): Store
      reads this
    {
      Store(names, backing, counters)
    }

    constructor ()
      ensures Abs() == Store(map[], map[], map[])
    {
      names, backing, counters := map[], map[], map[];
    }

    /** A path exists if it is a regular file or its symlink is not dangling. */
    predicate PathExists(n: Name)
      reads this
    {
      n in names && (names[n].Link? ==> names[n].uuid in backing)
    }

    method IncrementCounter(u: Uuid)
      modifies this`counters
      ensures counters == old(counters)[u := (if u in old(counters) then old(counters)[u] else 0) + 1]
    {
      if u in counters {
        counters := counters[u := counters[u] + 1];
      } else {
        counters := counters[u := 1];
      }
    }

    /** Link creation: move the file aside and leave a symlink, then add the second symlink. */
    method CreateLink(path: Name, newPath: Name, uuid: Uuid) returns (r: Result<(), Errno>)
      requires Consistent(Abs()) && uuid !in backing
      modifies this
      ensures (Abs(), r) == LinkStep(old(Abs()), path, newPath, uuid)
    {
      if !PathExists(path) {
        return Err(NoEntry);
      }
      var target: Uuid;
      if names[path].Link? {
        target := names[path].uuid;
      } else {
        target := uuid;
        backing := backing[target := names[path].content];
        names := names - {path};
        names := names[path := Link(target)];
        assert names == old(names)[path := Link(target)];
        IncrementCounter(target);
      }
      if PathExists(newPath) {
        return Err(Exists);
      }
      names := names[newPath := Link(target)];
      IncrementCounter(target);
      r := Ok(());
    }

    /** The part of metadata deletion that concerns a backing file: count down, or delete file and counter. */
    method DropLink(u: Uuid)
      modifies this`counters, this`backing
      ensures Store(names, backing, counters) == DropOne(old(Abs()), u)
    {
      if u in counters && counters[u] > 1 {
        counters := counters[u := counters[u] - 1];
      } else {
        backing := backing - {u};
        counters := counters - {u};
      }
    }

    /** Unlinking: the entry hook cleans up, also removing a regular file itself, and the kernel removes the name. */
    method Unlink(path: Name)
      modifies this
      ensures Abs() == UnlinkStep(old(Abs()), path)
    {
      if PathExists(path) {
        if names[path].Link? {
          DropLink(names[path].uuid);
        } else {
          names := names - {path};
        }
      }
      names := names - {path};
    }

    /** Renaming: nothing happens between two names of one file; otherwise the replaced name gives up its link first. */
    method Rename(path1: Name, path2: Name) returns (r: Result<(), Errno>)
      requires Consistent(Abs())
      modifies this
      ensures (Abs(), r) == RenameStep(old(Abs()), path1, path2)
    {
      if !PathExists(path1) {
        return Err(NoEntry);
      }
      if PathExists(path2) {
        if names[path1].Link? && names[path1] == names[path2] {
          return Ok(());
        } else if names[path2].Link? {
          DropLink(names[path2].uuid);
        }
      }
      if path1 != path2 {
        names := (names - {path1})[path2 := names[path1]];
      }
      r := Ok(());
    }
  }

  // ---- The same steps as functions ----

  function DropOne(s: Store, u: Uuid): Store {
    if u in s.counters && s.counters[u] > 1 then s.(counters := s.counters[u := s.counters[u] - 1])
    else s.(backing := s.backing - {u}, counters := s.counters - {u})
  }

  function Bump(counters: map<Uuid, nat>, u: Uuid): map<Uuid, nat> {
    counters[u := (if u in counters then counters[u] else 0) + 1]
  }

  /** A regular file turned into the only name of a new backing file. */
  function MoveAside(s: Store, path: Name, uuid: Uuid): Store
    requires path in s.names && s.names[path].Regular?
  {
    Store(s.names[path := Link(uuid)], s.backing[uuid := s.names[path].content], Bump(s.counters, uuid))
  }

  /** A new name for an existing backing file. */
  function AddName(s: Store, path: Name, u: Uuid): Store {
    s.(names := s.names[path := Link(u)], counters := Bump(s.counters, u))
  }

  function LinkStep(s: Store, path: Name, newPath: Name, uuid: Uuid): (Store, Result<(), Errno>) {
    if path !in s.names then (s, Err(NoEntry))
    else
      var s1 := if s.names[path].Link? then s else MoveAside(s, path, uuid);
      if newPath in s.names then (s1, Err(Exists))
      else (AddName(s1, newPath, s1.names[path].uuid), Ok(()))
  }

  function UnlinkStep(s: Store, path: Name): Store {
    var s1 := if path in s.names && s.names[path].Link? && s.names[path].uuid in s.backing
              then DropOne(s, s.names[path].uuid) else s;
    s1.(names := s.names - {path})
  }

  function RenameStep(s: Store, path1: Name, path2: Name): (Store, Result<(), Errno>) {
    if path1 !in s.names then (s, Err(NoEntry))
    else if path1 == path2 then (s, Ok(()))
    else if path2 in s.names && s.names[path1].Link? && s.names[path1] == s.names[path2] then (s, Ok(()))
    else
      var s1 := if path2 in s.names && s.names[path2].Link? then DropOne(s, s.names[path2].uuid) else s;
      (s1.(names := (s.names - {path1})[path2 := s.names[path1]]), Ok(()))
  }

  /** Writing through a name; the kernel follows the symlink. */
  function WriteStep(s: Store, path: Name, content: Content): Store {
    if path !in s.names then s
    else match s.names[path]
      case Regular(_) => s.(names := s.names[path := Regular(content)])
      case Link(u) => s.(backing := s.backing[u := content])
  }

  function CreateStep(s: Store, path: Name, content: Content): Store {
    if path in s.names then WriteStep(s, path, content) else s.(names := s.names[path := Regular(content)])
  }

  // ---- What holds of the store at all times ----

  ghost function NamesOf(names: map<Name, Node>, u: Uuid): set<Name> {
    set n | n in names && names[n] == Link(u)
  }

  /** A backing file and its counter exist exactly while a name points there; the counter is the number of names. */
  ghost predicate Consistent(s: Store) {
    && (forall u :: u in s.backing <==> u in s.counters)
    && (forall u :: u in s.counters ==> s.counters[u] == |NamesOf(s.names, u)| && s.counters[u] > 0)
    && (forall n :: n in s.names && s.names[n].Link? ==> s.names[n].uuid in s.backing)
  }

  // ---- The specification: real inodes ----

  datatype Fs = Fs(names: map<Name, nat>, inodes: map<nat, Content>)

  function FsLink(fs: Fs, path: Name, newPath: Name): (Fs, Result<(), Errno>) {
    if path !in fs.names then (fs, Err(NoEntry))
    else if newPath in fs.names then (fs, Err(Exists))
    else (fs.(names := fs.names[newPath := fs.names[path]]), Ok(()))
  }

  function FsUnlink(fs: Fs, path: Name): Fs {
    fs.(names := fs.names - {path})
  }

  /** rename() in POSIX.1-2017 System Interfaces: two names of one file are left as they are. */
  function FsRename(fs: Fs, path1: Name, path2: Name): (Fs, Result<(), Errno>) {
    if path1 !in fs.names then (fs, Err(NoEntry))
    else if path2 in fs.names && fs.names[path1] == fs.names[path2] then (fs, Ok(()))
    else (fs.(names := (fs.names - {path1})[path2 := fs.names[path1]]), Ok(()))
  }

  function FsWrite(fs: Fs, path: Name, content: Content): Fs {
    if path !in fs.names then fs else fs.(inodes := fs.inodes[fs.names[path] := content])
  }

  function FsCreate(fs: Fs, path: Name, content: Content, inode: nat): Fs {
    if path in fs.names then FsWrite(fs, path, content)
    else Fs(fs.names[path := inode], fs.inodes[inode := content])
  }

  ghost predicate FsSound(fs: Fs) {
    forall n :: n in fs.names ==> fs.names[n] in fs.inodes
  }

  // ---- Refinement ----

  function Read(s: Store, n: Name): Option<Content> {
    if n !in s.names then None
    else match s.names[n]
      case Regular(c) => Some(c)
      case Link(u) => if u in s.backing then Some(s.backing[u]) else None
  }

  ghost predicate SameFile(s: Store, m: Name, n: Name)
    requires m in s.names && n in s.names
  {
    m == n || (s.names[m].Link? && s.names[m] == s.names[n])
  }

  /** The same names, each with the same content, and the same pairs of names share a file. */
  ghost predicate Refines(s: Store, fs: Fs) {
    && FsSound(fs)
    && (forall n :: n in s.names <==> n in fs.names)
    && (forall n :: n in s.names ==> Read(s, n) == Some(fs.inodes[fs.names[n]]))
    && (forall m, n :: m in s.names && n in s.names ==> (SameFile(s, m, n) <==> fs.names[m] == fs.names[n]))
  }

  // ---- What each step does to what can be seen ----

  /** The names other than this one, their contents and the files they share are as before. */
  ghost predicate OthersStay(s: Store, n: Name, s': Store) {
    && (forall m :: m != n ==> (m in s.names <==> m in s'.names) && Read(s', m) == Read(s, m))
    && (forall l, m :: l != n && m != n && l in s.names && m in s.names && l in s'.names && m in s'.names ==>
          (SameFile(s, l, m) <==> SameFile(s', l, m)))
  }

  /** A link succeeds exactly from an existing name to a new one, which is then another name of the same file. */
  lemma {:induction false} LinkEffect(s: Store, path: Name, newPath: Name, uuid: Uuid)
    requires Consistent(s) && uuid !in s.backing
    ensures var (s', r) := LinkStep(s, path, newPath, uuid);
            && (r.Err? && r.error == NoEntry <==> path !in s.names)
            && (r.Err? && r.error == Exists <==> path in s.names && newPath in s.names)
            && (r.Ok? <==> path in s.names && newPath !in s.names)
            && OthersStay(s, newPath, s')
            && Read(s', newPath) == (if r.Ok? then Read(s, path) else Read(s, newPath))
            && (r.Ok? ==> newPath in s'.names && path in s'.names && SameFile(s', path, newPath))
            && (r.Err? ==> (newPath in s'.names <==> newPath in s.names))
  {
    if path in s.names {
      var s1 := if s.names[path].Link? then s else MoveAside(s, path, uuid);
      if s.names[path].Regular? {
        MoveAsideUnseen(s, path, uuid);
      }
      if newPath !in s.names {
        AddNameEffect(s1, newPath, path);
      }
    }
  }

  /** Moving a file aside cannot be seen. */
  lemma {:induction false} MoveAsideUnseen(s: Store, path: Name, uuid: Uuid)
    requires Consistent(s) && uuid !in s.backing && path in s.names && s.names[path].Regular?
    ensures var s' := MoveAside(s, path, uuid);
            && (forall m :: (m in s'.names <==> m in s.names) && Read(s', m) == Read(s, m))
            && (forall l, m :: l in s.names && m in s.names ==> (SameFile(s', l, m) <==> SameFile(s, l, m)))
  {
    assert forall m :: m in s.names && s.names[m].Link? ==> s.names[m].uuid in s.backing;
  }

  lemma {:induction false} AddNameEffect(s: Store, newPath: Name, path: Name)
    requires newPath !in s.names && path in s.names && s.names[path].Link?
    ensures var s' := AddName(s, newPath, s.names[path].uuid);
            && OthersStay(s, newPath, s') && Read(s', newPath) == Read(s, path)
            && newPath in s'.names && path in s'.names && SameFile(s', path, newPath)
  {
  }

  /** Unlinking removes the name and nothing else, whatever other names the file has. */
  lemma {:induction false} UnlinkEffect(s: Store, path: Name)
    requires Consistent(s)
    ensures path !in UnlinkStep(s, path).names && OthersStay(s, path, UnlinkStep(s, path))
  {
    var s' := UnlinkStep(s, path);
    UnlinkConsistent(s, path);
    forall m | m != path ensures Read(s', m) == Read(s, m) {
      if m in s.names && s.names[m].Link? {
        assert s'.names[m].uuid in s'.backing;
      }
    }
  }

  /** Renaming a missing name is an error, and renaming between two names of one file changes nothing. */
  lemma {:induction false} RenameNothing(s: Store, path1: Name, path2: Name)
    requires Consistent(s)
    ensures RenameStep(s, path1, path2).1 == if path1 in s.names then Ok(()) else Err(NoEntry)
    ensures path1 !in s.names || (path2 in s.names && SameFile(s, path1, path2)) ==>
              RenameStep(s, path1, path2).0 == s
  {
  }

  /** Otherwise the old name is gone, the new one is a name of the file, and all other names are as before. */
  lemma {:induction false} RenameEffect(s: Store, path1: Name, path2: Name)
    requires Consistent(s) && path1 in s.names && !(path2 in s.names && SameFile(s, path1, path2))
    ensures var s' := RenameStep(s, path1, path2).0;
            && path1 !in s'.names && path2 in s'.names && Read(s', path2) == Read(s, path1)
            && (forall m :: m != path1 && m != path2 ==> (m in s'.names <==> m in s.names) && Read(s', m) == Read(s, m))
            && (forall m :: m != path1 && m != path2 && m in s.names && m in s'.names ==>
                  (SameFile(s', path2, m) <==> SameFile(s, path1, m)))
  {
    var s' := RenameStep(s, path1, path2).0;
    RenameConsistent(s, path1, path2);
    forall m | m != path1 && m != path2 ensures Read(s', m) == Read(s, m) {
      if m in s.names && s.names[m].Link? {
        assert s'.names[m].uuid in s'.backing;
      }
    }
    if s.names[path1].Link? {
      assert s'.names[path2].uuid in s'.backing;
    }
  }

  /** What is written through one name is read through every name of that file, and through no other. */
  lemma {:induction false} WriteEffect(s: Store, path: Name, content: Content)
    requires Consistent(s) && path in s.names
    ensures var s' := WriteStep(s, path, content);
            && (forall m :: m in s'.names <==> m in s.names)
            && (forall m :: m in s.names ==>
                  Read(s', m) == if SameFile(s, path, m) then Some(content) else Read(s, m))
            && (forall l, m :: l in s.names && m in s.names ==> (SameFile(s', l, m) <==> SameFile(s, l, m)))
  {
  }

  /** A created file is a file of its own. */
  lemma {:induction false} CreateEffect(s: Store, path: Name, content: Content)
    requires Consistent(s) && path !in s.names
    ensures var s' := CreateStep(s, path, content);
            && OthersStay(s, path, s') && path in s'.names && Read(s', path) == Some(content)
            && (forall m :: m in s.names ==> !SameFile(s', path, m))
  {
  }

  // ---- Counting names ----

  /** Changing or removing a name that does not point to u, without pointing it there, keeps the names of u. */
  lemma {:induction false} PointElsewhere(names: map<Name, Node>, n: Name, node: Node, u: Uuid)
    requires node != Link(u) && n !in NamesOf(names, u)
    ensures NamesOf(names[n := node], u) == NamesOf(names, u)
    ensures NamesOf(names - {n}, u) == NamesOf(names, u)
  {
  }

  lemma {:induction false} PointHere(names: map<Name, Node>, n: Name, u: Uuid)
    requires n !in NamesOf(names, u)
    ensures |NamesOf(names[n := Link(u)], u)| == |NamesOf(names, u)| + 1
  {
    assert NamesOf(names[n := Link(u)], u) == NamesOf(names, u) + {n};
  }

  lemma {:induction false} PointAway(names: map<Name, Node>, n: Name, u: Uuid)
    requires n in NamesOf(names, u)
    ensures |NamesOf(names - {n}, u)| == |NamesOf(names, u)| - 1
  {
    assert NamesOf(names - {n}, u) == NamesOf(names, u) - {n};
  }

  /** An unused id has no names. */
  lemma {:induction false} FreshHasNoNames(s: Store, u: Uuid)
    requires Consistent(s) && u !in s.backing
    ensures NamesOf(s.names, u) == {}
  {
  }

  // ---- Every step keeps the store consistent ----

  lemma {:induction false} MoveAsideConsistent(s: Store, path: Name, uuid: Uuid)
    requires Consistent(s) && path in s.names && s.names[path].Regular? && uuid !in s.backing
    ensures Consistent(MoveAside(s, path, uuid))
  {
    FreshHasNoNames(s, uuid);
    PointHere(s.names, path, uuid);
    var s' := MoveAside(s, path, uuid);
    forall u | u in s'.counters ensures s'.counters[u] == |NamesOf(s'.names, u)| && s'.counters[u] > 0 {
      if u != uuid {
        PointElsewhere(s.names, path, Link(uuid), u);
      }
    }
  }

  lemma {:induction false} AddNameConsistent(s: Store, path: Name, target: Uuid)
    requires Consistent(s) && path !in s.names && target in s.backing
    ensures Consistent(AddName(s, path, target))
  {
    PointHere(s.names, path, target);
    var s' := AddName(s, path, target);
    forall u | u in s'.counters ensures s'.counters[u] == |NamesOf(s'.names, u)| && s'.counters[u] > 0 {
      if u != target {
        PointElsewhere(s.names, path, Link(target), u);
      }
    }
  }

  lemma {:induction false} LinkConsistent(s: Store, path: Name, newPath: Name, uuid: Uuid)
    requires Consistent(s) && uuid !in s.backing
    ensures Consistent(LinkStep(s, path, newPath, uuid).0)
  {
    if path in s.names {
      if s.names[path].Regular? {
        MoveAsideConsistent(s, path, uuid);
      }
      var s1 := if s.names[path].Link? then s else MoveAside(s, path, uuid);
      if newPath !in s.names {
        AddNameConsistent(s1, newPath, s1.names[path].uuid);
      }
    }
  }

  /** Giving up one name of u, whatever that name is used for afterwards. */
  lemma {:induction false} GiveUpConsistent(s: Store, path: Name)
    requires Consistent(s) && path in s.names
    ensures Consistent(UnlinkStep(s, path))
  {
    var s' := UnlinkStep(s, path);
    if s.names[path].Link? {
      var target := s.names[path].uuid;
      assert path in NamesOf(s.names, target);
      PointAway(s.names, path, target);
      forall u | u in s'.counters ensures s'.counters[u] == |NamesOf(s'.names, u)| && s'.counters[u] > 0 {
        if u != target {
          PointElsewhere(s.names, path, Regular(0), u);
        }
      }
      if s.counters[target] == 1 {
        assert NamesOf(s'.names, target) == {};
        forall n | n in s'.names && s'.names[n].Link? ensures s'.names[n].uuid in s'.backing {
          assert s'.names[n].uuid == target ==> n in NamesOf(s'.names, target);
        }
      }
    } else {
      forall u | u in s'.counters ensures s'.counters[u] == |NamesOf(s'.names, u)| && s'.counters[u] > 0 {
        PointElsewhere(s.names, path, Regular(0), u);
      }
    }
  }

  lemma {:induction false} UnlinkConsistent(s: Store, path: Name)
    requires Consistent(s)
    ensures Consistent(UnlinkStep(s, path))
  {
    if path in s.names {
      GiveUpConsistent(s, path);
    } else {
      assert s.names - {path} == s.names;
    }
  }

  /** A rename is an unlink of the replaced name followed by a move onto a free name. */
  lemma {:induction false} RenameAsMove(s: Store, path1: Name, path2: Name)
    requires Consistent(s) && path1 in s.names && path1 != path2
    requires path2 in s.names ==> s.names[path1].Regular? || s.names[path1] != s.names[path2]
    ensures RenameStep(s, path1, path2) == (Moved(UnlinkStep(s, path2), path1, path2), Ok(()))
    ensures path1 in UnlinkStep(s, path2).names && path2 !in UnlinkStep(s, path2).names
    ensures UnlinkStep(s, path2).names[path1] == s.names[path1]
  {
    var s1 := UnlinkStep(s, path2);
    assert (s.names - {path1})[path2 := s.names[path1]] == (s1.names - {path1})[path2 := s1.names[path1]];
  }

  function Moved(s: Store, path1: Name, path2: Name): Store
    requires path1 in s.names
  {
    s.(names := (s.names - {path1})[path2 := s.names[path1]])
  }

  lemma {:induction false} MovedConsistent(s: Store, path1: Name, path2: Name)
    requires Consistent(s) && path1 in s.names && path2 !in s.names
    ensures Consistent(Moved(s, path1, path2))
  {
    var s' := Moved(s, path1, path2);
    forall u | u in s'.counters ensures s'.counters[u] == |NamesOf(s'.names, u)| && s'.counters[u] > 0 {
      if s.names[path1] == Link(u) {
        assert path1 in NamesOf(s.names, u);
        PointAway(s.names, path1, u);
        PointHere(s.names - {path1}, path2, u);
      } else {
        PointElsewhere(s.names, path1, Regular(0), u);
        PointElsewhere(s.names - {path1}, path2, s.names[path1], u);
      }
    }
  }

  lemma {:induction false} RenameConsistent(s: Store, path1: Name, path2: Name)
    requires Consistent(s)
    ensures Consistent(RenameStep(s, path1, path2).0)
  {
    if path1 in s.names && path1 != path2 &&
       (path2 in s.names ==> s.names[path1].Regular? || s.names[path1] != s.names[path2]) {
      RenameAsMove(s, path1, path2);
      UnlinkConsistent(s, path2);
      MovedConsistent(UnlinkStep(s, path2), path1, path2);
    }
  }

  lemma {:induction false} CreateConsistent(s: Store, path: Name, content: Content)
    requires Consistent(s)
    ensures Consistent(CreateStep(s, path, content)) && Consistent(WriteStep(s, path, content))
  {
    forall u | u in s.counters && !(path in s.names && s.names[path].Link?)
      ensures NamesOf(s.names[path := Regular(content)], u) == NamesOf(s.names, u)
    {
      PointElsewhere(s.names, path, Regular(content), u);
    }
  }

  // ---- Every step refines its counterpart ----

  lemma {:induction false} MoveAsideRefines(s: Store, fs: Fs, path: Name, uuid: Uuid)
    requires Consistent(s) && Refines(s, fs) && path in s.names && s.names[path].Regular? && uuid !in s.backing
    ensures Refines(MoveAside(s, path, uuid), fs)
  {
    var s' := MoveAside(s, path, uuid);
    assert forall n :: n in s.names && s.names[n].Link? ==> s.names[n].uuid != uuid;
    forall m, n | m in s'.names && n in s'.names
      ensures SameFile(s', m, n) <==> fs.names[m] == fs.names[n]
    {
      assert SameFile(s', m, n) == SameFile(s, m, n);
    }
  }

  lemma {:induction false} AddNameRefines(s: Store, fs: Fs, path: Name, newPath: Name)
    requires Consistent(s) && Refines(s, fs) && newPath !in s.names && path in s.names && s.names[path].Link?
    ensures Refines(AddName(s, newPath, s.names[path].uuid), FsLink(fs, path, newPath).0)
  {
    var s', fs' := AddName(s, newPath, s.names[path].uuid), FsLink(fs, path, newPath).0;
    forall m, n | m in s'.names && n in s'.names
      ensures SameFile(s', m, n) <==> fs'.names[m] == fs'.names[n]
    {
      var m0 := if m == newPath then path else m;
      var n0 := if n == newPath then path else n;
      assert SameFile(s', m, n) == SameFile(s, m0, n0);
    }
  }

  lemma {:induction false} LinkRefines(s: Store, fs: Fs, path: Name, newPath: Name, uuid: Uuid)
    requires Consistent(s) && Refines(s, fs) && uuid !in s.backing
    ensures Refines(LinkStep(s, path, newPath, uuid).0, FsLink(fs, path, newPath).0)
    ensures LinkStep(s, path, newPath, uuid).1 == FsLink(fs, path, newPath).1
  {
    if path in s.names {
      if s.names[path].Regular? {
        MoveAsideRefines(s, fs, path, uuid);
        MoveAsideConsistent(s, path, uuid);
      }
      var s1 := if s.names[path].Link? then s else MoveAside(s, path, uuid);
      if newPath !in s.names {
        AddNameRefines(s1, fs, path, newPath);
      }
    }
  }

  lemma {:induction false} UnlinkRefines(s: Store, fs: Fs, path: Name)
    requires Consistent(s) && Refines(s, fs)
    ensures Refines(UnlinkStep(s, path), FsUnlink(fs, path))
  {
    UnlinkConsistent(s, path);
    var s', fs' := UnlinkStep(s, path), FsUnlink(fs, path);
    forall n | n in s'.names ensures Read(s', n) == Some(fs'.inodes[fs'.names[n]]) {
      assert Read(s', n) == Read(s, n);
    }
    forall m, n | m in s'.names && n in s'.names
      ensures SameFile(s', m, n) <==> fs'.names[m] == fs'.names[n]
    {
      assert SameFile(s', m, n) == SameFile(s, m, n);
    }
  }

  lemma {:induction false} MovedRefines(s: Store, fs: Fs, path1: Name, path2: Name)
    requires Consistent(s) && Refines(s, fs) && path1 in s.names && path2 !in s.names
    ensures Refines(Moved(s, path1, path2), fs.(names := (fs.names - {path1})[path2 := fs.names[path1]]))
  {
    var s', fs' := Moved(s, path1, path2), fs.(names := (fs.names - {path1})[path2 := fs.names[path1]]);
    forall n | n in s'.names ensures Read(s', n) == Some(fs'.inodes[fs'.names[n]]) {
      assert Read(s', n) == Read(s, if n == path2 then path1 else n);
    }
    forall m, n | m in s'.names && n in s'.names
      ensures SameFile(s', m, n) <==> fs'.names[m] == fs'.names[n]
    {
      assert SameFile(s', m, n) == SameFile(s, if m == path2 then path1 else m, if n == path2 then path1 else n);
    }
  }

  lemma {:induction false} RenameRefines(s: Store, fs: Fs, path1: Name, path2: Name)
    requires Consistent(s) && Refines(s, fs)
    ensures Refines(RenameStep(s, path1, path2).0, FsRename(fs, path1, path2).0)
    ensures RenameStep(s, path1, path2).1 == FsRename(fs, path1, path2).1
  {
    if path1 in s.names && path2 in s.names {
      assert SameFile(s, path1, path2) <==> fs.names[path1] == fs.names[path2];
    }
    if path1 in s.names && path1 != path2 &&
       (path2 in s.names ==> s.names[path1].Regular? || s.names[path1] != s.names[path2]) {
      RenameAsMove(s, path1, path2);
      UnlinkConsistent(s, path2);
      UnlinkRefines(s, fs, path2);
      MovedRefines(UnlinkStep(s, path2), FsUnlink(fs, path2), path1, path2);
      var fs1 := FsUnlink(fs, path2);
      assert (fs1.names - {path1})[path2 := fs1.names[path1]] == (fs.names - {path1})[path2 := fs.names[path1]];
    }
  }

  lemma {:induction false} WriteRefines(s: Store, fs: Fs, path: Name, content: Content)
    requires Consistent(s) && Refines(s, fs)
    ensures Refines(WriteStep(s, path, content), FsWrite(fs, path, content))
  {
    if path in s.names {
      var s', fs' := WriteStep(s, path, content), FsWrite(fs, path, content);
      forall n | n in s'.names ensures Read(s', n) == Some(fs'.inodes[fs'.names[n]]) {
        assert SameFile(s, path, n) <==> fs.names[path] == fs.names[n];
        assert Read(s, n) == Some(fs.inodes[fs.names[n]]);
      }
      forall m, n | m in s'.names && n in s'.names
        ensures SameFile(s', m, n) <==> fs'.names[m] == fs'.names[n]
      {
        assert SameFile(s', m, n) == SameFile(s, m, n);
      }
    }
  }

  lemma {:induction false} CreateRefines(s: Store, fs: Fs, path: Name, content: Content, inode: nat)
    requires Consistent(s) && Refines(s, fs) && inode !in fs.inodes
    ensures Refines(CreateStep(s, path, content), FsCreate(fs, path, content, inode))
  {
    if path in s.names {
      WriteRefines(s, fs, path, content);
    } else {
      var s', fs' := CreateStep(s, path, content), FsCreate(fs, path, content, inode);
      forall m, n | m in s'.names && n in s'.names
        ensures SameFile(s', m, n) <==> fs'.names[m] == fs'.names[n]
      {
        assert m in s.names && n in s.names ==> SameFile(s', m, n) == SameFile(s, m, n);
      }
    }
  }

  // ---- Whole runs ----

  datatype Op =
    | OpCreate(path: Name, content: Content, inode: nat)
    | OpWrite(path: Name, content: Content)
    | OpLink(path: Name, newPath: Name, uuid: Uuid)
    | OpUnlink(path: Name)
    | OpRename(path: Name, newPath: Name)

  function Apply(s: Store, op: Op): Store {
    match op
    case OpCreate(path, content, _) => CreateStep(s, path, content)
    case OpWrite(path, content) => WriteStep(s, path, content)
    case OpLink(path, newPath, uuid) => LinkStep(s, path, newPath, uuid).0
    case OpUnlink(path) => UnlinkStep(s, path)
    case OpRename(path, newPath) => RenameStep(s, path, newPath).0
  }

  function FsApply(fs: Fs, op: Op): Fs {
    match op
    case OpCreate(path, content, inode) => FsCreate(fs, path, content, inode)
    case OpWrite(path, content) => FsWrite(fs, path, content)
    case OpLink(path, newPath, _) => FsLink(fs, path, newPath).0
    case OpUnlink(path) => FsUnlink(fs, path)
    case OpRename(path, newPath) => FsRename(fs, path, newPath).0
  }

  /** Random ids and new inode numbers are not in use yet. */
  ghost predicate Fresh(s: Store, fs: Fs, op: Op) {
    && (op.OpLink? ==> op.uuid !in s.backing)
    && (op.OpCreate? ==> op.inode !in fs.inodes)
  }

  ghost function After(ops: seq<Op>): (Store, Fs) {
    if ops == [] then (Store(map[], map[], map[]), Fs(map[], map[]))
    else
      var (s, fs) := After(ops[..|ops| - 1]);
      (Apply(s, ops[|ops| - 1]), FsApply(fs, ops[|ops| - 1]))
  }

  ghost predicate FreshAlong(ops: seq<Op>) {
    ops == [] ||
    (FreshAlong(ops[..|ops| - 1]) &&
     var (s, fs) := After(ops[..|ops| - 1]);
     Fresh(s, fs, ops[|ops| - 1]))
  }

  /**
   * After every run from an empty tree: counters equal the numbers of names, backing files exist exactly
   * while named, and names, contents and sharing are those of a file system with real inodes.
   */
  lemma {:induction false} RunsRefineInodes(ops: seq<Op>)
    requires FreshAlong(ops)
    ensures Consistent(After(ops).0) && Refines(After(ops).0, After(ops).1)
  {
    if ops != [] {
      var before, op := ops[..|ops| - 1], ops[|ops| - 1];
      RunsRefineInodes(before);
      var (s, fs) := After(before);
      match op
      case OpCreate(path, content, inode) =>
        CreateConsistent(s, path, content);
        CreateRefines(s, fs, path, content, inode);
      case OpWrite(path, content) =>
        CreateConsistent(s, path, content);
        WriteRefines(s, fs, path, content);
      case OpLink(path, newPath, uuid) =>
        LinkConsistent(s, path, newPath, uuid);
        LinkRefines(s, fs, path, newPath, uuid);
      case OpUnlink(path) =>
        UnlinkConsistent(s, path);
        UnlinkRefines(s, fs, path);
      case OpRename(path, newPath) =>
        RenameConsistent(s, path, newPath);
        RenameRefines(s, fs, path, newPath);
    }
  }
}
