/**
 * The virtual file-system layer: the table of registered file-system
 * types, mounting the root file system, and resolving an absolute path to
 * an inode.
 *
 * A file system's own operations (its mount routine, getroot and opdent)
 * are calls into code chosen at run time; they are parameters here.
 * Inodes and mounted file systems are identified by integers.
 */
module Fs {
  import opened CTypes
  import opened CStrings

  /** Capacity of the mount table. */
  const MAX_MOUNT := 32

  /** A registered file-system type: its name and the operations that mount it. */
  datatype FsInfo = FsInfo(name: seq<u8>, ops: int)

  /** For each registered type: does its name equal `name`? */
  function NameHits(tbl: seq<FsInfo>, name: seq<u8>): (hits: seq<bool>)
    ensures |hits| == |tbl|
    ensures forall i :: 0 <= i < |tbl| ==> hits[i] == (CStr(tbl[i].name) == CStr(name))
  {
    seq(|tbl|, i requires 0 <= i < |tbl| => CStr(tbl[i].name) == CStr(name))
  }

  /** The first registered type named `name`. */
  function FindFs(tbl: seq<FsInfo>, name: seq<u8>): (r: Option<nat>)
    ensures r.Some? ==> r.value < |tbl|
  {
    FirstTrue(NameHits(tbl, name), 0)
  }

  /** FindFs returns the first type with that name, and None when there is none. */
  lemma FindFsFirst(tbl: seq<FsInfo>, name: seq<u8>)
    ensures var r := FindFs(tbl, name);
      r.Some? ==> (CStr(tbl[r.value].name) == CStr(name)
        && forall j :: 0 <= j < r.value ==> CStr(tbl[j].name) != CStr(name))
    ensures FindFs(tbl, name).None? ==> forall j :: 0 <= j < |tbl| ==> CStr(tbl[j].name) != CStr(name)
  {
    FirstTrueIsFirst(NameHits(tbl, name), 0);
  }

  // ---------------------------------------------------------------------------
  // Paths
  // ---------------------------------------------------------------------------

  /** The first index at or after p that is not a '/'. */
  function SkipSlashes(s: seq<u8>, p: nat): (q: nat)
    ensures p <= q && CharAt(s, q) != SLASH
    ensures forall k :: p <= k < q ==> CharAt(s, k) == SLASH
    decreases |s| - p
  {
    if CharAt(s, p) == SLASH then SkipSlashes(s, p + 1) else p
  }

  /** The bytes of s from p on (empty past the end). */
  function Suffix(s: seq<u8>, p: nat): seq<u8> {
    if p <= |s| then s[p..] else []
  }

  /**
   * The start positions of the non-empty components of s at or after p:
   * runs of '/' separate components and never make an empty one.
   */
  function Starts(s: seq<u8>, p: nat): (r: seq<nat>)
    ensures forall i :: 0 <= i < |r| ==> p <= r[i] < |s|
    ensures forall i :: 0 <= i < |r| ==> CharAt(s, r[i]) != NUL && CharAt(s, r[i]) != SLASH
    ensures CharAt(s, p) == SLASH ==> forall i :: 0 <= i < |r| ==> 0 < r[i] && CharAt(s, r[i] - 1) == SLASH
    decreases |s| - p
  {
    var q := SkipSlashes(s, p);
    if CharAt(s, q) == NUL then [] else [q] + Starts(s, ComponentEnd(s, q))
  }

  /**
   * Looking the components up one after another from inode ino; each
   * lookup is given the rest of the path from its component on, and a
   * failed lookup ends the walk.
   */
  function Chain(lookup: (int, seq<u8>) -> Option<int>, ino: int, s: seq<u8>, starts: seq<nat>): Option<int>
    decreases |starts|
  {
    if |starts| == 0 then Some(ino)
    else match lookup(ino, Suffix(s, starts[0]))
      case None => None
      case Some(next) => Chain(lookup, next, s, starts[1..])
  }

  /** The path, read as a C string, ends in '/' (an empty last component). */
  predicate TrailingSlash(s: seq<u8>) {
    var n := StrEnd(s, 0);
    0 < n && CharAt(s, n - 1) == SLASH
  }

  /** A path made of slashes only has no components and ends in '/'. */
  lemma NoComponentsTrailing(s: seq<u8>, p: nat)
    requires CharAt(s, p) == SLASH && forall k :: 0 <= k < p ==> CharAt(s, k) != NUL
    requires CharAt(s, SkipSlashes(s, p)) == NUL
    ensures TrailingSlash(s) && Starts(s, p) == []
  {
    var q := SkipSlashes(s, p);
    FirstEnd(s, StrEnd(s, 0), c => c == NUL, q);
  }

  /** The walk ends after a component that runs into the NUL: no trailing '/'. */
  lemma LastComponent(s: seq<u8>, q: nat)
    requires forall k :: 0 <= k < q ==> CharAt(s, k) != NUL
    requires CharAt(s, q) != NUL && CharAt(s, q) != SLASH
    requires CharAt(s, ComponentEnd(s, q)) == NUL
    ensures !TrailingSlash(s) && Starts(s, ComponentEnd(s, q)) == []
  {
    var e := ComponentEnd(s, q);
    FirstEnd(s, StrEnd(s, 0), c => c == NUL, e);
  }

  // ---------------------------------------------------------------------------
  // The mount table and the root directory
  // ---------------------------------------------------------------------------

  class Vfs {
    /** Registered file-system types, in registration order. */
    var fsinfoTbl: seq<FsInfo>
    /** Mounted file systems; the slots from mountUsed on are empty. */
    const mountTbl: array<Option<int>>
    var mountUsed: int
    /** The root directory, once a root file system is mounted. */
    var rootdir: Option<int>

    ghost predicate Valid()
      reads this, mountTbl
    {
      mountTbl.Length == MAX_MOUNT && 0 <= mountUsed <= MAX_MOUNT
      && forall k :: mountUsed <= k < MAX_MOUNT ==> mountTbl[k].None?
    }

    constructor()
      ensures Valid() && fresh(mountTbl)
      ensures fsinfoTbl == [] && mountUsed == 0 && rootdir.None?
    {
      fsinfoTbl := [];
      mountTbl := new Option<int>[MAX_MOUNT](_ => None);
      mountUsed := 0;
      rootdir := None;
    }

    /** fsinfo_add: register a file-system type at the end of the table. */
    method FsinfoAdd(info: FsInfo)
      modifies this`fsinfoTbl
      ensures fsinfoTbl == old(fsinfoTbl) + [info]
    {
      fsinfoTbl := fsinfoTbl + [info];
    }

    /** The search loop of fs_mountroot: the index of the first type named `name`, or the table size. */
    method FindFsIndex(name: seq<u8>) returns (i: int)
      ensures FindFs(fsinfoTbl, name).None? ==> i == |fsinfoTbl|
      ensures FindFs(fsinfoTbl, name).Some? ==> i == FindFs(fsinfoTbl, name).value
    {
      ghost var hits := NameHits(fsinfoTbl, name);
      i := 0;
      while i < |fsinfoTbl|
        invariant 0 <= i <= |fsinfoTbl|
        invariant FirstTrue(hits, 0) == FirstTrue(hits, i)
      {
        var c := Strcmp(fsinfoTbl[i].name, name);
        if c == 0 {
          return;
        }
        i := i + 1;
      }
    }

    /**
     * fs_mountroot: mount the first registered type named `name` on
     * `source` and make its root the root directory.  An unknown name or a
     * failed mount changes nothing and gives -1.  When the file system has
     * no root, its mount-table slot is released again, the root directory
     * is left NULL, and the result is -1.  Otherwise the file system takes
     * the next mount-table slot and the result is 0.
     */
    method MountRoot(name: seq<u8>, source: int, mount: (int, int) -> Option<int>, getroot: int -> Option<int>)
      returns (r: int)
      requires Valid() && mountUsed < MAX_MOUNT
      modifies this`mountUsed, this`rootdir, mountTbl
      ensures Valid() && fsinfoTbl == old(fsinfoTbl)
      ensures var f := FindFs(fsinfoTbl, name);
        f.None? || mount(fsinfoTbl[f.value].ops, source).None? ==>
          r == -1 && mountTbl[..] == old(mountTbl[..]) && mountUsed == old(mountUsed) && rootdir == old(rootdir)
      ensures var f := FindFs(fsinfoTbl, name);
        f.Some? && mount(fsinfoTbl[f.value].ops, source).Some?
        && getroot(mount(fsinfoTbl[f.value].ops, source).value).None? ==>
          r == -1 && mountTbl[..] == old(mountTbl[..]) && mountUsed == old(mountUsed) && rootdir.None?
      ensures var f := FindFs(fsinfoTbl, name);
        f.Some? && mount(fsinfoTbl[f.value].ops, source).Some?
        && getroot(mount(fsinfoTbl[f.value].ops, source).value).Some? ==>
          var fs := mount(fsinfoTbl[f.value].ops, source);
          r == 0 && mountUsed == old(mountUsed) + 1
          && mountTbl[..] == old(mountTbl[..])[old(mountUsed) := fs]
          && rootdir == getroot(fs.value)
    {
      var i := FindFsIndex(name);
      if i == |fsinfoTbl| {
        return -1;
      }
      var fs := mount(fsinfoTbl[i].ops, source);
      if fs.None? {
        return -1;
      }
      mountTbl[mountUsed] := fs;
      mountUsed := mountUsed + 1;
      rootdir := getroot(fs.value);
      if rootdir.None? {
        mountUsed := mountUsed - 1;
        mountTbl[mountUsed] := None;
        return -1;
      }
      return 0;
    }

    /** The inner loop `while(*ptr == '/') ptr++`. */
    static method SkipSlashRun(s: seq<u8>, p: nat) returns (q: nat)
      ensures q == SkipSlashes(s, p)
    {
      q := p;
      while CharAt(s, q) == SLASH
        invariant p <= q && SkipSlashes(s, q) == SkipSlashes(s, p)
        decreases |s| - q
      {
        q := q + 1;
      }
    }

    /** The inner loop `while(*ptr && *ptr != '/') ptr++`. */
    static method SkipName(s: seq<u8>, q: nat) returns (e: nat)
      ensures e == ComponentEnd(s, q)
    {
      e := q;
      while CharAt(s, e) != NUL && CharAt(s, e) != SLASH
        invariant q <= e && ComponentEnd(s, e) == ComponentEnd(s, q)
        decreases |s| - e
      {
        e := e + 1;
      }
    }

    /**
     * fs_nametoi: resolve an absolute path from the root directory.  There
     * is no result without a root directory, for a NULL or relative path,
     * or for a path whose last component is empty (it ends in '/').
     * Otherwise the result is the chain of lookups of the path's non-empty
     * components, which fails as soon as one lookup fails.
     */
    method NameToI(path: Option<seq<u8>>, lookup: (int, seq<u8>) -> Option<int>) returns (r: Option<int>)
      ensures rootdir.None? || path.None? || CharAt(path.value, 0) != SLASH ==> r.None?
      ensures rootdir.Some? && path.Some? && CharAt(path.value, 0) == SLASH ==>
        r == (if TrailingSlash(path.value) then None
              else Chain(lookup, rootdir.value, path.value, Starts(path.value, 0)))
    {
      if rootdir.None? {
        return None;
      }
      if path.None? {
        return None;
      }
      var s := path.value;
      if CharAt(s, 0) != SLASH {
        return None;
      }
      ghost var want := if TrailingSlash(s) then None else Chain(lookup, rootdir.value, s, Starts(s, 0));
      var cur := rootdir.value;
      var p: nat := 0;
      while true
        invariant CharAt(s, p) == SLASH && forall k :: 0 <= k < p ==> CharAt(s, k) != NUL
        invariant want == if TrailingSlash(s) then None else Chain(lookup, cur, s, Starts(s, p))
        decreases |s| - p
      {
        var q := SkipSlashRun(s, p);
        if CharAt(s, q) == NUL {
          NoComponentsTrailing(s, p);
          return None;
        }
        var next := lookup(cur, Suffix(s, q));
        if next.None? {
          return None;
        }
        cur := next.value;
        var e := SkipName(s, q);
        if CharAt(s, e) == NUL {
          LastComponent(s, q);
          return Some(cur);
        }
        p := e;
      }
    }
  }
}
