/** The part of `std::fs` the classifier touches (`exists`, `metadata`,
    `create_dir_all`, `rename`), as a map from path to node. A well-formed tree has
    the root as a directory and every proper prefix of an entry as a directory. */
module FileSystems {
  import opened Wrappers
  import opened Paths

  datatype Node = File(size: nat) | Directory

  /** The paths `create_dir_all(p)` makes sure of: the root, every ancestor and `p`. */
  function Prefixes(p: Path): set<Path> {
    set k | 0 <= k <= |p| :: p[..k]
  }

  ghost predicate ValidTree(entries: map<Path, Node>) {
    && [] in entries && entries[[]] == Directory
    && forall p, k | p in entries && 0 <= k < |p| :: p[..k] in entries && entries[p[..k]] == Directory
  }

  predicate IsFile(entries: map<Path, Node>, p: Path) {
    p in entries && entries[p].File?
  }

  predicate IsDirectory(entries: map<Path, Node>, p: Path) {
    p in entries && entries[p].Directory?
  }

  /** `create_dir_all` succeeds unless a regular file stands where a directory must go. */
  predicate CanCreateDirAll(entries: map<Path, Node>, p: Path) {
    forall q | q in Prefixes(p) :: !IsFile(entries, q)
  }

  function WithDirectories(entries: map<Path, Node>, p: Path): map<Path, Node> {
    entries + map q | q in Prefixes(p) :: Directory
  }

  /** `rename` of a regular file: the destination's parent must be a directory and the
      destination must not be one; an existing file there is replaced. */
  predicate CanRename(entries: map<Path, Node>, src: Path, dst: Path) {
    && IsFile(entries, src)
    && |dst| > 0 && IsDirectory(entries, dst[..|dst| - 1])
    && !IsDirectory(entries, dst)
  }

  /** `metadata(p).len()`: a file's size, the reported length of a directory, none
      when nothing is at `p`. */
  function MetadataLength(entries: map<Path, Node>, directoryLength: nat, p: Path): (r: Option<nat>)
    ensures r.Some? <==> p in entries
    ensures IsFile(entries, p) ==> r == Some(entries[p].size)
  {
    if p !in entries then None
    else match entries[p]
      case File(size) => Some(size)
      case Directory => Some(directoryLength)
  }

  function AfterRename(entries: map<Path, Node>, src: Path, dst: Path): map<Path, Node>
    requires src in entries
  {
    (entries - {src})[dst := entries[src]]
  }

  lemma PrefixOfPrefix(p: Path, k: nat, j: nat)
    requires j <= k <= |p|
    ensures p[..k][..j] == p[..j]
  {
  }

  /** Creating directories keeps the tree well formed and keeps every file. */
  lemma WithDirectoriesValid(entries: map<Path, Node>, p: Path)
    requires ValidTree(entries) && CanCreateDirAll(entries, p)
    ensures ValidTree(WithDirectories(entries, p))
    ensures forall q :: IsFile(entries, q) <==> IsFile(WithDirectories(entries, p), q)
    ensures forall q | IsFile(entries, q) :: WithDirectories(entries, p)[q] == entries[q]
    ensures forall q | q in Prefixes(p) :: IsDirectory(WithDirectories(entries, p), q)
  {
    var e := WithDirectories(entries, p);
    assert [] == p[..0];
    forall q, k | q in e && 0 <= k < |q|
      ensures q[..k] in e && e[q[..k]] == Directory
    {
      if q in Prefixes(p) {
        var i :| 0 <= i <= |p| && q == p[..i];
        PrefixOfPrefix(p, i, k);
        assert q[..k] in Prefixes(p);
      } else {
        assert q in entries;
        assert q[..k] in entries && entries[q[..k]] == Directory;
      }
    }
  }

  /** Renaming a file keeps the tree well formed; afterwards the destination holds the
      source's size, the source is gone unless it was the destination, and every other
      path is as it was. */
  lemma RenamedValid(entries: map<Path, Node>, src: Path, dst: Path)
    requires ValidTree(entries) && CanRename(entries, src, dst)
    ensures ValidTree(AfterRename(entries, src, dst))
    ensures AfterRename(entries, src, dst)[dst] == entries[src]
    ensures src != dst ==> src !in AfterRename(entries, src, dst)
    ensures forall q | q != src && q != dst ::
      (q in AfterRename(entries, src, dst) <==> q in entries) &&
      (q in entries ==> AfterRename(entries, src, dst)[q] == entries[q])
  {
    var e := AfterRename(entries, src, dst);
    var parent := dst[..|dst| - 1];
    forall q, k | q in e && 0 <= k < |q|
      ensures q[..k] in e && e[q[..k]] == Directory
    {
      if q == dst {
        if k < |parent| {
          PrefixOfPrefix(dst, |parent|, k);
          assert parent[..k] in entries && entries[parent[..k]] == Directory;
        }
        assert q[..k] in entries && entries[q[..k]] == Directory;
        assert q[..k] != src && q[..k] != dst;
      } else {
        assert q in entries;
        assert q[..k] in entries && entries[q[..k]] == Directory;
        assert q[..k] != src;
        assert q[..k] != dst || IsDirectory(entries, dst);
      }
    }
  }

  /** The disk. `directoryLength` is the length `metadata` reports for a directory. */
  class FileSystem {
    var entries: map<Path, Node>
    const directoryLength: nat

    ghost predicate Valid()
      reads this
    {
      ValidTree(entries)
    }

    /** An empty disk: only the root directory. */
    constructor(directoryLength: nat)
      ensures entries == map[[] := Directory] && this.directoryLength == directoryLength
      ensures Valid()
    {
      this.directoryLength := directoryLength;
      entries := map[[] := Directory];
    }

    /** `Path::exists`. */
    function Exists(p: Path): bool
      reads this
    {
      p in entries
    }

    function Length(p: Path): Option<nat>
      reads this
    {
      MetadataLength(entries, directoryLength, p)
    }

    /** `create_dir_all(p)`; on failure nothing changes. */
    method CreateDirAll(p: Path) returns (ok: bool)
      requires Valid()
      modifies this
      ensures Valid()
      ensures ok <==> CanCreateDirAll(old(entries), p)
      ensures ok ==> entries == WithDirectories(old(entries), p)
      ensures !ok ==> entries == old(entries)
    {
      ok := CanCreateDirAll(entries, p);
      if ok {
        WithDirectoriesValid(entries, p);
        entries := WithDirectories(entries, p);
      }
    }

    /** `rename(src, dst)` of a regular file; on failure nothing changes. Moving a
        directory is not modelled and fails. */
    method Rename(src: Path, dst: Path) returns (ok: bool)
      requires Valid()
      modifies this
      ensures Valid()
      ensures ok <==> CanRename(old(entries), src, dst)
      ensures ok ==> entries == AfterRename(old(entries), src, dst)
      ensures !ok ==> entries == old(entries)
    {
      ok := CanRename(entries, src, dst);
      if ok {
        RenamedValid(entries, src, dst);
        entries := AfterRename(entries, src, dst);
      }
    }
  }
}
