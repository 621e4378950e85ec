/**
  `GetProcMountsMatches` and its two wrappers of libarttools/tools.cc. The
  mount table reader is not modelled: its outcome is an input, `None` when the
  table could not be read and `Some(entries)` otherwise.
*/
module Mounts {
  import opened Wrappers
  import opened Paths

  /** One mount record. Only `mountPoint` and `fsType` are interpreted. */
  datatype FstabEntry = FstabEntry(blkDevice: string, mountPoint: string, fsType: string)

  const ReadError: string := "Failed to read fstab from /proc/mounts"

  /** Swap areas and records whose mount point is not absolute are never tested. */
  predicate Considered(e: FstabEntry) {
    e.fsType != "swap" && IsAbsolute(e.mountPoint)
  }

  /** A predicate over mount points that is defined on every absolute path. */
  ghost predicate DefinedOnAbsolute(pred: string --> bool) {
    forall mp :: IsAbsolute(mp) ==> pred.requires(mp)
  }

  /** Whether the record is kept by the filter. */
  predicate Kept(e: FstabEntry, pred: string --> bool)
    requires DefinedOnAbsolute(pred)
  {
    Considered(e) && pred(e.mountPoint)
  }

  /** The kept records of `fstab`, in table order. */
  function MountsWhere(fstab: seq<FstabEntry>, pred: string --> bool): seq<FstabEntry>
    requires DefinedOnAbsolute(pred)
  {
    if fstab == [] then []
    else
      var last := fstab[|fstab| - 1];
      MountsWhere(fstab[..|fstab| - 1], pred) + (if Kept(last, pred) then [last] else [])
  }

  /** `a` is `b` with some elements left out, the rest kept in order. */
  predicate IsSubsequence<T(==)>(a: seq<T>, b: seq<T>)
    decreases |b|
  {
    if a == [] then true
    else if b == [] then false
    else
      (a[|a| - 1] == b[|b| - 1] && IsSubsequence(a[..|a| - 1], b[..|b| - 1]))
      || IsSubsequence(a, b[..|b| - 1])
  }

  /** The filter keeps exactly the considered records that satisfy the predicate. */
  lemma {:induction false} MountsWhereMembership(fstab: seq<FstabEntry>, pred: string --> bool, e: FstabEntry)
    requires DefinedOnAbsolute(pred)
    ensures e in MountsWhere(fstab, pred) <==> e in fstab && Kept(e, pred)
    decreases |fstab|
  {
    if fstab != [] {
      var init := fstab[..|fstab| - 1];
      MountsWhereMembership(init, pred, e);
      assert fstab == init + [fstab[|fstab| - 1]];
    }
  }

  /** The filter drops records but never reorders them. */
  lemma {:induction false} MountsWhereSubsequence(fstab: seq<FstabEntry>, pred: string --> bool)
    requires DefinedOnAbsolute(pred)
    ensures IsSubsequence(MountsWhere(fstab, pred), fstab)
    decreases |fstab|
  {
    if fstab != [] {
      var init := fstab[..|fstab| - 1];
      var last := fstab[|fstab| - 1];
      var r := MountsWhere(init, pred);
      MountsWhereSubsequence(init, pred);
      if Kept(last, pred) {
        var s := r + [last];
        assert s[..|s| - 1] == r;
      } else {
        assert MountsWhere(fstab, pred) == r;
        if r != [] {
          assert IsSubsequence(r, fstab[..|fstab| - 1]);
        }
      }
    }
  }

  /** Reads the table, then keeps the considered records whose mount point satisfies `pred`. */
  method GetProcMountsMatches(fstab: Option<seq<FstabEntry>>, pred: string --> bool)
    returns (r: Result<seq<FstabEntry>, string>)
    requires DefinedOnAbsolute(pred)
    ensures fstab.None? <==> r.Failure?
    ensures fstab.None? ==> r == Failure(ReadError)
    ensures fstab.Some? ==> r == Success(MountsWhere(fstab.value, pred))
  {
    if fstab.None? {
      return Failure(ReadError);
    }
    var table := fstab.value;
    var entries: seq<FstabEntry> := [];
    for i := 0 to |table|
      invariant entries == MountsWhere(table[..i], pred)
    {
      var entry := table[i];
      assert table[..i + 1][..i] == table[..i];
      if entry.fsType == "swap" || !(|entry.mountPoint| > 0 && entry.mountPoint[0] == '/') {
        continue;
      }
      if pred(entry.mountPoint) {
        entries := entries + [entry];
      }
    }
    assert table[..|table|] == table;
    return Success(entries);
  }

  /** The test for ancestors of `path`: the mount point is a path prefix of `path`. */
  function AncestorOf(path: string): string --> bool
    requires IsAbsolute(path)
  {
    mp requires IsAbsolute(mp) => PathStartsWith(path, mp)
  }

  /** The test for descendants of `path`: `path` is a path prefix of the mount point. */
  function DescendantOf(path: string): string --> bool
    requires IsAbsolute(path)
  {
    mp requires IsAbsolute(mp) => PathStartsWith(mp, path)
  }

  /** The mounts at `path` or above it, in table order; fails only when the table is unreadable. */
  method GetProcMountsAncestorsOfPath(fstab: Option<seq<FstabEntry>>, path: string)
    returns (r: Result<seq<FstabEntry>, string>)
    requires IsAbsolute(path)
    ensures fstab.None? <==> r.Failure?
    ensures r.Failure? ==> r.error == ReadError
    ensures fstab.Some? ==> r == Success(MountsWhere(fstab.value, AncestorOf(path)))
    ensures r.Success? ==> IsSubsequence(r.value, fstab.value)
    ensures r.Success? ==> forall e :: e in r.value <==>
      e in fstab.value && e.fsType != "swap" && IsAbsolute(e.mountPoint) && PathStartsWith(path, e.mountPoint)
  {
    r := GetProcMountsMatches(fstab, AncestorOf(path));
    if r.Success? {
      MountsWhereSubsequence(fstab.value, AncestorOf(path));
      forall e ensures e in r.value <==>
        e in fstab.value && e.fsType != "swap" && IsAbsolute(e.mountPoint) && PathStartsWith(path, e.mountPoint)
      {
        MountsWhereMembership(fstab.value, AncestorOf(path), e);
      }
    }
  }

  /** The mounts at `path` or below it, in table order; fails only when the table is unreadable. */
  method GetProcMountsDescendantsOfPath(fstab: Option<seq<FstabEntry>>, path: string)
    returns (r: Result<seq<FstabEntry>, string>)
    requires IsAbsolute(path)
    ensures fstab.None? <==> r.Failure?
    ensures r.Failure? ==> r.error == ReadError
    ensures fstab.Some? ==> r == Success(MountsWhere(fstab.value, DescendantOf(path)))
    ensures r.Success? ==> IsSubsequence(r.value, fstab.value)
    ensures r.Success? ==> forall e :: e in r.value <==>
      e in fstab.value && e.fsType != "swap" && IsAbsolute(e.mountPoint) && PathStartsWith(e.mountPoint, path)
  {
    r := GetProcMountsMatches(fstab, DescendantOf(path));
    if r.Success? {
      MountsWhereSubsequence(fstab.value, DescendantOf(path));
      forall e ensures e in r.value <==>
        e in fstab.value && e.fsType != "swap" && IsAbsolute(e.mountPoint) && PathStartsWith(e.mountPoint, path)
      {
        MountsWhereMembership(fstab.value, DescendantOf(path), e);
      }
    }
  }

  /**
    On normalized paths, the ancestor mounts are those whose components are a
    prefix of the path's components, and the descendant mounts those whose
    components extend the path's.
  */
  lemma AncestorsAndDescendantsByComponents(fstab: seq<FstabEntry>, path: seq<string>, e: FstabEntry, mount: seq<string>)
    requires AllSegments(path) && AllSegments(mount) && e.mountPoint == Render(mount)
    ensures e in MountsWhere(fstab, AncestorOf(Render(path)))
      <==> e in fstab && e.fsType != "swap" && IsPrefix(mount, path)
    ensures e in MountsWhere(fstab, DescendantOf(Render(path)))
      <==> e in fstab && e.fsType != "swap" && IsPrefix(path, mount)
  {
    MountsWhereMembership(fstab, AncestorOf(Render(path)), e);
    MountsWhereMembership(fstab, DescendantOf(Render(path)), e);
    PathStartsWithComponents(path, mount);
    PathStartsWithComponents(mount, path);
  }

  /** A root mount, a data mount and a swap area: the ancestors of a path under the data mount. */
  lemma AncestorsScenario()
    ensures var root := FstabEntry("rootfs", "/", "ext4");
      var data := FstabEntry("/dev/block/dm-1", "/data", "ext4");
      var swap := FstabEntry("/dev/block/zram0", "/data/app/x", "swap");
      MountsWhere([root, data, swap], AncestorOf("/data/app/foo/bar")) == [root, data]
  {
    var root := FstabEntry("rootfs", "/", "ext4");
    var data := FstabEntry("/dev/block/dm-1", "/data", "ext4");
    var swap := FstabEntry("/dev/block/zram0", "/data/app/x", "swap");
    var table := [root, data, swap];
    var p := "/data/app/foo/bar";
    assert table[..2] == [root, data] && [root, data][..1] == [root] && [root][..0] == [];
    assert "/data/app/foo/bar"[..5] == "/data";
    var pred := AncestorOf(p);
    assert Kept(root, pred) by { assert PathStartsWith(p, "/"); }
    assert Kept(data, pred) by { assert PathStartsWith(p, "/data"); }
    assert !Kept(swap, pred);
    assert MountsWhere([root], pred) == [root];
    assert MountsWhere([root, data], pred) == [root, data];
  }
}
