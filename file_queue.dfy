/**
 * The work queue: a priority queue of paths whose comparator ranks a
 * larger file below a smaller one, so its top is always a smallest file.
 * Modelled as the sequence of queued paths (in no particular order) and
 * the size function the comparator consults.
 */
module FileQueue {
  import opened FinderTypes

  /** The comparator: `lhs` ranks below `rhs` when `rhs` is the smaller file. */
  predicate FileSizeCmp(size: string -> nat, lhs: string, rhs: string)
  {
    size(rhs) < size(lhs)
  }

  /**
   * The comparator is a strict weak order, as the priority queue requires:
   * irreflexive, asymmetric, transitive, and two paths are unranked against
   * each other exactly when their files have the same size.
   */
  lemma FileSizeCmpIsStrictWeakOrder(size: string -> nat, a: string, b: string, c: string)
    ensures !FileSizeCmp(size, a, a)
    ensures FileSizeCmp(size, a, b) ==> !FileSizeCmp(size, b, a)
    ensures FileSizeCmp(size, a, b) && FileSizeCmp(size, b, c) ==> FileSizeCmp(size, a, c)
    ensures (!FileSizeCmp(size, a, b) && !FileSizeCmp(size, b, a)) <==> size(a) == size(b)
  {
  }

  /** `x` may be the queue's top: no queued path ranks above it. */
  predicate IsTop(q: seq<string>, size: string -> nat, x: string)
  {
    x in q && forall y :: y in q ==> !FileSizeCmp(size, x, y)
  }

  /** The top is a file of minimal size. */
  lemma TopIsSmallest(q: seq<string>, size: string -> nat, x: string)
    requires IsTop(q, size, x)
    ensures forall y :: y in q ==> size(x) <= size(y)
  {
  }

  /** A non-empty queue has a top. */
  lemma {:induction false} TopExists(q: seq<string>, size: string -> nat)
    requires q != []
    ensures exists x :: IsTop(q, size, x)
    decreases |q|
  {
    var rest := q[..|q| - 1];
    var x := q[|q| - 1];
    assert q == rest + [x];
    if rest == [] {
      assert IsTop(q, size, x);
    } else {
      TopExists(rest, size);
      var y :| IsTop(rest, size, y);
      if size(x) <= size(y) {
        assert IsTop(q, size, x);
      } else {
        assert IsTop(q, size, y);
      }
    }
  }

  /** The queue without the path at position `k`: the paths before it, then the paths after it. */
  function RemoveAt(q: seq<string>, k: nat): (r: seq<string>)
    requires k < |q|
    ensures |r| == |q| - 1
    ensures forall j :: 0 <= j < |r| ==> r[j] == if j < k then q[j] else q[j + 1]
  {
    q[..k] + q[k + 1..]
  }

  /** Removing position `k` removes one occurrence of `q[k]` and nothing else. */
  lemma RemoveAtContents(q: seq<string>, k: nat)
    requires k < |q|
    ensures multiset(RemoveAt(q, k)) == multiset(q) - multiset{q[k]}
  {
    assert q == q[..k] + [q[k]] + q[k + 1..];
  }

  /** Total size of a list of paths. */
  function SizesOf(paths: seq<string>, size: string -> nat): nat
  {
    if paths == [] then 0 else SizesOf(paths[..|paths| - 1], size) + size(paths[|paths| - 1])
  }

  /** Adding a path adds its size to the total. */
  lemma SizesOfPush(q: seq<string>, size: string -> nat, y: string)
    ensures SizesOf(q + [y], size) == SizesOf(q, size) + size(y)
  {
    assert (q + [y])[..|q|] == q;
  }

  /** Removing a position before the last keeps the last path last. */
  lemma RemoveBeforeLast(q: seq<string>, k: nat)
    requires k < |q| - 1
    ensures RemoveAt(q, k) == RemoveAt(q[..|q| - 1], k) + [q[|q| - 1]]
  {
    var a := RemoveAt(q, k);
    var b := RemoveAt(q[..|q| - 1], k) + [q[|q| - 1]];
    forall j | 0 <= j < |a|
      ensures a[j] == b[j]
    {
    }
  }

  /** Removing any one queued path takes its size off the total. */
  lemma {:induction false} SizesOfRemove(q: seq<string>, size: string -> nat, k: nat)
    requires k < |q|
    ensures SizesOf(q, size) == size(q[k]) + SizesOf(RemoveAt(q, k), size)
    decreases |q|
  {
    var rest := q[..|q| - 1];
    var last := q[|q| - 1];
    if k == |q| - 1 {
      assert RemoveAt(q, k) == rest;
    } else {
      SizesOfRemove(rest, size, k);
      var r := RemoveAt(rest, k);
      RemoveBeforeLast(q, k);
      SizesOfPush(r, size, last);
    }
  }

  /** The paths of the readable files, in listing order. */
  function ReadablePaths(files: seq<FileInfo>): (r: seq<string>)
    ensures |r| <= |files|
  {
    if files == [] then []
    else ReadablePaths(files[..|files| - 1]) + (if files[|files| - 1].readable then [files[|files| - 1].path] else [])
  }

  /** Exactly the readable files' paths are queued. */
  lemma {:induction false} ReadablePathsContents(files: seq<FileInfo>)
    ensures forall p :: p in ReadablePaths(files) <==> exists f :: f in files && f.readable && f.path == p
    decreases |files|
  {
    if files != [] {
      var last := files[|files| - 1];
      var init := files[..|files| - 1];
      assert files == init + [last];
      ReadablePathsContents(init);
    }
  }

  /** One more listed file adds its path, and its size, when it is readable. */
  lemma ReadablePathsPush(files: seq<FileInfo>, f: FileInfo, size: string -> nat)
    ensures ReadablePaths(files + [f]) == ReadablePaths(files) + (if f.readable then [f.path] else [])
    ensures SizesOf(ReadablePaths(files + [f]), size) ==
      SizesOf(ReadablePaths(files), size) + (if f.readable then size(f.path) else 0)
  {
    assert (files + [f])[..|files|] == files;
    if f.readable {
      SizesOfPush(ReadablePaths(files), size, f.path);
    } else {
      assert ReadablePaths(files) + [] == ReadablePaths(files);
    }
  }
}
