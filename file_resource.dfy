/** `FileResource`: the size a listing shows for an entry. The total is
    accumulated into a field while walking the live children; the
    displayed text picks a binary unit for it. */
module FileResource {
  import opened Types
  import opened Tree
  import opened FileModel

  // ---------------------------------------------------------------------
  // The total size.

  /** The bytes under `x`: a file counts its `size` (null as 0); a folder
      counts every file reachable through live children. */
  function TotalSize(f: Files, x: Id, hi: nat): nat
    requires x < hi
    decreases hi - x, 1
  {
    if x !in f then 0
    else if f[x].isFolder then SumSizes(f, ChildIds(f, x, hi, false), hi, x)
    else f[x].size.GetOr(0)
  }

  /** The totals of the files one after the other. */
  function SumSizes(f: Files, files: seq<Id>, hi: nat, floor: int): nat
    requires forall c :: c in files ==> floor < c < hi
    decreases hi - floor, 0, |files|
  {
    if files == [] then 0
    else
      assert files[|files| - 1] in files;
      InPrefix(files, |files| - 1);
      SumSizes(f, files[..|files| - 1], hi, floor) + TotalSize(f, files[|files| - 1], hi)
  }

  /** The sum over two runs of files is the sum of their sums. */
  lemma {:induction false} SumSizesAppend(f: Files, a: seq<Id>, b: seq<Id>, hi: nat, floor: int)
    requires forall c :: c in a + b ==> floor < c < hi
    ensures (forall c :: c in a ==> floor < c < hi) && (forall c :: c in b ==> floor < c < hi)
    ensures SumSizes(f, a + b, hi, floor) == SumSizes(f, a, hi, floor) + SumSizes(f, b, hi, floor)
    decreases |b|
  {
    assert forall c :: c in a ==> c in a + b;
    assert forall c :: c in b ==> c in a + b;
    if b == [] {
      assert a + b == a;
    } else {
      var b' := b[..|b| - 1];
      assert (a + b)[..|a + b| - 1] == a + b';
      assert (a + b)[|a + b| - 1] == b[|b| - 1];
      assert forall c :: c in a + b' ==> c in a + b;
      SumSizesAppend(f, a, b', hi, floor);
    }
  }

  /** No file of the run counts more than the whole run. */
  lemma {:induction false} SumSizesCovers(f: Files, files: seq<Id>, hi: nat, floor: int, c: Id)
    requires forall d :: d in files ==> floor < d < hi
    requires c in files
    ensures c < hi && TotalSize(f, c, hi) <= SumSizes(f, files, hi, floor)
    decreases |files|
  {
    var init := files[..|files| - 1];
    assert files == init + [files[|files| - 1]];
    InPrefix(files, |files| - 1);
    if c != files[|files| - 1] {
      assert c in init;
      SumSizesCovers(f, init, hi, floor, c);
    }
  }

  /** A file's total is its own size, with null as 0. */
  lemma FileTotal(f: Files, x: Id, hi: nat)
    requires x < hi && x in f && !f[x].isFolder
    ensures TotalSize(f, x, hi) == if f[x].size.Some? then f[x].size.value else 0
  {
  }

  /** A folder without live children counts 0, whatever its own `size`. */
  lemma EmptyFolderTotal(f: Files, x: Id, hi: nat)
    requires x < hi && x in f && f[x].isFolder
    requires forall c :: x < c < hi ==> !IsChild(f, c, x, false)
    ensures TotalSize(f, x, hi) == 0
  {
    NoChildIds(f, x, hi, false);
  }

  /** A folder counts at least as much as any of its live children. */
  lemma ChildWithinFolder(f: Files, x: Id, c: Id, hi: nat)
    requires Bounded(f, hi) && ParentsBelow(f)
    requires x in f && f[x].isFolder && IsChild(f, c, x, false)
    ensures x < hi && c < hi && TotalSize(f, c, hi) <= TotalSize(f, x, hi)
  {
    ChildIdsComplete(f, hi, x, c, false);
    SumSizesCovers(f, ChildIds(f, x, hi, false), hi, x, c);
  }

  /** The resource of one row: `totalSize` is the accumulator
      `getTotalSize` adds into. */
  class FileResource {
    var totalSize: int

    constructor ()
      ensures totalSize == 0
    {
      totalSize := 0;
    }

    /** `getTotalSize`: adds the total of `x` to the accumulator and
        returns the accumulator; it never goes down. */
    method GetTotalSize(v: Vault, x: Id) returns (r: int)
      requires v.Valid() && x in v.files
      modifies this
      ensures x < v.nextId
      ensures totalSize == old(totalSize) + TotalSize(v.files, x, v.nextId)
      ensures old(totalSize) <= totalSize && r == totalSize
      decreases v.nextId - x
    {
      var e := v.files[x];
      if e.isFolder {
        var children := v.Children(x);
        ghost var t0 := totalSize;
        var i := 0;
        while i < |children|
          invariant 0 <= i <= |children|
          invariant forall c :: c in children[..i] ==> c in children
          invariant totalSize == t0 + SumSizes(v.files, children[..i], v.nextId, x)
        {
          var child := children[i];
          assert child in children;
          InPrefix(children, i + 1);
          assert children[..i + 1][..i] == children[..i];
          if v.files[child].isFolder {
            var sub := GetTotalSize(v, child);
          } else {
            totalSize := totalSize + v.files[child].size.GetOr(0);
          }
          i := i + 1;
        }
        assert children[..i] == children;
      } else {
        totalSize := totalSize + e.size.GetOr(0);
      }
      r := totalSize;
    }
  }

  // ---------------------------------------------------------------------
  // The displayed size.

  const Units: seq<string> := ["B", "KB", "MB", "GB", "TB"]

  /** The text of `formatBytes`: "0 B" exactly, or `bytes` over `divisor`
      rounded to two places, a space, and `unit`. */
  datatype Readable = Text(text: string) | Scaled(bytes: nat, divisor: nat, unit: string)

  function Pow1024(k: nat): (r: nat)
    ensures r >= 1
  {
    if k == 0 then 1 else 1024 * Pow1024(k - 1)
  }

  lemma {:induction false} Pow1024Grows(j: nat, k: nat)
    requires j <= k
    ensures Pow1024(j) <= Pow1024(k)
    decreases k - j
  {
    if j < k {
      Pow1024Grows(j, k - 1);
    }
  }

  /** PHP's `1 << n`, for shifts that do not overflow. */
  function Bit(n: nat): (r: nat)
    ensures r >= 1
  {
    if n == 0 then 1 else 2 * Bit(n - 1)
  }

  lemma {:induction false} BitAdd(n: nat, m: nat)
    ensures Bit(n + m) == Bit(n) * Bit(m)
    decreases m
  {
    if m > 0 {
      BitAdd(n, m - 1);
      assert Bit(n + m) == 2 * Bit(n + m - 1);
    }
  }

  /** The divisor `1 << (10 * k)` is `1024^k`. */
  lemma {:induction false} DivisorIsPower(k: nat)
    ensures Bit(10 * k) == Pow1024(k)
  {
    if k > 0 {
      DivisorIsPower(k - 1);
      BitAdd(10 * (k - 1), 10);
      assert Bit(10) == 1024;
    }
  }

  /** Counts up from `k` to the first unit whose next one is too large. */
  function UnitFrom(bytes: nat, k: nat): (u: nat)
    requires k <= 4 && Pow1024(k) <= bytes
    ensures k <= u <= 4 && Pow1024(u) <= bytes && (u == 4 || bytes < Pow1024(u + 1))
    decreases 4 - k
  {
    if k == 4 || bytes < Pow1024(k + 1) then k else UnitFrom(bytes, k + 1)
  }

  /** The unit index: `floor(log_1024(bytes))`, at most 4. */
  function UnitIndex(bytes: nat): (k: nat)
    requires bytes > 0
    ensures k <= 4
  {
    UnitFrom(bytes, 0)
  }

  /** `formatBytes` on a non-negative total. */
  function FormatBytes(bytes: nat): (r: Readable)
    ensures bytes == 0 <==> r.Text?
  {
    if bytes == 0 then Text("0 B")
    else
      var k := UnitIndex(bytes);
      Scaled(bytes, Bit(10 * k), Units[k])
  }

  /** Zero is "0 B", exactly and only zero. */
  lemma ZeroBytes(bytes: nat)
    ensures FormatBytes(bytes) == Text("0 B") <==> bytes == 0
  {
  }

  /** Any other total takes the largest unit (up to TB) not above it, and
      is divided by that unit's power of 1024: the shown number is at
      least 1 and, below TB, under 1024. */
  lemma UnitChosen(bytes: nat)
    requires bytes > 0
    ensures var r := FormatBytes(bytes);
      exists k :: 0 <= k < |Units| && r == Scaled(bytes, Pow1024(k), Units[k]) &&
        Pow1024(k) <= bytes && (forall j :: k < j < |Units| ==> bytes < Pow1024(j))
    ensures var r := FormatBytes(bytes);
      r.Scaled? && r.divisor <= bytes && (r.unit != "TB" ==> bytes < 1024 * r.divisor)
  {
    var k := UnitIndex(bytes);
    DivisorIsPower(k);
    forall j | k < j < |Units| ensures bytes < Pow1024(j) {
      Pow1024Grows(k + 1, j);
    }
    assert Units[k] != "TB" ==> k < 4;
  }

  /** The size a listing row shows: a fresh resource sums the row's total
      from 0 and formats it. */
  method DisplayedSize(v: Vault, x: Id) returns (r: Readable)
    requires v.Valid() && x in v.files
    ensures x < v.nextId && r == FormatBytes(TotalSize(v.files, x, v.nextId))
  {
    var res := new FileResource();
    var size := res.GetTotalSize(v, x);
    r := FormatBytes(size);
  }
}
