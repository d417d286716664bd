/** memmove and the ascending copy of memcpy that it relies on, inside one buffer (libc/memmove.c,
    libc/memcpy.c). Pointers are offsets into the buffer. */
module Memory {

  /** The buffer with the original n cells at src copied to dest. */
  function Moved<T>(cells: seq<T>, dest: nat, src: nat, n: nat): (r: seq<T>)
    requires dest + n <= |cells| && src + n <= |cells|
    ensures |r| == |cells|
    ensures forall k | 0 <= k < |r| :: r[k] == if dest <= k < dest + n then cells[src + (k - dest)] else cells[k]
  {
    seq(|cells|, k requires 0 <= k < |cells| => if dest <= k < dest + n then cells[src + (k - dest)] else cells[k])
  }

  /** The buffer after k cells were copied one at a time, lowest first. */
  function Ascending<T>(cells: seq<T>, dest: nat, src: nat, k: nat): (r: seq<T>)
    requires dest + k <= |cells| && src + k <= |cells|
    ensures |r| == |cells|
  {
    if k == 0 then cells
    else
      var before := Ascending(cells, dest, src, k - 1);
      before[dest + k - 1 := before[src + k - 1]]
  }

  lemma {:induction false} AscendingIs<T>(cells: seq<T>, dest: nat, src: nat, k: nat)
    requires dest + k <= |cells| && src + k <= |cells| && (dest <= src || src + k <= dest)
    ensures Ascending(cells, dest, src, k) == Moved(cells, dest, src, k)
  {
    if k > 0 {
      AscendingIs(cells, dest, src, k - 1);
    }
  }

  /** The cells from dest on, k of them, repeat what stands gap cells before; all others are as they were. */
  ghost predicate Repeats<T>(cells: seq<T>, r: seq<T>, dest: nat, gap: nat, k: nat)
    requires gap <= dest && |r| == |cells|
  {
    && (forall j | dest <= j < dest + k && j < |r| :: r[j] == r[j - gap])
    && (forall j | 0 <= j < |r| && !(dest <= j < dest + k) :: r[j] == cells[j])
  }

  /** A copy to a later place repeats the cells between the two starts over the whole destination, and
      changes nothing else. */
  lemma {:induction false} AscendingRepeats<T>(cells: seq<T>, dest: nat, src: nat, k: nat)
    requires dest + k <= |cells| && src < dest
    ensures Repeats(cells, Ascending(cells, dest, src, k), dest, dest - src, k)
  {
    if k > 0 {
      var before, r, gap := Ascending(cells, dest, src, k - 1), Ascending(cells, dest, src, k), dest - src;
      AscendingRepeats(cells, dest, src, k - 1);
      forall j | dest <= j < dest + k
        ensures r[j] == r[j - gap]
      {
        assert r[j - gap] == before[j - gap];
        if j < dest + k - 1 {
          assert r[j] == before[j];
        }
      }
    }
  }

  ghost predicate CopiesRight(cells: seq<bool>, dest: nat, src: nat, n: nat)
    requires dest + n <= |cells| && src + n <= |cells|
  {
    Ascending(cells, dest, src, n) == Moved(cells, dest, src, n)
  }

  lemma SmearShows(cells: seq<bool>, dest: nat, src: nat, n: nat)
    requires dest + n <= |cells| && src < dest < src + n && cells[src] != cells[dest]
    ensures !CopiesRight(cells, dest, src, n)
  {
    var r := Ascending(cells, dest, src, n);
    AscendingRepeats(cells, dest, src, n);
    assert r[2 * dest - src] == r[dest] == r[src] == cells[src];
    assert Moved(cells, dest, src, n)[2 * dest - src] == cells[dest];
  }

  /** The ascending copy moves every content of a buffer correctly exactly when the destination does
      not start inside the source, after its first cell. */
  lemma AscendingExact(length: nat, dest: nat, src: nat, n: nat)
    requires dest + n <= length && src + n <= length
    ensures (forall cells: seq<bool> {:trigger CopiesRight(cells, dest, src, n)} | |cells| == length :: CopiesRight(cells, dest, src, n))
            <==> dest <= src || src + n <= dest
  {
    if dest <= src || src + n <= dest {
      forall cells: seq<bool> | |cells| == length
        ensures CopiesRight(cells, dest, src, n)
      {
        AscendingIs(cells, dest, src, n);
      }
    } else {
      SmearShows(seq(length, i => i == src), dest, src, n);
    }
  }

  method MemCpy<T>(a: array<T>, dest: nat, src: nat, n: nat)
    requires dest + n <= a.Length && src + n <= a.Length
    modifies a
    ensures a[..] == Ascending(old(a[..]), dest, src, n)
  {
    var i := 0;
    while i < n
      invariant i <= n
      invariant a[..] == Ascending(old(a[..]), dest, src, i)
    {
      a[dest + i] := a[src + i];
      i := i + 1;
    }
  }

  /** For every overlap and offset the destination is the original source, and nothing else changes. */
  method MemMove<T>(a: array<T>, dest: nat, src: nat, n: nat)
    requires dest + n <= a.Length && src + n <= a.Length
    modifies a
    ensures a[..] == Moved(old(a[..]), dest, src, n)
  {
    if dest < src {
      AscendingIs(a[..], dest, src, n);
      MemCpy(a, dest, src, n);
    } else {
      var i := n;
      while i > 0
        invariant 0 <= i <= n
        invariant forall k | 0 <= k < a.Length ::
                    a[k] == if dest + i <= k < dest + n then old(a[src + (k - dest)]) else old(a[k])
      {
        a[dest + i - 1] := a[src + i - 1];
        i := i - 1;
      }
      assert a[..] == Moved(old(a[..]), dest, src, n);
    }
  }
}
