/** NUL-terminated strings in a buffer, with strlen and the in-place reverse of libc/string.c. */
module CStrings {
  import opened Machine

  ghost predicate NoNul(s: string) {
    forall i | 0 <= i < |s| :: s[i] != NUL
  }

  /** The text a C program reads in a buffer: everything before the first NUL. */
  function Text(cells: seq<char>): string {
    if cells == [] || cells[0] == NUL then [] else [cells[0]] + Text(cells[1..])
  }

  lemma {:induction false} TextIs(cells: seq<char>, n: nat)
    requires n <= |cells| && (n < |cells| ==> cells[n] == NUL) && NoNul(cells[..n])
    ensures Text(cells) == cells[..n]
  {
    if n > 0 {
      assert cells[..n][0] == cells[0] && cells[1..][..n - 1] == cells[..n][1..];
      TextIs(cells[1..], n - 1);
      assert cells[..n] == [cells[0]] + cells[1..][..n - 1];
    }
  }

  method StrLen(a: array<char>) returns (n: nat)
    requires NUL in a[..]
    ensures n < a.Length && a[n] == NUL && NoNul(a[..n]) && Text(a[..]) == a[..n]
  {
    n := 0;
    while a[n] != NUL
      invariant n < a.Length && NoNul(a[..n])
      decreases a.Length - n
    {
      assert NUL in a[n + 1..] by { assert a[..] == a[..n] + [a[n]] + a[n + 1..]; }
      n := n + 1;
    }
    TextIs(a[..], n);
  }

  ghost function Reversed(s: string): (r: string)
    ensures |r| == |s| && forall i | 0 <= i < |s| :: r[i] == s[|s| - 1 - i]
  {
    seq(|s|, i requires 0 <= i < |s| => s[|s| - 1 - i])
  }

  lemma ReversedCons(c: char, s: string)
    ensures Reversed([c] + s) == Reversed(s) + [c]
  {
  }

  /** The swaps of reverse, from both ends of the first n cells. */
  method SwapEnds(a: array<char>, n: nat)
    requires n <= a.Length
    modifies a
    ensures forall k | 0 <= k < n :: a[k] == old(a[n - 1 - k])
    ensures forall k | n <= k < a.Length :: a[k] == old(a[k])
  {
    var i: int, j: int := 0, n - 1;
    while i < j
      invariant 0 <= i <= n && j == n - 1 - i && i <= j + 1
      invariant forall k | 0 <= k < i || j < k < n :: a[k] == old(a[n - 1 - k])
      invariant forall k | i <= k <= j || n <= k < a.Length :: a[k] == old(a[k])
    {
      a[i], a[j] := a[j], a[i];
      i, j := i + 1, j - 1;
    }
  }

  /** Reverses the text and leaves the terminator and what follows it alone. */
  method Reverse(a: array<char>)
    requires NUL in a[..]
    modifies a
    ensures Text(a[..]) == Reversed(old(Text(a[..])))
    ensures var n := |old(Text(a[..]))|; n < a.Length && a[n..] == old(a[n..])
  {
    var n := StrLen(a);
    ghost var text := a[..n];
    SwapEnds(a, n);
    assert a[..n] == Reversed(text);
    TextIs(a[..], n);
  }
}
