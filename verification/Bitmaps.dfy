/** The word-packed bitmap of libk/bitmap.c, proved against a plain sequence of flags. */
module Bitmaps {
  import opened Machine
  import opened Flags
  import opened Words

  class Bitmap {
    const words: array<Word>
    const bits: nat

    ghost predicate Valid()
    {
      bits <= ELEM_BITS * words.Length < WORD
    }

    /** Every bit of every word, including those past the last bit of the map. */
    ghost function Flags(): (f: seq<bool>)
      reads words
      ensures |f| == ELEM_BITS * words.Length
    {
      Bits(words[..])
    }

    constructor (bits: nat, words: array<Word>)
      requires bits <= ELEM_BITS * words.Length < WORD
      ensures Valid() && this.bits == bits && this.words == words
    {
      this.bits := bits;
      this.words := words;
    }

    method Set(idx: nat)
      requires idx < ELEM_BITS * words.Length
      modifies words
      ensures Flags() == old(Flags())[idx := true]
    {
      BitsSet(words[..], idx);
      var e := ElemIndex(idx);
      words[e] := words[e].With(Position(idx));
      assert words[..] == old(words[..])[e := old(words[e]).With(Position(idx))];
    }

    method Reset(idx: nat)
      requires idx < ELEM_BITS * words.Length
      modifies words
      ensures Flags() == old(Flags())[idx := false]
    {
      BitsReset(words[..], idx);
      var e := ElemIndex(idx);
      words[e] := words[e].Without(Position(idx));
      assert words[..] == old(words[..])[e := old(words[e]).Without(Position(idx))];
    }

    method Test(idx: nat) returns (val: bool)
      requires idx < ELEM_BITS * words.Length
      ensures val == Flags()[idx]
    {
      val := TestBit(words[ElemIndex(idx)], Position(idx));
    }

    method SetVal(idx: nat, val: bool)
      requires idx < ELEM_BITS * words.Length
      modifies words
      ensures Flags() == old(Flags())[idx := val]
    {
      if val {
        Set(idx);
      } else {
        Reset(idx);
      }
    }

    /** The loop bound start + len is a size_t sum: when it wraps below start, nothing is set. The
        result is the index where the loop stopped, not a number of bits. */
    method SetRange(start: nat, len: nat, val: bool) returns (stop: nat)
      requires Valid() && start < WORD && len < WORD
      requires U32(start + len) <= ELEM_BITS * words.Length
      modifies words
      ensures start <= U32(start + len) ==>
                stop == U32(start + len) && Flags() == Fill(old(Flags()), start, stop, val)
      ensures U32(start + len) < start ==> stop == start && Flags() == old(Flags())
    {
      ghost var before := Flags();
      var i := start;
      while i < U32(start + len)
        invariant start <= i && (i <= U32(start + len) || i == start)
        invariant i <= U32(start + len) ==> Flags() == Fill(before, start, i, val)
        invariant U32(start + len) < start ==> Flags() == before
      {
        SetVal(i, val);
        i := i + 1;
      }
      return i;
    }

    method CountRange(start: nat, len: nat) returns (cnt: nat)
      requires Valid() && start < WORD && len < WORD
      requires U32(start + len) <= ELEM_BITS * words.Length
      ensures cnt == if start <= U32(start + len) then Count(Flags(), start, U32(start + len)) else 0
    {
      cnt := 0;
      var i := start;
      while i < U32(start + len)
        invariant start <= i && (i <= U32(start + len) || i == start)
        invariant cnt == if i <= U32(start + len) then Count(Flags(), start, i) else 0
      {
        var val := Test(i);
        if val {
          cnt := cnt + 1;
        }
        i := i + 1;
      }
    }

    /** With count >= 1 the result is the leftmost index of the range whose next count bits all
        equal val and lie in the range, or bits + 1 exactly when there is none. A count of zero
        is not recognised until a bit differs from val; the index after that bit is returned. */
    method FindRange(start: nat, len: nat, count: nat, val: bool) returns (idx: nat)
      requires Valid() && start < WORD && len < WORD && U32(start + len) <= bits
      ensures var end := U32(start + len);
              count > 0 ==>
                || (idx <= bits && IsLeftmostRun(Flags(), start, end, count, val, idx))
                || (idx == bits + 1 && NoRun(Flags(), start, end, count, val))
      ensures var end := U32(start + len);
              count == 0 ==>
                || (start < idx <= end && Flags()[idx - 1] != val
                    && forall k | start <= k < idx - 1 :: Flags()[k] == val)
                || (idx == bits + 1 && forall k | start <= k < end :: Flags()[k] == val)
    {
      var begin, cnt, i := start, 0, start;
      while i < U32(start + len)
        invariant begin + cnt == i && start <= begin && (i <= U32(start + len) || i == start)
        invariant forall k | begin <= k < i :: k < |Flags()| && Flags()[k] == val
        invariant count > 0 ==> cnt < count
        invariant count > 0 ==>
                    forall q | start <= q < begin && q + count <= U32(start + len) :: !RunAt(Flags(), q, count, val)
        invariant count == 0 ==> begin == start
      {
        var bit := Test(i);
        if bit == val {
          cnt := cnt + 1;
        } else {
          ghost var end := U32(start + len);
          forall q | begin <= q < i + 1 && q + count <= end && count > 0
            ensures !RunAt(Flags(), q, count, val)
          {
            assert Flags()[i] != val;
          }
          cnt := 0;
          begin := i + 1;
        }
        if cnt == count {
          return begin;
        }
        i := i + 1;
      }
      return bits + 1;
    }
  }
}
