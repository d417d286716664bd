/** Single bits of a 32-bit word and their packing into an array of words (libk/bitmap.c). */
module Words {

  const ELEM_BITS := 32

  function ElemIndex(idx: nat): nat {
    idx / ELEM_BITS
  }

  /** The place of bit idx in its word. */
  function Position(idx: nat): bv5 {
    (idx % ELEM_BITS) as bv5
  }

  function BitMask(p: bv5): bv32 {
    (1 as bv32) << p
  }

  /** An element of the map: a uint32_t. */
  datatype Word = Word(bits: bv32) {
    function With(p: bv5): Word {
      Word(bits | BitMask(p))
    }

    function Without(p: bv5): Word {
      Word(bits & !BitMask(p))
    }
  }

  predicate TestBit(w: Word, p: bv5) {
    w.bits & BitMask(p) != 0
  }

  /** Or-ing in a mask sets the bit at its place and keeps every other bit of the word. */
  lemma SetWord(w: Word, p: bv5, q: bv5)
    ensures TestBit(w.With(p), q) == if q == p then true else TestBit(w, q)
  {
  }

  /** Masking with the complement clears the bit at its place and keeps every other bit. */
  lemma ResetWord(w: Word, p: bv5, q: bv5)
    ensures TestBit(w.Without(p), q) == if q == p then false else TestBit(w, q)
  {
  }

  lemma PositionInjective(i: nat, j: nat)
    requires ElemIndex(i) == ElemIndex(j) && Position(i) == Position(j)
    ensures i == j
  {
    assert Position(i) as int == i % ELEM_BITS;
    assert Position(j) as int == j % ELEM_BITS;
  }

  /** The flags packed in the words, lowest bit of the first word first. How a bit is found in its
      word is a parameter: facts about packing need no bit vectors. */
  ghost function Unpack<W(!new), P(!new)>(words: seq<W>, place: nat -> P, test: (W, P) -> bool): (flags: seq<bool>)
    ensures |flags| == ELEM_BITS * |words|
  {
    seq(ELEM_BITS * |words|, i requires 0 <= i < ELEM_BITS * |words| => test(words[ElemIndex(i)], place(i)))
  }

  /** Replacing a word by one that differs at the place of idx alone replaces that flag alone. */
  lemma UnpackUpdate<W(!new), P(!new)>(words: seq<W>, place: nat -> P, test: (W, P) -> bool, idx: nat, w: W, val: bool)
    requires idx < ELEM_BITS * |words|
    requires forall k: nat | ElemIndex(k) == ElemIndex(idx) && place(k) == place(idx) :: k == idx
    requires forall q: P :: test(w, q) == if q == place(idx) then val else test(words[ElemIndex(idx)], q)
    ensures Unpack(words[ElemIndex(idx) := w], place, test) == Unpack(words, place, test)[idx := val]
  {
  }

  ghost function Bits(words: seq<Word>): (flags: seq<bool>)
    ensures |flags| == ELEM_BITS * |words|
  {
    Unpack(words, Position, TestBit)
  }

  /** Flag i is the bit of value 2^(i % 32) of word i / 32. */
  lemma FlagIsBit(words: seq<Word>, i: nat)
    requires i < 32 * |words|
    ensures Bits(words)[i] <==> (words[i / 32].bits >> (i % 32) as bv5) & 1 == 1
  {
    assert Bits(words)[i] == TestBit(words[ElemIndex(i)], Position(i));
    ShiftedBit(words[i / 32], (i % 32) as bv5);
  }

  lemma ShiftedBit(w: Word, p: bv5)
    ensures TestBit(w, p) <==> (w.bits >> p) & 1 == 1
  {
  }

  lemma BitsUpdate(words: seq<Word>, idx: nat, w: Word, val: bool)
    requires idx < ELEM_BITS * |words|
    requires forall q: bv5 :: TestBit(w, q) == if q == Position(idx) then val else TestBit(words[ElemIndex(idx)], q)
    ensures Bits(words[ElemIndex(idx) := w]) == Bits(words)[idx := val]
  {
    forall k: nat | ElemIndex(k) == ElemIndex(idx) && Position(k) == Position(idx)
      ensures k == idx
    {
      PositionInjective(k, idx);
    }
    UnpackUpdate(words, Position, TestBit, idx, w, val);
  }

  lemma BitsSet(words: seq<Word>, idx: nat)
    requires idx < ELEM_BITS * |words|
    ensures var e := ElemIndex(idx);
            Bits(words[e := words[e].With(Position(idx))]) == Bits(words)[idx := true]
  {
    var w, p := words[ElemIndex(idx)], Position(idx);
    forall q: bv5
      ensures TestBit(w.With(p), q) == if q == p then true else TestBit(w, q)
    {
      SetWord(w, p, q);
    }
    BitsUpdate(words, idx, w.With(p), true);
  }

  lemma BitsReset(words: seq<Word>, idx: nat)
    requires idx < ELEM_BITS * |words|
    ensures var e := ElemIndex(idx);
            Bits(words[e := words[e].Without(Position(idx))]) == Bits(words)[idx := false]
  {
    var w, p := words[ElemIndex(idx)], Position(idx);
    forall q: bv5
      ensures TestBit(w.Without(p), q) == if q == p then false else TestBit(w, q)
    {
      ResetWord(w, p, q);
    }
    BitsUpdate(words, idx, w.Without(p), false);
  }

  lemma ZeroWordsAreClear(words: seq<Word>)
    requires forall e | 0 <= e < |words| :: words[e] == Word(0)
    ensures forall i | 0 <= i < |Bits(words)| :: !Bits(words)[i]
  {
    forall i | 0 <= i < |Bits(words)|
      ensures !Bits(words)[i]
    {
      assert Bits(words)[i] == TestBit(words[ElemIndex(i)], Position(i));
      ZeroHasNoBit(Position(i));
    }
  }

  lemma ZeroHasNoBit(p: bv5)
    ensures !TestBit(Word(0), p)
  {
  }
}
