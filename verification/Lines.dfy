/** The line discipline of drivers/line.c in COOKED mode, from keycodes to the edited line. */
module Lines {
  import opened Machine
  import opened Streams
  import opened CStrings

  const LINE_BUFFER_SIZE := 1024

  const LINE_SUCC := 0
  const LINE_IN_FAIL := 3

  const KC_MAX := 57
  const KC_ESCAPE := 0x01
  const KC_BACKSPACE := 0x0E
  const KC_ENTER := 0x1C
  const KC_LCTRL := 0x1D
  const KC_LSHIFT := 0x2A
  const KC_RSHIFT := 0x36
  const KC_LALT := 0x38
  const KC_CAPSLOCK := 0x3A
  const KC_NUMLOCK := 0x45
  const KC_RELEASED := 0x81
  const KC_LCTRL_REL := 0x9D
  const KC_LSHIFT_REL := 0xAA
  const KC_RSHIFT_REL := 0xB6

  const ROWS: seq<string> := ["??1234567890-=??", "qwertyuiop[]\n?as", "dfghjkl;'`?\\zxcv", "bnm,./??? "]
  const ROWS_CAP: seq<string> := ["??1234567890-=??", "QWERTYUIOP[]\n?AS", "DFGHJKL;'`?\\ZXCV", "BNM,./??? "]
  const KC_ASCII: string := ROWS[0] + ROWS[1] + ROWS[2] + ROWS[3]
  const KC_ASCII_CAP: string := ROWS_CAP[0] + ROWS_CAP[1] + ROWS_CAP[2] + ROWS_CAP[3]

  type Keycode = k: nat | k < 256

  // ---------------------------------------------------------------- the specification: a simple editor

  /** What a keyboard user means by a key. */
  datatype Action = Shift | Ignore | Erase | Type

  const SHIFTS: set<nat> := {KC_LSHIFT, KC_RSHIFT, KC_LSHIFT_REL, KC_RSHIFT_REL, KC_CAPSLOCK}

  function Meaning(key: Keycode): Action {
    if key in SHIFTS then Shift
    else if key == KC_BACKSPACE then Erase
    else if key == 0 || key > KC_MAX || key in {KC_ESCAPE, KC_LALT, KC_LCTRL} then Ignore
    else Type
  }

  function Letter(key: Keycode, capital: bool): char
    requires Meaning(key).Type?
  {
    if capital then KC_ASCII_CAP[key] else KC_ASCII[key]
  }

  /** Append or drop the last letter, unless the line is full. */
  function Edit(line: string, capital: bool, key: Keycode): string {
    if |line| >= LINE_BUFFER_SIZE - 1 then line
    else match Meaning(key)
      case Type => line + [Letter(key, capital)]
      case Erase => if line == [] then [] else line[..|line| - 1]
      case _ => line
  }

  /** The shift state does not depend on the line. */
  function Capital(capital: bool, key: Keycode): bool {
    if Meaning(key).Shift? then !capital else capital
  }

  function EditAll(keys: seq<Keycode>, capital: bool): (r: (string, bool)) {
    if keys == [] then ([], capital)
    else
      var (line, shifted) := EditAll(keys[..|keys| - 1], capital);
      var key := keys[|keys| - 1];
      (Edit(line, shifted, key), Capital(shifted, key))
  }

  // ---------------------------------------------------------------- what an erase leaves behind

  /** The letter that stands in the buffer after the line, if any: a typed letter overwrites it, an
      erased letter takes its place, and every other key leaves it. */
  function StaleAfter(line: string, stale: string, key: Keycode): string {
    if |line| >= LINE_BUFFER_SIZE - 1 then stale
    else match Meaning(key)
      case Type => []
      case Erase => if line == [] then stale else [line[|line| - 1]]
      case _ => stale
  }

  function StaleAll(keys: seq<Keycode>, capital: bool, stale: string): string {
    if keys == [] then stale
    else
      var n := |keys| - 1;
      StaleAfter(EditAll(keys[..n], capital).0, StaleAll(keys[..n], capital, stale), keys[n])
  }

  /** The line after the first k keys. */
  function LineAt(keys: seq<Keycode>, capital: bool, k: nat): string
    requires k <= |keys|
  {
    EditAll(keys[..k], capital).0
  }

  /** The k-th key is the last one that changed the line. */
  ghost predicate LastEffective(keys: seq<Keycode>, capital: bool, k: nat) {
    && k < |keys| && LineAt(keys, capital, k + 1) != LineAt(keys, capital, k)
    && forall j | k < j < |keys| :: LineAt(keys, capital, j + 1) == LineAt(keys, capital, j)
  }

  /** The last key that changed the line erased a letter. */
  ghost predicate LastEditErased(keys: seq<Keycode>, capital: bool) {
    exists k: nat :: LastEffective(keys, capital, k) && Meaning(keys[k]).Erase?
  }

  /** A key changes the line exactly when it is typed, or erases a letter, on a line that is not full. */
  lemma EffectiveKeys(line: string, capital: bool, key: Keycode)
    ensures Edit(line, capital, key) != line
            <==> |line| < LINE_BUFFER_SIZE - 1 && (Meaning(key).Type? || (Meaning(key).Erase? && line != []))
  {
    if |line| < LINE_BUFFER_SIZE - 1 {
      assert Meaning(key).Type? ==> |Edit(line, capital, key)| == |line| + 1;
      assert Meaning(key).Erase? && line != [] ==> |Edit(line, capital, key)| == |line| - 1;
    }
  }

  /** The letter that stands after the line after the first k keys. */
  function StaleAt(keys: seq<Keycode>, capital: bool, stale: string, k: nat): string
    requires k <= |keys|
  {
    StaleAll(keys[..k], capital, stale)
  }

  /** One key edits the line and changes what is left behind; it changes the latter only if it changes the line. */
  lemma KeyStep(keys: seq<Keycode>, capital: bool, stale: string, k: nat)
    requires k < |keys|
    ensures var was, now := LineAt(keys, capital, k), LineAt(keys, capital, k + 1);
            var left := StaleAt(keys, capital, stale, k + 1);
            && (now == was ==> left == StaleAt(keys, capital, stale, k))
            && (now != was ==> if Meaning(keys[k]).Erase? then |left| == 1 && was == now + left else left == [])
  {
    assert keys[..k + 1][..k] == keys[..k];
    EffectiveKeys(LineAt(keys, capital, k), EditAll(keys[..k], capital).1, keys[k]);
  }

  /** Keys that do not change the line do not change what is left behind. */
  lemma {:induction false} KeysStay(keys: seq<Keycode>, capital: bool, stale: string, k: nat, n: nat)
    requires k <= n <= |keys|
    requires forall j | k <= j < n :: LineAt(keys, capital, j + 1) == LineAt(keys, capital, j)
    ensures LineAt(keys, capital, n) == LineAt(keys, capital, k)
    ensures StaleAt(keys, capital, stale, n) == StaleAt(keys, capital, stale, k)
    decreases n
  {
    if k < n {
      KeyStep(keys, capital, stale, n - 1);
      KeysStay(keys, capital, stale, k, n - 1);
    }
  }

  /** Some key was the last to change the line, unless none changed it. */
  lemma {:induction false} FindLastEffective(keys: seq<Keycode>, capital: bool, n: nat)
    requires n <= |keys|
    requires forall j | n <= j < |keys| :: LineAt(keys, capital, j + 1) == LineAt(keys, capital, j)
    ensures (exists k: nat :: LastEffective(keys, capital, k))
            || forall j | 0 <= j < |keys| :: LineAt(keys, capital, j + 1) == LineAt(keys, capital, j)
    decreases n
  {
    if n > 0 {
      if LineAt(keys, capital, n) == LineAt(keys, capital, n - 1) {
        FindLastEffective(keys, capital, n - 1);
      } else {
        assert LastEffective(keys, capital, n - 1);
      }
    }
  }

  /** For every sequence of keys: if the last key that changed the line erased a letter, the line before
      it is the final line and what is left behind, one letter; if it typed one, nothing is left behind. */
  lemma StaleExact(keys: seq<Keycode>, capital: bool, stale: string, k: nat)
    requires LastEffective(keys, capital, k)
    ensures var left := StaleAll(keys, capital, stale);
            if Meaning(keys[k]).Erase?
            then |left| == 1 && LineAt(keys, capital, k) == EditAll(keys, capital).0 + left
            else left == []
  {
    KeyStep(keys, capital, stale, k);
    KeysStay(keys, capital, stale, k + 1, |keys|);
    assert keys[..|keys|] == keys;
  }

  /** If no key changed the line, what was left behind before still is. */
  lemma StaleKept(keys: seq<Keycode>, capital: bool, stale: string)
    requires forall k: nat :: !LastEffective(keys, capital, k)
    ensures StaleAll(keys, capital, stale) == stale
  {
    FindLastEffective(keys, capital, |keys|);
    KeysStay(keys, capital, stale, 0, |keys|);
    assert keys[..|keys|] == keys && keys[..0] == [];
  }

  /** From a clear buffer, a letter is left behind if and only if the last edit erased one. */
  lemma StaleIffErased(keys: seq<Keycode>, capital: bool)
    ensures StaleAll(keys, capital, []) != [] <==> LastEditErased(keys, capital)
  {
    if k: nat :| LastEffective(keys, capital, k) {
      StaleExact(keys, capital, [], k);
      assert forall j: nat | LastEffective(keys, capital, j) :: j == k;
    } else {
      StaleKept(keys, capital, []);
    }
  }

  lemma OneMoreKey(keys: seq<Keycode>, key: Keycode, capital: bool, stale: string)
    ensures var (line, shifted) := EditAll(keys, capital);
            && EditAll(keys + [key], capital) == (Edit(line, shifted, key), Capital(shifted, key))
            && StaleAll(keys + [key], capital, stale) == StaleAfter(line, StaleAll(keys, capital, stale), key)
  {
    assert (keys + [key])[..|keys|] == keys;
  }

  lemma TypeOnEmpty(key: Keycode, capital: bool)
    requires Meaning(key).Type?
    ensures EditAll([key], capital) == ([Letter(key, capital)], capital) && StaleAll([key], capital, []) == []
  {
    OneMoreKey([], key, capital, []);
    assert [] + [key] == [key] && [] + [Letter(key, capital)] == [Letter(key, capital)];
  }

  /** Any typing key and Backspace: the line is empty again and the letter is still in the buffer. Had the
      second key been a shift, the line would hold the letter and nothing would be left behind. */
  lemma BackspaceLeavesLetter(key: Keycode, capital: bool)
    requires Meaning(key).Type?
    ensures EditAll([key, KC_BACKSPACE], capital).0 == [] && LastEditErased([key, KC_BACKSPACE], capital)
    ensures StaleAll([key, KC_BACKSPACE], capital, []) == [Letter(key, capital)]
    ensures EditAll([key, KC_LSHIFT], capital).0 == [Letter(key, capital)] && StaleAll([key, KC_LSHIFT], capital, []) == []
  {
    TypeOnEmpty(key, capital);
    OneMoreKey([key], KC_BACKSPACE, capital, []);
    OneMoreKey([key], KC_LSHIFT, capital, []);
    assert [key, KC_BACKSPACE] == [key] + [KC_BACKSPACE] && [key, KC_LSHIFT] == [key] + [KC_LSHIFT];
    StaleIffErased([key, KC_BACKSPACE], capital);
  }

  // ---------------------------------------------------------------- what the keys type

  /** The capital of a lower-case letter; other characters as they are. */
  function Upper(c: char): char {
    if 'a' <= c <= 'z' then (c as int - 32) as char else c
  }

  /** The key types this character without shift and its capital with it. */
  ghost predicate KeyTypes(key: nat, c: char) {
    key < 256 && Meaning(key).Type? && Letter(key, false) == c && Letter(key, true) == Upper(c)
  }

  /** The keycodes from `first` on type these characters. */
  ghost predicate KeysType(first: nat, chars: string) {
    forall i | 0 <= i < |chars| :: KeyTypes(first + i, chars[i])
  }

  /** The keys that type, and the other keys that have a meaning. */
  lemma KeyMeanings(key: Keycode)
    ensures Meaning(key).Type? <==> 2 <= key <= 57 && key !in {0x0E, 0x1D, 0x2A, 0x36, 0x38}
    ensures Meaning(key).Erase? <==> key == 0x0E
    ensures Meaning(key).Shift? <==> key in {0x2A, 0x36, 0xAA, 0xB6, 0x3A}
  {
  }

  lemma JoinedRows(a: string, b: string, c: string, d: string, row: nat, i: nat)
    requires |a| == |b| == |c| == 16 && row < 4 && i < if row < 3 then 16 else |d|
    ensures (a + b + c + d)[16 * row + i] == if row == 0 then a[i] else if row == 1 then b[i] else if row == 2 then c[i] else d[i]
  {
  }

  lemma RowLengths()
    ensures |ROWS| == |ROWS_CAP| == 4 && |ROWS[3]| == |ROWS_CAP[3]| == 10
    ensures forall r | 0 <= r < 3 :: |ROWS[r]| == |ROWS_CAP[r]| == 16
  {
  }

  /** A table entry stands in its row. */
  lemma EntryInRow(row: nat, i: nat)
    requires row < 4 && i < if row < 3 then 16 else 10
    ensures KC_ASCII[16 * row + i] == ROWS[row][i] && KC_ASCII_CAP[16 * row + i] == ROWS_CAP[row][i]
  {
    RowLengths();
    JoinedRows(ROWS[0], ROWS[1], ROWS[2], ROWS[3], row, i);
    JoinedRows(ROWS_CAP[0], ROWS_CAP[1], ROWS_CAP[2], ROWS_CAP[3], row, i);
  }

  lemma KeyTypesEntry(row: nat, i: nat, c: char)
    requires row < 4 && i < (if row < 3 then 16 else 10) && Meaning(16 * row + i).Type?
    requires i < |ROWS[row]| && ROWS[row][i] == c && i < |ROWS_CAP[row]| && ROWS_CAP[row][i] == Upper(c)
    ensures KeyTypes(16 * row + i, c)
  {
    EntryInRow(row, i);
  }

  lemma NumberRow()
    ensures KeysType(0x02, "1234567890-=") && KeysType(0x0F, "?")
  {
    forall i | 0 <= i < 12
      ensures KeyTypes(0x02 + i, "1234567890-="[i])
    {
      KeyTypesEntry(0, 2 + i, "1234567890-="[i]);
    }
    KeyTypesEntry(0, 15, '?');
  }

  lemma TopRow()
    ensures KeysType(0x10, "qwertyuiop[]\n")
  {
    forall i | 0 <= i < 13
      ensures KeyTypes(0x10 + i, "qwertyuiop[]\n"[i])
    {
      KeyTypesEntry(1, i, "qwertyuiop[]\n"[i]);
    }
  }

  lemma HomeRowStart()
    ensures KeysType(0x1E, "as")
  {
    forall i | 0 <= i < 2
      ensures KeyTypes(0x1E + i, "as"[i])
    {
      KeyTypesEntry(1, 14 + i, "as"[i]);
    }
  }

  lemma HomeRow()
    ensures KeysType(0x20, "dfghjkl;'`")
  {
    forall i | 0 <= i < 10
      ensures KeyTypes(0x20 + i, "dfghjkl;'`"[i])
    {
      KeyTypesEntry(2, i, "dfghjkl;'`"[i]);
    }
  }

  lemma BottomRowStart()
    ensures KeysType(0x2B, "\\zxcv")
  {
    forall i | 0 <= i < 5
      ensures KeyTypes(0x2B + i, "\\zxcv"[i])
    {
      KeyTypesEntry(2, 11 + i, "\\zxcv"[i]);
    }
  }

  lemma BottomRow()
    ensures KeysType(0x30, "bnm,./") && KeysType(0x37, "?") && KeysType(0x39, " ")
  {
    forall i | 0 <= i < 6
      ensures KeyTypes(0x30 + i, "bnm,./"[i])
    {
      KeyTypesEntry(3, i, "bnm,./"[i]);
    }
    KeyTypesEntry(3, 7, '?');
    KeyTypesEntry(3, 9, ' ');
  }

  /** Every key that types, and its characters, by rows of the keyboard. */
  lemma Keyboard()
    ensures KeysType(0x02, "1234567890-=") && KeysType(0x0F, "?") && KeysType(0x10, "qwertyuiop[]\n")
    ensures KeysType(0x1E, "as") && KeysType(0x20, "dfghjkl;'`") && KeysType(0x2B, "\\zxcv")
    ensures KeysType(0x30, "bnm,./") && KeysType(0x37, "?") && KeysType(0x39, " ")
  {
    NumberRow();
    TopRow();
    HomeRowStart();
    HomeRow();
    BottomRowStart();
    BottomRow();
  }

  /** How many of the keys are a shift, the release of one, or caps lock. */
  function Toggles(keys: seq<Keycode>): nat {
    if keys == [] then 0
    else Toggles(keys[..|keys| - 1]) + if keys[|keys| - 1] in {0x2A, 0x36, 0xAA, 0xB6, 0x3A} then 1 else 0
  }

  /** After any keys the shift state is the initial one, flipped once for each of those, whatever else
      was typed and however full the line is. */
  lemma {:induction false} ShiftParity(keys: seq<Keycode>, capital: bool)
    ensures EditAll(keys, capital).1 == if Toggles(keys) % 2 == 0 then capital else !capital
    decreases |keys|
  {
    if keys != [] {
      ShiftParity(keys[..|keys| - 1], capital);
    }
  }

  /** Keys that type, and no others, give their letters in order, up to a full line of 1023. */
  lemma {:induction false} TypingGivesLetters(keys: seq<Keycode>, capital: bool)
    requires forall i | 0 <= i < |keys| :: Meaning(keys[i]).Type?
    ensures var (line, shifted) := EditAll(keys, capital);
            && |line| == (if |keys| < 1023 then |keys| else 1023) && shifted == capital
            && forall i | 0 <= i < |line| :: line[i] == Letter(keys[i], capital)
    decreases |keys|
  {
    if keys != [] {
      TypingGivesLetters(keys[..|keys| - 1], capital);
    }
  }

  lemma TypeThenErase(line: string, capital: bool, key: Keycode)
    requires Meaning(key).Type? && |line| <= 1023
    ensures Edit(Edit(line, capital, key), capital, 0x0E) == line <==> |line| != 1022
  {
    if |line| < 1022 {
      assert (line + [Letter(key, capital)])[..|line|] == line;
    } else if |line| == 1022 {
      assert |Edit(line, capital, key)| == 1023;
    }
  }

  /** Backspace takes back the letter before it, unless that letter filled the line. */
  lemma EraseUndoesType(keys: seq<Keycode>, key: Keycode, capital: bool)
    requires Meaning(key).Type?
    ensures EditAll(keys + [key] + [0x0E], capital) == EditAll(keys, capital) <==> |EditAll(keys, capital).0| != 1022
  {
    var line, shifted := EditAll(keys, capital).0, EditAll(keys, capital).1;
    LineFits(keys, capital);
    TypeThenErase(line, shifted, key);
    OneMoreKey(keys, key, capital, []);
    assert EditAll(keys + [key], capital) == (Edit(line, shifted, key), shifted);
    OneMoreKey(keys + [key], 0x0E, capital, []);
  }

  /** The line never has more than 1023 letters. */
  lemma {:induction false} LineFits(keys: seq<Keycode>, capital: bool)
    ensures |EditAll(keys, capital).0| <= 1023
    decreases |keys|
  {
    if keys != [] {
      LineFits(keys[..|keys| - 1], capital);
    }
  }

  /** The letters that the typing keys among the keys type, each in the shift state it finds. */
  function Typed(keys: seq<Keycode>, capital: bool): string {
    if keys == [] then []
    else
      var before, key := keys[..|keys| - 1], keys[|keys| - 1];
      Typed(before, capital)
      + if Meaning(key).Type? then [Letter(key, (Toggles(before) % 2 == 1) != capital)] else []
  }

  /** Keys of which none erases give the letters they type, in order, up to a full line. */
  lemma {:induction false} WithoutErase(keys: seq<Keycode>, capital: bool)
    requires forall i | 0 <= i < |keys| :: keys[i] != 0x0E
    ensures EditAll(keys, capital).0 == if |Typed(keys, capital)| <= 1023 then Typed(keys, capital) else Typed(keys, capital)[..1023]
    decreases |keys|
  {
    if keys != [] {
      var before := keys[..|keys| - 1];
      WithoutErase(before, capital);
      ShiftParity(before, capital);
    }
  }

  lemma RowsHaveNoNul()
    ensures forall r | 0 <= r < 4 :: NoNul(ROWS[r]) && NoNul(ROWS_CAP[r])
  {
  }

  lemma JoinHasNoNul(a: string, b: string, c: string, d: string)
    requires NoNul(a) && NoNul(b) && NoNul(c) && NoNul(d)
    ensures NoNul(a + b + c + d)
  {
  }

  lemma LettersAreNotNul(key: Keycode, capital: bool)
    requires Meaning(key).Type?
    ensures Letter(key, capital) != NUL
  {
    RowsHaveNoNul();
    JoinHasNoNul(ROWS[0], ROWS[1], ROWS[2], ROWS[3]);
    JoinHasNoNul(ROWS_CAP[0], ROWS_CAP[1], ROWS_CAP[2], ROWS_CAP[3]);
  }

  lemma EnterIsNewline(capital: bool)
    ensures Meaning(KC_ENTER).Type? && Letter(KC_ENTER, capital) == '\n'
  {
    assert KC_ASCII[KC_ENTER] == ROWS[1][12] && KC_ASCII_CAP[KC_ENTER] == ROWS_CAP[1][12];
  }

  // ---------------------------------------------------------------- the line discipline

  class LineDiscipline {
    const lineBuffer: array<char>
    const out: StdStream
    var bufferI: nat
    var capitalize: bool
    var altPressed: bool
    var ctrlPressed: bool

    ghost predicate Valid()
      reads this, lineBuffer, out
    {
      && lineBuffer.Length == LINE_BUFFER_SIZE && bufferI < LINE_BUFFER_SIZE
      && (forall k | 0 <= k < bufferI :: lineBuffer[k] != NUL)
      && (forall k | bufferI < k < LINE_BUFFER_SIZE :: lineBuffer[k] == NUL)
      && lineBuffer[LINE_BUFFER_SIZE - 1] == NUL
      && out.Valid() && out.stream != lineBuffer
    }

    ghost function Line(): (s: string)
      reads this, lineBuffer
      requires bufferI <= lineBuffer.Length
      ensures |s| == bufferI
    {
      lineBuffer[..bufferI]
    }

    /** The letter that stands after the line, if any. */
    ghost function Stale(): string
      reads this, lineBuffer
      requires bufferI < lineBuffer.Length
    {
      if lineBuffer[bufferI] == NUL then [] else [lineBuffer[bufferI]]
    }

    constructor (out: StdStream)
      requires out.Valid()
      ensures Valid() && Line() == [] && Stale() == [] && this.out == out && !capitalize && fresh(lineBuffer)
    {
      lineBuffer := new char[LINE_BUFFER_SIZE](_ => NUL);
      this.out := out;
      bufferI := 0;
      capitalize, altPressed, ctrlPressed := false, false, false;
    }

    method Flush()
      requires lineBuffer.Length == LINE_BUFFER_SIZE && out.Valid() && out.stream != lineBuffer
      modifies this`bufferI, lineBuffer
      ensures Valid() && Line() == [] && Stale() == []
    {
      for i := 0 to LINE_BUFFER_SIZE
        invariant forall k | 0 <= k < i :: lineBuffer[k] == NUL
        invariant out.Valid()
      {
        lineBuffer[i] := NUL;
      }
      bufferI := 0;
    }

    /** Updates the modifier state; a key that only does that, or does nothing, gives 0. */
    method EvalKc(key: Keycode) returns (r: nat)
      modifies this`capitalize, this`altPressed, this`ctrlPressed
      ensures capitalize == Capital(old(capitalize), key)
      ensures altPressed == (old(altPressed) != (key == 0x38))
      ensures ctrlPressed == (old(ctrlPressed) != (key == 0x1D || key == 0x9D))
      ensures r == if Meaning(key).Type? || Meaning(key).Erase? then key else 0
      ensures r != 0 ==> r < |KC_ASCII| == |KC_ASCII_CAP|
    {
      if key == KC_LALT {
        altPressed := !altPressed;
        return 0;
      } else if key == KC_LSHIFT || key == KC_RSHIFT || key == KC_LSHIFT_REL || key == KC_RSHIFT_REL {
        capitalize := !capitalize;
        return 0;
      } else if key == KC_CAPSLOCK {
        capitalize := !capitalize;
        return 0;
      } else if key == KC_LCTRL || key == KC_LCTRL_REL {
        ctrlPressed := !ctrlPressed;
        return 0;
      } else if key == KC_ESCAPE || key == KC_NUMLOCK || key == KC_RELEASED {
        return 0;
      } else if key <= KC_MAX {
        return key;
      } else {
        return 0;
      }
    }

    function KcGetChar(key: Keycode): char
      requires key < |KC_ASCII| && key < |KC_ASCII_CAP|
      reads this
    {
      if capitalize then KC_ASCII_CAP[key] else KC_ASCII[key]
    }

    /** Stores a letter, offers it to the stream unless it is NUL, and moves on. */
    method Accept(c: char)
      requires Valid() && bufferI < LINE_BUFFER_SIZE - 1 && c != NUL
      modifies this`bufferI, lineBuffer, out, out.stream
      ensures Valid() && Line() == old(Line()) + [c] && Stale() == []
      ensures out.Queue() == if |old(out.Queue())| < 255 then old(out.Queue()) + [c] else old(out.Queue())
    {
      lineBuffer[bufferI] := c;
      if lineBuffer[bufferI] != NUL {
        var _ := out.Put(lineBuffer[bufferI]);
      }
      bufferI := bufferI + 1;
    }

    /** One keycode edits the line as the simple editor does. A typed letter is also offered to the
        connected stream; an erased letter stays in the buffer until a typed one overwrites it. When the
        buffer is full every key is refused. */
    method LineIn(key: Keycode) returns (code: int)
      requires Valid()
      modifies this`bufferI, this`capitalize, this`altPressed, this`ctrlPressed, lineBuffer, out, out.stream
      ensures Valid()
      ensures code == if |old(Line())| == 1023 then -3 else 0
      ensures Line() == Edit(old(Line()), old(capitalize), key) && capitalize == Capital(old(capitalize), key)
      ensures Stale() == StaleAfter(old(Line()), old(Stale()), key)
      ensures altPressed == (old(altPressed) != (key == 0x38))
      ensures ctrlPressed == (old(ctrlPressed) != (key == 0x1D || key == 0x9D))
      ensures code == 0 && Meaning(key).Type? ==>
                out.Queue() == (if |old(out.Queue())| < 255
                                then old(out.Queue()) + [Letter(key, old(capitalize))] else old(out.Queue()))
      ensures code != 0 || !Meaning(key).Type? ==> out.Queue() == old(out.Queue())
    {
      var kcRet := EvalKc(key);
      if bufferI == LINE_BUFFER_SIZE - 1 {
        return -LINE_IN_FAIL;
      }
      if kcRet == 0 {
        return LINE_SUCC;
      }
      if key == KC_BACKSPACE {
        if bufferI > 0 {
          lineBuffer[bufferI] := NUL;
          bufferI := bufferI - 1;
        }
        return LINE_SUCC;
      }
      LettersAreNotNul(key, capitalize);
      Accept(KcGetChar(key));
      return LINE_SUCC;
    }

    /** A C program that reads the buffer sees the line and then the letter left behind, if any. */
    lemma BufferReadsAsLine()
      requires Valid()
      ensures Text(lineBuffer[..]) == Line() + Stale()
    {
      if lineBuffer[bufferI] == NUL {
        TextIs(lineBuffer[..], bufferI);
      } else {
        TextIs(lineBuffer[..], bufferI + 1);
      }
    }

    /** Every sequence of keycodes, from any buffer with an empty line, leaves the line of the simple editor,
        and the text in the buffer is that line and the letter the keys left behind. From a clear buffer it
        is the line alone if and only if the last key that changed the line did not erase. */
    method Feed(keys: seq<Keycode>)
      requires Valid() && Line() == []
      modifies this`bufferI, this`capitalize, this`altPressed, this`ctrlPressed, lineBuffer, out, out.stream
      ensures Valid() && (Line(), capitalize) == EditAll(keys, old(capitalize))
      ensures Stale() == StaleAll(keys, old(capitalize), old(Stale()))
      ensures Text(lineBuffer[..]) == Line() + Stale()
      ensures old(Stale()) == [] ==> (Text(lineBuffer[..]) == Line() <==> !LastEditErased(keys, old(capitalize)))
    {
      for k := 0 to |keys|
        invariant Valid() && (Line(), capitalize) == EditAll(keys[..k], old(capitalize))
        invariant Stale() == StaleAll(keys[..k], old(capitalize), old(Stale()))
      {
        assert keys[..k + 1][..k] == keys[..k];
        var _ := LineIn(keys[k]);
      }
      assert keys[..|keys|] == keys;
      BufferReadsAsLine();
      StaleIffErased(keys, old(capitalize));
    }

    /** Whenever Enter is accepted, after any keycodes, the NUL-terminated buffer is the edited line
        followed by a newline. */
    method FeedLine(keys: seq<Keycode>) returns (code: int)
      requires Valid() && Line() == []
      modifies this`bufferI, this`capitalize, this`altPressed, this`ctrlPressed, lineBuffer, out, out.stream
      ensures Valid()
      ensures code == if |EditAll(keys, old(capitalize)).0| < 1023 then 0 else -3
      ensures code == 0 ==> Text(lineBuffer[..]) == EditAll(keys, old(capitalize)).0 + "\n"
    {
      Feed(keys);
      EnterIsNewline(capitalize);
      code := LineIn(KC_ENTER);
      BufferReadsAsLine();
    }

    /** Copies the first n cells, at most the whole buffer, and returns how many; nothing for NULL. */
    method OutBufN(buf: array?<char>, n: nat) returns (written: nat)
      requires Valid() && buf != lineBuffer && buf != out.stream
      requires buf != null ==> (if n > 1024 then 1024 else n) <= buf.Length
      modifies buf
      ensures Valid() && Line() == old(Line())
      ensures written == if buf == null then 0 else if n > 1024 then 1024 else n
      ensures buf != null ==> buf[..written] == lineBuffer[..written] && buf[written..] == old(buf[written..])
      ensures n >= 1024 && buf != null ==> Text(buf[..]) == Text(lineBuffer[..])
    {
      if buf == null {
        return 0;
      }
      written := if n > LINE_BUFFER_SIZE then LINE_BUFFER_SIZE else n;
      for i := 0 to written
        invariant buf[..i] == lineBuffer[..i] && buf[i..] == old(buf[i..])
        invariant unchanged(lineBuffer) && unchanged(out) && unchanged(this)
      {
        buf[i] := lineBuffer[i];
      }
      if n >= LINE_BUFFER_SIZE {
        ghost var end := if lineBuffer[bufferI] == NUL then bufferI else bufferI + 1;
        assert forall k | 0 <= k < written :: buf[k] == buf[..written][k] == lineBuffer[k];
        TextIs(lineBuffer[..], end);
        TextIs(buf[..], end);
      }
    }
  }
}
