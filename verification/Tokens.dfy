/** strtok with the scans it is built from (libc/string.c). Pointers are offsets into one buffer, and
    `end` is the offset of the NUL that terminates the string at hand. */
module Tokens {
  import opened Machine
  import opened CStrings

  // ---------------------------------------------------------------- the specification

  /** A maximal non-empty stretch of s without delimiters. */
  ghost predicate MaximalSegment(s: string, d: string, a: nat, b: nat) {
    && a < b <= |s|
    && (forall i | a <= i < b :: s[i] !in d)
    && (a == 0 || s[a - 1] in d)
    && (b == |s| || s[b] in d)
  }

  /** The first place from p on that is not a delimiter. */
  function SkipDelims(s: string, p: nat, d: string): (q: nat)
    requires p <= |s|
    ensures p <= q <= |s|
    ensures forall i | p <= i < q :: s[i] in d
    ensures q < |s| ==> s[q] !in d
    decreases |s| - p
  {
    if p < |s| && s[p] in d then SkipDelims(s, p + 1, d) else p
  }

  /** The first place from p on that is a delimiter. */
  function FindDelim(s: string, p: nat, d: string): (q: nat)
    requires p <= |s|
    ensures p <= q <= |s|
    ensures forall i | p <= i < q :: s[i] !in d
    ensures q < |s| ==> s[q] in d
    decreases |s| - p
  {
    if p < |s| && s[p] !in d then FindDelim(s, p + 1, d) else p
  }

  datatype Token = Token(start: nat, stop: nat)

  /** What strtok finds from p on. */
  function TokensFrom(s: string, p: nat, d: string): (ts: seq<Token>)
    requires p <= |s|
    ensures forall i | 0 <= i < |ts| :: p <= ts[i].start < ts[i].stop <= |s|
    decreases |s| - p
  {
    var a := SkipDelims(s, p, d);
    if a == |s| then []
    else
      var b := FindDelim(s, a, d);
      [Token(a, b)] + TokensFrom(s, After(s, b), d)
  }

  /** Where the search goes on after a token that stops at b. */
  function After(s: string, b: nat): nat {
    if b < |s| then b + 1 else b
  }

  ghost predicate Boundary(s: string, p: nat, d: string)
    requires p <= |s|
  {
    p == 0 || p == |s| || s[p - 1] in d
  }

  /** From a boundary on, the tokens are exactly the maximal segments. */
  lemma {:induction false} TokensAreSegments(s: string, p: nat, d: string, t: Token)
    requires p <= |s| && Boundary(s, p, d)
    ensures t in TokensFrom(s, p, d) <==> p <= t.start && MaximalSegment(s, d, t.start, t.stop)
    decreases |s| - p
  {
    var a := SkipDelims(s, p, d);
    if a < |s| {
      var b := FindDelim(s, a, d);
      TokensAreSegments(s, After(s, b), d, t);
      FirstSegment(s, p, d, t);
    } else if p <= t.start < |s| {
      assert s[t.start] in d;
    }
  }

  /** Any segment from p on is the first token or lies wholly after it. */
  lemma FirstSegment(s: string, p: nat, d: string, t: Token)
    requires p <= |s| && Boundary(s, p, d) && SkipDelims(s, p, d) < |s|
    ensures var a := SkipDelims(s, p, d);
            var b := FindDelim(s, a, d);
            && MaximalSegment(s, d, a, b)
            && (p <= t.start && MaximalSegment(s, d, t.start, t.stop) ==> t == Token(a, b) || After(s, b) <= t.start)
  {
    var a := SkipDelims(s, p, d);
    var b := FindDelim(s, a, d);
    if p <= t.start < a { assert s[t.start] in d; }
    if a < t.start <= b { assert s[t.start - 1] !in d; }
  }

  lemma {:induction false} TokensInOrder(s: string, p: nat, d: string, i: nat, j: nat)
    requires p <= |s| && i < j < |TokensFrom(s, p, d)|
    ensures TokensFrom(s, p, d)[i].stop < TokensFrom(s, p, d)[j].start
    decreases |s| - p
  {
    var b := FindDelim(s, SkipDelims(s, p, d), d);
    if i > 0 {
      TokensInOrder(s, After(s, b), d, i - 1, j - 1);
    }
  }

  /** The buffer after the given tokens were cut off: a NUL after each that a delimiter follows. */
  function Cut(cells: seq<char>, end: nat, ts: seq<Token>): (r: seq<char>)
    ensures |r| == |cells|
    ensures forall k | 0 <= k < |r| ::
              r[k] == if k < end && exists i :: 0 <= i < |ts| && ts[i].stop == k then NUL else cells[k]
  {
    seq(|cells|, k requires 0 <= k < |cells| =>
      if k < end && exists i :: 0 <= i < |ts| && ts[i].stop == k then NUL else cells[k])
  }

  lemma {:induction false} ScansSame(s: string, s': string, p: nat, d: string)
    requires |s| == |s'| && p <= |s| && forall i | p <= i < |s| :: s[i] == s'[i]
    ensures SkipDelims(s, p, d) == SkipDelims(s', p, d) && FindDelim(s, p, d) == FindDelim(s', p, d)
    decreases |s| - p
  {
    if p < |s| { ScansSame(s, s', p + 1, d); }
  }

  /** Cutting one more token off. */
  lemma CutOne(cells: seq<char>, end: nat, ts: seq<Token>, t: Token)
    requires end < |cells|
    ensures Cut(cells, end, ts + [t])
         == if t.stop < end then Cut(cells, end, ts)[t.stop := NUL] else Cut(cells, end, ts)
  {
    var more := ts + [t];
    assert forall i | 0 <= i < |ts| :: more[i] == ts[i];
    assert more[|ts|] == t;
  }

  /** Cuts before pos, or at the end, leave the string from pos on as it was, and so are the scans. */
  lemma CutLeavesRest(cells: seq<char>, end: nat, ts: seq<Token>, pos: nat, d: string)
    requires pos <= end < |cells| && cells[end] == NUL && NoNul(cells[..end])
    requires forall i | 0 <= i < |ts| :: ts[i].stop < pos || ts[i].stop == end
    ensures var now := Cut(cells, end, ts);
            var a := SkipDelims(cells[..end], pos, d);
            && now[end] == NUL && NoNul(now[pos..end])
            && SkipDelims(now[..end], pos, d) == a
            && FindDelim(now[..end], a, d) == FindDelim(cells[..end], a, d)
  {
    var now := Cut(cells, end, ts);
    forall i | pos <= i <= end
      ensures now[i] == cells[i] && (i < end ==> cells[..end][i] != NUL)
    {
    }
    ScansSame(now[..end], cells[..end], pos, d);
    ScansSame(now[..end], cells[..end], SkipDelims(cells[..end], pos, d), d);
  }

  /** The cuts fall on delimiters only. */
  lemma CutKeepsOthers(cells: seq<char>, end: nat, d: string, ts: seq<Token>, k: nat)
    requires end < |cells| && forall i | 0 <= i < |ts| :: MaximalSegment(cells[..end], d, ts[i].start, ts[i].stop)
    requires k < end && cells[k] !in d
    ensures Cut(cells, end, ts)[k] == cells[k]
  {
    assert cells[..end][k] == cells[k];
    forall i | 0 <= i < |ts|
      ensures ts[i].stop != k
    {
      assert MaximalSegment(cells[..end], d, ts[i].start, ts[i].stop);
    }
  }

  lemma TokenAt(s: string, d: string, k: nat)
    requires k < |TokensFrom(s, 0, d)|
    ensures var t := TokensFrom(s, 0, d)[k]; MaximalSegment(s, d, t.start, t.stop)
  {
    var t := TokensFrom(s, 0, d)[k];
    assert t in TokensFrom(s, 0, d);
    TokensAreSegments(s, 0, d, t);
  }

  lemma TokenReads(cells: seq<char>, cut: seq<char>, a: nat, b: nat)
    requires a <= b < |cells| == |cut| && cut[b] == NUL
    requires forall i | a <= i < b :: cut[i] == cells[i] && cells[i] != NUL
    ensures Text(cut[a..]) == cells[a..b]
  {
    var text := cut[a..];
    assert text[..b - a] == cells[a..b];
    TextIs(text, b - a);
  }

  /** Every token can be read where it starts. */
  lemma TokenSurvives(cells: seq<char>, end: nat, d: string, ts: seq<Token>, k: nat)
    requires end < |cells| && cells[end] == NUL && NoNul(cells[..end]) && k < |ts|
    requires MaximalSegment(cells[..end], d, ts[k].start, ts[k].stop)
    requires forall i | 0 <= i < |ts| :: MaximalSegment(cells[..end], d, ts[i].start, ts[i].stop)
    ensures Text(Cut(cells, end, ts)[ts[k].start..]) == cells[ts[k].start..ts[k].stop]
  {
    var cut := Cut(cells, end, ts);
    forall i | ts[k].start <= i < ts[k].stop
      ensures cut[i] == cells[i] && cells[i] != NUL
    {
      assert cells[..end][i] == cells[i];
      CutKeepsOthers(cells, end, d, ts, i);
    }
    TokenReads(cells, cut, ts[k].start, ts[k].stop);
  }

  ghost predicate Readable(cells: seq<char>, end: nat, ts: seq<Token>)
    requires end <= |cells|
  {
    forall i | 0 <= i < |ts| ::
      ts[i].start <= ts[i].stop <= end && Text(Cut(cells, end, ts)[ts[i].start..]) == cells[ts[i].start..ts[i].stop]
  }

  lemma TokensAreReadable(cells: seq<char>, end: nat, d: string)
    requires end < |cells| && cells[end] == NUL && NoNul(cells[..end])
    ensures Readable(cells, end, TokensFrom(cells[..end], 0, d))
  {
    var s, ts := cells[..end], TokensFrom(cells[..end], 0, d);
    forall i | 0 <= i < |ts|
      ensures MaximalSegment(s, d, ts[i].start, ts[i].stop)
    {
      TokenAt(s, d, i);
    }
    forall i | 0 <= i < |ts|
      ensures Text(Cut(cells, end, ts)[ts[i].start..]) == cells[ts[i].start..ts[i].stop]
    {
      TokenSurvives(cells, end, d, ts, i);
    }
  }

  function Starts(ts: seq<Token>): (r: seq<nat>)
    ensures |r| == |ts| && forall i | 0 <= i < |ts| :: r[i] == ts[i].start
  {
    seq(|ts|, i requires 0 <= i < |ts| => ts[i].start)
  }

  /** The tokens done lie behind pos, and those from pos on complete them. */
  ghost predicate Reached(s: string, d: string, done: seq<Token>, pos: nat) {
    && pos <= |s|
    && (forall i | 0 <= i < |done| :: done[i].stop < pos || done[i].stop == |s|)
    && TokensFrom(s, 0, d) == done + TokensFrom(s, pos, d)
  }

  lemma ReachedNext(s: string, d: string, done: seq<Token>, pos: nat, a: nat)
    requires Reached(s, d, done, pos) && a == SkipDelims(s, pos, d) < |s|
    ensures var b := FindDelim(s, a, d);
            Reached(s, d, done + [Token(a, b)], After(s, b)) && pos < After(s, b)
  {
    var b := FindDelim(s, a, d);
    assert TokensFrom(s, pos, d) == [Token(a, b)] + TokensFrom(s, After(s, b), d);
  }

  lemma ReachedAll(s: string, d: string, done: seq<Token>, pos: nat)
    requires Reached(s, d, done, pos) && SkipDelims(s, pos, d) == |s|
    ensures done == TokensFrom(s, 0, d)
  {
  }

  lemma StartsOneMore(ts: seq<Token>, t: Token)
    ensures Starts(ts + [t]) == Starts(ts) + [t.start]
  {
  }

  // ---------------------------------------------------------------- the code

  class Tokenizer {
    const buf: array<char>
    var oldstr: nat

    constructor (buf: array<char>)
      ensures this.buf == buf && oldstr == 0
    {
      this.buf := buf;
      oldstr := 0;
    }

    /** A terminated string starts at p. */
    ghost predicate StringAt(p: nat, end: nat)
      reads buf
    {
      p <= end < buf.Length && buf[end] == NUL && NoNul(buf[p..end])
    }

    /** Whether c is one of the delimiters, found by comparing with each. */
    method Matches(c: char, d: string) returns (found: bool)
      ensures found <==> c in d
    {
      var j := 0;
      while j < |d|
        invariant j <= |d| && c !in d[..j]
      {
        if c == d[j] {
          return true;
        }
        j := j + 1;
      }
      return false;
    }

    method StrSpn(p: nat, d: string, ghost end: nat) returns (num: nat)
      requires StringAt(p, end)
      ensures p + num == SkipDelims(buf[..end], p, d)
    {
      num := 0;
      ghost var s := buf[..end];
      while buf[p + num] != NUL
        invariant p + num <= end && SkipDelims(s, p + num, d) == SkipDelims(s, p, d)
        decreases end - num
      {
        assert s[p + num] == buf[p + num];
        var found := Matches(buf[p + num], d);
        if !found {
          return;
        }
        num := num + 1;
      }
      EndIsReached(p, end, p + num);
    }

    lemma EndIsReached(p: nat, end: nat, q: nat)
      requires StringAt(p, end) && p <= q <= end && buf[q] == NUL
      ensures q == end
    {
      forall i | p <= i < end
        ensures buf[i] != NUL
      {
        assert buf[i] == buf[p..end][i - p];
      }
    }

    method StrPBrk(p: nat, d: string, ghost end: nat) returns (r: Option<nat>)
      requires StringAt(p, end)
      ensures var q := FindDelim(buf[..end], p, d);
              r == if q < end then Some(q) else None
    {
      var q := p;
      ghost var s := buf[..end];
      while buf[q] != NUL
        invariant p <= q <= end && FindDelim(s, q, d) == FindDelim(s, p, d)
        decreases end - q
      {
        assert s[q] == buf[q];
        var found := Matches(buf[q], d);
        if found {
          return Some(q);
        }
        q := q + 1;
      }
      EndIsReached(p, end, q);
      return None;
    }

    /** One call, on a given string or where the last call stopped. */
    method StrTok(str: Option<nat>, d: string, ghost end: nat) returns (token: Option<nat>)
      requires StringAt(if str.Some? then str.value else oldstr, end)
      modifies this, buf
      ensures var s := old(buf[..end]);
              var a := SkipDelims(s, if str.Some? then str.value else old(oldstr), d);
              if a == end then
                token == None && oldstr == end && buf[..] == old(buf[..])
              else
                var b := FindDelim(s, a, d);
                && token == Some(a) && oldstr == After(s, b)
                && buf[..] == if b < end then old(buf[..])[b := NUL] else old(buf[..])
    {
      var p := if str.Some? then str.value else oldstr;
      var skip := StrSpn(p, d, end);
      p := p + skip;
      if p < end { assert buf[..end][p] == buf[p]; }
      if buf[p] == NUL {
        EndIsReached(p - skip, end, p);
        oldstr := p;
        return None;
      }
      token := Some(p);
      assert StringAt(p, end) by { assert buf[p..end] == buf[p - skip..end][skip..]; }
      var stop := StrPBrk(p, d, end);
      if stop.None? {
        var c := p;
        while buf[c] != NUL
          invariant p <= c <= end
          decreases end - c
        {
          c := c + 1;
        }
        EndIsReached(p, end, c);
        oldstr := c;
      } else {
        buf[stop.value] := NUL;
        oldstr := stop.value + 1;
      }
    }

    /** What a call from pos on gives, when the tokens `done` are cut off the original cells: the next
        token of the original string, which is then cut off too. */
    ghost predicate Found(cells: seq<char>, end: nat, d: string, done: seq<Token>, pos: nat, token: Option<nat>)
      requires pos <= end <= |cells|
      reads this, buf
    {
      var s := cells[..end];
      var a := SkipDelims(s, pos, d);
      if a == end then
        token == None && oldstr == end && buf[..] == Cut(cells, end, done)
      else
        && token == Some(a) && oldstr == After(s, FindDelim(s, a, d))
        && buf[..] == Cut(cells, end, done + [Token(a, FindDelim(s, a, d))])
    }

    method NextToken(str: Option<nat>, d: string, ghost end: nat, ghost cells: seq<char>, ghost done: seq<Token>)
      returns (token: Option<nat>)
      requires end < |cells| && cells[end] == NUL && NoNul(cells[..end]) && buf[..] == Cut(cells, end, done)
      requires Reached(cells[..end], d, done, if str.Some? then str.value else oldstr)
      modifies this, buf
      ensures Found(cells, end, d, done, if str.Some? then str.value else old(oldstr), token)
    {
      ghost var pos := if str.Some? then str.value else oldstr;
      CutLeavesRest(cells, end, done, pos, d);
      ghost var now, a := buf[..], SkipDelims(cells[..end], pos, d);
      assert buf[..end] == now[..end] && buf[pos..end] == now[pos..end] && buf[end] == now[end];
      CutOne(cells, end, done, Token(a, FindDelim(cells[..end], a, d)));
      token := StrTok(str, d, end);
    }

    /** One call on the string and further calls with NULL return, in order, the tokens, that is, all
        maximal segments; the buffer ends up cut after those that a delimiter follows and is otherwise
        unchanged, and every token reads as its segment. */
    method Tokenize(d: string) returns (starts: seq<nat>)
      requires NUL in buf[..]
      modifies this, buf
      ensures var end := |old(Text(buf[..]))|;
              && end < buf.Length && oldstr == end && buf[end] == NUL
              && var ts := TokensFrom(old(buf[..end]), 0, d);
              && starts == Starts(ts)
              && buf[..] == Cut(old(buf[..]), end, ts)
              && Readable(old(buf[..]), end, ts)
    {
      ghost var end := StrLen(buf);
      ghost var cells, s := buf[..], buf[..end];
      ghost var done: seq<Token> := [];
      starts := [];
      TokensAreReadable(cells, end, d);
      var token := NextToken(Some(0), d, end, cells, done);
      ghost var pos := 0;
      while token.Some?
        invariant Reached(s, d, done, pos) && starts == Starts(done)
        invariant Found(cells, end, d, done, pos, token)
        decreases end - pos
      {
        ReachedNext(s, d, done, pos, token.value);
        ghost var t := Token(token.value, FindDelim(s, token.value, d));
        StartsOneMore(done, t);
        starts := starts + [token.value];
        done := done + [t];
        pos := oldstr;
        token := NextToken(None, d, end, cells, done);
      }
      ReachedAll(s, d, done, pos);
      assert buf[end] == buf[..][end];
    }

    /** Once the terminator is reached, any number of further calls return NULL and change nothing. */
    method Exhausted(d: string, calls: nat) returns (tokens: seq<Option<nat>>)
      requires oldstr < buf.Length && buf[oldstr] == NUL
      modifies this, buf
      ensures tokens == seq(calls, _ => None)
      ensures oldstr == old(oldstr) && buf[..] == old(buf[..])
    {
      tokens := [];
      for i := 0 to calls
        invariant tokens == seq(i, _ => None)
        invariant oldstr == old(oldstr) && buf[..] == old(buf[..]) && buf[oldstr] == NUL
      {
        assert StringAt(oldstr, oldstr);
        var token := StrTok(None, d, oldstr);
        assert buf[oldstr] == buf[..][oldstr];
        tokens := tokens + [token];
      }
    }
  }
}
