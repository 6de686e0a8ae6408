/**
  The pipeline splitter of pipes/task3.c: `strtok` cuts one line buffer at the bars, then cuts each
  of the first two pieces, still in the same buffer, at the spaces.
*/
module PipelineSplit {
  import opened Common

  const NUL := '\0'

  // ----- What splitting means -----

  /** Length of the longest prefix without the delimiter. */
  function WordLength(s: string, d: char): (n: nat)
    ensures n <= |s|
    ensures forall k :: 0 <= k < n ==> s[k] != d
    ensures n < |s| ==> s[n] == d
  {
    if s == [] || s[0] == d then 0 else 1 + WordLength(s[1..], d)
  }

  /** The non-empty pieces between delimiters, in order. */
  function Tokens(s: string, d: char): seq<string>
    decreases |s|
  {
    if s == [] then []
    else if s[0] == d then Tokens(s[1..], d)
    else [s[..WordLength(s, d)]] + Tokens(s[WordLength(s, d)..], d)
  }

  /** A delimiter splits a text into the tokens before it and the tokens after it. */
  lemma {:induction false} TokensSplit(s: string, d: char, t: string)
    ensures Tokens(s + [d] + t, d) == Tokens(s, d) + Tokens(t, d)
    decreases |s|
  {
    var whole := s + [d] + t;
    if s == [] {
      assert whole[1..] == t;
    } else if s[0] == d {
      assert whole[1..] == s[1..] + [d] + t;
      TokensSplit(s[1..], d, t);
    } else {
      var n := WordLength(s, d);
      WordEnds(s, d, t);
      assert n > 0;
      assert whole[..n] == s[..n];
      assert whole[n..] == s[n..] + [d] + t;
      TokensSplit(s[n..], d, t);
      assert Tokens(s, d) == [s[..n]] + Tokens(s[n..], d);
    }
  }

  lemma {:induction false} WordEnds(s: string, d: char, t: string)
    ensures WordLength(s + [d] + t, d) == WordLength(s, d)
  {
    if s != [] && s[0] != d {
      assert (s + [d] + t)[1..] == s[1..] + [d] + t;
      WordEnds(s[1..], d, t);
    }
  }

  lemma OneWord(w: string, d: char)
    requires w != [] && d !in w
    ensures Tokens(w, d) == [w]
  {
    TokensHead(w, |w|, d);
    assert w[..|w|] == w && w[|w|..] == [];
  }

  /** The words with one delimiter between each two. */
  function Join(ts: seq<string>, d: char): string {
    if ts == [] then []
    else if |ts| == 1 then ts[0]
    else ts[0] + [d] + Join(ts[1..], d)
  }

  /** Splitting undoes joining: the tokens of words joined by the delimiter are those words. */
  lemma {:induction false} SplitOfJoin(ts: seq<string>, d: char)
    requires forall j :: 0 <= j < |ts| ==> ts[j] != [] && d !in ts[j]
    ensures Tokens(Join(ts, d), d) == ts
  {
    if ts != [] {
      OneWord(ts[0], d);
      if |ts| > 1 {
        TokensSplit(ts[0], d, Join(ts[1..], d));
        SplitOfJoin(ts[1..], d);
      }
    }
  }

  /** One word at the front, ended by a delimiter or the end of the text. */
  lemma TokensHead(s: string, n: nat, d: char)
    requires 0 < n <= |s| && (n < |s| ==> s[n] == d)
    requires forall k :: 0 <= k < n ==> s[k] != d
    ensures Tokens(s, d) == [s[..n]] + Tokens(s[if n < |s| then n + 1 else n..], d)
  {
    assert WordLength(s, d) == n;
    if n < |s| {
      assert s[n..][1..] == s[n + 1..];
    }
  }

  // ----- Strings in the buffer -----

  /** The C string at q reads w. */
  ghost predicate StringAt(b: seq<char>, q: int, w: string) {
    && 0 <= q && q + |w| < |b|
    && (forall k :: 0 <= k < |w| ==> b[q + k] == w[k] != NUL)
    && b[q + |w|] == NUL
  }

  /** From p on, the text runs up to a NUL at e. */
  ghost predicate Text(b: seq<char>, p: int, e: int) {
    && 0 <= p <= e < |b|
    && b[e] == NUL
    && forall k :: p <= k < e ==> b[k] != NUL
  }

  function Least(a: int, b: int): (r: int)
    ensures r <= a && r <= b && (r == a || r == b)
  {
    if a < b then a else b
  }

  /** The vector lists the first tokens of the segment, as many as fit before its closing NULL. */
  ghost predicate Lists(b: seq<char>, args: seq<Option<nat>>, segment: string)
    requires |args| > 0
  {
    var ts := Tokens(segment, ' ');
    var n := Least(|args| - 1, |ts|);
    && (forall j :: 0 <= j < n ==> args[j].Some? && StringAt(b, args[j].value, ts[j]))
    && args[n] == None
  }

  /** Nothing outside lo .. hi - 1 changed. */
  ghost predicate SameOutside(b: seq<char>, b': seq<char>, lo: int, hi: int) {
    |b'| == |b| && forall k :: 0 <= k < |b| && !(lo <= k < hi) ==> b'[k] == b[k]
  }

  /** One call of `strtok` (section 7.24.5.8 of ISO/IEC 9899:2011) on the text from p to e: it finds
      the first token, plants a NUL behind it and remembers where to go on. */
  ghost predicate Cut(b: seq<char>, b': seq<char>, p: int, e: int, d: char, token: Option<nat>, save: int)
    requires Text(b, p, e)
  {
    var ts := Tokens(b[p..e], d);
    match token
    case None => ts == [] && save == e && b' == b
    case Some(q) =>
      && ts != [] && p <= q
      && var end := q + |ts[0]|;
      && end <= e
      && b[q..end] == ts[0]
      && b' == b[end := NUL]
      && save == (if end == e then e else end + 1)
      && Tokens(b[save..e], d) == ts[1..]
  }

  lemma CutFacts(b: seq<char>, b': seq<char>, p: int, e: int, d: char, token: Option<nat>, save: int)
    requires Text(b, p, e) && Cut(b, b', p, e, d, token, save)
    ensures p <= save <= e && Text(b', save, e) && SameOutside(b, b', p, e)
    ensures token.Some? ==>
              var ts := Tokens(b[p..e], d);
              && ts != [] && StringAt(b', token.value, ts[0])
              && token.value + |ts[0]| <= e && (token.value + |ts[0]| < save || save == e)
              && Text(b', token.value, token.value + |ts[0]|)
              && b'[save..e] == b[save..e] && Tokens(b'[save..e], d) == ts[1..]
  {
    if token.Some? {
      var w := Tokens(b[p..e], d)[0];
      forall k | 0 <= k < |w| ensures b'[token.value + k] == w[k] != NUL {
        assert b[token.value..token.value + |w|][k] == w[k];
      }
    }
  }

  /** The first n slots point at the first n tokens, all of which end before `save`. */
  ghost predicate Filled(b: seq<char>, args: seq<Option<nat>>, n: int, ts: seq<string>, save: int, e: int) {
    && 0 <= n <= |args| && n <= |ts|
    && forall j :: 0 <= j < n ==>
         && args[j].Some?
         && StringAt(b, args[j].value, ts[j])
         && args[j].value + |ts[j]| <= e
         && (args[j].value + |ts[j]| < save || save == e)
  }

  /** Where an argv loop stands after n calls that found a token. */
  ghost predicate Progress(b: seq<char>, args: seq<Option<nat>>, n: int, ts: seq<string>, save: int, e: int) {
    Text(b, save, e) && Filled(b, args, n, ts, save, e) && Tokens(b[save..e], ' ') == ts[n..]
  }

  /** The next call either fills slot n or finds that all tokens are listed. */
  lemma NextSlot(b: seq<char>, b': seq<char>, p: int, e: int, token: Option<nat>, save: int,
                 args: seq<Option<nat>>, n: int, ts: seq<string>)
    requires Progress(b, args, n, ts, p, e) && n < |args|
    requires Cut(b, b', p, e, ' ', token, save)
    ensures SameOutside(b, b', p, e) && p <= save <= e
    ensures token.Some? ==> Progress(b', args[n := token], n + 1, ts, save, e)
    ensures token.None? ==> n == |ts| && Progress(b', args[n := token], n, ts, save, e)
  {
  }

  lemma TokenFound(b: seq<char>, q: int, r: int, e: int, d: char)
    requires Text(b, q, e) && q < r <= e && (r < e ==> b[r] == d)
    requires forall k :: q <= k < r ==> b[k] != d
    ensures Tokens(b[q..e], d) == [b[q..r]] + Tokens(b[if r < e then r + 1 else e..e], d)
  {
    var text, n := b[q..e], r - q;
    assert text[..n] == b[q..r];
    assert forall k :: 0 <= k < n ==> text[k] == b[q + k];
    if r < e {
      assert text[n] == b[r];
      assert text[n + 1..] == b[r + 1..e];
    } else {
      assert text[n..] == b[e..e];
    }
    TokensHead(text, n, d);
  }

  /** Nothing but delimiters: no token, no change. */
  lemma NothingLeft(b: seq<char>, from: nat, e: int, d: char)
    requires Text(b, from, e) && Tokens(b[e..e], d) == Tokens(b[from..e], d)
    ensures Cut(b, b, from, e, d, None, e)
  {
    assert b[e..e] == [];
  }

  /** Planting a NUL behind the token is a cut. */
  lemma CutMade(b: seq<char>, from: nat, q: nat, r: int, e: int, d: char)
    requires Text(b, from, e) && from <= q < r <= e && (r < e ==> b[r] == d)
    requires forall k :: q <= k < r ==> b[k] != d
    requires Tokens(b[q..e], d) == Tokens(b[from..e], d)
    ensures Cut(b, b[r := NUL], from, e, d, Some(q), if r == e then e else r + 1)
  {
    TokenFound(b, q, r, e, d);
  }

  /** A string in the buffer is the text it reads. */
  lemma StringIsText(b: seq<char>, q: int, w: string)
    requires StringAt(b, q, w)
    ensures Text(b, q, q + |w|) && b[q..q + |w|] == w
  {
    forall k | q <= k < q + |w| ensures b[k] != NUL {
      assert b[q + (k - q)] == w[k - q];
    }
  }

  /** After the two cuts at the bars the first two segments lie one behind the other, each closed
      by its own NUL. */
  lemma TwoSegments(b0: seq<char>, b1: seq<char>, b2: seq<char>, e: int,
                    cmd1: Option<nat>, save1: int, cmd2: Option<nat>, save2: int)
    requires Text(b0, 0, e) && Cut(b0, b1, 0, e, '|', cmd1, save1)
    requires Text(b1, save1, e) && Cut(b1, b2, save1, e, '|', cmd2, save2) && cmd2.Some?
    ensures cmd1.Some? && |Tokens(b0[0..e], '|')| >= 2
    ensures var segments := Tokens(b0[0..e], '|');
            && StringAt(b2, cmd1.value, segments[0]) && StringAt(b2, cmd2.value, segments[1])
            && cmd1.value + |segments[0]| < cmd2.value
  {
  }

  /** Cutting the first segment leaves the second alone. */
  lemma SegmentIntact(b: seq<char>, b': seq<char>, lo: int, hi: int, q: int, w: string)
    requires SameOutside(b, b', lo, hi) && StringAt(b, q, w) && hi < q
    ensures StringAt(b', q, w)
  {
  }

  /** Cutting the second segment leaves the first argument vector alone. */
  lemma ListsSurvives(b: seq<char>, b': seq<char>, lo: int, hi: int, args: seq<Option<nat>>,
                      segment: string, e: int)
    requires |args| > 0 && Lists(b, args, segment) && SameOutside(b, b', lo, hi) && e < lo
    requires Filled(b, args, Least(|args| - 1, |Tokens(segment, ' ')|), Tokens(segment, ' '), e + 1, e)
    ensures Lists(b', args, segment)
  {
  }

  lemma ListsMeans(b: seq<char>, args: seq<Option<nat>>, segment: string)
    requires |args| > 0 && Lists(b, args, segment)
    ensures var ts := Tokens(segment, ' ');
            && (forall j :: 0 <= j < |ts| && j < |args| - 1 ==> args[j].Some? && StringAt(b, args[j].value, ts[j]))
            && args[if |ts| < |args| - 1 then |ts| else |args| - 1] == None
  {
  }

  /** The closing NULL turns the slots filled so far into the finished vector. */
  lemma CloseVector(b: seq<char>, args: seq<Option<nat>>, i: nat, segment: string, save: int, e: int)
    requires i < |args| && i == Least(|args| - 1, |Tokens(segment, ' ')|)
    requires Filled(b, args, i, Tokens(segment, ' '), save, e)
    ensures Lists(b, args[i := None], segment)
    ensures Filled(b, args[i := None], i, Tokens(segment, ' '), e + 1, e)
  {
  }

  class Shell {
    const line: array<char>
    /** The position `strtok` keeps between calls. */
    var save: nat

    constructor (size: nat)
      ensures fresh(line) && line.Length == size
    {
      line := new char[size](_ => NUL);
      save := 0;
    }

    /** The leading delimiters (`strspn`). */
    method SkipDelimiters(start: nat, d: char, ghost e: nat) returns (p: nat)
      requires d != NUL && Text(line[..], start, e)
      ensures start <= p <= e && line[p] != d
      ensures var b := line[..]; Tokens(b[p..e], d) == Tokens(b[start..e], d)
    {
      p := start;
      ghost var b := line[..];
      while line[p] == d
        invariant start <= p <= e
        invariant Tokens(b[p..e], d) == Tokens(b[start..e], d)
        decreases e - p
      {
        assert b[p..e][1..] == b[p + 1..e];
        p := p + 1;
      }
    }

    /** The end of the token that starts here (`strcspn`). */
    method FindEnd(start: nat, d: char, ghost e: nat) returns (p: nat)
      requires Text(line[..], start, e)
      ensures start <= p <= e && (line[p] == d || line[p] == NUL) && (p < e ==> line[p] == d)
      ensures forall k :: start <= k < p ==> line[k] != d
    {
      p := start;
      while line[p] != d && line[p] != NUL
        invariant start <= p <= e
        invariant forall k :: start <= k < p ==> line[k] != d
        decreases e - p
      {
        p := p + 1;
      }
    }

    /** `strtok` with a one-character delimiter set; the ghost `e` is where the text ends. */
    method StrTok(start: Option<nat>, d: char, ghost e: nat) returns (token: Option<nat>)
      requires d != NUL
      requires Text(line[..], if start.Some? then start.value else save, e)
      modifies this, line
      ensures Cut(old(line[..]), line[..], if start.Some? then start.value else old(save), e, d, token, save)
    {
      ghost var b := line[..];
      var from := if start.Some? then start.value else save;
      var q := SkipDelimiters(from, d, e);
      if line[q] == NUL {
        NothingLeft(b, from, e, d);
        save := q;
        assert line[..] == b;
        return None;
      }
      var p := FindEnd(q, d, e);
      CutMade(b, from, q, p, e, d);
      if line[p] == NUL {
        save := p;
      } else {
        line[p] := NUL;
        save := p + 1;
      }
      assert line[..] == b[p := NUL];
      token := Some(q);
    }

    /** `args[i] = strtok(...)`, where the first i slots are filled. */
    method StoreNext(start: Option<nat>, args: array<Option<nat>>, i: nat, ghost e: nat, ghost ts: seq<string>)
      requires i < args.Length
      requires Progress(line[..], args[..], i, ts, if start.Some? then start.value else save, e)
      modifies this, line, args
      ensures SameOutside(old(line[..]), line[..], if start.Some? then start.value else old(save), e)
      ensures (if start.Some? then start.value else old(save)) <= save <= e
      ensures args[i].Some? ==> Progress(line[..], args[..], i + 1, ts, save, e)
      ensures args[i].None? ==> i == |ts| && Progress(line[..], args[..], i, ts, save, e)
    {
      ghost var b, slots, p := line[..], args[..], if start.Some? then start.value else save;
      args[i] := StrTok(start, ' ', e);
      assert args[..] == slots[i := args[i]];
      NextSlot(b, line[..], p, e, args[i], save, slots, i, ts);
    }

    /** The loop of an argv vector: i slots are filled, and slot i holds one token too many or none. */
    method FillSlots(cmd: nat, args: array<Option<nat>>, ghost segment: string) returns (i: nat)
      requires args.Length > 0
      requires StringAt(line[..], cmd, segment)
      modifies this, line, args
      ensures i < args.Length && i == Least(args.Length - 1, |Tokens(segment, ' ')|)
      ensures Filled(line[..], args[..], i, Tokens(segment, ' '), save, cmd + |segment|)
      ensures SameOutside(old(line[..]), line[..], cmd, cmd + |segment|)
    {
      ghost var was, ts, e := line[..], Tokens(segment, ' '), cmd + |segment|;
      StringIsText(was, cmd, segment);
      assert ts[0..] == ts;
      i := 0;
      StoreNext(Some(cmd), args, 0, e, ts);
      while args[i] != None && i < args.Length - 1
        invariant 0 <= i < args.Length
        invariant cmd <= save <= e && SameOutside(was, line[..], cmd, e)
        invariant args[i].Some? ==> Progress(line[..], args[..], i + 1, ts, save, e)
        invariant args[i].None? ==> i == |ts| && Progress(line[..], args[..], i, ts, save, e)
        decreases args.Length - i
      {
        i := i + 1;
        StoreNext(None, args, i, e, ts);
      }
    }

    /** One argv loop and its closing NULL: the words of the command at `cmd`, at most one fewer than
        there are slots. The ghost `segment` is the text of the command. */
    method FillArgs(cmd: nat, args: array<Option<nat>>, ghost segment: string)
      requires args.Length > 0
      requires StringAt(line[..], cmd, segment)
      modifies this, line, args
      ensures Lists(line[..], args[..], segment)
      ensures var ts := Tokens(segment, ' ');
              && (forall j :: 0 <= j < |ts| && j < args.Length - 1 ==>
                    args[j].Some? && StringAt(line[..], args[j].value, ts[j]))
              && args[if |ts| < args.Length - 1 then |ts| else args.Length - 1] == None
      ensures Filled(line[..], args[..], Least(args.Length - 1, |Tokens(segment, ' ')|), Tokens(segment, ' '),
                     cmd + |segment| + 1, cmd + |segment|)
      ensures SameOutside(old(line[..]), line[..], cmd, cmd + |segment|)
    {
      var i := FillSlots(cmd, args, segment);
      ghost var slots := args[..];
      args[i] := None;
      assert args[..] == slots[i := None];
      CloseVector(line[..], slots, i, segment, save, cmd + |segment|);
      ListsMeans(line[..], args[..], segment);
    }

    /** Both argv loops, for two segments lying one behind the other in the buffer. */
    method FillBoth(cmd1: nat, cmd2: nat, args1: array<Option<nat>>, args2: array<Option<nat>>,
                    ghost segment1: string, ghost segment2: string)
      requires args1.Length > 0 && args2.Length > 0 && args1 != args2
      requires StringAt(line[..], cmd1, segment1) && StringAt(line[..], cmd2, segment2)
      requires cmd1 + |segment1| < cmd2
      modifies this, line, args1, args2
      ensures Lists(line[..], args1[..], segment1) && Lists(line[..], args2[..], segment2)
    {
      ghost var b := line[..];
      FillArgs(cmd1, args1, segment1);
      ghost var b', vector1 := line[..], args1[..];
      SegmentIntact(b, b', cmd1, cmd1 + |segment1|, cmd2, segment2);
      FillArgs(cmd2, args2, segment2);
      ListsSurvives(b', line[..], cmd2, cmd2 + |segment2|, vector1, segment1, cmd1 + |segment1|);
    }

    /** The newline goes, and two calls of `strtok` cut the line at the bars. */
    method CutAtBars(length: nat) returns (cmd1: Option<nat>, cmd2: Option<nat>)
      requires 0 < length && Text(line[..], 0, length)
      modifies this, line
      ensures var segments := Tokens(old(line[..length - 1]), '|');
              && (cmd2.Some? <==> |segments| >= 2)
              && (cmd2.Some? ==>
                    && cmd1.Some?
                    && StringAt(line[..], cmd1.value, segments[0]) && StringAt(line[..], cmd2.value, segments[1])
                    && cmd1.value + |segments[0]| < cmd2.value)
    {
      ghost var end, typed := length - 1, line[..length - 1];
      line[length - 1] := NUL;
      ghost var b0 := line[..];
      assert b0[0..end] == typed;
      cmd1 := StrTok(Some(0), '|', end);
      ghost var b1, save1 := line[..], save;
      CutFacts(b0, b1, 0, end, '|', cmd1, save1);
      cmd2 := StrTok(None, '|', end);
      if cmd2 != None {
        TwoSegments(b0, b1, line[..], end, cmd1, save1, cmd2, save);
      }
    }

    /** From the typed line to the two argument vectors; `length` is what `strlen` finds before the
        last character, the newline, is cut off. */
    method SplitPipeline(length: nat, args1: array<Option<nat>>, args2: array<Option<nat>>)
      returns (two: bool)
      requires 0 < length && Text(line[..], 0, length)
      requires args1.Length > 0 && args2.Length > 0 && args1 != args2
      modifies this, line, args1, args2
      ensures var segments := Tokens(old(line[..length - 1]), '|');
              && (two <==> |segments| >= 2)
              && (two ==> Lists(line[..], args1[..], segments[0]) && Lists(line[..], args2[..], segments[1]))
      ensures two ==>
                var segments := Tokens(old(line[..length - 1]), '|');
                var ts1, ts2 := Tokens(segments[0], ' '), Tokens(segments[1], ' ');
                && (forall j :: 0 <= j < |ts1| && j < args1.Length - 1 ==>
                      args1[j].Some? && StringAt(line[..], args1[j].value, ts1[j]))
                && (forall j :: 0 <= j < |ts2| && j < args2.Length - 1 ==>
                      args2[j].Some? && StringAt(line[..], args2[j].value, ts2[j]))
                && args1[if |ts1| < args1.Length - 1 then |ts1| else args1.Length - 1] == None
                && args2[if |ts2| < args2.Length - 1 then |ts2| else args2.Length - 1] == None
    {
      ghost var segments := Tokens(line[..length - 1], '|');
      var cmd1, cmd2 := CutAtBars(length);
      two := cmd2 != None;
      if two {
        FillBoth(cmd1.value, cmd2.value, args1, args2, segments[0], segments[1]);
        ListsMeans(line[..], args1[..], segments[0]);
        ListsMeans(line[..], args2[..], segments[1]);
      }
    }
  }
}
