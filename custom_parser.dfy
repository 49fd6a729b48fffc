/** The word scanner of custom_parser.c: a cursor over an immutable byte
    buffer that skips runs of delimiters (space and backslash) and reports the
    next word as a (token, length) span. */
module CustomParser {
  import opened Basics

  /** Byte length of the character whose first byte is given (the role of
      pg_mblen for the database encoding). */
  type CharLen = Byte -> Pos

  /** The only delimiters: space and backslash. A forward slash is a word byte. */
  predicate IsDelimiter(b: Byte) {
    b == ' ' || b == '\\'
  }

  /** The character starts met when stepping character by character from i
      while the position is below j. */
  function CharStarts(mem: seq<Byte>, mblen: CharLen, i: nat, j: nat): (r: seq<nat>)
    requires j <= |mem|
    decreases j - i
    ensures forall k :: k in r ==> i <= k < j
  {
    if i < j then [i] + CharStarts(mem, mblen, i + mblen(mem[i]), j) else []
  }

  /** Stepping character by character from i lands exactly on end: no
      character straddles end. */
  ghost predicate Aligned(mem: seq<Byte>, mblen: CharLen, i: nat, end: nat)
    requires end <= |mem|
    decreases end - i
  {
    i <= end && (i < end ==> Aligned(mem, mblen, i + mblen(mem[i]), end))
  }

  /** Every character starting in [i, j) begins with a delimiter. */
  predicate AllDelimiters(mem: seq<Byte>, mblen: CharLen, i: nat, j: nat)
    requires j <= |mem|
  {
    forall k :: k in CharStarts(mem, mblen, i, j) ==> IsDelimiter(mem[k])
  }

  /** No character starting in [i, j) begins with a delimiter. */
  predicate NoDelimiters(mem: seq<Byte>, mblen: CharLen, i: nat, j: nat)
    requires j <= |mem|
  {
    forall k :: k in CharStarts(mem, mblen, i, j) ==> !IsDelimiter(mem[k])
  }

  /** Where the cursor stops after consuming word characters from i: at end or
      at the first delimiter. */
  function WordEnd(mem: seq<Byte>, mblen: CharLen, i: nat, end: nat): (r: nat)
    requires end <= |mem| && Aligned(mem, mblen, i, end)
    decreases end - i
    ensures i <= r <= end && Aligned(mem, mblen, r, end)
    ensures r < end ==> IsDelimiter(mem[r])
  {
    if i < end && !IsDelimiter(mem[i]) then
      WordEnd(mem, mblen, i + mblen(mem[i]), end)
    else
      i
  }

  /** Nothing the word loop passes over is a delimiter. */
  lemma {:induction false} WordHasNoDelimiters(mem: seq<Byte>, mblen: CharLen, i: nat, end: nat)
    requires end <= |mem| && Aligned(mem, mblen, i, end)
    ensures NoDelimiters(mem, mblen, i, WordEnd(mem, mblen, i, end))
    decreases end - i
  {
    if i < end && !IsDelimiter(mem[i]) {
      var next := i + mblen(mem[i]);
      WordHasNoDelimiters(mem, mblen, next, end);
      var r := WordEnd(mem, mblen, next, end);
      assert CharStarts(mem, mblen, i, r) == [i] + CharStarts(mem, mblen, next, r);
    }
  }

  /** A token as written to the out-parameters: its first byte and its length. */
  datatype Span = Span(token: nat, length: nat)

  /** The effect of one call of the scanner: the new cursor, the token type
      returned, and the span written to the out-parameters, if any. */
  datatype Step = Step(position: nat, kind: int, written: Option<Span>)

  /** One call of the scanner from cursor `position`: a delimiter under the
      cursor is stepped over and scanning goes on from the next character;
      otherwise the word that starts here is consumed. */
  function Next(mem: seq<Byte>, mblen: CharLen, position: nat, end: nat): (s: Step)
    requires end <= |mem| && Aligned(mem, mblen, position, end)
    decreases end - position
    ensures position <= s.position <= end && Aligned(mem, mblen, s.position, end)
    ensures s.kind == 0 || s.kind == 1
    ensures s.kind == 1 <==> s.written.Some? && s.written.value.length >= 2
    ensures s.written.None? ==> s.position == end
    ensures s.written.Some? ==>
              var t := s.written.value;
              position <= t.token < end && 1 <= t.length && t.token + t.length == s.position &&
              !IsDelimiter(mem[t.token]) && (s.position < end ==> IsDelimiter(mem[s.position]))
  {
    if position < end && IsDelimiter(mem[position]) then
      Next(mem, mblen, position + mblen(mem[position]), end)
    else if position < end then
      var q := WordEnd(mem, mblen, position + mblen(mem[position]), end);
      Step(q, if q - position < 2 then 0 else 1, Some(Span(position, q - position)))
    else
      Step(position, 0, None)
  }

  /** What one call passes over: a run of delimiters, then one word that holds
      no delimiter; with no word left, only delimiters remained. */
  lemma {:induction false} NextSkipsDelimitersThenWord(mem: seq<Byte>, mblen: CharLen, position: nat, end: nat)
    requires end <= |mem| && Aligned(mem, mblen, position, end)
    ensures var s := Next(mem, mblen, position, end);
            (s.written.None? ==> AllDelimiters(mem, mblen, position, end)) &&
            (s.written.Some? ==>
               AllDelimiters(mem, mblen, position, s.written.value.token) &&
               NoDelimiters(mem, mblen, s.written.value.token, s.position))
    decreases end - position
  {
    if position < end {
      var next := position + mblen(mem[position]);
      if IsDelimiter(mem[position]) {
        NextSkipsDelimitersThenWord(mem, mblen, next, end);
        var s := Next(mem, mblen, next, end);
        var stop := if s.written.Some? then s.written.value.token else end;
        assert CharStarts(mem, mblen, position, stop) == [position] + CharStarts(mem, mblen, next, stop);
      } else {
        WordHasNoDelimiters(mem, mblen, next, end);
        var q := WordEnd(mem, mblen, next, end);
        assert CharStarts(mem, mblen, position, q) == [position] + CharStarts(mem, mblen, next, q);
      }
    }
  }

  /** The word a call returns starts on a character start of the input it
      was given. */
  lemma {:induction false} NextWordOnCharStart(mem: seq<Byte>, mblen: CharLen, position: nat, end: nat)
    requires end <= |mem| && Aligned(mem, mblen, position, end)
    requires Next(mem, mblen, position, end).written.Some?
    ensures Next(mem, mblen, position, end).written.value.token in CharStarts(mem, mblen, position, end)
    decreases end - position
  {
    if IsDelimiter(mem[position]) {
      NextWordOnCharStart(mem, mblen, position + mblen(mem[position]), end);
    }
  }

  /** The scanner reports "no data left" exactly when every remaining
      character is a delimiter. */
  lemma NextExhaustedIff(mem: seq<Byte>, mblen: CharLen, position: nat, end: nat)
    requires end <= |mem| && Aligned(mem, mblen, position, end)
    ensures Next(mem, mblen, position, end).written.None? <==> AllDelimiters(mem, mblen, position, end)
  {
    NextSkipsDelimitersThenWord(mem, mblen, position, end);
    if Next(mem, mblen, position, end).written.Some? {
      NextWordOnCharStart(mem, mblen, position, end);
    }
  }

  /** At the end of the buffer another call returns 0 and changes nothing. */
  lemma NextAtEnd(mem: seq<Byte>, mblen: CharLen, end: nat)
    requires end <= |mem|
    ensures Aligned(mem, mblen, end, end)
    ensures Next(mem, mblen, end, end) == Step(end, 0, None)
  {
  }

  /** The words the host receives: it calls the scanner until type 0 comes back. */
  function Tokens(mem: seq<Byte>, mblen: CharLen, position: nat, end: nat): (ts: seq<Span>)
    requires end <= |mem| && Aligned(mem, mblen, position, end)
    decreases end - position
  {
    var s := Next(mem, mblen, position, end);
    if s.kind == 0 then
      []
    else
      [s.written.value] + Tokens(mem, mblen, s.position, end)
  }

  /** A non-empty stream starts with the word of the first call and goes on
      from where that call left the cursor. */
  lemma TokensUnfold(mem: seq<Byte>, mblen: CharLen, position: nat, end: nat)
    requires end <= |mem| && Aligned(mem, mblen, position, end)
    requires Tokens(mem, mblen, position, end) != []
    ensures var s := Next(mem, mblen, position, end);
            s.kind == 1 &&
            Tokens(mem, mblen, position, end) == [s.written.value] + Tokens(mem, mblen, s.position, end)
  {
  }

  /** A call made with the cursor on a delimiter (as every call that returned
      a word leaves it) passes over at least one delimiter, and only
      delimiters, before the word it returns. */
  lemma GapBeforeWord(mem: seq<Byte>, mblen: CharLen, position: nat, end: nat)
    requires end <= |mem| && Aligned(mem, mblen, position, end)
    requires position < end ==> IsDelimiter(mem[position])
    requires Next(mem, mblen, position, end).written.Some?
    ensures var t := Next(mem, mblen, position, end).written.value;
            position < t.token < end && AllDelimiters(mem, mblen, position, t.token)
  {
    NextSkipsDelimitersThenWord(mem, mblen, position, end);
  }

  /** The first two words of a stream are the words of the first two calls. */
  lemma TokensFirstTwo(mem: seq<Byte>, mblen: CharLen, position: nat, end: nat, ts: seq<Span>)
    requires end <= |mem| && Aligned(mem, mblen, position, end)
    requires ts == Tokens(mem, mblen, position, end) && 1 < |ts|
    ensures var s := Next(mem, mblen, position, end);
            s.written.Some? && ts[0] == s.written.value
    ensures var s2 := Next(mem, mblen, Next(mem, mblen, position, end).position, end);
            s2.written.Some? && ts[1] == s2.written.value
  {
    var s := Next(mem, mblen, position, end);
    TokensUnfold(mem, mblen, position, end);
    TokensUnfold(mem, mblen, s.position, end);
  }

  /** The gap between the first two words is a non-empty run of delimiters. */
  lemma FirstGapIsDelimiters(mem: seq<Byte>, mblen: CharLen, position: nat, end: nat, ts: seq<Span>)
    requires end <= |mem| && Aligned(mem, mblen, position, end)
    requires ts == Tokens(mem, mblen, position, end) && 1 < |ts|
    ensures ts[0].token + ts[0].length < ts[1].token < end
    ensures AllDelimiters(mem, mblen, ts[0].token + ts[0].length, ts[1].token)
  {
    TokensFirstTwo(mem, mblen, position, end, ts);
    GapBeforeWord(mem, mblen, Next(mem, mblen, position, end).position, end);
  }

  /** Every character between two words the host receives is a delimiter:
      the words and the skipped runs together cover the scanned prefix. */
  lemma {:induction false} TokensGapsAreDelimiters(mem: seq<Byte>, mblen: CharLen, position: nat, end: nat, n: nat)
    requires end <= |mem| && Aligned(mem, mblen, position, end)
    requires n + 1 < |Tokens(mem, mblen, position, end)|
    ensures var ts := Tokens(mem, mblen, position, end);
            ts[n].token + ts[n].length < ts[n + 1].token < end &&
            AllDelimiters(mem, mblen, ts[n].token + ts[n].length, ts[n + 1].token)
    decreases end - position
  {
    if n == 0 {
      FirstGapIsDelimiters(mem, mblen, position, end, Tokens(mem, mblen, position, end));
    } else {
      TokensUnfold(mem, mblen, position, end);
      var s := Next(mem, mblen, position, end);
      TokensGapsAreDelimiters(mem, mblen, s.position, end, n - 1);
    }
  }

  /** Every word the host receives is a run of non-delimiter characters. */
  lemma {:induction false} TokensAreWords(mem: seq<Byte>, mblen: CharLen, position: nat, end: nat, n: nat)
    requires end <= |mem| && Aligned(mem, mblen, position, end)
    requires n < |Tokens(mem, mblen, position, end)|
    ensures var t := Tokens(mem, mblen, position, end)[n];
            position <= t.token < end && 2 <= t.length && t.token + t.length <= end &&
            !IsDelimiter(mem[t.token]) &&
            NoDelimiters(mem, mblen, t.token, t.token + t.length)
    decreases end - position
  {
    TokensUnfold(mem, mblen, position, end);
    var s := Next(mem, mblen, position, end);
    if n == 0 {
      NextSkipsDelimitersThenWord(mem, mblen, position, end);
    } else {
      TokensAreWords(mem, mblen, s.position, end, n - 1);
    }
  }

  /** A word that was consumed but reported as type 0 (it is shorter than two
      bytes) ends the stream, whatever follows it. */
  lemma ShortWordEndsStream(mem: seq<Byte>, mblen: CharLen, position: nat, end: nat)
    requires end <= |mem| && Aligned(mem, mblen, position, end)
    requires Next(mem, mblen, position, end).written.Some?
    requires Next(mem, mblen, position, end).kind == 0
    ensures Tokens(mem, mblen, position, end) == []
  {
  }

  /** The state of one scanning session (InternalParserState). The buffer,
      its start and its end never change; only the cursor moves. */
  class ParserState {
    const mem: seq<Byte>
    const mblen: CharLen
    const start: nat
    const end: nat
    var position: nat

    ghost predicate Valid()
      reads this
    {
      start <= position <= end <= |mem| && Aligned(mem, mblen, position, end)
    }

    /** cfts_parser_start: a session over the `length` bytes from `start`. */
    constructor (mem: seq<Byte>, mblen: CharLen, start: nat, length: nat)
      requires start + length <= |mem| && Aligned(mem, mblen, start, start + length)
      ensures Valid()
      ensures this.mem == mem && this.mblen == mblen && this.start == start
      ensures end == start + length && position == start
    {
      this.mem := mem;
      this.mblen := mblen;
      this.start := start;
      this.end := start + length;
      this.position := start;
    }

    /** cfts_parser_nexttoken: skip delimiters, then consume one word. Returns
        the token type (1 for a word of at least two bytes, else 0) and the
        span written to the out-parameters, if one was. */
    method NextToken() returns (kind: int, token: Option<Span>)
      requires Valid()
      modifies this`position
      ensures Valid() && old(position) <= position
      ensures Step(position, kind, token) == Next(mem, mblen, old(position), end)
    {
      var pos := position;
      while pos < end && IsDelimiter(mem[pos])
        invariant position <= pos <= end
        invariant Aligned(mem, mblen, pos, end)
        invariant Next(mem, mblen, pos, end) == Next(mem, mblen, position, end)
        decreases end - pos
      {
        pos := pos + mblen(mem[pos]);
      }
      kind, token := 0, None;
      if pos < end {
        var pLen := mblen(mem[pos]);
        kind := 1;
        var t := pos;
        pos := pos + pLen;
        while pos < end && !IsDelimiter(mem[pos])
          invariant t < pos <= end
          invariant Aligned(mem, mblen, pos, end)
          invariant WordEnd(mem, mblen, pos, end) == WordEnd(mem, mblen, t + pLen, end)
          decreases end - pos
        {
          pos := pos + mblen(mem[pos]);
        }
        var tokenLength := pos - t;
        token := Some(Span(t, tokenLength));
        if tokenLength < 2 {
          kind := 0;
        }
      }
      position := pos;
    }
  }

  /** A single-byte encoding: every character is one byte long. */
  function SingleByte(b: Byte): Pos { 1 }

  /** In a single-byte encoding every buffer is aligned. */
  lemma {:induction false} SingleByteAligned(mem: seq<Byte>, i: nat, end: nat)
    requires i <= end <= |mem|
    ensures Aligned(mem, SingleByte, i, end)
    decreases end - i
  {
    if i < end {
      SingleByteAligned(mem, i + 1, end);
    }
  }

  /** A sample line whose first word begins with a slash. */
  const SlashSample: seq<Byte> := "/word1 word2"

  lemma SlashSampleAligned(i: nat)
    requires i <= 12
    ensures Aligned(SlashSample, SingleByte, i, 12)
  {
    SingleByteAligned(SlashSample, i, 12);
  }

  lemma SlashSampleFirstWord()
    ensures Aligned(SlashSample, SingleByte, 0, 12)
    ensures Next(SlashSample, SingleByte, 0, 12) == Step(6, 1, Some(Span(0, 6)))
  {
    SlashSampleAligned(0);
    SlashSampleAligned(1);
    SlashSampleAligned(3);
    SlashSampleAligned(5);
    assert WordEnd(SlashSample, SingleByte, 5, 12) == 6;
    assert WordEnd(SlashSample, SingleByte, 3, 12) == 6;
  }

  lemma SlashSampleSecondWord()
    ensures Aligned(SlashSample, SingleByte, 6, 12)
    ensures Next(SlashSample, SingleByte, 6, 12) == Step(12, 1, Some(Span(7, 5)))
  {
    SlashSampleAligned(6);
    SlashSampleAligned(8);
    SlashSampleAligned(10);
    assert WordEnd(SlashSample, SingleByte, 10, 12) == 12;
  }

  /** A leading slash stays part of the first word: the words are "/word1"
      and "word2". */
  lemma SlashIsAWordByte()
    ensures Aligned(SlashSample, SingleByte, 0, 12)
    ensures Tokens(SlashSample, SingleByte, 0, 12) == [Span(0, 6), Span(7, 5)]
  {
    SlashSampleFirstWord();
    SlashSampleSecondWord();
    NextAtEnd(SlashSample, SingleByte, 12);
  }

  /** The one-byte word "a" stops the stream: "cd" is never produced. */
  lemma ShortWordStopsScanning()
    ensures Aligned("ab a cd", SingleByte, 0, 7)
    ensures Tokens("ab a cd", SingleByte, 0, 7) == [Span(0, 2)]
  {
    SingleByteAligned("ab a cd", 0, 7);
  }
}
