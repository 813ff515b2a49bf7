/**
 Zero-terminated text, one two's-complement byte a character.
 */
module Text {
  import opened Bits
  import opened ZigZag
  import opened Wire

  /** A reader of text stops here. */
  predicate Stops(ch: int, line: bool) {
    ch == 0 || (line && ch == 10)
  }

  function CharCode(ch: int): seq<bool>
    requires Fits(ch, 8)
  {
    Low(ToUnsigned(ch, 8), 8)
  }

  /** What WriteString appends. */
  function Code(chars: seq<int>): (code: seq<bool>)
    requires forall i | 0 <= i < |chars| :: Fits(chars[i], 8)
    ensures |code| == 8 * (|chars| + 1)
  {
    if chars == [] then CharCode(0) else CharCode(chars[0]) + Code(chars[1..])
  }

  /** Behind one more character the code of the rest is left; behind the terminator nothing is. */
  lemma NextCharacter(chars: seq<int>, i: nat, done: seq<bool>)
    requires i <= |chars| && (forall k | 0 <= k < |chars| :: Fits(chars[k], 8))
    requires Code(chars) == done + Code(chars[i..])
    ensures Code(chars) == if i == |chars| then done + CharCode(0)
      else done + CharCode(chars[i]) + Code(chars[i + 1..])
  {
    hide CharCode, Fits, Code;
    var rest := chars[i..];
    assert |rest| == |chars| - i && forall k | 0 <= k < |rest| :: rest[k] == chars[i + k];
    FirstCharacter(rest);
    if i < |chars| {
      assert rest[1..] == chars[i + 1..];
      var first, others := CharCode(chars[i]), Code(rest[1..]);
      assert done + (first + others) == done + first + others;
    }
  }

  lemma FirstCharacter(chars: seq<int>)
    requires forall k | 0 <= k < |chars| :: Fits(chars[k], 8)
    ensures Code(chars) == if chars == [] then CharCode(0) else CharCode(chars[0]) + Code(chars[1..])
  {
    hide CharCode, Fits;
  }

  /** The characters before the terminator. Zeros past the end make the text end there. */
  function Read(c: Cursor, line: bool): (chars: seq<int>)
    requires c.Valid()
    decreases |c.stream| - c.pos
  {
    var ch := SignedTaken(c, 8);
    if Stops(ch, line) || !c.Has(8) then [] else [ch] + Read(c.Advance(8), line)
  }

  function ReadEnd(c: Cursor, line: bool): (c': Cursor)
    requires c.Valid()
    ensures c'.Valid() && c'.stream == c.stream
    decreases |c.stream| - c.pos
  {
    if Stops(SignedTaken(c, 8), line) || !c.Has(8) then c.Advance(8) else ReadEnd(c.Advance(8), line)
  }

  /** The reader has taken the characters read and is at now. */
  ghost predicate SoFar(start: Cursor, now: Cursor, read: seq<int>, line: bool) {
    && start.Valid() && now.Valid()
    && Read(start, line) == read + Read(now, line)
    && ReadEnd(start, line) == ReadEnd(now, line)
  }

  lemma NothingRead(start: Cursor, line: bool)
    requires start.Valid()
    ensures SoFar(start, start, [], line)
  {
  }

  lemma CharRead(start: Cursor, now: Cursor, read: seq<int>, line: bool)
    requires SoFar(start, now, read, line)
    ensures var ch := SignedTaken(now, 8);
      if Stops(ch, line) then Read(start, line) == read && ReadEnd(start, line) == now.Advance(8)
      else SoFar(start, now.Advance(8), read + [ch], line)
  {
    hide Value, Low, Pow2;
    assert Pow2(7) >= 1;
    var ch := SignedTaken(now, 8);
    if !Stops(ch, line) {
      assert now.Has(8);
      assert read + ([ch] + Read(now.Advance(8), line)) == read + [ch] + Read(now.Advance(8), line);
    } else {
      assert read + [] == read;
    }
  }

  lemma {:induction false} RoundTrip(c: Cursor, chars: seq<int>, line: bool)
    requires forall i | 0 <= i < |chars| :: Fits(chars[i], 8) && chars[i] != 0 && !(line && chars[i] == 10)
    requires c.At(Code(chars))
    ensures Read(c, line) == chars && ReadEnd(c, line) == c.Advance(|Code(chars)|)
    decreases chars
  {
    hide Low, Value, Pow2, ToUnsigned;
    if chars == [] {
      CharTaken(c, 0);
    } else {
      AtSplit(c, CharCode(chars[0]), Code(chars[1..]));
      CharTaken(c, chars[0]);
      RoundTrip(c.Advance(8), chars[1..], line);
    }
  }

  /** The characters without a terminator. */
  function Body(chars: seq<int>): (code: seq<bool>)
    requires forall i | 0 <= i < |chars| :: Fits(chars[i], 8)
    ensures |code| == 8 * |chars|
  {
    if chars == [] then [] else CharCode(chars[0]) + Body(chars[1..])
  }

  /** A line ends at its line feed, and the reader stops behind that. */
  lemma {:induction false} LineRoundTrip(c: Cursor, chars: seq<int>)
    requires forall i | 0 <= i < |chars| :: Fits(chars[i], 8) && chars[i] != 0 && chars[i] != 10
    requires Fits(10, 8) && c.At(Body(chars) + CharCode(10))
    ensures Read(c, true) == chars && ReadEnd(c, true) == c.Advance(8 * |chars| + 8)
    decreases chars
  {
    hide Low, Value, Pow2, ToUnsigned;
    if chars == [] {
      assert [] + CharCode(10) == CharCode(10);
      CharTaken(c, 10);
    } else {
      assert CharCode(chars[0]) + Body(chars[1..]) + CharCode(10)
        == CharCode(chars[0]) + (Body(chars[1..]) + CharCode(10));
      AtSplit(c, CharCode(chars[0]), Body(chars[1..]) + CharCode(10));
      CharTaken(c, chars[0]);
      LineRoundTrip(c.Advance(8), chars[1..]);
    }
  }

  /** Text never holds more characters than the stream has bytes left. */
  lemma {:induction false} Length(c: Cursor, line: bool)
    requires c.Valid()
    ensures c.pos + 8 * |Read(c, line)| <= |c.stream|
    decreases |c.stream| - c.pos
  {
    hide Value, Pow2;
    if !Stops(SignedTaken(c, 8), line) && c.Has(8) {
      Length(c.Advance(8), line);
    }
  }

  lemma CharTaken(c: Cursor, ch: int)
    requires Fits(ch, 8) && c.At(CharCode(ch))
    ensures SignedTaken(c, 8) == ch
  {
    TakenLow(c, ToUnsigned(ch, 8), 8);
  }
}
