/**
 The profile name on the command line: `-profile=name` or `-profile="name"`.
 */
module Profile {

  datatype Position = At(index: nat) | Nowhere

  /** t stands in s at index i. */
  predicate Occurs(t: string, s: string, i: int) {
    0 <= i <= i + |t| <= |s| && s[i..i + |t|] == t
  }

  /** strstr and std::string::find: the first occurrence from index i on. */
  function Find(s: string, t: string, i: nat): (p: Position)
    requires i <= |s|
    ensures p.At? ==> i <= p.index && Occurs(t, s, p.index) && forall j | i <= j < p.index :: !Occurs(t, s, j)
    ensures p.Nowhere? ==> forall j | i <= j :: !Occurs(t, s, j)
    decreases |s| - i
  {
    if Occurs(t, s, i) then At(i)
    else if i == |s| then Nowhere
    else Find(s, t, i + 1)
  }

  /** std::string::substr, which cuts a length that reaches past the end. */
  function Substr(s: string, pos: nat, length: Position): string
    requires pos <= |s|
  {
    if length.At? && pos + length.index <= |s| then s[pos..pos + length.index] else s[pos..]
  }

  const NEEDLE := "-profile="
  const DEFAULT := "R2Northstar"

  /** `cla.find(" ") - 9`, where npos - 9 is still past every end. */
  function Minus9(p: Position): Position {
    if p.At? && p.index >= 9 then At(p.index - 9) else Nowhere
  }

  function ProfileOf(commandLine: string): string {
    match Find(commandLine, NEEDLE, 0)
    case Nowhere => DEFAULT
    case At(p) =>
      var cla := commandLine[p..];
      if Substr(cla, 9, At(1)) != "\"" then
        Substr(cla, 9, Minus9(Find(cla, " ", 0)))
      else
        assert Occurs("\"", cla, 9);
        var quote1 := Find(cla, "\"", 0).index;
        var quote2 := Find(Substr(cla, quote1 + 1, Nowhere), "\"", 0);
        Substr(cla, quote1 + 1, quote2)
  }

  // ----- the first match

  /** No proper prefix of t is also a suffix of t. */
  ghost predicate Unbordered(t: string) {
    forall k | 1 <= k < |t| :: t[..k] != t[|t| - k..]
  }

  /** A needle without a border is first found where it was put, behind any text that lacks it. */
  lemma FoundWherePut(before: string, t: string, after: string)
    requires Unbordered(t) && t != "" && forall i :: !Occurs(t, before, i)
    ensures Find(before + t + after, t, 0) == At(|before|)
  {
    var s := before + t + after;
    assert Occurs(t, s, |before|);
    forall j | 0 <= j < |before| ensures !Occurs(t, s, j) {
      var end := j + |t|;
      if end <= |before| {
        assert s[j..end] == before[j..end];
        assert !Occurs(t, before, j);
      } else {
        var k := end - |before|;
        assert s[j..end][|t| - k..] == t[..k];
      }
    }
  }

  /** The needle has no border: its first character does not come again. */
  lemma NeedleIsUnbordered()
    ensures Unbordered(NEEDLE) && |NEEDLE| == 9 && NEEDLE[0] == '-'
  {
    forall k | 1 <= k < |NEEDLE| ensures NEEDLE[..k] != NEEDLE[|NEEDLE| - k..] {
      assert NEEDLE[..k][0] == '-' && NEEDLE[|NEEDLE| - k..][0] == NEEDLE[|NEEDLE| - k];
    }
  }

  predicate Free(s: string, ch: char) {
    forall i | 0 <= i < |s| :: s[i] != ch
  }

  /** A character is found behind text that lacks it. */
  lemma FindChar(before: string, ch: char, after: string)
    requires Free(before, ch)
    ensures after == "" ==> Find(before + after, [ch], 0) == Nowhere
    ensures after != "" && after[0] == ch ==> Find(before + after, [ch], 0) == At(|before|)
  {
    var s := before + after;
    forall j | 0 <= j < |before| ensures !Occurs([ch], s, j) {
      assert s[j..j + 1] == [before[j]];
    }
    if after != "" && after[0] == ch {
      assert s[|before|..|before| + 1] == [ch];
      assert Occurs([ch], s, |before|);
    }
  }

  /** An unquoted name without a space, up to a space or the end of the line. */
  lemma Unquoted(before: string, name: string, after: string)
    requires forall i :: !Occurs(NEEDLE, before, i)
    requires Free(name, ' ') && (name != "" ==> name[0] != '"')
    requires after == "" || after[0] == ' '
    ensures ProfileOf(before + NEEDLE + (name + after)) == name
  {
    hide Find;
    NeedleIsUnbordered();
    FoundWherePut(before, NEEDLE, name + after);
    var line := before + NEEDLE + (name + after);
    var cla := line[|before|..];
    assert cla == (NEEDLE + name) + after;
    assert name + after != "" ==> cla[9] == (name + after)[0];
    assert Free(NEEDLE, ' ');
    FindChar(NEEDLE + name, ' ', after);
    assert cla[9..9 + |name|] == name;
  }

  /** The quoted branch takes what stands between the quotes. */
  lemma QuotedBranch(before: string, rest: string)
    requires forall i :: !Occurs(NEEDLE, before, i)
    ensures ProfileOf(before + NEEDLE + ("\"" + rest)) == Substr(rest, 0, Find(rest, "\"", 0))
  {
    hide Find;
    NeedleIsUnbordered();
    FoundWherePut(before, NEEDLE, "\"" + rest);
    var line := before + NEEDLE + ("\"" + rest);
    var cla := line[|before|..];
    assert cla == NEEDLE + ("\"" + rest);
    assert cla[9..10] == "\"";
    assert Free(NEEDLE, '"');
    FindChar(NEEDLE, '"', "\"" + rest);
    assert cla[10..] == rest;
  }

  /** A quoted name without a quote, spaces and all. */
  lemma Quoted(before: string, name: string, after: string)
    requires forall i :: !Occurs(NEEDLE, before, i)
    requires Free(name, '"')
    ensures ProfileOf(before + NEEDLE + ("\"" + name + "\"" + after)) == name
  {
    hide ProfileOf, Find;
    var rest := name + ("\"" + after);
    assert "\"" + name + "\"" + after == "\"" + rest;
    QuotedBranch(before, rest);
    FindChar(name, '"', "\"" + after);
  }

  /** Without the option the default is used. */
  lemma DefaultWithoutOption(line: string)
    requires forall i :: !Occurs("-profile=", line, i)
    ensures ProfileOf(line) == "R2Northstar"
  {
    hide Find;
  }

  /** The text before the first occurrence of a character. */
  function UpTo(s: string, ch: char): string {
    if s == "" || s[0] == ch then "" else [s[0]] + UpTo(s[1..], ch)
  }

  lemma {:induction false} UpToEnd(s: string, ch: char, after: string)
    requires Free(s, ch) && (after == "" || after[0] == ch)
    ensures UpTo(s + after, ch) == s
  {
    if s == "" {
      assert s + after == after;
    } else {
      assert (s + after)[1..] == s[1..] + after;
      UpToEnd(s[1..], ch, after);
    }
  }

  /** What follows matters unless the end was there before it, or it begins with the end. */
  lemma {:induction false} UpToOfSum(s: string, more: string, ch: char)
    ensures UpTo(s + more, ch) == UpTo(s, ch) <==> more == "" || more[0] == ch || !Free(s, ch)
  {
    if s == "" {
      assert s + more == more;
    } else if s[0] != ch {
      assert (s + more)[1..] == s[1..] + more;
      UpToOfSum(s[1..], more, ch);
      assert UpTo(s + more, ch)[1..] == UpTo(s[1..] + more, ch) && UpTo(s, ch)[1..] == UpTo(s[1..], ch);
      assert Free(s, ch) <==> Free(s[1..], ch) by {
        assert forall i | 0 < i < |s| :: s[i] == s[1..][i - 1];
      }
    }
  }

  /** The profile, whatever stands behind the first option. */
  lemma ProfileIs(before: string, rest: string)
    requires forall i :: !Occurs(NEEDLE, before, i)
    ensures ProfileOf(before + NEEDLE + rest) ==
      if rest != "" && rest[0] == '"' then UpTo(rest[1..], '"') else UpTo(rest, ' ')
  {
    hide ProfileOf, Find;
    if rest != "" && rest[0] == '"' {
      assert rest == "\"" + rest[1..];
      var name, after := Cut(rest[1..], '"');
      QuotedBranch(before, rest[1..]);
    } else {
      var name, after := Cut(rest, ' ');
      Unquoted(before, name, after);
    }
  }

  lemma Cut(s: string, ch: char) returns (front: string, after: string)
    ensures s == front + after && Free(front, ch) && (after == "" || after[0] == ch) && UpTo(s, ch) == front
    ensures Substr(s, 0, Find(s, [ch], 0)) == front
  {
    hide Find;
    if Free(s, ch) {
      front, after := s, "";
    } else {
      var i := FirstOf(s, ch);
      front, after := s[..i], s[i..];
    }
    assert s == front + after;
    UpToEnd(front, ch, after);
    FindChar(front, ch, after);
  }

  /**
   A later -profile=, or anything else, behind the first option has no effect if and only if the
   first one was ended before: by a space, or by a closing quote if it is quoted.
   */
  lemma FirstOptionWinsIff(before: string, rest: string, other: string)
    requires (forall i :: !Occurs(NEEDLE, before, i)) && rest != ""
    ensures ProfileOf(before + NEEDLE + (rest + other)) == ProfileOf(before + NEEDLE + rest) <==>
      || other == ""
      || (if rest[0] == '"' then !Free(rest[1..], '"') || other[0] == '"' else !Free(rest, ' ') || other[0] == ' ')
  {
    hide ProfileOf;
    ProfileIs(before, rest);
    ProfileIs(before, rest + other);
    if rest[0] == '"' {
      assert (rest + other)[1..] == rest[1..] + other;
      UpToOfSum(rest[1..], other, '"');
    } else {
      UpToOfSum(rest, other, ' ');
    }
  }

  lemma FirstOf(s: string, ch: char) returns (i: nat)
    requires !Free(s, ch)
    ensures i < |s| && s[i] == ch && Free(s[..i], ch)
  {
    i := 0;
    while s[i] != ch
      invariant i < |s| && Free(s[..i], ch) && !Free(s[i..], ch)
      decreases |s| - i
    {
      i := i + 1;
    }
  }

  /** Printing a name without quotes is undone exactly when it has no space and starts with no quote. */
  lemma UnquotedRoundTripIff(before: string, name: string, after: string)
    requires forall i :: !Occurs("-profile=", before, i)
    requires after == "" || after[0] == ' '
    ensures ProfileOf(before + "-profile=" + (name + after)) == name <==>
      Free(name, ' ') && (name != "" ==> name[0] != '"')
  {
    hide ProfileOf;
    if name != "" && name[0] == '"' {
      var rest := name[1..] + after;
      assert name + after == "\"" + rest;
      AfterQuote(before, rest);
    } else if Free(name, ' ') {
      Unquoted(before, name, after);
    } else {
      var i := FirstOf(name, ' ');
      assert name + after == name[..i] + (name[i..] + after);
      Unquoted(before, name[..i], name[i..] + after);
    }
  }

  /** Printing a name in quotes is undone exactly when it has no quote. */
  lemma QuotedRoundTripIff(before: string, name: string, after: string)
    requires forall i :: !Occurs("-profile=", before, i)
    ensures ProfileOf(before + "-profile=" + ("\"" + name + "\"" + after)) == name <==> Free(name, '"')
  {
    hide ProfileOf;
    if Free(name, '"') {
      Quoted(before, name, after);
    } else {
      assert "\"" + name + "\"" + after == "\"" + (name + "\"" + after);
      AfterQuote(before, name + "\"" + after);
    }
  }

  /** Behind an opening quote the profile is what comes before the next quote, so it contains none. */
  lemma AfterQuote(before: string, rest: string)
    requires forall i :: !Occurs(NEEDLE, before, i)
    ensures Free(ProfileOf(before + NEEDLE + ("\"" + rest)), '"')
  {
    hide ProfileOf;
    if Free(rest, '"') {
      Unterminated(before, rest);
    } else {
      var i := FirstOf(rest, '"');
      assert "\"" + rest == "\"" + rest[..i] + "\"" + rest[i + 1..];
      Quoted(before, rest[..i], rest[i + 1..]);
    }
  }

  /** Without a closing quote the rest of the line is taken. */
  lemma Unterminated(before: string, name: string)
    requires forall i :: !Occurs(NEEDLE, before, i)
    requires Free(name, '"')
    ensures ProfileOf(before + NEEDLE + ("\"" + name)) == name
  {
    hide ProfileOf, Find;
    assert name == name + "";
    QuotedBranch(before, name);
    FindChar(name, '"', "");
  }
}
