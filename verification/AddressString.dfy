/**
 Hook addresses given as text, "server.dll + 0x1234": `ParseDLLOffsetString` and
 `LambdaHookBase::ExtractModuleName`. A C string is a sequence without its terminating zero.
 */
module AddressString {
  import opened Bits

  datatype Parsed = Address(address: nat) | InvalidArgument | OutOfRange

  predicate IsSpace(ch: char) {
    ch in [' ', '\t', '\n', '\r', '\U{0B}', '\U{0C}']
  }

  predicate IsDigit(ch: char) {
    '0' <= ch <= '9'
  }

  /** The end of a module name. */
  predicate Stops(ch: char) {
    IsSpace(ch) || ch == '+'
  }

  // ----- std::stoi

  function DigitOf(ch: char): nat {
    if '0' <= ch <= '9' then ch as nat - '0' as nat
    else if 'a' <= ch <= 'z' then ch as nat - 'a' as nat + 10
    else if 'A' <= ch <= 'Z' then ch as nat - 'A' as nat + 10
    else 36
  }

  /** How many digits the text starts with. */
  function Span(s: string, base: nat): (n: nat)
    ensures n <= |s|
    ensures forall i | 0 <= i < n :: DigitOf(s[i]) < base
  {
    if s == "" || DigitOf(s[0]) >= base then 0 else 1 + Span(s[1..], base)
  }

  function Number(s: string, base: nat): nat {
    if s == "" then 0 else base * Number(s[..|s| - 1], base) + DigitOf(s[|s| - 1])
  }

  function SkipSpace(s: string): string {
    if s == "" || !IsSpace(s[0]) then s else SkipSpace(s[1..])
  }

  function SkipPrefix(s: string, base: nat): string {
    if base == 16 && |s| > 2 && s[0] == '0' && s[1] in ['x', 'X'] && DigitOf(s[2]) < 16 then s[2..] else s
  }

  datatype Int32 = Int32(n: int) | NoNumber | TooBig

  /** The optional sign, the optional prefix and the digits of a C integer; what follows is ignored. */
  function StoI(text: string, base: nat): Int32 {
    var s := SkipSpace(text);
    var negative := s != "" && s[0] == '-';
    var t := SkipPrefix(if s != "" && s[0] in ['-', '+'] then s[1..] else s, base);
    var n := Number(t[..Span(t, base)], base);
    if Span(t, base) == 0 then NoNumber
    else if negative then (if n <= 0x8000_0000 then Int32(0 - n) else TooBig)
    else if n <= 0x7FFF_FFFF then Int32(n) else TooBig
  }

  // ----- ParseDLLOffsetString

  /** GetModuleHandleA: 0 for a module that is not loaded. */
  function Handle(modules: map<string, nat>, name: string): nat {
    if name in modules then modules[name] else 0
  }

  /** The scan for the name's end does not look for the terminating zero. */
  predicate HasStop(s: string) {
    exists i :: 1 <= i < |s| && Stops(s[i])
  }

  /** Where the name that starts the text ends. */
  function NameEnd(s: string, i: nat): (e: nat)
    requires exists k :: i <= k < |s| && Stops(s[k])
    ensures i <= e < |s| && Stops(s[e]) && forall k | i <= k < e :: !Stops(s[k])
    decreases |s| - i
  {
    if Stops(s[i]) then i else NameEnd(s, i + 1)
  }

  /** Where the first digit from i on stands. */
  function OffsetBegin(s: string, i: nat): (b: nat)
    requires i <= |s|
    ensures i <= b <= |s| && (b < |s| ==> IsDigit(s[b])) && forall k | i <= k < b :: !IsDigit(s[k])
    decreases |s| - i
  {
    if i == |s| || IsDigit(s[i]) then i else OffsetBegin(s, i + 1)
  }

  predicate IsHex(s: string, b: nat) {
    b + 1 < |s| && s[b] == '0' && s[b + 1] in ['x', 'X']
  }

  /** The signed offset is added to the handle in 64 bits. */
  function AtOffset(handle: nat, offset: Int32): Parsed {
    match offset
    case Int32(n) => Address((handle + n) % 0x1_0000_0000_0000_0000)
    case NoNumber => InvalidArgument
    case TooBig => OutOfRange
  }

  /** The offset begins at b. */
  function OffsetAt(s: string, handle: nat, b: nat): Parsed
    requires b <= |s|
  {
    AtOffset(handle, if IsHex(s, b) then StoI(s[b + 2..], 16) else StoI(s[b..], 10))
  }

  /** What the text means: nothing is read behind the name of a module that is not loaded. */
  function Parse(s: string, modules: map<string, nat>): Parsed
    requires HasStop(s)
  {
    var e := NameEnd(s, 1);
    var handle := Handle(modules, s[..e]);
    if handle == 0 then Address(0) else OffsetAt(s, handle, OffsetBegin(s, e + 1))
  }

  method ParseDLLOffsetString(s: string, modules: map<string, nat>) returns (r: Parsed)
    requires HasStop(s)
    ensures r == Parse(s, modules)
  {
    hide StoI, IsSpace;
    var iDllNameEnd := 1;
    while !Stops(s[iDllNameEnd])
      invariant 1 <= iDllNameEnd < |s|
      invariant forall i | 1 <= i < iDllNameEnd :: !Stops(s[i])
      decreases |s| - iDllNameEnd
    {
      iDllNameEnd := iDllNameEnd + 1;
    }
    assert iDllNameEnd == NameEnd(s, 1);
    var handle := Handle(modules, s[..iDllNameEnd]);
    if handle == 0 {
      return Address(0);
    }
    var iOffsetBegin := iDllNameEnd + 1;
    while iOffsetBegin < |s| && !IsDigit(s[iOffsetBegin])
      invariant iDllNameEnd < iOffsetBegin <= |s|
      invariant forall i | iDllNameEnd < i < iOffsetBegin :: !IsDigit(s[i])
    {
      iOffsetBegin := iOffsetBegin + 1;
    }
    assert iOffsetBegin == OffsetBegin(s, iDllNameEnd + 1);
    var offset;
    if IsHex(s, iOffsetBegin) {
      offset := StoI(s[iOffsetBegin + 2..], 16);
    } else {
      offset := StoI(s[iOffsetBegin..], 10);
    }
    r := AtOffset(handle, offset);
  }

  // ----- characters, by their codes

  /** Space, tab, line feed, vertical tab, form feed and carriage return (section 7.4.1.10 of C11). */
  predicate Blank(ch: char) {
    ch as int == 32 || 9 <= ch as int <= 13
  }

  lemma StopsIff(ch: char)
    ensures IsSpace(ch) <==> Blank(ch)
    ensures Stops(ch) <==> Blank(ch) || ch == '+'
  {
  }

  /** ch is the digit d; a digit above 9 has two letters. */
  predicate DigitIs(ch: char, d: nat) {
    if d < 10 then ch as int == 48 + d else d < 36 && (ch as int == 55 + d || ch as int == 87 + d)
  }

  lemma DigitOfIff(ch: char, d: nat)
    ensures d < 36 ==> (DigitOf(ch) == d <==> DigitIs(ch, d))
    ensures DigitOf(ch) < 36 ==> DigitIs(ch, DigitOf(ch))
    ensures IsDigit(ch) <==> DigitOf(ch) < 10
  {
  }

  // ----- numbers as they are written

  /** s is the number n: leading zeros and letters of either case are allowed. */
  predicate IsNumeral(s: string, n: nat, base: nat)
    requires base >= 2
    decreases |s|
  {
    && s != "" && DigitIs(s[|s| - 1], n % base)
    && if |s| == 1 then n < base else IsNumeral(s[..|s| - 1], n / base, base)
  }

  lemma DivMod(n: nat, base: nat)
    requires base >= 2
    ensures base * (n / base) + n % base == n
    ensures if n < base then n / base == 0 && n % base == n else n / base < n
  {
    var q := n / base;
    if n < base {
      DivModUnique(n, base, 0, n);
    } else {
      MulDistributes(2, base - 2, q);
    }
  }

  /** The last digit and the numeral before it. */
  lemma NumeralParts(s: string, n: nat, base: nat) returns (q: nat, r: nat)
    requires 2 <= base <= 16 && IsNumeral(s, n, base)
    ensures s != "" && base * q + r == n && DigitOf(s[|s| - 1]) == r < base
    ensures if |s| == 1 then q == 0 else IsNumeral(s[..|s| - 1], q, base)
  {
    hide DigitOf, DigitIs;
    q, r := n / base, n % base;
    DivMod(n, base);
    DigitOfIff(s[|s| - 1], r);
  }

  lemma {:induction false} NumberOfNumeral(s: string, n: nat, base: nat)
    requires 2 <= base <= 16 && IsNumeral(s, n, base)
    ensures s != "" && Number(s, base) == n
    ensures forall i | 0 <= i < |s| :: DigitOf(s[i]) < base
    decreases |s|
  {
    hide DigitOf, IsNumeral, Number;
    var q, r := NumeralParts(s, n, base);
    LastDigit(s, base);
    var front := s[..|s| - 1];
    if |s| > 1 {
      NumberOfNumeral(front, q, base);
      assert forall i | 0 <= i < |front| :: s[i] == front[i];
    }
  }

  lemma LastDigit(s: string, base: nat)
    requires s != "" && base >= 2
    ensures Number(s, base) == base * Number(s[..|s| - 1], base) + DigitOf(s[|s| - 1])
    ensures |s| == 1 ==> Number(s, base) == DigitOf(s[0])
  {
    hide DigitOf;
    assert Number("", base) == 0;
  }

  function DigitChar(d: nat, capital: bool): (ch: char)
    requires d < 16
    ensures DigitIs(ch, d)
  {
    (if capital then "0123456789ABCDEF" else "0123456789abcdef")[d]
  }

  function Print(n: nat, base: nat, capital: bool): (s: string)
    requires 2 <= base <= 16
    ensures s != ""
  {
    DivMod(n, base);
    if n < base then [DigitChar(n, capital)]
    else Print(n / base, base, capital) + [DigitChar(n % base, capital)]
  }

  /** Every number has a numeral, in capitals as well as in small letters. */
  lemma {:induction false} PrintIsNumeral(n: nat, base: nat, capital: bool)
    requires 2 <= base <= 16
    ensures IsNumeral(Print(n, base, capital), n, base)
  {
    hide DigitChar, DigitIs;
    DivMod(n, base);
    if n >= base {
      var front := Print(n / base, base, capital);
      PrintIsNumeral(n / base, base, capital);
      assert (front + [DigitChar(n % base, capital)])[..|front|] == front;
    }
  }

  lemma {:induction false} SpanOf(digits: string, suffix: string, base: nat)
    requires forall i | 0 <= i < |digits| :: DigitOf(digits[i]) < base
    requires suffix == "" || DigitOf(suffix[0]) >= base
    ensures Span(digits + suffix, base) == |digits|
  {
    hide DigitOf;
    if digits == "" {
      assert digits + suffix == suffix;
    } else {
      assert (digits + suffix)[1..] == digits[1..] + suffix;
      SpanOf(digits[1..], suffix, base);
    }
  }

  lemma {:induction false} SkipSpaceOf(blank: string, rest: string)
    requires (forall i | 0 <= i < |blank| :: Blank(blank[i])) && (rest == "" || !Blank(rest[0]))
    ensures SkipSpace(blank + rest) == rest
  {
    hide Blank, IsSpace;
    if blank == "" {
      assert blank + rest == rest;
      if rest != "" {
        StopsIff(rest[0]);
      }
    } else {
      StopsIff(blank[0]);
      assert (blank + rest)[1..] == blank[1..] + rest;
      SkipSpaceOf(blank[1..], rest);
    }
  }

  predicate Mark(s: string) {
    s == "0x" || s == "0X"
  }

  predicate Sign(s: string) {
    s == "" || s == "+" || s == "-"
  }

  /** No digit of this base comes first. */
  predicate NoDigit(s: string, base: nat) {
    s == "" || forall d: nat | d < base :: !DigitIs(s[0], d)
  }

  /** The text that follows cannot be taken for more of the number. */
  predicate Ends(digits: string, suffix: string, base: nat) {
    NoDigit(suffix, base) && !(digits == "0" && suffix != "" && suffix[0] in ['x', 'X'])
  }

  lemma NoDigitMeans(s: string, base: nat)
    requires base <= 36 && NoDigit(s, base)
    ensures s == "" || DigitOf(s[0]) >= base
  {
    hide DigitOf;
    if s != "" {
      DigitOfIff(s[0], DigitOf(s[0]));
    }
  }

  function Signed(sign: string, n: nat): int {
    if sign == "-" then 0 - n else n
  }

  /** An int of 32 bits. */
  function Ranged(n: int): Int32 {
    if -0x8000_0000 <= n < 0x8000_0000 then Int32(n) else TooBig
  }

  /** The optional prefix is skipped, and digits are not taken for one. */
  lemma SkipPrefixOf(prefix: string, digits: string, suffix: string, base: nat)
    requires base == 10 || base == 16
    requires prefix == "" || (base == 16 && Mark(prefix))
    requires digits != "" && forall i | 0 <= i < |digits| :: DigitOf(digits[i]) < base
    requires prefix == "" ==> Ends(digits, suffix, base)
    ensures SkipPrefix(prefix + digits + suffix, base) == digits + suffix
  {
    hide NoDigit;
    var t := prefix + digits + suffix;
    if prefix == "" {
      assert t == digits + suffix;
      assert |t| > 1 ==> t[1] == if |digits| > 1 then digits[1] else suffix[0];
      assert t[0] == digits[0] && (|digits| == 1 ==> digits == [t[0]]);
    } else {
      assert t[0] == prefix[0] && t[1] == prefix[1] && t[2] == digits[0];
      assert t[2..] == digits + suffix;
    }
  }

  /** std::stoi: blanks, a sign, a prefix, a numeral, and anything that cannot go on with it. */
  lemma StoIOfNumeral(blank: string, sign: string, prefix: string, digits: string, suffix: string, n: nat, base: nat)
    requires base == 10 || base == 16
    requires (forall i | 0 <= i < |blank| :: Blank(blank[i])) && Sign(sign)
    requires prefix == "" || (base == 16 && Mark(prefix))
    requires IsNumeral(digits, n, base) && NoDigit(suffix, base) && (prefix == "" ==> Ends(digits, suffix, base))
    ensures StoI(blank + (sign + (prefix + digits + suffix)), base) == Ranged(Signed(sign, n))
  {
    hide Number, Span, SkipSpace, SkipPrefix, DigitOf, DigitIs, Blank, NoDigit, IsNumeral, Ends;
    NumberOfNumeral(digits, n, base);
    NoDigitMeans(suffix, base);
    var t := prefix + digits + suffix;
    assert t[0] == (if prefix == "" then digits else prefix)[0];
    FirstChar(t[0]);
    DigitOfIff('0', 0);
    assert DigitIs('0', 0) by { ZeroDigit(); }
    SkipSpaceOf(blank, sign + t);
    SkipPrefixOf(prefix, digits, suffix, base);
    SpanOf(digits, suffix, base);
    assert (digits + suffix)[..|digits|] == digits;
    assert sign != "" ==> (sign + t)[0] == sign[0] && (sign + t)[1..] == t;
    assert sign == "" ==> sign + t == t;
  }

  lemma ZeroDigit()
    ensures DigitIs('0', 0)
  {
  }

  /** A digit is neither a blank nor a sign. */
  lemma FirstChar(ch: char)
    ensures DigitOf(ch) < 36 ==> !Blank(ch) && ch != '+' && ch != '-'
    ensures !Blank('+') && !Blank('-')
  {
  }

  /** Without a digit there is no number. */
  lemma StoIOfNothing(blank: string, sign: string, rest: string, base: nat)
    requires base == 10 || base == 16
    requires (forall i | 0 <= i < |blank| :: Blank(blank[i])) && Sign(sign)
    requires NoDigit(rest, base)
    requires sign == "" ==> rest == "" || (!Blank(rest[0]) && rest[0] != '+' && rest[0] != '-')
    ensures StoI(blank + (sign + rest), base) == NoNumber
  {
    hide Number, SkipSpace, DigitOf, DigitIs, Blank, NoDigit;
    NoDigitMeans(rest, base);
    FirstChar('0');
    DigitOfIff('0', 0);
    ZeroDigit();
    SkipSpaceOf(blank, sign + rest);
    assert sign != "" ==> (sign + rest)[0] == sign[0] && (sign + rest)[1..] == rest;
    assert sign == "" ==> sign + rest == rest;
  }

  // ----- address texts

  /**
   One way to write an address: a module name, anything without digits that starts with a blank or
   a plus sign, and a decimal or hexadecimal number. What follows a hexadecimal mark may have
   blanks, a sign and a mark of its own. n is the number's magnitude.
   */
  datatype Spelling = Spelling(name: string, separator: string, mark: string, blank: string, sign: string,
    prefix: string, digits: string, n: nat, suffix: string)
  {
    predicate Valid() {
      && name != "" && (forall i | 1 <= i < |name| :: !Blank(name[i]) && name[i] != '+')
      && separator != "" && (Blank(separator[0]) || separator[0] == '+')
      && (forall i | 0 <= i < |separator| :: !('0' <= separator[i] <= '9'))
      && (forall i | 0 <= i < |blank| :: Blank(blank[i])) && Sign(sign) && (prefix == "" || Mark(prefix))
      && (if mark == "" then blank == sign == prefix == "" else Mark(mark))
      && IsNumeral(digits, n, Base()) && NoDigit(suffix, Base()) && (prefix == "" ==> Ends(digits, suffix, Base()))
    }

    function Base(): nat {
      if mark == "" then 10 else 16
    }

    function Number(): string {
      mark + (blank + (sign + (prefix + digits + suffix)))
    }

    function Text(): string {
      name + separator + Number()
    }

    /** The signed number. */
    function Offset(): int {
      Signed(sign, n)
    }
  }

  lemma Located(name: string, separator: string, rest: string)
    requires name != "" && forall i | 1 <= i < |name| :: !Blank(name[i]) && name[i] != '+'
    requires separator != "" && (Blank(separator[0]) || separator[0] == '+')
    requires forall i | 0 <= i < |separator| :: !IsDigit(separator[i])
    requires rest == "" || IsDigit(rest[0])
    ensures var s := name + separator + rest;
      && HasStop(s) && NameEnd(s, 1) == |name| && OffsetBegin(s, |name| + 1) == |name + separator|
      && s[..|name|] == name && s[|name + separator|..] == rest
  {
    hide Stops, IsDigit, Blank;
    var s := name + separator + rest;
    StopsIff(s[|name|]);
    forall i | 1 <= i < |name| ensures !Stops(s[i]) {
      StopsIff(name[i]);
    }
    assert Stops(s[|name|]);
    assert rest != "" ==> IsDigit(s[|name + separator|]);
    assert forall i | |name| <= i < |name + separator| :: s[i] == separator[i - |name|];
  }

  lemma ShiftedIsHex(front: string, rest: string)
    ensures IsHex(front + rest, |front|) == IsHex(rest, 0)
    ensures IsHex(rest, 0) ==> (front + rest)[|front| + 2..] == rest[2..]
    ensures (front + rest)[|front|..] == rest
  {
  }

  /** The number converts, and is taken for hexadecimal exactly if it has the mark. */
  lemma NumberOfSpelling(sp: Spelling)
    requires sp.Valid()
    ensures var rest := sp.Number();
      && rest != "" && IsDigit(rest[0]) && IsHex(rest, 0) == (sp.mark != "")
      && StoI(if sp.mark != "" then rest[2..] else rest, sp.Base()) == Ranged(sp.Offset())
  {
    hide StoI, DigitIs, DigitOf, Blank, IsNumeral, NoDigit, Ends, Ranged, Signed, IsHex, IsDigit, Mark;
    var inner := sp.blank + (sp.sign + (sp.prefix + sp.digits + sp.suffix));
    StoIOfNumeral(sp.blank, sp.sign, sp.prefix, sp.digits, sp.suffix, sp.n, sp.Base());
    if sp.mark == "" {
      NumberOfNumeral(sp.digits, sp.n, 10);
      DecimalIsNotHex(sp.digits, sp.suffix);
      assert sp.Number() == inner == sp.digits + sp.suffix;
    } else {
      MarkedIsHex(sp.mark, inner);
    }
  }

  lemma MarkedIsHex(mark: string, inner: string)
    requires Mark(mark)
    ensures var rest := mark + inner; IsDigit(rest[0]) && IsHex(rest, 0) && rest[2..] == inner
  {
  }

  lemma DecimalIsNotHex(digits: string, suffix: string)
    requires digits != "" && forall i | 0 <= i < |digits| :: DigitOf(digits[i]) < 10
    requires Ends(digits, suffix, 10)
    ensures IsDigit((digits + suffix)[0]) && !IsHex(digits + suffix, 0)
  {
    hide NoDigit;
    DigitOfIff(digits[0], 0);
    var t := digits + suffix;
    assert |t| > 1 ==> t[1] == if |digits| > 1 then digits[1] else suffix[0];
    assert t[0] == digits[0] && (|digits| == 1 ==> digits == [t[0]]);
  }

  /**
   Every spelling of an address means the module's handle plus the number, in 64 bits, exactly
   when the number is an int of 32 bits; it is out of range otherwise, whatever the base.
   */
  lemma ParseOfSpelling(sp: Spelling, modules: map<string, nat>)
    requires sp.Valid()
    ensures HasStop(sp.Text())
    ensures Parse(sp.Text(), modules) ==
      if sp.name !in modules || modules[sp.name] == 0 then Address(0)
      else if -0x8000_0000 <= sp.Offset() <= 0x7FFF_FFFF
        then Address((modules[sp.name] + sp.Offset()) % 0x1_0000_0000_0000_0000)
      else OutOfRange
  {
    hide StoI, Stops, DigitOf, DigitIs, Blank, IsHex, Spelling.Number, IsNumeral, Ends, NoDigit;
    NumberOfSpelling(sp);
    Located(sp.name, sp.separator, sp.Number());
    ShiftedIsHex(sp.name + sp.separator, sp.Number());
  }

  /** With no digit behind the name, or none behind the hexadecimal mark, the conversion fails. */
  lemma ParseWithoutNumber(name: string, separator: string, mark: string, blank: string, sign: string, rest: string,
      modules: map<string, nat>)
    requires name != "" && forall i | 1 <= i < |name| :: !Blank(name[i]) && name[i] != '+'
    requires separator != "" && (Blank(separator[0]) || separator[0] == '+')
    requires forall i | 0 <= i < |separator| :: !IsDigit(separator[i])
    requires (forall i | 0 <= i < |blank| :: Blank(blank[i])) && Sign(sign) && NoDigit(rest, 16)
    requires sign == "" ==> rest == "" || (!Blank(rest[0]) && rest[0] != '+' && rest[0] != '-')
    requires if mark == "" then blank == sign == rest == "" else Mark(mark)
    requires name in modules && modules[name] != 0
    ensures var s := name + separator + (mark + (blank + (sign + rest)));
      HasStop(s) && Parse(s, modules) == InvalidArgument
  {
    hide StoI, Stops, DigitOf, DigitIs, Blank, IsNumeral, NoDigit;
    var number := mark + (blank + (sign + rest));
    Located(name, separator, number);
    ShiftedIsHex(name + separator, number);
    if mark == "" {
      assert NoDigit("", 10) by {
        NothingHasNoDigit();
      }
      StoIOfNothing("", "", "", 10);
    } else {
      assert number[2..] == blank + (sign + rest);
      StoIOfNothing(blank, sign, rest, 16);
    }
  }

  lemma NothingHasNoDigit()
    ensures NoDigit("", 10)
  {
  }

  function Plain(name: string, digits: string, n: nat): (sp: Spelling) {
    Spelling(name, " + ", "0x", "", "", "", digits, n, "")
  }

  lemma PlainSpelling(name: string, digits: string, n: nat)
    requires name != "" && forall i | 0 <= i < |name| :: !Blank(name[i]) && name[i] != '+'
    requires IsNumeral(digits, n, 16)
    ensures Plain(name, digits, n).Valid() && Plain(name, digits, n).Text() == name + " + 0x" + digits
  {
    hide IsNumeral;
    var sp := Plain(name, digits, n);
    assert sp.Number() == "0x" + digits;
  }

  /** The comment's own example, "server.dll + 0xDEADBEEF", does not parse once server.dll is loaded. */
  lemma DocumentedExampleIsOutOfRange(modules: map<string, nat>)
    requires "server.dll" in modules && modules["server.dll"] != 0
    ensures HasStop("server.dll + 0xDEADBEEF") && Parse("server.dll + 0xDEADBEEF", modules) == OutOfRange
  {
    hide Parse, HasStop, IsNumeral, Spelling.Text, Spelling.Valid;
    DeadBeef();
    PlainSpelling("server.dll", "DEADBEEF", 0xDEAD_BEEF);
    ParseOfSpelling(Plain("server.dll", "DEADBEEF", 0xDEAD_BEEF), modules);
    assert "server.dll" + " + 0x" + "DEADBEEF" == "server.dll + 0xDEADBEEF";
  }

  /** The repository's own "OriginSDK.dll + 0xa1850". */
  lemma SmallLettersExample(modules: map<string, nat>)
    requires "OriginSDK.dll" in modules && modules["OriginSDK.dll"] != 0
    ensures HasStop("OriginSDK.dll + 0xa1850")
    ensures Parse("OriginSDK.dll + 0xa1850", modules) ==
      Address((modules["OriginSDK.dll"] + 0xA1850) % 0x1_0000_0000_0000_0000)
  {
    hide Parse, HasStop, IsNumeral, Spelling.Text, Spelling.Valid;
    A1850();
    PlainSpelling("OriginSDK.dll", "a1850", 0xA1850);
    ParseOfSpelling(Plain("OriginSDK.dll", "a1850", 0xA1850), modules);
    assert "OriginSDK.dll" + " + 0x" + "a1850" == "OriginSDK.dll + 0xa1850";
  }

  lemma DeadBeef()
    ensures IsNumeral("DEADBEEF", 0xDEAD_BEEF, 16)
  {
    assert IsNumeral("D", 0xD, 16);
    Longer("D", 0xD, "DE", 0xDE);
    Longer("DE", 0xDE, "DEA", 0xDEA);
    Longer("DEA", 0xDEA, "DEAD", 0xDEAD);
    Longer("DEAD", 0xDEAD, "DEADB", 0xDEADB);
    Longer("DEADB", 0xDEADB, "DEADBE", 0xDEADBE);
    Longer("DEADBE", 0xDEADBE, "DEADBEE", 0xDEADBEE);
    Longer("DEADBEE", 0xDEADBEE, "DEADBEEF", 0xDEADBEEF);
  }

  lemma A1850()
    ensures IsNumeral("a1850", 0xA1850, 16)
  {
    assert IsNumeral("a", 0xA, 16);
    Longer("a", 0xA, "a1", 0xA1);
    Longer("a1", 0xA1, "a18", 0xA18);
    Longer("a18", 0xA18, "a185", 0xA185);
    Longer("a185", 0xA185, "a1850", 0xA1850);
  }

  lemma Longer(s: string, n: nat, t: string, m: nat)
    requires IsNumeral(s, n, 16) && t != "" && t[..|t| - 1] == s && DigitIs(t[|t| - 1], m % 16) && m / 16 == n
    ensures IsNumeral(t, m, 16)
  {
  }

  // ----- ExtractModuleName

  predicate IsModuleName(s: string, name: string) {
    && name <= s && (forall i | 0 <= i < |name| :: !Stops(name[i]))
    && (|name| < |s| ==> Stops(s[|name|]))
  }

  method ExtractModuleName(s: string) returns (name: string)
    ensures IsModuleName(s, name)
  {
    hide Stops;
    if s == "" {
      return "";
    }
    var i := 0;
    while i < |s| && !Stops(s[i])
      invariant 0 <= i <= |s|
      invariant forall j | 0 <= j < i :: !Stops(s[j])
    {
      i := i + 1;
    }
    name := if i == 0 then "" else s[..i];
  }

  /** The module a hook waits for is the module its address names, unless the text starts with a stop. */
  lemma NamesAgreeIff(s: string, name: string)
    requires IsModuleName(s, name) && HasStop(s)
    ensures name == s[..NameEnd(s, 1)] <==> !Stops(s[0])
    ensures Stops(s[0]) <==> name == ""
  {
    hide Stops;
    if !Stops(s[0]) {
      assert |name| == NameEnd(s, 1);
    }
  }

  /** The module that a spelling names is the one its hook waits for. */
  lemma OneName(sp: Spelling, name: string)
    requires sp.Valid() && IsModuleName(sp.Text(), name) && name != ""
    ensures name == sp.name
  {
    hide Stops, Parse, Blank, Spelling.Number;
    ParseOfSpelling(sp, map[]);
    var s := sp.Text();
    assert Stops(s[|sp.name|]) by {
      StopsIff(sp.separator[0]);
    }
    forall i | 1 <= i < |sp.name| ensures !Stops(s[i]) {
      StopsIff(sp.name[i]);
    }
    assert |name| < |s| && s[..|name|] == name;
    assert |name| == |sp.name|;
  }
}
