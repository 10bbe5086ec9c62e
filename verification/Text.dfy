// The text conversions of the command line: addresses in and out, and splitting a line into words.
module Text {
  import opened Common

  // ---------- numerals ----------

  predicate IsDigit(c: char, base: nat) {
    DigitOf(c) < base
  }

  /** The value of a digit in either case; 36 for a character that is no digit. */
  function DigitOf(c: char): nat {
    if '0' <= c <= '9' then (c as int) - ('0' as int)
    else if 'a' <= c <= 'z' then (c as int) - ('a' as int) + 10
    else if 'A' <= c <= 'Z' then (c as int) - ('A' as int) + 10
    else 36
  }

  predicate AllDigits(s: string, base: nat) {
    forall c | c in s :: IsDigit(c, base)
  }

  /** The number a digit string denotes. */
  function ValueOf(s: string, base: nat): nat {
    if s == [] then 0 else ValueOf(s[..|s| - 1], base) * base + DigitOf(s[|s| - 1])
  }

  /** The part after an 0x or 0X prefix, if there is one, and the base it is read in. */
  function Digits(text: string): string {
    if HasHexPrefix(text) then text[2..] else text
  }

  predicate HasHexPrefix(text: string) {
    |text| >= 2 && text[0] == '0' && text[1] in {'x', 'X'}
  }

  function Base(text: string): nat {
    if HasHexPrefix(text) then 16 else 10
  }

  /** The reference form of parse_address. */
  function Parsed(text: string): Option<Address> {
    var digits, base := Digits(text), Base(text);
    if digits != [] && AllDigits(digits, base) && ValueOf(digits, base) < ADDRESS_SPACE
    then Some(ValueOf(digits, base))
    else None
  }

  /**
   * from_chars on an unsigned 64-bit value: the longest run of digits, and whether it overflowed. It stops at the
   * first character that is no digit of the base, and reports how far it got.
   */
  method FromChars(s: string, base: nat) returns (value: Option<Address>, end: nat)
    requires base in {10, 16}
    ensures end <= |s| && AllDigits(s[..end], base) && (end < |s| ==> !IsDigit(s[end], base))
    ensures value == if end > 0 && ValueOf(s[..end], base) < ADDRESS_SPACE then Some(ValueOf(s[..end], base)) else None
  {
    end := 0;
    var total := 0;
    while end < |s| && IsDigit(s[end], base)
      invariant 0 <= end <= |s|
      invariant AllDigits(s[..end], base)
      invariant total == ValueOf(s[..end], base)
    {
      assert s[..end + 1][..end] == s[..end];
      total := total * base + DigitOf(s[end]);
      end := end + 1;
    }
    value := if end > 0 && total < ADDRESS_SPACE then Some(total) else None;
  }

  /** Accepts exactly non-empty digit strings, decimal or after 0x or 0X, of value below 2^64. */
  method ParseAddress(text: string) returns (r: Option<Address>)
    ensures r == Parsed(text)
  {
    var rest, base := text, 10;
    if HasHexPrefix(text) {
      rest, base := text[2..], 16;
    }
    var value, end := FromChars(rest, base);
    if value.None? || end != |rest| {
      assert end == |rest| ==> rest[..end] == rest;
      return None;
    }
    assert rest[..end] == rest;
    r := value;
  }

  // ---------- hex ----------

  const HEX_DIGITS: string := "0123456789abcdef"

  /** A digit in lower-case hexadecimal. */
  predicate IsLowerHex(c: char) {
    '0' <= c <= '9' || 'a' <= c <= 'f'
  }

  /** `value >> (4 * n)`. */
  function ShiftedRight(value: nat, n: nat): nat {
    if n == 0 then value else ShiftedRight(value / 16, n - 1)
  }

  /** No digit string in lower-case hexadecimal for the value is shorter, and this one has no superfluous zero. */
  ghost predicate Shortest(digits: string, value: nat) {
    && digits != []
    && (forall c | c in digits :: IsLowerHex(c))
    && ValueOf(digits, 16) == value
    && (digits[0] == '0' ==> |digits| == 1)
  }

  method Hex(value: Address) returns (r: string)
    ensures |r| > 2 && r[..2] == "0x" && Shortest(r[2..], value)
  {
    var digits := "";   // what follows "0x" in the source's result
    var began := false;
    var place := 16;    // shift / 4 + 1
    NothingAbove64Bits(value);
    while place > 0
      invariant 0 <= place <= 16
      invariant ValueOf(digits, 16) == ShiftedRight(value, place)
      invariant forall c | c in digits :: IsLowerHex(c)
      invariant began <==> digits != []
      invariant place == 0 ==> began
      invariant began ==> digits[0] != '0' || (place == 0 && |digits| == 1)
    {
      place := place - 1;
      var nibble := ShiftedRight(value, place) % 16;
      OneMoreShift(value, place);
      if nibble != 0 || began || place == 0 {
        AppendDigit(digits, nibble);
        digits := digits + [HEX_DIGITS[nibble]];
        began := true;
      }
    }
    r := "0x" + digits;
    assert r[2..] == digits;
  }

  lemma AppendDigit(digits: string, nibble: nat)
    requires nibble < 16
    ensures ValueOf(digits + [HEX_DIGITS[nibble]], 16) == ValueOf(digits, 16) * 16 + nibble
    ensures (HEX_DIGITS[nibble] == '0' <==> nibble == 0) && IsLowerHex(HEX_DIGITS[nibble])
  {
    assert (digits + [HEX_DIGITS[nibble]])[..|digits|] == digits;
    HexDigitValue(nibble);
  }

  lemma HexDigitValue(nibble: nat)
    requires nibble < 16
    ensures DigitOf(HEX_DIGITS[nibble]) == nibble && IsLowerHex(HEX_DIGITS[nibble])
  {
  }

  lemma {:induction false} OneMoreShift(value: nat, n: nat)
    ensures ShiftedRight(value, n + 1) == ShiftedRight(value, n) / 16
  {
    if n > 0 {
      OneMoreShift(value / 16, n - 1);
    }
  }

  function Pow16(n: nat): nat {
    if n == 0 then 1 else 16 * Pow16(n - 1)
  }

  lemma {:induction false} ShiftedOut(value: nat, n: nat)
    requires value < Pow16(n)
    ensures ShiftedRight(value, n) == 0
  {
    if n > 0 {
      ShiftedOut(value / 16, n - 1);
    }
  }

  lemma NothingAbove64Bits(value: Address)
    ensures ShiftedRight(value, 16) == 0
  {
    assert Pow16(4) == 0x1_0000;
    assert Pow16(8) == 0x1_0000_0000;
    assert Pow16(12) == 0x1_0000_0000_0000;
    assert Pow16(16) == ADDRESS_SPACE;
    ShiftedOut(value, 16);
  }

  // ---------- the round trip, and uniqueness ----------

  lemma HexDigitsAreDigits(s: string)
    requires forall c | c in s :: IsLowerHex(c)
    ensures AllDigits(s, 16)
  {
  }

  /** parse_address reads back what hex prints, whatever the value. */
  lemma ParseOfHex(value: Address, printed: string)
    requires |printed| > 2 && printed[..2] == "0x" && Shortest(printed[2..], value)
    ensures Parsed(printed) == Some(value)
  {
    assert printed[0] == printed[..2][0] && printed[1] == printed[..2][1];
    HexDigitsAreDigits(printed[2..]);
  }

  /** A digit string without superfluous zeros has at least the value of its leading place. */
  lemma {:induction false} LeadingPlace(s: string)
    requires s != [] && AllDigits(s, 16) && DigitOf(s[0]) > 0
    ensures ValueOf(s, 16) >= Pow16(|s| - 1)
  {
    if |s| > 1 {
      LeadingPlace(s[..|s| - 1]);
    }
  }

  lemma {:induction false} BelowNextPlace(s: string)
    requires AllDigits(s, 16)
    ensures ValueOf(s, 16) < Pow16(|s|)
  {
    if s != [] {
      BelowNextPlace(s[..|s| - 1]);
      assert s[|s| - 1] in s;
    }
  }

  lemma {:induction false} Pow16Monotone(m: nat, n: nat)
    requires m <= n
    ensures Pow16(m) <= Pow16(n)
  {
    if m < n {
      Pow16Monotone(m, n - 1);
    }
  }

  /** A lower-case digit is determined by its value. */
  lemma SameDigit(c: char, d: char)
    requires IsLowerHex(c) && IsLowerHex(d) && DigitOf(c) == DigitOf(d)
    ensures c == d
  {
  }

  lemma SameSplit(v: nat, d: nat, w: nat, e: nat)
    requires v * 16 + d == w * 16 + e && d < 16 && e < 16
    ensures v == w && d == e
  {
  }

  lemma {:induction false} SameLengthSameValue(s: string, t: string)
    requires |s| == |t| && ValueOf(s, 16) == ValueOf(t, 16)
    requires AllDigits(s, 16) && AllDigits(t, 16)
    requires (forall c | c in s :: IsLowerHex(c)) && (forall c | c in t :: IsLowerHex(c))
    ensures s == t
  {
    if s != [] {
      var n := |s| - 1;
      var c, d := s[n], t[n];
      assert c in s && d in t;
      SameSplit(ValueOf(s[..n], 16), DigitOf(c), ValueOf(t[..n], 16), DigitOf(d));
      SameDigit(c, d);
      SameLengthSameValue(s[..n], t[..n]);
      assert s == s[..n] + [c] && t == t[..n] + [d];
    }
  }

  lemma NonZeroLead(s: string)
    requires s != [] && (forall c | c in s :: IsLowerHex(c)) && s[0] != '0'
    ensures DigitOf(s[0]) > 0
  {
    assert s[0] in s;
  }

  /** There is one shortest numeral for each value. */
  lemma ShortestIsUnique(s: string, t: string, value: nat)
    requires Shortest(s, value) && Shortest(t, value)
    ensures s == t
  {
    NoLonger(s, t, value);
    NoLonger(t, s, value);
    HexDigitsAreDigits(s);
    HexDigitsAreDigits(t);
    SameLengthSameValue(s, t);
  }

  /** And every other lower-case numeral for the value is at least as long. */
  lemma NoLonger(s: string, t: string, value: nat)
    requires Shortest(s, value)
    requires t != [] && (forall c | c in t :: IsLowerHex(c)) && ValueOf(t, 16) == value
    ensures |s| <= |t|
  {
    HexDigitsAreDigits(s);
    HexDigitsAreDigits(t);
    if |s| > |t| {
      NonZeroLead(s);
      LeadingPlace(s);
      BelowNextPlace(t);
      Pow16Monotone(|t|, |s| - 1);
    }
  }

  // ---------- which numerals are read, and as what ----------

  predicate IsDecimal(c: char) {
    '0' <= c <= '9'
  }

  predicate IsHexadecimal(c: char) {
    '0' <= c <= '9' || 'a' <= c <= 'f' || 'A' <= c <= 'F'
  }

  predicate StartsWithHex(text: string) {
    "0x" <= text || "0X" <= text
  }

  /** The texts accepted, character by character: digits of the right kind, at least one, of a value below 2^64. */
  lemma AcceptedTexts(text: string)
    ensures var rest := if StartsWithHex(text) then text[2..] else text;
            Parsed(text).Some? <==>
              && rest != []
              && (forall c | c in rest :: if StartsWithHex(text) then IsHexadecimal(c) else IsDecimal(c))
              && ValueOf(rest, if StartsWithHex(text) then 16 else 10) < 0x1_0000_0000_0000_0000
  {
    PrefixIsHex(text);
    forall c ensures IsDigit(c, 16) <==> IsHexadecimal(c) {
      DigitsMean(c);
    }
    forall c ensures IsDigit(c, 10) <==> IsDecimal(c) {
      DigitsMean(c);
    }
  }

  lemma DigitsMean(c: char)
    ensures IsDigit(c, 16) <==> IsHexadecimal(c)
    ensures IsDigit(c, 10) <==> IsDecimal(c)
  {
  }

  lemma PrefixIsHex(text: string)
    ensures HasHexPrefix(text) <==> StartsWithHex(text)
  {
    if |text| >= 2 {
      assert text[..2] == [text[0], text[1]];
    }
  }

  /** The decimal numeral of a value. */
  function Decimal(value: nat): (s: string)
    ensures s != [] && forall c | c in s :: IsDecimal(c)
  {
    if value < 10 then ["0123456789"[value]] else Decimal(value / 10) + ["0123456789"[value % 10]]
  }

  lemma {:induction false} ValueOfDecimal(value: nat)
    ensures ValueOf(Decimal(value), 10) == value
  {
    if value >= 10 {
      var s := Decimal(value);
      ValueOfDecimal(value / 10);
      assert s[..|s| - 1] == Decimal(value / 10);
    } else {
      assert ValueOf([], 10) == 0;
    }
  }

  /** parse_address reads every decimal numeral as its value. */
  lemma ParseOfDecimal(value: Address)
    ensures Parsed(Decimal(value)) == Some(value)
  {
    ValueOfDecimal(value);
    DecimalIsDecimal(Decimal(value));
  }

  lemma DecimalIsDecimal(s: string)
    requires forall c | c in s :: IsDecimal(c)
    ensures !HasHexPrefix(s) && AllDigits(s, 10)
  {
    if |s| >= 2 {
      assert s[1] in s;
    }
  }

  /** The same letter, in upper case. */
  function Upper(c: char): char {
    match c
    case 'a' => 'A'
    case 'b' => 'B'
    case 'c' => 'C'
    case 'd' => 'D'
    case 'e' => 'E'
    case 'f' => 'F'
    case _ => c
  }

  function UpperCase(s: string): (u: string)
    ensures |u| == |s|
  {
    if s == [] then [] else UpperCase(s[..|s| - 1]) + [Upper(s[|s| - 1])]
  }

  lemma {:induction false} ValueOfUpperCase(s: string)
    ensures ValueOf(UpperCase(s), 16) == ValueOf(s, 16)
    ensures AllDigits(UpperCase(s), 16) <==> AllDigits(s, 16)
  {
    if s != [] {
      var n := |s| - 1;
      var u := UpperCase(s);
      ValueOfUpperCase(s[..n]);
      assert u[..n] == UpperCase(s[..n]);
      assert s == s[..n] + [s[n]] && u == u[..n] + [u[n]];
    }
  }

  /** Neither the case of the digits nor that of the prefix matters. */
  lemma ParseOfUpperCase(digits: string)
    ensures Parsed("0X" + UpperCase(digits)) == Parsed("0x" + digits)
  {
    ValueOfUpperCase(digits);
    ParsedHex("0X", UpperCase(digits));
    ParsedHex("0x", digits);
  }

  lemma ParsedHex(prefix: string, digits: string)
    requires prefix == "0x" || prefix == "0X"
    ensures Parsed(prefix + digits) ==
              if digits != [] && AllDigits(digits, 16) && ValueOf(digits, 16) < ADDRESS_SPACE
              then Some(ValueOf(digits, 16)) else None
  {
    var text := prefix + digits;
    assert text[2..] == digits && text[0] == prefix[0] && text[1] == prefix[1];
  }

  // ---------- words ----------

  predicate IsSpace(c: char) {
    c in {' ', '\t', '\n', '\r', '\U{0B}', '\U{0C}'}
  }

  predicate IsQuote(c: char) {
    c == '\'' || c == '"'
  }

  /** Where a scan stands: the finished words, the one being collected, and the open quote if any. */
  datatype Scan = Scan(words: seq<string>, current: string, quote: Option<char>)

  function Step(s: Scan, c: char): Scan {
    if IsQuote(c) && (s.quote == None || s.quote == Some(c)) then
      s.(quote := if s.quote == None then Some(c) else None)
    else if IsSpace(c) && s.quote == None then
      if s.current != [] then s.(words := s.words + [s.current], current := []) else s
    else
      s.(current := s.current + [c])
  }

  function Scanned(s: Scan, text: string): Scan
    decreases text
  {
    if text == [] then s else Scanned(Step(s, text[0]), text[1..])
  }

  function Finished(s: Scan): seq<string> {
    if s.current != [] then s.words + [s.current] else s.words
  }

  /** The words of a line. */
  function Tokens(text: string): seq<string> {
    Finished(Scanned(Scan([], [], None), text))
  }

  method Words(value: string) returns (result: seq<string>)
    ensures result == Tokens(value)
  {
    result := [];
    var current := "";
    var quoted := false;
    var quote: char := '\0';
    var i := 0;
    while i < |value|
      invariant 0 <= i <= |value|
      invariant Scanned(Scan([], [], None), value) ==
                Scanned(Scan(result, current, if quoted then Some(quote) else None), value[i..])
    {
      var ch := value[i];
      if (ch == '\'' || ch == '"') && (!quoted || ch == quote) {
        if quoted {
          quoted := false;
        } else {
          quoted := true;
          quote := ch;
        }
      } else if IsSpace(ch) && !quoted {
        if current != [] {
          result := result + [current];
          current := "";
        }
      } else {
        current := current + [ch];
      }
      i := i + 1;
    }
    if current != [] {
      result := result + [current];
    }
  }

  // ---------- what tokenizing keeps ----------

  function Concat(parts: seq<string>): string {
    if parts == [] then [] else Concat(parts[..|parts| - 1]) + parts[|parts| - 1]
  }

  lemma ConcatAppend(parts: seq<string>, last: string)
    ensures Concat(parts + [last]) == Concat(parts) + last
  {
    assert (parts + [last])[..|parts|] == parts;
  }

  /** What a character adds to a word: nothing when it delimits a quoted part, or is whitespace outside one. */
  function Adds(c: char, quote: Option<char>): string {
    if quote == Some(c) || (quote == None && (IsQuote(c) || IsSpace(c))) then [] else [c]
  }

  /** The quote open after a character. */
  function QuoteAfter(c: char, quote: Option<char>): Option<char> {
    if quote == Some(c) then None
    else if quote == None && IsQuote(c) then Some(c)
    else quote
  }

  /** The line without its delimiting quotes and without whitespace outside quotes. */
  function Kept(text: string, quote: Option<char>): string {
    if text == [] then [] else Adds(text[0], quote) + Kept(text[1..], QuoteAfter(text[0], quote))
  }

  /** A scan's open quote is a quote character, and it has finished no empty word. */
  ghost predicate Sane(s: Scan) {
    (s.quote.Some? ==> IsQuote(s.quote.value)) && forall w | w in s.words :: w != []
  }

  /** All the characters a scan has taken in so far. */
  function Collected(s: Scan): string {
    Concat(s.words) + s.current
  }

  lemma StepKeeps(s: Scan, c: char)
    requires Sane(s)
    ensures Sane(Step(s, c)) && Step(s, c).quote == QuoteAfter(c, s.quote)
    ensures Collected(Step(s, c)) == Collected(s) + Adds(c, s.quote)
  {
    if Adds(c, s.quote) != [] {
      assert Step(s, c) == s.(current := s.current + [c]);
    } else {
      assert Collected(s) + [] == Collected(s);
      if !IsQuote(c) && s.current != [] {
        ConcatAppend(s.words, s.current);
        assert Step(s, c).words == s.words + [s.current];
      }
    }
  }

  lemma {:induction false} ScanKeeps(s: Scan, text: string)
    requires Sane(s)
    ensures Sane(Scanned(s, text))
    ensures Collected(Scanned(s, text)) == Collected(s) + Kept(text, s.quote)
    decreases text
  {
    if text != [] {
      StepKeeps(s, text[0]);
      ScanKeeps(Step(s, text[0]), text[1..]);
    }
  }

  /** No word is empty, and the words together are the line minus delimiting quotes and unquoted whitespace. */
  lemma TokensKeep(text: string)
    ensures forall w | w in Tokens(text) :: w != []
    ensures Concat(Tokens(text)) == Kept(text, None)
  {
    var start := Scan([], [], None);
    var s := Scanned(start, text);
    ScanKeeps(start, text);
    assert Collected(start) + Kept(text, None) == Kept(text, None);
    ConcatAppend(s.words, s.current);
    assert s.current == [] ==> Concat(s.words) + s.current == Concat(s.words);
  }

  // ---------- splitting ----------

  lemma {:induction false} ScannedBehind(words: seq<string>, s: Scan, text: string)
    ensures Scanned(s.(words := words + s.words), text) == Scanned(s, text).(words := words + Scanned(s, text).words)
    decreases text
  {
    if text != [] {
      var s' := Step(s, text[0]);
      assert words + (s.words + [s.current]) == words + s.words + [s.current];
      assert Step(s.(words := words + s.words), text[0]) == s'.(words := words + s'.words);
      ScannedBehind(words, s', text[1..]);
    }
  }

  /** Any of the six whitespace characters, outside quotes, separates the words before it from those after it. */
  lemma SplitsAtSpace(before: string, c: char, after: string)
    requires c == ' ' || c == '\t' || c == '\n' || c == '\r' || c == '\U{0B}' || c == '\U{0C}'
    requires Scanned(Scan([], [], None), before).quote == None
    ensures Tokens(before + [c] + after) == Tokens(before) + Tokens(after)
  {
    var start := Scan([], [], None);
    var s := Scanned(start, before);
    ScannedConcat(start, before + [c], after);
    ScannedConcat(start, before, [c]);
    assert Scanned(s, [c]) == Step(s, c) by {
      assert [c][1..] == [];
    }
    assert Step(s, c) == Scan(Tokens(before), [], None);
    assert Tokens(before) + [] == Tokens(before);
    ScannedBehind(Tokens(before), start, after);
    var t := Scanned(start, after);
    assert Tokens(before) + (t.words + [t.current]) == Tokens(before) + t.words + [t.current];
  }

  predicate IsPlain(c: char) {
    c !in {' ', '\t', '\n', '\r', '\U{0B}', '\U{0C}', '\'', '"'}
  }

  /** A text without quotes and whitespace is one word. */
  lemma {:induction false} ScannedPlain(s: Scan, w: string)
    requires s.quote == None
    requires forall c | c in w :: IsPlain(c)
    ensures Scanned(s, w) == s.(current := s.current + w)
    decreases w
  {
    if w == [] {
      assert s.current + w == s.current;
    } else {
      assert IsPlain(w[0]);
      forall c | c in w[1..] ensures IsPlain(c) {
        assert c in w;
      }
      ScannedPlain(Step(s, w[0]), w[1..]);
      assert s.current + [w[0]] + w[1..] == s.current + w;
    }
  }

  lemma PlainIsOneWord(w: string)
    requires w != []
    requires forall c | c in w :: IsPlain(c)
    ensures Tokens(w) == [w] && Scanned(Scan([], [], None), w).quote == None
  {
    ScannedPlain(Scan([], [], None), w);
    assert [] + w == w;
  }

  // ---------- quoting ----------

  /** Inside single quotes: each character as it is, but ' by closing, double-quoting it, and opening again. */
  function Escaped(w: string): string {
    if w == [] then []
    else (if w[0] == '\'' then "'\"'\"'" else [w[0]]) + Escaped(w[1..])
  }

  function Quoted(w: string): string {
    "'" + Escaped(w) + "'"
  }

  function Printed(parts: seq<string>): string {
    if parts == [] then []
    else if |parts| == 1 then Quoted(parts[0])
    else Printed(parts[..|parts| - 1]) + " " + Quoted(parts[|parts| - 1])
  }

  lemma {:induction false} ScannedConcat(s: Scan, a: string, b: string)
    ensures Scanned(s, a + b) == Scanned(Scanned(s, a), b)
    decreases a
  {
    if a == [] {
      assert a + b == b;
    } else {
      assert (a + b)[0] == a[0] && (a + b)[1..] == a[1..] + b;
      ScannedConcat(Step(s, a[0]), a[1..], b);
    }
  }

  /** Reopening the quotes around a double-quoted ' adds just that character. */
  lemma ScannedApostrophe(s: Scan)
    requires s.quote == Some('\'')
    ensures Scanned(s, "'\"'\"'") == s.(current := s.current + ['\''])
  {
    var t := "'\"'\"'";
    var s1 := Step(s, '\'');
    var s2 := Step(s1, '"');
    var s3 := Step(s2, '\'');
    var s4 := Step(s3, '"');
    assert t[1..] == "\"'\"'" && t[1..][1..] == "'\"'" && t[1..][1..][1..] == "\"'" && t[1..][1..][1..][1..] == "'";
    assert Scanned(s, t) == Scanned(s1, t[1..]) == Scanned(s2, t[1..][1..]) == Scanned(s3, t[1..][1..][1..]);
    assert Scanned(s3, "\"'") == Scanned(s4, "'") == Step(s4, '\'');
  }

  lemma {:induction false} ScannedEscaped(s: Scan, w: string)
    requires s.quote == Some('\'')
    ensures Scanned(s, Escaped(w)) == s.(current := s.current + w)
    decreases w
  {
    if w == [] {
      assert s.current + w == s.current;
    } else {
      var head := if w[0] == '\'' then "'\"'\"'" else [w[0]];
      var s' := s.(current := s.current + [w[0]]);
      assert Scanned(s, head) == s' by {
        if w[0] == '\'' {
          ScannedApostrophe(s);
        }
      }
      ScannedConcat(s, head, Escaped(w[1..]));
      ScannedEscaped(s', w[1..]);
      assert s.current + w == s'.current + w[1..];
    }
  }

  lemma ScannedQuoted(s: Scan, w: string)
    requires s.quote == None
    ensures Scanned(s, Quoted(w)) == s.(current := s.current + w)
  {
    var open := s.(quote := Some('\''));
    ScannedConcat(s, "'", Escaped(w) + "'");
    ScannedConcat(open, Escaped(w), "'");
    ScannedEscaped(open, w);
    assert Quoted(w) == "'" + (Escaped(w) + "'");
    assert Scanned(s, "'") == open;
  }

  lemma {:induction false} ScannedPrinted(parts: seq<string>)
    requires parts != [] && forall w | w in parts :: w != []
    ensures var n := |parts| - 1;
            Scanned(Scan([], [], None), Printed(parts)) == Scan(parts[..n], parts[n], None)
  {
    var start := Scan([], [], None);
    var n := |parts| - 1;
    if n == 0 {
      ScannedQuoted(start, parts[0]);
      assert [] + parts[0] == parts[0];
    } else {
      var before, last := parts[..n], parts[n];
      forall w | w in before ensures w != [] {
        assert w in parts;
      }
      ScannedPrinted(before);
      var s := Scan(before[..n - 1], before[n - 1], None);
      ScannedConcat(start, Printed(before) + " ", Quoted(last));
      ScannedConcat(start, Printed(before), " ");
      assert before == before[..n - 1] + [before[n - 1]];
      assert before[n - 1] in parts;
      assert Scanned(s, " ") == Scan(before, [], None);
      ScannedQuoted(Scan(before, [], None), last);
      assert [] + last == last;
    }
  }

  /** Printing any sequence of non-empty strings, quoted and joined by spaces, tokenizes back to that sequence. */
  lemma TokensOfPrinted(parts: seq<string>)
    requires forall w | w in parts :: w != []
    ensures Tokens(Printed(parts)) == parts
  {
    if parts != [] {
      ScannedPrinted(parts);
      var n := |parts| - 1;
      var last := parts[n];
      assert last in parts && last != [];
      assert Finished(Scan(parts[..n], last, None)) == parts[..n] + [last];
      assert parts == parts[..n] + [last];
    }
  }
}
