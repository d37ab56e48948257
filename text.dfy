/** The Python string built-ins the solver relies on, written out:
    str.isspace, str.strip, str.split, str.replace(",", " "), str.lower,
    str.isalpha and int() on a token. Letters and case mapping are ASCII;
    whitespace is the full set Python's str.isspace accepts. */
module Text {

  datatype Option<T> = None | Some(value: T)

  /** Python's str.isspace for one character: the characters that strip()
      removes and that split() with no argument splits on. */
  predicate IsSpace(c: char) {
    || c == ' '
    || ('\t' <= c <= '\r')
    || ('\U{1C}' <= c <= '\U{1F}')
    || c == '\U{85}' || c == '\U{A0}' || c == '\U{1680}'
    || ('\U{2000}' <= c <= '\U{200A}')
    || c == '\U{2028}' || c == '\U{2029}' || c == '\U{202F}'
    || c == '\U{205F}' || c == '\U{3000}'
  }

  predicate IsLetter(c: char) {
    'a' <= c <= 'z' || 'A' <= c <= 'Z'
  }

  predicate IsLowerLetter(c: char) {
    'a' <= c <= 'z'
  }

  predicate IsDigit(c: char) {
    '0' <= c <= '9'
  }

  /** str.isalpha: non-empty and letters only. */
  predicate IsAlphaWord(s: string) {
    |s| > 0 && forall i | 0 <= i < |s| :: IsLetter(s[i])
  }

  /** A word of lower-case letters, as the game's answers are. */
  predicate IsLowerWord(s: string) {
    forall i | 0 <= i < |s| :: IsLowerLetter(s[i])
  }

  /** str.lower on one character. */
  function Lower(c: char): (r: char)
    ensures IsLetter(c) <==> IsLowerLetter(r)
    ensures !('A' <= c <= 'Z') ==> r == c
    ensures 'A' <= c <= 'Z' ==> r as int - 'a' as int == c as int - 'A' as int
  {
    if 'A' <= c <= 'Z' then (c as int - 'A' as int + 'a' as int) as char else c
  }

  /** str.lower on a string. */
  function LowerStr(s: string): (r: string)
    ensures |r| == |s|
    ensures forall i | 0 <= i < |s| :: r[i] == Lower(s[i])
  {
    seq(|s|, i requires 0 <= i < |s| => Lower(s[i]))
  }

  lemma LowerStrOfLowerWord(s: string)
    requires IsLowerWord(s)
    ensures LowerStr(s) == s
  {
  }

  lemma LowerStrOfAlpha(s: string)
    requires IsAlphaWord(s)
    ensures IsLowerWord(LowerStr(s))
  {
  }

  /** str.lstrip(): drops the leading whitespace. */
  function TrimLeft(s: string): (r: string)
    ensures |r| <= |s|
  {
    if s != [] && IsSpace(s[0]) then TrimLeft(s[1..]) else s
  }

  /** lstrip keeps a suffix that starts with a non-space, and everything
      it drops is whitespace. */
  lemma {:induction false} TrimLeftSpec(s: string)
    ensures TrimLeft(s) == s[|s| - |TrimLeft(s)|..]
    ensures TrimLeft(s) == [] || !IsSpace(TrimLeft(s)[0])
    ensures forall i | 0 <= i < |s| - |TrimLeft(s)| :: IsSpace(s[i])
  {
    if s != [] && IsSpace(s[0]) {
      TrimLeftSpec(s[1..]);
    }
  }

  /** str.rstrip(): drops the trailing whitespace. */
  function TrimRight(s: string): (r: string)
    ensures |r| <= |s|
  {
    if s != [] && IsSpace(s[|s| - 1]) then TrimRight(s[..|s| - 1]) else s
  }

  /** rstrip keeps a prefix that ends with a non-space, and everything it
      drops is whitespace. */
  lemma {:induction false} TrimRightSpec(s: string)
    ensures TrimRight(s) == s[..|TrimRight(s)|]
    ensures TrimRight(s) == [] || !IsSpace(TrimRight(s)[|TrimRight(s)| - 1])
    ensures forall i | |TrimRight(s)| <= i < |s| :: IsSpace(s[i])
  {
    if s != [] && IsSpace(s[|s| - 1]) {
      TrimRightSpec(s[..|s| - 1]);
    }
  }

  /** str.strip(). */
  function Strip(s: string): string {
    TrimRight(TrimLeft(s))
  }

  /** strip() keeps the middle of the line between two runs of
      whitespace, and the part it keeps neither starts nor ends with
      whitespace. */
  lemma StripSpec(s: string)
    ensures var r, a := Strip(s), |s| - |TrimLeft(s)|;
      && (r == [] || (!IsSpace(r[0]) && !IsSpace(r[|r| - 1])))
      && 0 <= a <= a + |r| <= |s|
      && r == s[a..a + |r|]
      && (forall i | 0 <= i < a :: IsSpace(s[i]))
      && (forall i | a + |r| <= i < |s| :: IsSpace(s[i]))
  {
    var t := TrimLeft(s);
    TrimLeftSpec(s);
    TrimRightSpec(t);
    var r := Strip(s);
    var a := |s| - |t|;
    assert r == t[..|r|];
    if r != [] {
      assert r[0] == t[0];
    }
    assert r == s[a..a + |r|];
    assert forall i | a + |r| <= i < |s| :: s[i] == t[i - a];
  }

  /** Stripping is idempotent, so a line stripped by the caller and again
      by the parser is the same text. */
  lemma StripIdempotent(s: string)
    ensures Strip(Strip(s)) == Strip(s)
  {
    var t := Strip(s);
    TrimLeftSpec(s);
    TrimRightSpec(TrimLeft(s));
    if t != [] {
      assert t[0] == TrimLeft(s)[0];
    }
    assert TrimLeft(t) == t;
    assert TrimRight(t) == t;
  }

  /** A string strips to nothing exactly when it is all whitespace. */
  lemma {:induction false} StripEmptyIffBlank(s: string)
    ensures Strip(s) == [] <==> forall i | 0 <= i < |s| :: IsSpace(s[i])
  {
    var t := TrimLeft(s);
    TrimLeftSpec(s);
    TrimRightSpec(t);
    if Strip(s) == [] && t != [] {
      assert false;
    }
  }

  /** s.replace(",", " "). */
  function ReplaceCommas(s: string): (r: string)
    ensures |r| == |s|
    ensures forall i | 0 <= i < |s| :: r[i] == (if s[i] == ',' then ' ' else s[i])
  {
    seq(|s|, i requires 0 <= i < |s| => if s[i] == ',' then ' ' else s[i])
  }

  /** Length of the leading run of non-whitespace characters. */
  function LeadingRun(s: string): (n: nat)
    ensures n <= |s|
    ensures forall i | 0 <= i < n :: !IsSpace(s[i])
    ensures n == |s| || IsSpace(s[n])
  {
    if s == [] || IsSpace(s[0]) then 0 else 1 + LeadingRun(s[1..])
  }

  /** A field of str.split(): non-empty and free of whitespace. */
  predicate IsWordToken(w: string) {
    w != [] && forall i | 0 <= i < |w| :: !IsSpace(w[i])
  }

  predicate NoComma(s: string) {
    forall i | 0 <= i < |s| :: s[i] != ','
  }

  /** str.split() with no argument: the maximal runs of non-whitespace
      characters, in order. */
  function Fields(s: string): seq<string>
    decreases |s|
  {
    var t := TrimLeft(s);
    if t == [] then [] else [t[..LeadingRun(t)]] + Fields(t[LeadingRun(t)..])
  }

  lemma NoCommaSlice(s: string, a: nat, b: nat)
    requires NoComma(s) && a <= b <= |s|
    ensures NoComma(s[a..b])
  {
  }

  /** Every field is a non-empty whitespace-free piece of the input, and
      holds no comma when the input holds none. */
  lemma {:induction false} FieldsAreTokens(s: string)
    ensures forall k | 0 <= k < |Fields(s)| :: IsWordToken(Fields(s)[k])
    decreases |s|
  {
    var t := TrimLeft(s);
    TrimLeftSpec(s);
    if t != [] {
      var n := LeadingRun(t);
      var fs, rest := Fields(s), Fields(t[n..]);
      FieldsAreTokens(t[n..]);
      assert fs == [t[..n]] + rest;
      forall k | 0 <= k < |fs| ensures IsWordToken(fs[k]) {
        if k > 0 {
          assert fs[k] == rest[k - 1];
        }
      }
    }
  }

  lemma {:induction false} FieldsNoComma(s: string)
    requires NoComma(s)
    ensures forall k | 0 <= k < |Fields(s)| :: NoComma(Fields(s)[k])
    decreases |s|
  {
    var t := TrimLeft(s);
    TrimLeftSpec(s);
    if t != [] {
      var n := LeadingRun(t);
      var fs, rest := Fields(s), Fields(t[n..]);
      NoCommaSlice(s, |s| - |t|, |s|);
      NoCommaSlice(t, n, |t|);
      NoCommaSlice(t, 0, n);
      FieldsNoComma(t[n..]);
      assert fs == [t[..n]] + rest;
      forall k | 0 <= k < |fs| ensures NoComma(fs[k]) {
        if k > 0 {
          assert fs[k] == rest[k - 1];
        }
      }
    }
  }

  /** The characters of a line that are not whitespace, in order. */
  function NonSpace(s: string): string {
    if s == [] then [] else (if IsSpace(s[0]) then [] else [s[0]]) + NonSpace(s[1..])
  }

  /** The fields glued back together with nothing between them. */
  function Concat(ws: seq<string>): string {
    if ws == [] then [] else ws[0] + Concat(ws[1..])
  }

  lemma {:induction false} NonSpaceTrimLeft(s: string)
    ensures NonSpace(TrimLeft(s)) == NonSpace(s)
  {
    if s != [] && IsSpace(s[0]) {
      NonSpaceTrimLeft(s[1..]);
    }
  }

  lemma {:induction false} NonSpaceRun(t: string)
    ensures NonSpace(t) == t[..LeadingRun(t)] + NonSpace(t[LeadingRun(t)..])
  {
    if t != [] && !IsSpace(t[0]) {
      NonSpaceRun(t[1..]);
      assert t[..LeadingRun(t)] == [t[0]] + t[1..][..LeadingRun(t[1..])];
      assert t[LeadingRun(t)..] == t[1..][LeadingRun(t[1..])..];
    }
  }

  /** str.split() loses only whitespace: its fields, glued together, are
      the line with every whitespace character removed, whatever the runs
      of spaces, tabs or newlines between them. */
  lemma {:induction false} FieldsKeepText(s: string)
    ensures Concat(Fields(s)) == NonSpace(s)
    decreases |s|
  {
    var t := TrimLeft(s);
    TrimLeftSpec(s);
    NonSpaceTrimLeft(s);
    if t != [] {
      var n := LeadingRun(t);
      var rest := Fields(t[n..]);
      NonSpaceRun(t);
      FieldsKeepText(t[n..]);
      assert Fields(s) == [t[..n]] + rest;
      assert ([t[..n]] + rest)[1..] == rest;
    }
  }

  /** Words joined by single spaces: the inverse of Fields. */
  function JoinSpaces(ws: seq<string>): string {
    if ws == [] then []
    else if |ws| == 1 then ws[0]
    else ws[0] + " " + JoinSpaces(ws[1..])
  }

  lemma {:induction false} LeadingRunOfToken(w: string, rest: string)
    requires forall i | 0 <= i < |w| :: !IsSpace(w[i])
    requires rest == [] || IsSpace(rest[0])
    ensures LeadingRun(w + rest) == |w|
  {
    if w != [] {
      assert (w + rest)[1..] == w[1..] + rest;
      LeadingRunOfToken(w[1..], rest);
    }
  }

  lemma FieldsSkipsSpace(c: char, s: string)
    requires IsSpace(c)
    ensures Fields([c] + s) == Fields(s)
  {
    assert ([c] + s)[1..] == s;
  }

  /** A single token splits into itself. */
  lemma FieldsOfToken(w: string)
    requires IsWordToken(w)
    ensures Fields(w) == [w]
  {
    assert TrimLeft(w) == w;
    LeadingRunOfToken(w, []);
    assert w + [] == w;
    assert w[..|w|] == w;
    assert Fields(w[|w|..]) == [];
  }

  /** A token followed by a space splits off as the first field. */
  lemma FieldsOfTokenThenSpace(w: string, rest: string)
    requires IsWordToken(w)
    ensures Fields(w + " " + rest) == [w] + Fields(rest)
  {
    var s := w + " " + rest;
    assert s == w + ([' '] + rest);
    assert TrimLeft(s) == s;
    TrimLeftSpec([' '] + rest);
    LeadingRunOfToken(w, [' '] + rest);
    assert s[..|w|] == w;
    assert s[|w|..] == [' '] + rest;
    FieldsSkipsSpace(' ', rest);
  }

  /** Splitting space-joined tokens gives the tokens back. */
  lemma {:induction false} FieldsOfJoin(ws: seq<string>)
    requires forall k | 0 <= k < |ws| :: IsWordToken(ws[k])
    ensures Fields(JoinSpaces(ws)) == ws
  {
    if ws == [] {
    } else if |ws| == 1 {
      FieldsOfToken(ws[0]);
    } else {
      FieldsOfTokenThenSpace(ws[0], JoinSpaces(ws[1..]));
      FieldsOfJoin(ws[1..]);
    }
  }

  function DigitValue(c: char): nat
    requires IsDigit(c)
  {
    c as int - '0' as int
  }

  function DigitChar(d: nat): (c: char)
    requires d < 10
    ensures IsDigit(c) && DigitValue(c) == d
  {
    ('0' as int + d) as char
  }

  /** The digit string int() accepts after an optional sign: ASCII digits,
      with single underscores allowed between two digits. */
  predicate IsDigitGroups(s: string) {
    && |s| > 0
    && IsDigit(s[0]) && IsDigit(s[|s| - 1])
    && (forall i | 0 <= i < |s| :: IsDigit(s[i]) || s[i] == '_')
    && (forall i | 0 <= i < |s| - 1 :: !(s[i] == '_' && s[i + 1] == '_'))
  }

  /** Decimal value of digits, underscores ignored. */
  function DigitsValue(s: string): nat
    requires forall i | 0 <= i < |s| :: IsDigit(s[i]) || s[i] == '_'
  {
    if s == [] then 0
    else
      var last := s[|s| - 1];
      if last == '_' then DigitsValue(s[..|s| - 1])
      else 10 * DigitsValue(s[..|s| - 1]) + DigitValue(last)
  }

  /** int(s) on a token without whitespace: an optional '+' or '-' followed
      by digit groups; anything else is the ValueError (None). */
  function ParseInt(s: string): Option<int> {
    if |s| > 0 && (s[0] == '+' || s[0] == '-') then
      if IsDigitGroups(s[1..]) then
        var v: int := DigitsValue(s[1..]);
        Some(if s[0] == '-' then -v else v)
      else None
    else if IsDigitGroups(s) then Some(DigitsValue(s))
    else None
  }

  /** The decimal rendering of a natural number, without sign or underscores. */
  function DecimalString(n: nat): (s: string)
    ensures |s| > 0 && forall i | 0 <= i < |s| :: IsDigit(s[i])
  {
    if n < 10 then [DigitChar(n)] else DecimalString(n / 10) + [DigitChar(n % 10)]
  }

  lemma {:induction false} DigitsValueOfDecimal(n: nat)
    ensures DigitsValue(DecimalString(n)) == n
  {
    var s := DecimalString(n);
    if n < 10 {
      assert s[..0] == [];
    } else {
      DigitsValueOfDecimal(n / 10);
      assert s[..|s| - 1] == DecimalString(n / 10);
    }
  }

  /** int() reads back what DecimalString writes, with or without a sign. */
  lemma ParseIntOfDecimal(n: nat)
    ensures ParseInt(DecimalString(n)) == Some(n)
    ensures ParseInt(['+'] + DecimalString(n)) == Some(n)
    ensures ParseInt(['-'] + DecimalString(n)) == Some(-(n as int))
  {
    var s := DecimalString(n);
    DigitsValueOfDecimal(n);
    assert (['+'] + s)[1..] == s;
    assert (['-'] + s)[1..] == s;
  }

  /** int() as Python reads a position: a sign and single underscores
      between digits are accepted; an empty text, a lone sign, a doubled,
      leading or trailing underscore and any other character are
      refused. */
  lemma ParseIntExamples()
    ensures ParseInt("12") == Some(12)
    ensures ParseInt("+3") == Some(3) && ParseInt("-1") == Some(-1)
    ensures ParseInt("1_0") == Some(10)
    ensures ParseInt("") == None && ParseInt("+") == None
    ensures ParseInt("1__0") == None && ParseInt("_1") == None && ParseInt("1_") == None
    ensures ParseInt("3a") == None
  {
    assert "12"[..1] == "1";
    assert "+3"[1..] == "3" && "-1"[1..] == "1";
    assert "3"[..0] == [] && "1"[..0] == [];
    assert "1_0"[..2] == "1_" && "1_"[..1] == "1";
    assert !IsDigit('a') && !IsDigit('_');
    assert "1__0"[1] == '_' && "1__0"[2] == '_';
  }

  /** The first position of c in s (what str.split(c, 1) cuts at). */
  function FirstIndex(s: string, c: char): (k: nat)
    requires c in s
    ensures k < |s| && s[k] == c && c !in s[..k]
  {
    if s[0] == c then 0
    else
      var k := FirstIndex(s[1..], c);
      assert s[..k + 1] == [s[0]] + s[1..][..k];
      k + 1
  }
}
