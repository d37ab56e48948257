/** The two feedback parsers of one round: the greens pattern ('.r..e',
    a letter where the guess was right, '.' or '_' where it was not) and
    the yellows list ('a@3 n@5': letter present, but not at that 1-based
    position). A ValueError of the source is an Err here. */
module Feedback {
  import opened Text

  /** The ValueErrors the two parsers raise, with the text they quote. */
  datatype ParseError =
    | PatternNotLetters
    | EntryWithoutAt(entry: string)
    | BadLetter(letter: string)
    | BadPosition(pos: string)
    | PositionOutOfRange(position: int, wordLen: int)

  datatype Result<T> = Ok(value: T) | Err(error: ParseError)

  /** A yellow: a letter and the 0-based position it was reported at. */
  type Yellow = (char, int)

  predicate IsPlaceholder(c: char) {
    c == '.' || c == '_'
  }

  /** What parse_greens_pattern returns: after stripping, every character
      is a placeholder or a letter, and each letter maps its 0-based
      position to its lower-case form; otherwise the pattern is refused. */
  function GreensPattern(pattern: string): (r: Result<map<int, char>>)
    ensures r.Err? <==>
      exists i | 0 <= i < |Strip(pattern)| :: !IsPlaceholder(Strip(pattern)[i]) && !IsLetter(Strip(pattern)[i])
    ensures r.Err? ==> r.error == PatternNotLetters
    ensures r.Ok? ==> forall i | 0 <= i < |Strip(pattern)| && !IsPlaceholder(Strip(pattern)[i]) ::
      i in r.value && r.value[i] == Lower(Strip(pattern)[i])
    ensures r.Ok? ==> forall i | i in r.value ::
      0 <= i < |Strip(pattern)| && !IsPlaceholder(Strip(pattern)[i]) && IsLowerLetter(r.value[i])
  {
    var p := Strip(pattern);
    if forall i | 0 <= i < |p| :: IsPlaceholder(p[i]) || IsLetter(p[i]) then
      Ok(map i | 0 <= i < |p| && !IsPlaceholder(p[i]) :: Lower(p[i]))
    else
      Err(PatternNotLetters)
  }

  /** parse_greens_pattern: one pass over the stripped pattern, stopping at
      the first character that is neither a placeholder nor a letter. */
  method ParseGreensPattern(pattern: string) returns (r: Result<map<int, char>>)
    ensures r == GreensPattern(pattern)
  {
    var p := Strip(pattern);
    var out: map<int, char> := map[];
    var i := 0;
    while i < |p|
      invariant 0 <= i <= |p|
      invariant forall j | 0 <= j < i :: IsPlaceholder(p[j]) || IsLetter(p[j])
      invariant forall j | j in out :: 0 <= j < i && !IsPlaceholder(p[j]) && out[j] == Lower(p[j])
      invariant forall j | 0 <= j < i && !IsPlaceholder(p[j]) :: j in out
    {
      var ch := p[i];
      if !IsPlaceholder(ch) {
        if !IsLetter(ch) {
          return Err(PatternNotLetters);
        }
        out := out[i := Lower(ch)];
      }
      i := i + 1;
    }
    assert out == map j | 0 <= j < |p| && !IsPlaceholder(p[j]) :: Lower(p[j]);
    r := Ok(out);
  }

  /** The docstring's example: '.r..e' gives {1: 'r', 4: 'e'}. */
  lemma GreensPatternExample()
    ensures GreensPattern(".r..e") == Ok(map[1 := 'r', 4 := 'e'])
  {
    var p := ".r..e";
    assert p[0] == '.' && p[1] == 'r' && p[2] == '.' && p[3] == '.' && p[4] == 'e';
    assert Strip(p) == p by {
      assert TrimLeft(p) == p;
      assert TrimRight(p) == p;
    }
    assert forall i | 0 <= i < |p| :: IsPlaceholder(p[i]) || IsLetter(p[i]);
    var m := map i | 0 <= i < |p| && !IsPlaceholder(p[i]) :: Lower(p[i]);
    assert m.Keys == {1, 4};
    assert m == map[1 := 'r', 4 := 'e'];
  }

  /** An entry whose first '@' follows exactly one letter. */
  predicate LetterAt(p: string) {
    |p| >= 2 && IsLetter(p[0]) && p[1] == '@'
  }

  /** One 'letter@pos' entry: split at the first '@'; the part before it
      must be exactly one letter, the part after it an integer in
      1..wordLen. The position comes back 0-based. Each refusal is stated
      with the condition that causes it. */
  function YellowEntry(p: string, wordLen: int): (r: Result<Yellow>)
    ensures r == Err(EntryWithoutAt(p)) <==> '@' !in p
    ensures r.Err? && r.error.BadLetter? <==> '@' in p && !LetterAt(p)
    ensures r.Err? && r.error.BadLetter? ==> r.error.letter == p[..FirstIndex(p, '@')]
    ensures LetterAt(p) ==> (r == Err(BadPosition(p[2..])) <==> ParseInt(p[2..]).None?)
    ensures LetterAt(p) && ParseInt(p[2..]).Some? ==>
      (r == Err(PositionOutOfRange(ParseInt(p[2..]).value, wordLen)) <==>
         !(1 <= ParseInt(p[2..]).value <= wordLen))
    ensures r.Ok? <==>
      LetterAt(p) && ParseInt(p[2..]).Some? && 1 <= ParseInt(p[2..]).value <= wordLen
    ensures r.Ok? ==>
      && r.value == (Lower(p[0]), ParseInt(p[2..]).value - 1)
      && IsLowerLetter(r.value.0) && 0 <= r.value.1 < wordLen
  {
    if '@' !in p then Err(EntryWithoutAt(p))
    else
      var at := FirstIndex(p, '@');
      var letter, pos := p[..at], p[at + 1..];
      if |letter| != 1 || !IsLetter(letter[0]) then Err(BadLetter(letter))
      else
        match ParseInt(pos)
        case None => Err(BadPosition(pos))
        case Some(idx1) =>
          if !(1 <= idx1 <= wordLen) then Err(PositionOutOfRange(idx1, wordLen))
          else Ok((Lower(letter[0]), idx1 - 1))
  }

  /** The entries of a yellows line: commas count as spaces. */
  function YellowTokens(s: string): seq<string> {
    Fields(ReplaceCommas(s))
  }

  function Prepend(ys: seq<Yellow>, r: Result<seq<Yellow>>): Result<seq<Yellow>> {
    if r.Ok? then Ok(ys + r.value) else r
  }

  /** Every entry parsed in order; the first bad entry decides the error. */
  function YellowEntries(tokens: seq<string>, wordLen: int): Result<seq<Yellow>> {
    if tokens == [] then Ok([])
    else
      match YellowEntry(tokens[0], wordLen)
      case Err(e) => Err(e)
      case Ok(y) => Prepend([y], YellowEntries(tokens[1..], wordLen))
  }

  /** What parse_yellows returns: nothing for a blank line, otherwise one
      yellow per entry. */
  function Yellows(spec: string, wordLen: int): (r: Result<seq<Yellow>>)
    ensures (forall i | 0 <= i < |spec| :: IsSpace(spec[i])) ==> r == Ok([])
    ensures r.Ok? ==> forall k | 0 <= k < |r.value| ::
      IsLowerLetter(r.value[k].0) && 0 <= r.value[k].1 < wordLen
  {
    StripEmptyIffBlank(spec);
    var s := Strip(spec);
    if s == [] then Ok([])
    else
      YellowEntriesOk(YellowTokens(s), wordLen);
      YellowEntries(YellowTokens(s), wordLen)
  }

  /** Parsing one more entry: its error ends the list, its yellow extends it. */
  lemma PrependStep(out: seq<Yellow>, tokens: seq<string>, wordLen: int)
    requires tokens != []
    ensures YellowEntry(tokens[0], wordLen).Err? ==>
      Prepend(out, YellowEntries(tokens, wordLen)) == Err(YellowEntry(tokens[0], wordLen).error)
    ensures YellowEntry(tokens[0], wordLen).Ok? ==>
      Prepend(out, YellowEntries(tokens, wordLen)) ==
      Prepend(out + [YellowEntry(tokens[0], wordLen).value], YellowEntries(tokens[1..], wordLen))
  {
    var first, rest := YellowEntry(tokens[0], wordLen), YellowEntries(tokens[1..], wordLen);
    if first.Err? {
      assert YellowEntries(tokens, wordLen) == Err(first.error);
    } else {
      assert YellowEntries(tokens, wordLen) == Prepend([first.value], rest);
      if rest.Ok? {
        assert out + ([first.value] + rest.value) == out + [first.value] + rest.value;
      }
    }
  }

  /** parse_yellows: a loop over the entries that appends each parsed
      yellow and stops at the first bad one. */
  method ParseYellows(spec: string, wordLen: int) returns (r: Result<seq<Yellow>>)
    ensures r == Yellows(spec, wordLen)
  {
    var s := Strip(spec);
    if s == [] {
      return Ok([]);
    }
    var parts := YellowTokens(s);
    assert Yellows(spec, wordLen) == YellowEntries(parts, wordLen);
    var out: seq<Yellow> := [];
    var k := 0;
    assert parts[k..] == parts;
    assert YellowEntries(parts, wordLen).Ok? ==> [] + YellowEntries(parts, wordLen).value == YellowEntries(parts, wordLen).value;
    while k < |parts|
      invariant 0 <= k <= |parts|
      invariant YellowEntries(parts, wordLen) == Prepend(out, YellowEntries(parts[k..], wordLen))
    {
      var entry := YellowEntry(parts[k], wordLen);
      PrependStep(out, parts[k..], wordLen);
      if entry.Err? {
        return Err(entry.error);
      }
      assert parts[k..][1..] == parts[k + 1..];
      out := out + [entry.value];
      k := k + 1;
    }
    assert parts[k..] == [] && out + [] == out;
    r := Ok(out);
  }

  /** The entries parse exactly when each one does, and then the k-th
      yellow is the k-th entry's, a lower-case letter at a position in
      0..wordLen-1. */
  lemma {:induction false} YellowEntriesOk(tokens: seq<string>, wordLen: int)
    ensures YellowEntries(tokens, wordLen).Ok? <==>
      forall k | 0 <= k < |tokens| :: YellowEntry(tokens[k], wordLen).Ok?
    ensures YellowEntries(tokens, wordLen).Ok? ==>
      var ys := YellowEntries(tokens, wordLen).value;
      && |ys| == |tokens|
      && forall k | 0 <= k < |ys| ::
           && ys[k] == YellowEntry(tokens[k], wordLen).value
           && IsLowerLetter(ys[k].0) && 0 <= ys[k].1 < wordLen
  {
    if tokens != [] {
      YellowEntriesOk(tokens[1..], wordLen);
      assert forall k | 1 <= k < |tokens| :: tokens[k] == tokens[1..][k - 1];
    }
  }

  /** When the entries do not parse, the error is that of the first entry
      that does not. */
  lemma {:induction false} YellowEntriesFirstError(tokens: seq<string>, wordLen: int)
    requires YellowEntries(tokens, wordLen).Err?
    ensures exists k | 0 <= k < |tokens| ::
      && YellowEntry(tokens[k], wordLen) == Err(YellowEntries(tokens, wordLen).error)
      && forall j | 0 <= j < k :: YellowEntry(tokens[j], wordLen).Ok?
  {
    if YellowEntry(tokens[0], wordLen).Ok? {
      YellowEntriesFirstError(tokens[1..], wordLen);
      var k :| 0 <= k < |tokens[1..]| &&
        YellowEntry(tokens[1..][k], wordLen) == Err(YellowEntries(tokens[1..], wordLen).error) &&
        forall j | 0 <= j < k :: YellowEntry(tokens[1..][j], wordLen).Ok?;
      assert forall j | 1 <= j < k + 1 :: tokens[j] == tokens[1..][j - 1];
      assert YellowEntry(tokens[k + 1], wordLen) == Err(YellowEntries(tokens, wordLen).error);
    } else {
      assert YellowEntry(tokens[0], wordLen) == Err(YellowEntries(tokens, wordLen).error);
    }
  }

  /** The entry text for one yellow: its letter, '@', its 1-based position. */
  function EntryText(y: Yellow): string
    requires y.1 >= 0
  {
    [y.0, '@'] + DecimalString(y.1 + 1)
  }

  /** A yellows line listing the given yellows, separated by spaces. */
  function YellowsLine(ys: seq<Yellow>): string
    requires forall k | 0 <= k < |ys| :: ys[k].1 >= 0
  {
    JoinSpaces(seq(|ys|, k requires 0 <= k < |ys| => EntryText(ys[k])))
  }

  /** An entry written as letter@N parses back to the letter (lower-cased)
      and N-1 when N is in 1..wordLen, and is refused as out of range
      otherwise. */
  lemma YellowEntryOfText(c: char, n: nat, wordLen: int)
    requires IsLetter(c)
    ensures YellowEntry([c, '@'] + DecimalString(n), wordLen) ==
      if 1 <= n <= wordLen then Ok((Lower(c), n - 1)) else Err(PositionOutOfRange(n, wordLen))
  {
    var p := [c, '@'] + DecimalString(n);
    assert p[1] == '@';
    assert FirstIndex(p, '@') == 1;
    assert p[..1] == [c];
    assert p[2..] == DecimalString(n);
    ParseIntOfDecimal(n);
  }

  lemma {:induction false} YellowEntriesOfTexts(ys: seq<Yellow>, wordLen: int)
    requires forall k | 0 <= k < |ys| :: IsLowerLetter(ys[k].0) && 0 <= ys[k].1 < wordLen
    ensures YellowEntries(seq(|ys|, k requires 0 <= k < |ys| => EntryText(ys[k])), wordLen) == Ok(ys)
  {
    if ys != [] {
      YellowEntryOfText(ys[0].0, ys[0].1 + 1, wordLen);
      EntryTextsTail(ys);
      YellowEntriesOfTexts(ys[1..], wordLen);
      assert [ys[0]] + ys[1..] == ys;
    }
  }

  lemma EntryTextsTail(ys: seq<Yellow>)
    requires ys != [] && forall k | 0 <= k < |ys| :: ys[k].1 >= 0
    ensures var texts := seq(|ys|, k requires 0 <= k < |ys| => EntryText(ys[k]));
      && texts[0] == EntryText(ys[0])
      && texts[1..] == seq(|ys[1..]|, k requires 0 <= k < |ys[1..]| => EntryText(ys[1..][k]))
  {
  }

  /** parse_yellows inverts the writing of a yellows line: every list of
      lower-case yellows at positions in 0..wordLen-1 survives the round
      trip through its text. */
  lemma YellowsRoundTrip(ys: seq<Yellow>, wordLen: int)
    requires forall k | 0 <= k < |ys| :: IsLowerLetter(ys[k].0) && 0 <= ys[k].1 < wordLen
    ensures Yellows(YellowsLine(ys), wordLen) == Ok(ys)
  {
    var texts := seq(|ys|, k requires 0 <= k < |ys| => EntryText(ys[k]));
    var line := YellowsLine(ys);
    assert forall k | 0 <= k < |texts| :: IsWordToken(texts[k]) && NoComma(texts[k]);
    LineOfTokens(texts);
    if ys == [] {
    } else {
      assert Strip(line) == line;
      assert ReplaceCommas(line) == line;
      FieldsOfJoin(texts);
      YellowEntriesOfTexts(ys, wordLen);
    }
  }

  /** A line of space-joined comma-free tokens holds no comma and starts
      and ends with a non-space. */
  lemma {:induction false} LineOfTokens(ws: seq<string>)
    requires forall k | 0 <= k < |ws| :: IsWordToken(ws[k]) && NoComma(ws[k])
    ensures NoComma(JoinSpaces(ws))
    ensures ws != [] ==>
      (JoinSpaces(ws) != [] && !IsSpace(JoinSpaces(ws)[0]) &&
       !IsSpace(JoinSpaces(ws)[|JoinSpaces(ws)| - 1]))
  {
    if |ws| > 1 {
      LineOfTokens(ws[1..]);
      var rest := JoinSpaces(ws[1..]);
      var line := ws[0] + " " + rest;
      assert forall i | 0 <= i < |line| ::
        line[i] == (if i < |ws[0]| then ws[0][i] else if i == |ws[0]| then ' ' else rest[i - |ws[0]| - 1]);
    }
  }

  /** The docstring's example: 'a@3 n@5' gives [('a', 2), ('n', 4)]. */
  lemma YellowsExample()
    ensures Yellows("a@3 n@5", 5) == Ok([('a', 2), ('n', 4)])
  {
    var ys := [('a', 2), ('n', 4)];
    assert EntryText(ys[0]) == "a@3" by {
      assert DecimalString(3) == ['3'];
    }
    assert EntryText(ys[1]) == "n@5" by {
      assert DecimalString(5) == ['5'];
    }
    var texts := seq(|ys|, k requires 0 <= k < |ys| => EntryText(ys[k]));
    assert texts == ["a@3", "n@5"];
    assert YellowsLine(ys) == "a@3 n@5" by {
      assert JoinSpaces(["a@3", "n@5"]) == "a@3 n@5";
    }
    YellowsRoundTrip(ys, 5);
  }
}
