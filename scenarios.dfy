/** Two whole rounds worked through the model: a guess with greens only,
    and a guess with a misplaced letter. */
module Scenarios {
  import opened Text
  import opened Feedback
  import opened Accumulator
  import opened Candidates
  import opened Session

  /** A word with no surrounding whitespace strips to itself. */
  lemma StripWord(w: string)
    requires |w| > 0 && !IsSpace(w[0]) && !IsSpace(w[|w| - 1])
    ensures Strip(w) == w
  {
    assert TrimLeft(w) == w;
    assert TrimRight(w) == w;
  }

  lemma CraneHitsFirstTwo()
    ensures GreenHits("crane", map[2 := 'a', 4 := 'e'], 2) == multiset{}
  {
    var greens := map[2 := 'a', 4 := 'e'];
    assert 0 !in greens && 1 !in greens;
    assert GreenHits("crane", greens, 1) == multiset{};
  }

  lemma CraneHitsFirstFour()
    ensures GreenHits("crane", map[2 := 'a', 4 := 'e'], 4) == multiset{'a'}
  {
    var g, greens := "crane", map[2 := 'a', 4 := 'e'];
    CraneHitsFirstTwo();
    assert g[2] == 'a' && Lower('a') == 'a' && 3 !in greens;
    assert GreenHits(g, greens, 3) == multiset{'a'};
  }

  /** The greens of "crane" against "..a.e" count 'a' and 'e' once. */
  lemma CraneCount()
    ensures RoundCount("crane", map[2 := 'a', 4 := 'e'], []) == multiset{'a', 'e'}
  {
    var g, greens := "crane", map[2 := 'a', 4 := 'e'];
    CraneHitsFirstFour();
    assert g[4] == 'e' && Lower('e') == 'e';
    assert GreenHits(g, greens, 5) == multiset{'a'} + multiset{'e'};
  }

  /** 'c', 'r' and 'n' of "crane" are uncounted and so excluded. */
  lemma CraneGreys()
    ensures Greys("crane", multiset{'a', 'e'}) == {'c', 'r', 'n'}
  {
    assert forall c :: c in "crane" <==> c in {'c', 'r', 'a', 'n', 'e'};
  }

  /** 'a' and 'e' become required once each. */
  lemma CraneMins()
    ensures RaiseMins(map[], multiset{'a', 'e'}) == map['a' := 1, 'e' := 1]
  {
    assert RaiseMins(map[], multiset{'a', 'e'}).Keys == {'a', 'e'};
  }

  /** The constraints after the crane round. */
  predicate AfterCrane(w: string) {
    Passes(w, map[2 := 'a', 4 := 'e'], map['a' := 1, 'e' := 1], map[], {'c', 'r', 'n'})
  }

  function FilterAfterCrane(words: seq<string>): seq<string> {
    FilterCandidates(words, map[2 := 'a', 4 := 'e'], map['a' := 1, 'e' := 1], map[], {'c', 'r', 'n'})
  }

  lemma CraneAndCrateFail()
    ensures !AfterCrane("crane") && !AfterCrane("crate")
  {
    assert LowerStr("crane")[0] == 'c' && LowerStr("crate")[0] == 'c';
  }

  /** A lower-case five-letter word with 'a' and 'e' at the green
      positions and none of 'c', 'r', 'n' passes. */
  lemma PassesAfterCrane(w: string)
    requires |w| == 5 && IsLowerWord(w) && w[2] == 'a' && w[4] == 'e'
    requires 'c' !in w && 'r' !in w && 'n' !in w
    ensures AfterCrane(w)
  {
    LowerStrOfLowerWord(w);
    assert 'a' in w && 'e' in w;
  }

  lemma LateWordPasses(w: string)
    requires w == "slate" || w == "plate"
    ensures AfterCrane(w)
  {
    assert w[0] != 'c' && w[1] != 'c' && w[3] != 'c';
    PassesAfterCrane(w);
  }

  lemma FilterPlate()
    ensures FilterAfterCrane(["plate"]) == ["plate"]
  {
    LateWordPasses("plate");
    assert ["plate"][1..] == [];
  }

  lemma FilterSlatePlate()
    ensures FilterAfterCrane(["slate", "plate"]) == ["slate", "plate"]
  {
    FilterPlate();
    LateWordPasses("slate");
    assert ["slate", "plate"][1..] == ["plate"];
  }

  /** Of crane, crate, slate and plate only slate and plate hold 'a' and
      'e' at the green positions and none of 'c', 'r', 'n'. */
  lemma CraneFilter()
    ensures FilterAfterCrane(["crane", "crate", "slate", "plate"]) == ["slate", "plate"]
  {
    FilterSlatePlate();
    CraneAndCrateFail();
    assert ["crate", "slate", "plate"][1..] == ["slate", "plate"];
    assert FilterAfterCrane(["crate", "slate", "plate"]) == ["slate", "plate"];
    assert ["crane", "crate", "slate", "plate"][1..] == ["crate", "slate", "plate"];
  }

  /** A guess of letters only, already stripped, that is not a quit word. */
  lemma GuessAccepted(w: string)
    requires |w| == 5 && IsLowerWord(w)
    ensures Strip(w) == w && !IsQuit(w) && IsAlphaWord(w) && LowerStr(w) == w
  {
    StripWord(w);
    LowerStrOfLowerWord(w);
  }

  lemma CraneGuess()
    ensures Strip("crane") == "crane" && !IsQuit("crane") && IsAlphaWord("crane")
    ensures LowerStr("crane") == "crane"
  {
    GuessAccepted("crane");
  }

  lemma CranePattern()
    ensures Strip("..a.e") == "..a.e"
    ensures GreensPattern("..a.e") == Ok(map[2 := 'a', 4 := 'e'])
  {
    var p := "..a.e";
    StripWord(p);
    assert p[0] == '.' && p[1] == '.' && p[2] == 'a' && p[3] == '.' && p[4] == 'e';
    assert Lower('a') == 'a' && Lower('e') == 'e';
    var m := map i | 0 <= i < |p| && !IsPlaceholder(p[i]) :: Lower(p[i]);
    assert m.Keys == {2, 4};
    assert m == map[2 := 'a', 4 := 'e'];
  }

  lemma BlankYellows(n: int)
    ensures Yellows(Strip(""), n) == Ok([])
  {
    assert Strip("") == "";
  }

  /** Words all of one length pass filter_by_length unchanged. */
  lemma {:induction false} FilterByLengthAll(words: seq<string>, n: int)
    requires forall k | 0 <= k < |words| :: |words[k]| == n
    ensures FilterByLength(words, n) == words
  {
    if words != [] {
      FilterByLengthAll(words[1..], n);
    }
  }

  /** A round whose three lines are all accepted ends in the constraint
      update and the filter. */
  lemma StepAccepted(st: SessionState, guessLine: string, patternLine: string, yellowLine: string,
                     update: map<int, char>, ys: seq<Yellow>)
    requires !IsQuit(Strip(guessLine)) && IsAlphaWord(Strip(guessLine))
    requires FixLength(st, Strip(guessLine)).wordLen == Some(|Strip(guessLine)|)
    requires |Strip(patternLine)| == |Strip(guessLine)|
    requires GreensPattern(Strip(patternLine)) == Ok(update)
    requires Yellows(Strip(yellowLine), |Strip(guessLine)|) == Ok(ys)
    ensures var st1 := FixLength(st, Strip(guessLine));
      var st3 := Constrain(st1.(greens := st1.greens + update), LowerStr(Strip(guessLine)), update, ys);
      Step(st, guessLine, patternLine, yellowLine) == (st3, Narrowed(|st3.current|))
  {
  }

  /** The constraint update and filter of the crane round. */
  lemma CraneConstrain()
    ensures Constrain(SessionState(["crane", "crate", "slate", "plate"], Some(5), map[2 := 'a', 4 := 'e'],
                                   map[], map[], {}),
                      "crane", map[2 := 'a', 4 := 'e'], []) ==
      SessionState(["slate", "plate"], Some(5), map[2 := 'a', 4 := 'e'],
                   map['a' := 1, 'e' := 1], map[], {'c', 'r', 'n'})
  {
    CraneCount();
    CraneGreys();
    CraneMins();
    assert {} + {'c', 'r', 'n'} == {'c', 'r', 'n'};
    CraneFilter();
  }

  /** Merging a pattern into no greens gives the pattern. */
  lemma MergeIntoEmpty(m: map<int, char>)
    ensures map[] + m == m
  {
  }

  /** The first guess fixes the length at five, which every word has. */
  lemma CraneFixLength()
    ensures FixLength(Initial(["crane", "crate", "slate", "plate"]), "crane") ==
      SessionState(["crane", "crate", "slate", "plate"], Some(5), map[], map[], map[], {})
  {
    var words := ["crane", "crate", "slate", "plate"];
    FilterByLengthAll(words, 5);
    assert |"crane"| == 5;
    assert FilterByLength(words, |"crane"|) == words;
  }

  /** The first round of a session over crane, crate, slate and plate:
      guess "crane", greens "..a.e", no yellows. */
  lemma CraneScenario()
    ensures Step(Initial(["crane", "crate", "slate", "plate"]), "crane", "..a.e", "") ==
      (SessionState(["slate", "plate"], Some(5), map[2 := 'a', 4 := 'e'],
                    map['a' := 1, 'e' := 1], map[], {'c', 'r', 'n'}),
       Narrowed(2))
  {
    var words := ["crane", "crate", "slate", "plate"];
    var greens := map[2 := 'a', 4 := 'e'];
    CraneGuess();
    CraneFixLength();
    CranePattern();
    BlankYellows(5);
    MergeIntoEmpty(greens);
    StepAccepted(Initial(words), "crane", "..a.e", "", greens, []);
    CraneConstrain();
  }

  /** The yellows line "a@1" of a five-letter round: 'a' misplaced at
      index 0. */
  lemma AdieuYellows()
    ensures Strip("a@1") == "a@1"
    ensures Yellows("a@1", 5) == Ok([('a', 0)])
  {
    StripWord("a@1");
    var ys := [('a', 0)];
    assert EntryText(ys[0]) == "a@1" by {
      assert DecimalString(1) == ['1'];
    }
    var texts := seq(|ys|, k requires 0 <= k < |ys| => EntryText(ys[k]));
    assert texts == ["a@1"];
    assert YellowsLine(ys) == "a@1";
    YellowsRoundTrip(ys, 5);
  }

  lemma AdieuPattern()
    ensures Strip(".....") == "....."
    ensures GreensPattern(".....") == Ok(map[])
  {
    var p := ".....";
    StripWord(p);
    var m := map i | 0 <= i < |p| && !IsPlaceholder(p[i]) :: Lower(p[i]);
    assert m == map[];
  }

  /** The 'a' of "adieu" sits at the yellow's position, so it is counted
      once. */
  lemma AdieuCount()
    ensures RoundCount("adieu", map[], [('a', 0)]) == multiset{'a'}
  {
    var ys := [('a', 0)];
    assert GreenHits("adieu", map[], 5) == multiset{};
    assert ys[..0] == [];
    assert "adieu"[0] == 'a' && Lower('a') == 'a';
  }

  lemma AdieuBanned()
    ensures AddBanned(map[], [('a', 0)]) == map['a' := {0}]
  {
    var ys := [('a', 0)];
    assert ys[..0] == [];
    assert AddBanned(map[], ys[..0]) == map[];
    assert BannedAt(map[], 'a') + {0} == {0};
  }

  lemma AdieuGreys()
    ensures Greys("adieu", multiset{'a'}) == {'d', 'i', 'e', 'u'}
  {
    assert forall c :: c in "adieu" <==> c in {'a', 'd', 'i', 'e', 'u'};
  }

  lemma AdieuMins()
    ensures RaiseMins(map[], multiset{'a'}) == map['a' := 1]
  {
    assert RaiseMins(map[], multiset{'a'}).Keys == {'a'};
  }

  /** The constraint update of the adieu round. */
  lemma AdieuConstrain(st: SessionState)
    requires st.mins == map[] && st.banned == map[] && st.excluded == {}
    ensures var st' := Constrain(st, "adieu", map[], [('a', 0)]);
      && st'.banned == map['a' := {0}]
      && st'.mins == map['a' := 1]
      && st'.excluded == {'d', 'i', 'e', 'u'}
      && st'.greens == st.greens
  {
    AdieuCount();
    AdieuBanned();
    AdieuGreys();
    AdieuMins();
    assert {} + {'d', 'i', 'e', 'u'} == {'d', 'i', 'e', 'u'};
  }

  /** The round guess "adieu", greens ".....", yellows "a@1" as the first
      round of any session: 'a' is banned at index 0 and required once,
      and 'd', 'i', 'e', 'u' are excluded. */
  lemma AdieuScenario(dictionary: seq<string>)
    ensures var (st, outcome) := Step(Initial(dictionary), "adieu", ".....", "a@1");
      && outcome.Narrowed?
      && st.banned == map['a' := {0}]
      && st.mins == map['a' := 1]
      && st.excluded == {'d', 'i', 'e', 'u'}
      && st.greens == map[]
  {
    GuessAccepted("adieu");
    AdieuPattern();
    AdieuYellows();
    var m: map<int, char> := map[];
    MergeIntoEmpty(m);
    StepAccepted(Initial(dictionary), "adieu", ".....", "a@1", m, [('a', 0)]);
    AdieuConstrain(SessionState(FilterByLength(dictionary, 5), Some(5), m, map[], map[], {}));
  }
}
