/** What the solver promises a player who answers truthfully: the secret
    word is never filtered out. "Truthfully" is stated as the game's own
    marking: a green position holds the same letter in the guess and the
    secret, a yellow marks a guess letter at a position where the secret
    differs, and each letter is marked as many times as it occurs in both
    the guess and the secret. */
module Soundness {
  import opened Text
  import opened Feedback
  import opened Accumulator
  import opened Candidates
  import opened Session

  function Min(a: nat, b: nat): nat {
    if a <= b then a else b
  }

  /** The greens agree with the guess g and the secret s. */
  predicate GreensHonest(s: string, g: string, greens: map<int, char>) {
    && |s| == |g|
    && forall i | i in greens :: 0 <= i < |g| && greens[i] == g[i] && s[i] == g[i]
  }

  /** The whole round's marks are what the game shows for g against s. */
  predicate Honest(s: string, g: string, greens: map<int, char>, ys: seq<Yellow>) {
    && GreensHonest(s, g, greens)
    && (forall k | 0 <= k < |ys| ::
          0 <= ys[k].1 < |g| && ys[k].0 == g[ys[k].1] && s[ys[k].1] != ys[k].0)
    && (forall c :: RoundCount(g, greens, ys)[c] == Min(multiset(g)[c], multiset(s)[c]))
  }

  /** The secret is still a candidate under the constraints. */
  predicate Admits(s: string, greens: map<int, char>, mins: map<char, nat>,
                   banned: map<char, set<int>>, excluded: set<char>)
  {
    IndicesWithin(greens, banned, |s|) && CandidateOk(s, greens, mins, banned, excluded)
  }

  /** Merging truthful greens keeps the secret a candidate. */
  lemma MergeGreensKeepsSecret(s: string, g: string, update: map<int, char>,
                               greens: map<int, char>, mins: map<char, nat>,
                               banned: map<char, set<int>>, excluded: set<char>)
    requires IsLowerWord(s) && GreensHonest(s, g, update)
    requires Admits(s, greens, mins, banned, excluded)
    ensures Admits(s, greens + update, mins, banned, excluded)
  {
    LowerStrOfLowerWord(s);
  }

  /** No letter a truthful round excludes occurs in the secret. */
  lemma GreysNotInSecret(s: string, g: string, greens: map<int, char>, ys: seq<Yellow>, c: char)
    requires Honest(s, g, greens, ys)
    requires c in Greys(g, RoundCount(g, greens, ys))
    ensures c !in s
  {
    assert multiset(g)[c] > 0;
    assert Min(multiset(g)[c], multiset(s)[c]) == 0;
  }

  /** A truthful yellow's letter occurs in the secret. */
  lemma YellowInSecret(s: string, g: string, greens: map<int, char>, ys: seq<Yellow>, k: int)
    requires IsLowerWord(g) && Honest(s, g, greens, ys)
    requires 0 <= k < |ys|
    ensures ys[k].0 in s
  {
    var c := ys[k].0;
    RoundCountAt(g, greens, ys, c);
    assert k in YellowIndices(g, ys, c);
    assert RoundCount(g, greens, ys)[c] >= 1;
    assert multiset(s)[c] >= 1;
  }

  /** Every letter with banned positions occurs in s, and at none of
      them. */
  predicate AvoidsBanned(s: string, banned: map<char, set<int>>) {
    forall c | c in banned :: c in s && forall i | i in banned[c] :: 0 <= i < |s| && s[i] != c
  }

  /** One letter's banned positions after a truthful round: the letter
      occurs in the secret, but at none of them. */
  lemma BannedLetterKeepsSecret(s: string, g: string, greens: map<int, char>, ys: seq<Yellow>,
                                banned: map<char, set<int>>, c: char)
    requires IsLowerWord(g) && Honest(s, g, greens, ys)
    requires AvoidsBanned(s, banned)
    requires c in AddBanned(banned, ys)
    ensures c in s
    ensures forall i | i in AddBanned(banned, ys)[c] :: 0 <= i < |s| && s[i] != c
  {
    AddBannedAt(banned, ys, c);
    if c !in banned {
      var k :| 0 <= k < |ys| && ys[k].0 == c;
      YellowInSecret(s, g, greens, ys, k);
    }
    var added := PositionsOf(ys, c);
    if c in banned {
      assert AddBanned(banned, ys)[c] == banned[c] + added;
    } else {
      assert AddBanned(banned, ys)[c] == added;
    }
    forall i | i in added ensures 0 <= i < |s| && s[i] != c {
      var k :| 0 <= k < |ys| && ys[k].0 == c && ys[k].1 == i;
    }
  }

  /** The banned positions a truthful round adds keep the secret. */
  lemma BannedKeepsSecret(s: string, g: string, greens: map<int, char>, ys: seq<Yellow>,
                          banned: map<char, set<int>>)
    requires IsLowerWord(g) && Honest(s, g, greens, ys)
    requires AvoidsBanned(s, banned)
    ensures AvoidsBanned(s, AddBanned(banned, ys))
  {
    forall c | c in AddBanned(banned, ys)
      ensures c in s
      ensures forall i | i in AddBanned(banned, ys)[c] :: 0 <= i < |s| && s[i] != c
    {
      BannedLetterKeepsSecret(s, g, greens, ys, banned, c);
    }
  }

  /** The raised minimums never exceed the secret's letter counts. */
  lemma MinsKeepSecret(s: string, g: string, greens: map<int, char>, ys: seq<Yellow>,
                       mins: map<char, nat>)
    requires Honest(s, g, greens, ys)
    requires forall c | c in mins :: multiset(s)[c] >= mins[c]
    ensures forall c | c in RaiseMins(mins, RoundCount(g, greens, ys)) ::
      multiset(s)[c] >= RaiseMins(mins, RoundCount(g, greens, ys))[c]
  {
    var count := RoundCount(g, greens, ys);
    forall c | c in RaiseMins(mins, count)
      ensures multiset(s)[c] >= RaiseMins(mins, count)[c]
    {
      RaiseMinsAt(mins, count, c);
      assert count[c] == Min(multiset(g)[c], multiset(s)[c]);
    }
  }

  /** One truthful update_constraints_from_feedback, with its greens merged
      into the greens so far, keeps the secret a candidate. */
  lemma UpdateKeepsSecret(s: string, g: string, update: map<int, char>, ys: seq<Yellow>,
                          greens: map<int, char>, mins: map<char, nat>,
                          banned: map<char, set<int>>, excluded: set<char>)
    requires IsLowerWord(s) && IsLowerWord(g) && Honest(s, g, update, ys)
    requires Admits(s, greens, mins, banned, excluded)
    ensures var count := RoundCount(g, update, ys);
      Admits(s, greens + update, RaiseMins(mins, count), AddBanned(banned, ys),
             excluded + Greys(g, count))
  {
    LowerStrOfLowerWord(s);
    var count := RoundCount(g, update, ys);
    var greens', mins' := greens + update, RaiseMins(mins, count);
    var banned', excluded' := AddBanned(banned, ys), excluded + Greys(g, count);
    MergeGreensKeepsSecret(s, g, update, greens, mins, banned, excluded);
    assert forall i | i in greens' :: 0 <= i < |s| && s[i] == greens'[i];
    assert AvoidsBanned(s, banned);
    BannedKeepsSecret(s, g, update, ys, banned);
    MinsKeepSecret(s, g, update, ys, mins);
    forall c | c in excluded' ensures c !in s {
      if c !in excluded {
        GreysNotInSecret(s, g, update, ys, c);
      }
    }
    assert IndicesWithin(greens', banned', |s|);
    assert CandidateOk(s, greens', mins', banned', excluded');
  }

  /** A guess line the loop takes as a guess: not a quit word and letters
      only. The first such line fixes the word length. */
  predicate IsGuess(guessLine: string) {
    !IsQuit(Strip(guessLine)) && IsAlphaWord(Strip(guessLine))
  }

  /** The three lines of a round, answered truthfully for the secret s:
      when the round gets as far as the marks (a guess and a pattern of the
      secret's length), whatever pattern and yellows parse are the game's
      marks for that guess. A quit word, a non-letter guess, a guess or
      pattern of another length and a line that does not parse are
      answered in any way at all. */
  predicate HonestRound(s: string, guessLine: string, patternLine: string, yellowLine: string) {
    var guess := Strip(guessLine);
    var g := LowerStr(guess);
    var gp := Strip(patternLine);
    IsGuess(guessLine) && |guess| == |s| && |gp| == |s| ==>
      match GreensPattern(gp)
      case Err(_) => true
      case Ok(update) =>
        && GreensHonest(s, g, update)
        && match Yellows(Strip(yellowLine), |s|)
           case Err(_) => true
           case Ok(ys) => Honest(s, g, update, ys)
  }

  /** The first guess among the rounds, the one that fixes the word
      length, has the secret's length. */
  predicate FirstGuessFits(s: string, rounds: seq<(string, string, string)>) {
    forall k | 0 <= k < |rounds| && IsGuess(rounds[k].0) && (forall j | 0 <= j < k :: !IsGuess(rounds[j].0)) ::
      |Strip(rounds[k].0)| == |s|
  }

  /** The secret is in the session's word list and passes its constraints. */
  predicate Tracks(st: SessionState, s: string) {
    s in st.current && Admits(s, st.greens, st.mins, st.banned, st.excluded)
  }

  lemma FilterKeeps(words: seq<string>, s: string, greens: map<int, char>, mins: map<char, nat>,
                    banned: map<char, set<int>>, excluded: set<char>)
    requires s in words && Passes(s, greens, mins, banned, excluded)
    ensures s in FilterCandidates(words, greens, mins, banned, excluded)
  {
    var r := FilterCandidates(words, greens, mins, banned, excluded);
    assert multiset(r)[s] == multiset(words)[s] > 0;
  }

  /** Soundness of one round: answered truthfully, the round never drops
      the secret from the word list or makes it fail the constraints. A
      round that fixes the word length must fix it at the secret's. */
  lemma StepKeepsSecret(st: SessionState, guessLine: string, patternLine: string,
                        yellowLine: string, s: string)
    requires WellFormed(st) && IsLowerWord(s) && Tracks(st, s)
    requires st.wordLen.None? && IsGuess(guessLine) ==> |Strip(guessLine)| == |s|
    requires HonestRound(s, guessLine, patternLine, yellowLine)
    ensures Tracks(Step(st, guessLine, patternLine, yellowLine).0, s)
  {
    var guess := Strip(guessLine);
    if IsGuess(guessLine) {
      var st1 := FixLength(st, guess);
      if st.wordLen.None? {
        var r := FilterByLength(st.current, |guess|);
        assert multiset(r)[s] == multiset(st.current)[s] > 0;
      }
      assert Tracks(st1, s);
      var n := st1.wordLen.value;
      assert n == |s|;
      var gp := Strip(patternLine);
      if |guess| == n && |gp| == n && GreensPattern(gp).Ok? {
        var update := GreensPattern(gp).value;
        var g := LowerStr(guess);
        LowerStrOfAlpha(guess);
        MergeGreensKeepsSecret(s, g, update, st1.greens, st1.mins, st1.banned, st1.excluded);
        var st2 := st1.(greens := st1.greens + update);
        var yl := Strip(yellowLine);
        if Yellows(yl, n).Ok? {
          var ys := Yellows(yl, n).value;
          UpdateKeepsSecret(s, g, update, ys, st1.greens, st1.mins, st1.banned, st1.excluded);
          var st3 := Constrain(st2, g, update, ys);
          FilterKeeps(st2.current, s, st2.greens, st3.mins, st3.banned, st3.excluded);
        }
      }
    }
  }

  /** The precondition on the length is needed: when the first guess has
      another length than the secret, the loop drops the secret at once. */
  lemma WrongFirstLengthLosesSecret(st: SessionState, guessLine: string, patternLine: string,
                                    yellowLine: string, s: string)
    requires st.wordLen.None? && IsGuess(guessLine) && |Strip(guessLine)| != |s|
    ensures s !in Step(st, guessLine, patternLine, yellowLine).0.current
  {
    var st1 := FixLength(st, Strip(guessLine));
    assert s !in st1.current;
  }

  /** A line that is not a guess leaves the state alone; a guess fixes
      the length. */
  lemma StepLength(st: SessionState, guessLine: string, patternLine: string, yellowLine: string)
    ensures !IsGuess(guessLine) ==> Step(st, guessLine, patternLine, yellowLine).0 == st
    ensures IsGuess(guessLine) ==> Step(st, guessLine, patternLine, yellowLine).0.wordLen.Some?
  {
  }

  lemma FirstGuessFitsTail(s: string, rounds: seq<(string, string, string)>)
    requires rounds != [] && !IsGuess(rounds[0].0) && FirstGuessFits(s, rounds)
    ensures FirstGuessFits(s, rounds[1..])
  {
    var rest := rounds[1..];
    forall k | 0 <= k < |rest| && IsGuess(rest[k].0) && (forall j | 0 <= j < k :: !IsGuess(rest[j].0))
      ensures |Strip(rest[k].0)| == |s|
    {
      assert rest[k] == rounds[k + 1];
      forall j | 0 <= j < k + 1 ensures !IsGuess(rounds[j].0) {
        if j > 0 {
          assert rounds[j] == rest[j - 1];
        }
      }
    }
  }

  /** Soundness of a whole session: if every round is answered truthfully
      for the secret, and the first guess has the secret's length, the
      secret is still a candidate when the loop ends, whether it ends at a
      quit word or after the last round, and whatever rejected lines came
      in between. */
  lemma {:induction false} RunKeepsSecret(st: SessionState, rounds: seq<(string, string, string)>,
                                          s: string)
    requires WellFormed(st) && IsLowerWord(s) && Tracks(st, s)
    requires st.wordLen.None? ==> FirstGuessFits(s, rounds)
    requires forall k | 0 <= k < |rounds| :: HonestRound(s, rounds[k].0, rounds[k].1, rounds[k].2)
    ensures Tracks(Run(st, rounds), s)
    decreases |rounds|
  {
    if rounds != [] {
      var (line, pattern, yellow) := rounds[0];
      StepKeepsSecret(st, line, pattern, yellow, s);
      StepWellFormed(st, line, pattern, yellow);
      StepLength(st, line, pattern, yellow);
      var (next, outcome) := Step(st, line, pattern, yellow);
      if outcome != Quit {
        forall k | 0 <= k < |rounds[1..]|
          ensures HonestRound(s, rounds[1..][k].0, rounds[1..][k].1, rounds[1..][k].2)
        {
          assert rounds[1..][k] == rounds[k + 1];
        }
        if next.wordLen.None? {
          FirstGuessFitsTail(s, rounds);
        }
        RunKeepsSecret(next, rounds[1..], s);
      }
    }
  }

  /** A session that starts from a dictionary holding the secret. */
  lemma SessionKeepsSecret(dictionary: seq<string>, rounds: seq<(string, string, string)>, s: string)
    requires IsLowerWord(s) && s in dictionary
    requires FirstGuessFits(s, rounds)
    requires forall k | 0 <= k < |rounds| :: HonestRound(s, rounds[k].0, rounds[k].1, rounds[k].2)
    ensures s in Run(Initial(dictionary), rounds).current
  {
    InitialTracks(dictionary, s);
    RunKeepsSecret(Initial(dictionary), rounds, s);
  }

  lemma InitialTracks(dictionary: seq<string>, s: string)
    requires s in dictionary
    ensures Tracks(Initial(dictionary), s)
  {
    assert CandidateOk(s, map[], map[], map[], {});
  }
}
