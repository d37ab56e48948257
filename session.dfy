/** One round of interactive_loop without its prompts and printing: the
    three lines the player types go in as parameters, the loop's variables
    (the current word list, the word length fixed by the first guess, the
    accumulated greens and the three constraint structures) are the state,
    and the message the loop would print becomes an outcome. */
module Session {
  import opened Text
  import opened Feedback
  import opened Accumulator
  import opened Candidates

  /** What a round ends with: the loop stops, rejects an input and asks
      again, or narrows the word list to count words. */
  datatype Outcome =
    | Quit
    | NotLetters
    | WrongLength
    | PatternLength
    | BadPattern(patternError: ParseError)
    | BadYellows(yellowsError: ParseError)
    | Narrowed(count: nat)

  /** The variables interactive_loop keeps between rounds. */
  datatype SessionState = SessionState(
    current: seq<string>,
    wordLen: Option<nat>,
    greens: map<int, char>,
    mins: map<char, nat>,
    banned: map<char, set<int>>,
    excluded: set<char>)

  /** The state before the first round: the whole dictionary, no length
      and no constraints. */
  function Initial(dictionary: seq<string>): (st: SessionState)
    ensures WellFormed(st)
  {
    SessionState(dictionary, None, map[], map[], map[], {})
  }

  /** What the loop keeps true: until a length is fixed no constraint
      exists; once it is fixed, every remaining word has that length and
      every recorded position lies inside it. */
  predicate WellFormed(st: SessionState) {
    match st.wordLen
    case None =>
      st.greens == map[] && st.mins == map[] && st.banned == map[] && st.excluded == {}
    case Some(n) =>
      && (forall w | w in st.current :: |w| == n)
      && IndicesWithin(st.greens, st.banned, n)
  }

  predicate IsQuit(guess: string) {
    LowerStr(guess) in {"q", "quit", "exit"}
  }

  /** The first letter-only guess fixes the word length and drops every
      word of another length. */
  function FixLength(st: SessionState, guess: string): SessionState {
    if st.wordLen.None? then
      st.(wordLen := Some(|guess|), current := FilterByLength(st.current, |guess|))
    else st
  }

  /** One pass of the loop body, lines 185-224 of the source: the guess,
      the greens pattern and the yellows line as typed. A pattern that
      parses is merged into the greens before the yellows are read, so a
      round rejected at the yellows keeps its greens. */
  function Step(st: SessionState, guessLine: string, patternLine: string, yellowLine: string)
    : (r: (SessionState, Outcome))
    ensures r.1 == Quit <==> IsQuit(Strip(guessLine))
    ensures r.1 == Quit || r.1 == NotLetters ==> r.0 == st
    ensures r.1 == WrongLength || r.1 == PatternLength || r.1.BadPattern? ==>
      r.0 == FixLength(st, Strip(guessLine))
    ensures r.1.BadYellows? ==>
      r.0 == FixLength(st, Strip(guessLine)).(greens := r.0.greens) && st.greens.Keys <= r.0.greens.Keys
    ensures !r.1.Narrowed? ==> r.0.mins == st.mins && r.0.banned == st.banned && r.0.excluded == st.excluded
    ensures r.1.BadYellows? || r.1.Narrowed? ==>
      && GreensPattern(Strip(patternLine)).Ok?
      && r.0.greens == st.greens + GreensPattern(Strip(patternLine)).value
    ensures r.1.Narrowed? ==>
      var guess := Strip(guessLine);
      && r.1.count == |r.0.current|
      && Yellows(Strip(yellowLine), |guess|).Ok?
      && r.0 == Constrain(FixLength(st, guess).(greens := r.0.greens), LowerStr(guess),
                          GreensPattern(Strip(patternLine)).value, Yellows(Strip(yellowLine), |guess|).value)
  {
    var guess := Strip(guessLine);
    if IsQuit(guess) then (st, Quit)
    else if !IsAlphaWord(guess) then (st, NotLetters)
    else
      var st1 := FixLength(st, guess);
      var n := st1.wordLen.value;
      if |guess| != n then (st1, WrongLength)
      else
        var gp := Strip(patternLine);
        if |gp| != n then (st1, PatternLength)
        else
          match GreensPattern(gp)
          case Err(e) => (st1, BadPattern(e))
          case Ok(update) =>
            var st2 := st1.(greens := st1.greens + update);
            match Yellows(Strip(yellowLine), n)
            case Err(e) => (st2, BadYellows(e))
            case Ok(ys) =>
              var st3 := Constrain(st2, LowerStr(guess), update, ys);
              (st3, Narrowed(|st3.current|))
  }

  /** Which outcome a round gets: the checks of the loop body in order,
      each reached only when the earlier ones pass. */
  lemma StepOutcome(st: SessionState, guessLine: string, patternLine: string, yellowLine: string)
    ensures var g, gp := Strip(guessLine), Strip(patternLine);
      var n := FixLength(st, g).wordLen.value;
      var guess := !IsQuit(g) && IsAlphaWord(g);
      var r := Step(st, guessLine, patternLine, yellowLine).1;
      && (r == NotLetters <==> !IsQuit(g) && !IsAlphaWord(g))
      && (r == WrongLength <==> guess && |g| != n)
      && (r == PatternLength <==> guess && |g| == n && |gp| != n)
      && (r.BadPattern? <==> guess && |g| == n && |gp| == n && GreensPattern(gp).Err?)
      && (r.BadYellows? <==>
            guess && |g| == n && |gp| == n && GreensPattern(gp).Ok? && Yellows(Strip(yellowLine), n).Err?)
      && (r.Narrowed? <==>
            guess && |g| == n && |gp| == n && GreensPattern(gp).Ok? && Yellows(Strip(yellowLine), n).Ok?)
  {
  }

  /** update_constraints_from_feedback with this round's greens and
      yellows, then filter_candidates with all the greens so far. */
  function Constrain(st: SessionState, g: string, update: map<int, char>, ys: seq<Yellow>)
    : (r: SessionState)
    ensures r.wordLen == st.wordLen && r.greens == st.greens
    ensures var count := RoundCount(g, update, ys);
      && r.mins == RaiseMins(st.mins, count)
      && r.banned == AddBanned(st.banned, ys)
      && r.excluded == st.excluded + Greys(g, count)
      && r.current == FilterCandidates(st.current, st.greens, r.mins, r.banned, r.excluded)
    ensures st.excluded <= r.excluded
    ensures forall w | w in r.current :: w in st.current && Passes(w, r.greens, r.mins, r.banned, r.excluded)
  {
    var count := RoundCount(g, update, ys);
    var mins := RaiseMins(st.mins, count);
    var banned := AddBanned(st.banned, ys);
    var excluded := st.excluded + Greys(g, count);
    st.(current := FilterCandidates(st.current, st.greens, mins, banned, excluded),
        mins := mins, banned := banned, excluded := excluded)
  }

  /** The loop over a sequence of rounds; it stops at the first quit. */
  function Run(st: SessionState, rounds: seq<(string, string, string)>): SessionState
    decreases |rounds|
  {
    if rounds == [] then st
    else
      var (next, outcome) := Step(st, rounds[0].0, rounds[0].1, rounds[0].2);
      if outcome == Quit then next else Run(next, rounds[1..])
  }

  /** The positions a yellows line yields all lie inside the word. */
  lemma AddBannedWithin(banned: map<char, set<int>>, ys: seq<Yellow>, n: int)
    requires forall c, i | c in banned && i in banned[c] :: 0 <= i < n
    requires forall k | 0 <= k < |ys| :: 0 <= ys[k].1 < n
    ensures forall c, i | c in AddBanned(banned, ys) && i in AddBanned(banned, ys)[c] :: 0 <= i < n
  {
    forall c, i | c in AddBanned(banned, ys) && i in AddBanned(banned, ys)[c]
      ensures 0 <= i < n
    {
      AddBannedAt(banned, ys, c);
      assert i in BannedAt(banned, c) + PositionsOf(ys, c);
    }
  }

  /** Every round keeps the loop's invariant. */
  lemma StepWellFormed(st: SessionState, guessLine: string, patternLine: string, yellowLine: string)
    requires WellFormed(st)
    ensures WellFormed(Step(st, guessLine, patternLine, yellowLine).0)
  {
    var guess := Strip(guessLine);
    if !IsQuit(guess) && IsAlphaWord(guess) {
      var st1 := FixLength(st, guess);
      var n := st1.wordLen.value;
      assert WellFormed(st1);
      var gp := Strip(patternLine);
      if |guess| == n && |gp| == n && GreensPattern(gp).Ok? {
        var update := GreensPattern(gp).value;
        var st2 := st1.(greens := st1.greens + update);
        assert WellFormed(st2);
        var yl := Strip(yellowLine);
        if Yellows(yl, n).Ok? {
          var ys := Yellows(yl, n).value;
          AddBannedWithin(st2.banned, ys, n);
          var st3 := Constrain(st2, LowerStr(guess), update, ys);
          assert Step(st, guessLine, patternLine, yellowLine).0 == st3;
          assert WellFormed(st3);
        }
      }
    }
  }

  /** The whole session keeps the invariant. */
  lemma {:induction false} RunWellFormed(st: SessionState, rounds: seq<(string, string, string)>)
    requires WellFormed(st)
    ensures WellFormed(Run(st, rounds))
    decreases |rounds|
  {
    if rounds != [] {
      StepWellFormed(st, rounds[0].0, rounds[0].1, rounds[0].2);
      var (next, outcome) := Step(st, rounds[0].0, rounds[0].1, rounds[0].2);
      if outcome != Quit {
        RunWellFormed(next, rounds[1..]);
      }
    }
  }

  /** The word list only shrinks, and the constraints only grow: no green
      position, minimum, banned position or excluded letter is ever
      dropped (a green letter may be overwritten by a later pattern). */
  predicate Narrower(st': SessionState, st: SessionState) {
    && multiset(st'.current) <= multiset(st.current)
    && st.greens.Keys <= st'.greens.Keys
    && (forall c | c in st.mins :: c in st'.mins && st.mins[c] <= st'.mins[c])
    && (forall c | c in st.banned :: c in st'.banned && st.banned[c] <= st'.banned[c])
    && st.excluded <= st'.excluded
  }

  lemma FilterByLengthShrinks(words: seq<string>, n: int)
    ensures multiset(FilterByLength(words, n)) <= multiset(words)
  {
    var r := FilterByLength(words, n);
    forall w ensures multiset(r)[w] <= multiset(words)[w] {
      if w !in words {
        assert w !in r;
      }
    }
  }

  lemma FilterCandidatesShrinks(words: seq<string>, greens: map<int, char>, mins: map<char, nat>,
                                banned: map<char, set<int>>, excluded: set<char>)
    ensures multiset(FilterCandidates(words, greens, mins, banned, excluded)) <= multiset(words)
  {
    var r := FilterCandidates(words, greens, mins, banned, excluded);
    forall w ensures multiset(r)[w] <= multiset(words)[w] {
      if w !in words {
        assert w !in r;
      }
    }
  }

  /** Every round narrows the session. */
  lemma StepNarrows(st: SessionState, guessLine: string, patternLine: string, yellowLine: string)
    ensures Narrower(Step(st, guessLine, patternLine, yellowLine).0, st)
  {
    var guess := Strip(guessLine);
    if !IsQuit(guess) && IsAlphaWord(guess) {
      var st1 := FixLength(st, guess);
      if st.wordLen.None? {
        FilterByLengthShrinks(st.current, |guess|);
      }
      assert Narrower(st1, st);
      var n := st1.wordLen.value;
      var gp := Strip(patternLine);
      if |guess| == n && |gp| == n && GreensPattern(gp).Ok? {
        var update := GreensPattern(gp).value;
        var st2 := st1.(greens := st1.greens + update);
        assert Narrower(st2, st);
        var yl := Strip(yellowLine);
        if Yellows(yl, n).Ok? {
          ConstrainNarrows(st2, LowerStr(guess), update, Yellows(yl, n).value);
        }
      }
    }
  }

  lemma ConstrainNarrows(st: SessionState, g: string, update: map<int, char>, ys: seq<Yellow>)
    ensures Narrower(Constrain(st, g, update, ys), st)
  {
    var st' := Constrain(st, g, update, ys);
    var count := RoundCount(g, update, ys);
    FilterCandidatesShrinks(st.current, st.greens, st'.mins, st'.banned, st'.excluded);
    forall c | c in st.mins ensures c in st'.mins && st.mins[c] <= st'.mins[c] {
      RaiseMinsAt(st.mins, count, c);
    }
    forall c | c in st.banned ensures c in st'.banned && st.banned[c] <= st'.banned[c] {
      AddBannedGrows(st.banned, ys, c);
    }
  }

  /** After a round that narrows, every remaining word passes all the
      accumulated constraints, and every word of the previous list that
      passes them is still there as often as before. */
  lemma StepSurvivors(st: SessionState, guessLine: string, patternLine: string, yellowLine: string)
    requires WellFormed(st)
    requires Step(st, guessLine, patternLine, yellowLine).1.Narrowed?
    ensures var st' := Step(st, guessLine, patternLine, yellowLine).0;
      && st'.wordLen.Some?
      && (forall w | w in st'.current ::
            |w| == st'.wordLen.value && Passes(w, st'.greens, st'.mins, st'.banned, st'.excluded))
      && (forall w | w in st.current && |w| == st'.wordLen.value ::
            multiset(st'.current)[w] ==
              if Passes(w, st'.greens, st'.mins, st'.banned, st'.excluded)
              then multiset(st.current)[w] else 0)
  {
    StepWellFormed(st, guessLine, patternLine, yellowLine);
    var guess := Strip(guessLine);
    var st1 := FixLength(st, guess);
    var n := st1.wordLen.value;
    var gp := Strip(patternLine);
    var update := GreensPattern(gp).value;
    var st2 := st1.(greens := st1.greens + update);
    var ys := Yellows(Strip(yellowLine), n).value;
    var st3 := Constrain(st2, LowerStr(guess), update, ys);
    assert Step(st, guessLine, patternLine, yellowLine).0 == st3;
    forall w | w in st.current && |w| == n
      ensures w in st1.current && multiset(st1.current)[w] == multiset(st.current)[w]
    {
    }
  }

  /** The session as the loop holds it: the word list, the word length
      and the greens are its own variables; the other three constraint
      structures are the ones update_constraints_from_feedback changes in
      place. */
  class Wordle {
    var current: seq<string>
    var wordLen: Option<nat>
    var greens: map<int, char>
    const constraints: Constraints

    function State(): SessionState
      reads this, constraints
    {
      SessionState(current, wordLen, greens, constraints.minCounts, constraints.banned,
                   constraints.excluded)
    }

    constructor (dictionary: seq<string>)
      ensures State() == Initial(dictionary)
      ensures fresh(constraints)
    {
      current := dictionary;
      wordLen := None;
      greens := map[];
      constraints := new Constraints();
    }

    /** One round: read the three lines, reject what the loop rejects,
        otherwise update the constraints and filter the list. */
    method Round(guessLine: string, patternLine: string, yellowLine: string) returns (outcome: Outcome)
      modifies this, constraints
      ensures (State(), outcome) == Step(old(State()), guessLine, patternLine, yellowLine)
    {
      var guess := Strip(guessLine);
      if IsQuit(guess) {
        return Quit;
      }
      if !IsAlphaWord(guess) {
        return NotLetters;
      }
      if wordLen.None? {
        wordLen := Some(|guess|);
        current := FilterByLength(current, |guess|);
      }
      var n := wordLen.value;
      if |guess| != n {
        return WrongLength;
      }
      var gp := Strip(patternLine);
      if |gp| != n {
        return PatternLength;
      }
      var parsed := ParseGreensPattern(gp);
      if parsed.Err? {
        return BadPattern(parsed.error);
      }
      var update := parsed.value;
      greens := greens + update;
      var yp := Strip(yellowLine);
      var yellows := ParseYellows(yp, n);
      if yellows.Err? {
        return BadYellows(yellows.error);
      }
      constraints.UpdateFromFeedback(guess, update, yellows.value);
      current := FilterCandidates(current, greens, constraints.minCounts, constraints.banned,
                                  constraints.excluded);
      return Narrowed(|current|);
    }
  }
}
