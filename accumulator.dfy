/** update_constraints_from_feedback: folding one round's greens and
    yellows into the three constraint structures that persist across
    rounds (minimum letter counts, banned positions, excluded letters).
    The round's greens and yellows are counted first; only then are the
    guess's unmarked letters excluded, so that a letter guessed twice and
    marked once is not excluded. */
module Accumulator {
  import opened Text
  import opened Feedback

  /** required_min_counts.get(c, 0) */
  function MinOf(mins: map<char, nat>, c: char): nat {
    if c in mins then mins[c] else 0
  }

  /** banned_positions[c] of the defaultdict(set): empty when absent. */
  function BannedAt(banned: map<char, set<int>>, c: char): set<int> {
    if c in banned then banned[c] else {}
  }

  /** The letters counted for the greens among the first n positions: a
      position counts when it is marked green with the guess's own letter. */
  function GreenHits(g: string, greens: map<int, char>, n: nat): multiset<char>
    requires n <= |g|
  {
    if n == 0 then multiset{}
    else
      var i := n - 1;
      GreenHits(g, greens, i) +
        (if i in greens && Lower(greens[i]) == g[i] then multiset{g[i]} else multiset{})
  }

  /** The letters counted for the yellows: a yellow counts when the guess
      holds its letter at its position. */
  function YellowHits(g: string, ys: seq<Yellow>): multiset<char> {
    if ys == [] then multiset{}
    else
      var y := ys[|ys| - 1];
      YellowHits(g, ys[..|ys| - 1]) +
        (if 0 <= y.1 < |g| && Lower(g[y.1]) == y.0 then multiset{y.0} else multiset{})
  }

  /** gy_count: the green and yellow letters counted for this guess. */
  function RoundCount(g: string, greens: map<int, char>, ys: seq<Yellow>): multiset<char> {
    GreenHits(g, greens, |g|) + YellowHits(g, ys)
  }

  /** Every yellow's position added to its letter's banned set, whether or
      not the guess holds that letter there. */
  function AddBanned(banned: map<char, set<int>>, ys: seq<Yellow>): map<char, set<int>> {
    if ys == [] then banned
    else
      var b := AddBanned(banned, ys[..|ys| - 1]);
      var y := ys[|ys| - 1];
      b[y.0 := BannedAt(b, y.0) + {y.1}]
  }

  /** Each counted letter's minimum raised to its count when the count is
      larger; other entries kept. */
  function RaiseMins(mins: map<char, nat>, count: multiset<char>): map<char, nat> {
    map c | c in mins || c in count :: if count[c] > MinOf(mins, c) then count[c] else mins[c]
  }

  /** RaiseMins applied to the letters of done only. */
  function RaiseMinsOver(mins: map<char, nat>, count: multiset<char>, done: set<char>): map<char, nat>
    requires forall c | c in done :: c in count
  {
    map c | c in mins || c in done ::
      if c in done && count[c] > MinOf(mins, c) then count[c] else mins[c]
  }

  lemma RaiseMinsStep(mins: map<char, nat>, count: multiset<char>, done: set<char>, c: char)
    requires forall d | d in done :: d in count
    requires c in count && c !in done
    ensures MinOf(RaiseMinsOver(mins, count, done), c) == MinOf(mins, c)
    ensures RaiseMinsOver(mins, count, done + {c}) ==
      var m := RaiseMinsOver(mins, count, done);
      if count[c] > MinOf(m, c) then m[c := count[c]] else m
  {
    var m := RaiseMinsOver(mins, count, done);
    var m' := RaiseMinsOver(mins, count, done + {c});
    if count[c] > MinOf(m, c) {
      assert m'.Keys == m.Keys + {c};
    } else {
      assert m'.Keys == m.Keys;
    }
  }

  lemma RaiseMinsOverAll(mins: map<char, nat>, count: multiset<char>)
    ensures RaiseMinsOver(mins, count, set c | c in count) == RaiseMins(mins, count)
  {
    assert RaiseMinsOver(mins, count, set c | c in count).Keys == RaiseMins(mins, count).Keys;
  }

  /** The guess's letters that were counted neither green nor yellow. */
  function Greys(g: string, count: multiset<char>): set<char> {
    set c | c in g && count[c] == 0
  }

  /** The constraint state the caller owns and the update changes in place. */
  class Constraints {
    var minCounts: map<char, nat>
    var banned: map<char, set<int>>
    var excluded: set<char>

    constructor ()
      ensures minCounts == map[] && banned == map[] && excluded == {}
    {
      minCounts, banned, excluded := map[], map[], {};
    }

    /** update_constraints_from_feedback for one guess, its greens and its
        yellows: count the greens, then count the yellows while banning
        their positions, then raise the minimums, and only then exclude
        the guess's uncounted letters. */
    method UpdateFromFeedback(guess: string, greens: map<int, char>, yellows: seq<Yellow>)
      modifies this
      ensures var g := LowerStr(guess);
        var count := RoundCount(g, greens, yellows);
        && minCounts == RaiseMins(old(minCounts), count)
        && banned == AddBanned(old(banned), yellows)
        && excluded == old(excluded) + Greys(g, count)
    {
      var g := LowerStr(guess);
      var count := CountGreens(g, greens);
      count := MarkYellows(g, yellows, count);
      RaiseMinCounts(count);
      var greys := set c | c in g && count[c] == 0;
      excluded := excluded + greys;
    }

    /** The yellows loop: counts each yellow the guess holds at its
        position and bans every yellow's position for its letter. */
    method MarkYellows(g: string, yellows: seq<Yellow>, count0: multiset<char>) returns (count: multiset<char>)
      modifies this
      ensures count == count0 + YellowHits(g, yellows)
      ensures banned == AddBanned(old(banned), yellows)
      ensures minCounts == old(minCounts) && excluded == old(excluded)
    {
      count := count0;
      var k := 0;
      while k < |yellows|
        invariant 0 <= k <= |yellows|
        invariant count == count0 + YellowHits(g, yellows[..k])
        invariant banned == AddBanned(old(banned), yellows[..k])
        invariant minCounts == old(minCounts) && excluded == old(excluded)
      {
        var (letter, idx) := yellows[k];
        YellowStep(g, old(banned), yellows, k);
        if 0 <= idx < |g| && Lower(g[idx]) == letter {
          count := count + multiset{letter};
        }
        banned := banned[letter := BannedAt(banned, letter) + {idx}];
        k := k + 1;
      }
      assert yellows[..k] == yellows;
    }

    /** The minimum-count loop: every counted letter's minimum becomes its
        count when that is larger. */
    method RaiseMinCounts(count: multiset<char>)
      modifies this
      ensures minCounts == RaiseMins(old(minCounts), count)
      ensures banned == old(banned) && excluded == old(excluded)
    {
      var todo := set c | c in count;
      ghost var done: set<char> := {};
      assert RaiseMinsOver(minCounts, count, done) == minCounts;
      while todo != {}
        invariant todo !! done && todo + done == set c | c in count
        invariant banned == old(banned) && excluded == old(excluded)
        invariant minCounts == RaiseMinsOver(old(minCounts), count, done)
        decreases todo
      {
        var letter :| letter in todo;
        RaiseMinsStep(old(minCounts), count, done, letter);
        if count[letter] > MinOf(minCounts, letter) {
          minCounts := minCounts[letter := count[letter]];
        }
        todo, done := todo - {letter}, done + {letter};
      }
      RaiseMinsOverAll(old(minCounts), count);
    }
  }

  /** The greens loop: counts each position marked green with the guess's
      own letter. */
  method CountGreens(g: string, greens: map<int, char>) returns (count: multiset<char>)
    ensures count == GreenHits(g, greens, |g|)
  {
    count := multiset{};
    var i := 0;
    while i < |g|
      invariant 0 <= i <= |g|
      invariant count == GreenHits(g, greens, i)
    {
      if i in greens && Lower(greens[i]) == g[i] {
        count := count + multiset{g[i]};
      }
      i := i + 1;
    }
  }

  /** One more yellow: its hit, if any, and its banned position. */
  lemma YellowStep(g: string, banned: map<char, set<int>>, ys: seq<Yellow>, k: nat)
    requires k < |ys|
    ensures YellowHits(g, ys[..k + 1]) == YellowHits(g, ys[..k]) +
      (if 0 <= ys[k].1 < |g| && Lower(g[ys[k].1]) == ys[k].0 then multiset{ys[k].0} else multiset{})
    ensures AddBanned(banned, ys[..k + 1]) ==
      AddBanned(banned, ys[..k])[ys[k].0 := BannedAt(AddBanned(banned, ys[..k]), ys[k].0) + {ys[k].1}]
  {
    assert ys[..k + 1][..k] == ys[..k];
  }

  /** The positions among the first n that are marked green with the
      guess's own letter, when that letter is c. */
  function GreenPositions(g: string, greens: map<int, char>, n: nat, c: char): set<int>
    requires n <= |g|
  {
    set i | 0 <= i < n && i in greens && Lower(greens[i]) == g[i] && g[i] == c
  }

  /** The yellows (by their index in ys) whose letter is c and which the
      guess holds at their position. */
  function YellowIndices(g: string, ys: seq<Yellow>, c: char): set<int> {
    set k | 0 <= k < |ys| && HoldsYellow(g, ys[k], c)
  }

  /** The guess holds the yellow's letter, c, at the yellow's position. */
  predicate HoldsYellow(g: string, y: Yellow, c: char) {
    0 <= y.1 < |g| && Lower(g[y.1]) == y.0 && y.0 == c
  }

  /** The greens loop counts c once for every position marked green with
      the guess's own letter c, and never otherwise. */
  lemma {:induction false} GreenCounted(g: string, greens: map<int, char>, n: nat, c: char)
    requires n <= |g|
    ensures GreenHits(g, greens, n)[c] == |GreenPositions(g, greens, n, c)|
  {
    if n == 0 {
      assert GreenPositions(g, greens, 0, c) == {};
    } else {
      GreenCounted(g, greens, n - 1, c);
      GreenPositionsStep(g, greens, n, c);
    }
  }

  /** One more position: its green hit, if any, joins the positions. */
  lemma GreenPositionsStep(g: string, greens: map<int, char>, n: nat, c: char)
    requires 0 < n <= |g|
    ensures var i := n - 1;
      var hit := i in greens && Lower(greens[i]) == g[i] && g[i] == c;
      && GreenHits(g, greens, n)[c] == GreenHits(g, greens, i)[c] + (if hit then 1 else 0)
      && |GreenPositions(g, greens, n, c)| == |GreenPositions(g, greens, i, c)| + (if hit then 1 else 0)
  {
    var i := n - 1;
    var hit := i in greens && Lower(greens[i]) == g[i] && g[i] == c;
    var before, now := GreenPositions(g, greens, i, c), GreenPositions(g, greens, n, c);
    forall j ensures j in now <==> j in before || (hit && j == i) {
    }
    assert i !in before;
    if hit {
      assert now == before + {i};
    } else {
      assert now == before;
    }
  }

  /** The yellows loop counts c once for every yellow of letter c that the
      guess holds at its position, and never otherwise. */
  lemma {:induction false} YellowCounted(g: string, ys: seq<Yellow>, c: char)
    ensures YellowHits(g, ys)[c] == |YellowIndices(g, ys, c)|
  {
    if ys == [] {
      assert YellowIndices(g, ys, c) == {};
    } else {
      YellowCounted(g, ys[..|ys| - 1], c);
      YellowIndicesStep(g, ys, c);
    }
  }

  /** One more yellow: its hit, if any, joins the indices. */
  lemma YellowIndicesStep(g: string, ys: seq<Yellow>, c: char)
    requires ys != []
    ensures var last := |ys| - 1;
      var y := ys[last];
      var hit := 0 <= y.1 < |g| && Lower(g[y.1]) == y.0 && y.0 == c;
      && YellowHits(g, ys)[c] == YellowHits(g, ys[..last])[c] + (if hit then 1 else 0)
      && |YellowIndices(g, ys, c)| == |YellowIndices(g, ys[..last], c)| + (if hit then 1 else 0)
  {
    var last := |ys| - 1;
    var front, y := ys[..last], ys[last];
    var hit := HoldsYellow(g, y, c);
    var before, now := YellowIndices(g, front, c), YellowIndices(g, ys, c);
    forall k ensures k in now <==> k in before || (hit && k == last) {
      if 0 <= k < last {
        assert front[k] == ys[k];
        assert k in now <==> HoldsYellow(g, ys[k], c);
        assert k in before <==> HoldsYellow(g, front[k], c);
      } else if k != last {
        assert k !in now && k !in before;
      }
    }
    assert last !in before;
    if hit {
      assert now == before + {last};
    } else {
      assert now == before;
    }
  }

  /** gy_count[c] is the number of c-greens plus the number of c-yellows
      the guess holds, so two greens of one letter count it twice. */
  lemma RoundCountAt(g: string, greens: map<int, char>, ys: seq<Yellow>, c: char)
    ensures RoundCount(g, greens, ys)[c] ==
      |GreenPositions(g, greens, |g|, c)| + |YellowIndices(g, ys, c)|
  {
    GreenCounted(g, greens, |g|, c);
    YellowCounted(g, ys, c);
  }

  /** The letters of the yellows, and the positions given for one letter. */
  function YellowLetters(ys: seq<Yellow>): set<char> {
    set k | 0 <= k < |ys| :: ys[k].0
  }

  function PositionsOf(ys: seq<Yellow>, c: char): set<int> {
    set k | 0 <= k < |ys| && ys[k].0 == c :: ys[k].1
  }

  /** After the update, a letter has banned positions exactly when it had
      some before or is a yellow letter, and its set is the old one plus
      every position given for it. */
  lemma {:induction false} AddBannedAt(banned: map<char, set<int>>, ys: seq<Yellow>, c: char)
    ensures c in AddBanned(banned, ys) <==> c in banned || c in YellowLetters(ys)
    ensures BannedAt(AddBanned(banned, ys), c) == BannedAt(banned, c) + PositionsOf(ys, c)
  {
    if ys != [] {
      var front, y := ys[..|ys| - 1], ys[|ys| - 1];
      AddBannedAt(banned, front, c);
      YellowsSnoc(ys, c);
    }
  }

  /** The letters and positions of a list of yellows, one yellow at a time. */
  lemma YellowsSnoc(ys: seq<Yellow>, c: char)
    requires ys != []
    ensures var front, y := ys[..|ys| - 1], ys[|ys| - 1];
      && YellowLetters(ys) == YellowLetters(front) + {y.0}
      && PositionsOf(ys, c) == PositionsOf(front, c) + (if y.0 == c then {y.1} else {})
  {
    var front := ys[..|ys| - 1];
    assert forall k | 0 <= k < |front| :: front[k] == ys[k];
  }

  /** No banned position is ever removed. */
  lemma AddBannedGrows(banned: map<char, set<int>>, ys: seq<Yellow>, c: char)
    requires c in banned
    ensures c in AddBanned(banned, ys) && banned[c] <= AddBanned(banned, ys)[c]
  {
    AddBannedAt(banned, ys, c);
  }

  /** A counted letter's minimum becomes the larger of the old minimum and
      its count; an uncounted letter's entry is untouched; so no minimum
      decreases and none disappears. */
  lemma RaiseMinsAt(mins: map<char, nat>, count: multiset<char>, c: char)
    ensures c in RaiseMins(mins, count) <==> c in mins || count[c] > 0
    ensures count[c] > 0 ==>
      RaiseMins(mins, count)[c] == (if count[c] > MinOf(mins, c) then count[c] else MinOf(mins, c))
    ensures count[c] == 0 && c in mins ==> RaiseMins(mins, count)[c] == mins[c]
    ensures MinOf(mins, c) <= MinOf(RaiseMins(mins, count), c)
  {
  }

  /** The round's greys are exactly the guess letters marked nowhere: a
      letter marked green (with the guess's letter) or yellow (at a
      position holding it) is never excluded, even when the same letter
      sits unmarked elsewhere in the guess, and every other guess letter
      is. */
  lemma GreysExactly(g: string, greens: map<int, char>, ys: seq<Yellow>, c: char)
    ensures c in Greys(g, RoundCount(g, greens, ys)) <==>
      c in g && GreenPositions(g, greens, |g|, c) == {} && YellowIndices(g, ys, c) == {}
  {
    RoundCountAt(g, greens, ys, c);
  }

  lemma SpeedHitsFirstThree()
    ensures GreenHits("speed", map[3 := 'e'], 3) == multiset{}
  {
    var greens := map[3 := 'e'];
    assert 0 !in greens && 1 !in greens && 2 !in greens;
    assert GreenHits("speed", greens, 1) == multiset{};
    assert GreenHits("speed", greens, 2) == multiset{};
  }

  /** The duplicate-letter case: guessing "speed" with only the second 'e'
      green counts 'e' once, so 'e' is required once and is not excluded
      although its first occurrence was unmarked; 's', 'p' and 'd' are. */
  lemma RepeatedLetterCount()
    ensures RoundCount("speed", map[3 := 'e'], []) == multiset{'e'}
  {
    var g, greens := "speed", map[3 := 'e'];
    SpeedHitsFirstThree();
    assert g[3] == 'e' && Lower('e') == 'e' && 4 !in greens;
    assert GreenHits(g, greens, 4) == multiset{'e'};
  }

  lemma RepeatedLetterGreys()
    ensures Greys("speed", multiset{'e'}) == {'s', 'p', 'd'}
  {
    assert forall c :: c in "speed" <==> c in {'s', 'p', 'e', 'd'};
  }

  lemma RepeatedLetterMins()
    ensures RaiseMins(map[], multiset{'e'}) == map['e' := 1]
  {
    assert RaiseMins(map[], multiset{'e'}).Keys == {'e'};
  }
}
