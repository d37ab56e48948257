/** candidate_ok and the two list filters: the test of one dictionary word
    against the accumulated constraints, and the comprehensions that keep
    the words passing a test, in their original order. */
module Candidates {
  import opened Text

  /** Every green position and every banned position indexes a word of
      length n (candidate_ok reads the word at each of them). */
  predicate IndicesWithin(greens: map<int, char>, banned: map<char, set<int>>, n: int) {
    && (forall i | i in greens :: 0 <= i < n)
    && (forall c, i | c in banned && i in banned[c] :: 0 <= i < n)
  }

  /** candidate_ok: the lower-cased word holds every green letter at its
      position, holds no excluded letter, holds every letter that has
      banned positions but at none of them, and holds every letter at
      least its minimum number of times. */
  predicate CandidateOk(word: string, greens: map<int, char>, mins: map<char, nat>,
                        banned: map<char, set<int>>, excluded: set<char>)
    requires IndicesWithin(greens, banned, |word|)
  {
    var w := LowerStr(word);
    && (forall i | i in greens :: w[i] == greens[i])
    && (forall c | c in excluded :: c !in w)
    && (forall c | c in banned :: c in w && forall i | i in banned[c] :: w[i] != c)
    && (forall c | c in mins :: multiset(w)[c] >= mins[c])
  }

  /** candidate_ok lower-cases the word first, so it does not tell a word
      from its lower-case form. */
  lemma CandidateOkIgnoresCase(word: string, greens: map<int, char>, mins: map<char, nat>,
                               banned: map<char, set<int>>, excluded: set<char>)
    requires IndicesWithin(greens, banned, |word|)
    ensures CandidateOk(word, greens, mins, banned, excluded) <==>
            CandidateOk(LowerStr(word), greens, mins, banned, excluded)
  {
    assert LowerStr(LowerStr(word)) == LowerStr(word);
  }

  /** candidate_ok as the source runs it: four loops, each returning False
      at the first constraint the word breaks. Green and banned positions
      are visited in word order rather than in dictionary order, which
      does not change the verdict. */
  method CheckCandidate(word: string, greens: map<int, char>, mins: map<char, nat>,
                        banned: map<char, set<int>>, excluded: set<char>) returns (ok: bool)
    requires IndicesWithin(greens, banned, |word|)
    ensures ok == CandidateOk(word, greens, mins, banned, excluded)
  {
    var w := LowerStr(word);

    // Every green position lies in [0, |w|), so walking the word visits
    // each of them.
    for i := 0 to |w|
      invariant forall j | j in greens && j < i :: w[j] == greens[j]
    {
      if i in greens && w[i] != greens[i] {
        return false;
      }
    }

    var absent := excluded;
    while absent != {}
      invariant absent <= excluded
      invariant forall c | c in excluded && c !in absent :: c !in w
      decreases absent
    {
      var c :| c in absent;
      if c in w {
        return false;
      }
      absent := absent - {c};
    }

    var letters := banned.Keys;
    while letters != {}
      invariant letters <= banned.Keys
      invariant forall c | c in banned && c !in letters :: c in w && forall i | i in banned[c] :: w[i] != c
      decreases letters
    {
      var c :| c in letters;
      if c !in w {
        return false;
      }
      for i := 0 to |w|
        invariant forall j | j in banned[c] && j < i :: w[j] != c
      {
        if i in banned[c] && w[i] == c {
          return false;
        }
      }
      letters := letters - {c};
    }

    var wc := multiset(w);
    var needed := mins.Keys;
    while needed != {}
      invariant needed <= mins.Keys
      invariant forall c | c in mins && c !in needed :: wc[c] >= mins[c]
      decreases needed
    {
      var c :| c in needed;
      if wc[c] < mins[c] {
        return false;
      }
      needed := needed - {c};
    }
    return true;
  }

  /** Constraints at least as strict as others: the same greens and more,
      higher or equal minimums, more banned positions, more exclusions. */
  predicate Stricter(greens': map<int, char>, mins': map<char, nat>,
                     banned': map<char, set<int>>, excluded': set<char>,
                     greens: map<int, char>, mins: map<char, nat>,
                     banned: map<char, set<int>>, excluded: set<char>)
  {
    && (forall i | i in greens :: i in greens' && greens'[i] == greens[i])
    && (forall c | c in mins :: c in mins' && mins[c] <= mins'[c])
    && (forall c | c in banned :: c in banned' && banned[c] <= banned'[c])
    && excluded <= excluded'
  }

  /** Tightening the constraints can only turn a passing word into a
      failing one, never the reverse. */
  lemma CandidateOkAntitone(word: string,
                            greens': map<int, char>, mins': map<char, nat>,
                            banned': map<char, set<int>>, excluded': set<char>,
                            greens: map<int, char>, mins: map<char, nat>,
                            banned: map<char, set<int>>, excluded: set<char>)
    requires Stricter(greens', mins', banned', excluded', greens, mins, banned, excluded)
    requires IndicesWithin(greens', banned', |word|)
    ensures IndicesWithin(greens, banned, |word|)
    ensures CandidateOk(word, greens', mins', banned', excluded') ==>
            CandidateOk(word, greens, mins, banned, excluded)
  {
  }

  /** A word passes when every recorded position indexes it and
      candidate_ok accepts it. */
  predicate Passes(word: string, greens: map<int, char>, mins: map<char, nat>,
                   banned: map<char, set<int>>, excluded: set<char>)
  {
    IndicesWithin(greens, banned, |word|) && CandidateOk(word, greens, mins, banned, excluded)
  }

  /** filter_candidates: the words that pass candidate_ok, in their
      original order, each kept as often as it occurs. */
  function FilterCandidates(words: seq<string>, greens: map<int, char>, mins: map<char, nat>,
                            banned: map<char, set<int>>, excluded: set<char>): (r: seq<string>)
    ensures forall w | w in r :: w in words && Passes(w, greens, mins, banned, excluded)
    ensures forall w | w in words ::
      multiset(r)[w] == if Passes(w, greens, mins, banned, excluded) then multiset(words)[w] else 0
  {
    if words == [] then []
    else
      assert words == [words[0]] + words[1..];
      var rest := FilterCandidates(words[1..], greens, mins, banned, excluded);
      if Passes(words[0], greens, mins, banned, excluded) then [words[0]] + rest else rest
  }

  /** Filtering distributes over concatenation, so the survivors keep the
      order they had in the input. */
  lemma {:induction false} FilterCandidatesAppend(a: seq<string>, b: seq<string>,
      greens: map<int, char>, mins: map<char, nat>, banned: map<char, set<int>>, excluded: set<char>)
    ensures FilterCandidates(a + b, greens, mins, banned, excluded) ==
      FilterCandidates(a, greens, mins, banned, excluded) + FilterCandidates(b, greens, mins, banned, excluded)
  {
    if a == [] {
      assert a + b == b;
    } else {
      assert (a + b)[0] == a[0];
      assert (a + b)[1..] == a[1..] + b;
      FilterCandidatesAppend(a[1..], b, greens, mins, banned, excluded);
    }
  }

  /** Filtering the survivors again with the same constraints changes
      nothing. */
  lemma {:induction false} FilterCandidatesIdempotent(words: seq<string>,
      greens: map<int, char>, mins: map<char, nat>, banned: map<char, set<int>>, excluded: set<char>)
    ensures FilterCandidates(FilterCandidates(words, greens, mins, banned, excluded), greens, mins, banned, excluded)
      == FilterCandidates(words, greens, mins, banned, excluded)
  {
    if words != [] {
      FilterCandidatesIdempotent(words[1..], greens, mins, banned, excluded);
      var rest := FilterCandidates(words[1..], greens, mins, banned, excluded);
      if Passes(words[0], greens, mins, banned, excluded) {
        assert ([words[0]] + rest)[1..] == rest;
      }
    }
  }

  /** filter_by_length: the words of the given length, in their original
      order, each kept as often as it occurs. */
  function FilterByLength(words: seq<string>, length: int): (r: seq<string>)
    ensures forall w | w in r :: w in words && |w| == length
    ensures forall w | w in words :: multiset(r)[w] == if |w| == length then multiset(words)[w] else 0
  {
    if words == [] then []
    else
      assert words == [words[0]] + words[1..];
      var rest := FilterByLength(words[1..], length);
      if |words[0]| == length then [words[0]] + rest else rest
  }

  lemma {:induction false} FilterByLengthAppend(a: seq<string>, b: seq<string>, length: int)
    ensures FilterByLength(a + b, length) == FilterByLength(a, length) + FilterByLength(b, length)
  {
    if a == [] {
      assert a + b == b;
    } else {
      assert (a + b)[1..] == a[1..] + b;
      FilterByLengthAppend(a[1..], b, length);
    }
  }

  lemma {:induction false} FilterByLengthIdempotent(words: seq<string>, length: int)
    ensures FilterByLength(FilterByLength(words, length), length) == FilterByLength(words, length)
  {
    if words != [] {
      FilterByLengthIdempotent(words[1..], length);
      var rest := FilterByLength(words[1..], length);
      if |words[0]| == length {
        assert ([words[0]] + rest)[1..] == rest;
      }
    }
  }
}
