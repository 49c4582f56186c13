/**
 * The ranking pipeline of `getSpellingSuggestions`: a length pre-filter, a
 * distance for each remaining record, a filter on that distance, a stable
 * sort by distance and then frequency, and a cut at `limit`.
 */
module SpellCheck {
  import opened Text
  import opened Seqs
  import opened Ranking
  import opened EditDistance
  import opened WordRecords

  /** A record together with its distance to the misspelled word. */
  datatype Scored = Scored(record: WordRecord, distance: nat)

  /** How far a dictionary word is from the lower-cased query. */
  type Distance = (string, string) -> nat

  /** `Math.abs(wordData.word.length - word.length) <= maxDistance`. */
  function WithinLength(word: string, maxDistance: int): WordRecord -> bool
  {
    (r: WordRecord) => Abs(|r.word| - |word|) <= maxDistance
  }

  /** `{...wordData, distance: calculateEditDistance(lowerWord, wordData.word)}`. */
  function ScoreAgainst(lowerWord: string, dist: Distance): WordRecord -> Scored
  {
    (r: WordRecord) => Scored(r, dist(lowerWord, r.word))
  }

  /** `item.distance <= maxDistance && item.distance > 0`. */
  function InRange(maxDistance: int): Scored -> bool
  {
    (s: Scored) => s.distance <= maxDistance && s.distance > 0
  }

  /** Distance first, smallest first; then frequency, highest first. */
  function DistanceRank(s: Scored): Rank
  {
    Rank(s.distance, s.record.frequency)
  }

  function Unscore(s: Scored): WordRecord
  {
    s.record
  }

  /** The scored candidates that pass both filters, in dictionary order. */
  function Kept(all: seq<WordRecord>, word: string, maxDistance: int, dist: Distance): seq<Scored>
  {
    Filter(Map(Filter(all, WithinLength(word, maxDistance)), ScoreAgainst(Lower(word), dist)), InRange(maxDistance))
  }

  /** The scored candidates in the order the sort leaves them. */
  function Ranked(all: seq<WordRecord>, word: string, maxDistance: int, dist: Distance): seq<Scored>
  {
    SortByRank(Kept(all, word, maxDistance, dist), DistanceRank)
  }

  /** The pipeline over any distance. */
  function Suggest(all: seq<WordRecord>, word: string, maxDistance: int, limit: int, dist: Distance): seq<WordRecord>
  {
    Map(Slice(Ranked(all, word, maxDistance, dist), limit), Unscore)
  }

  /** `getSpellingSuggestions` on a cache miss, over `getAllWords()`, with the loader's distance. */
  function SpellingSuggestions(all: seq<WordRecord>, word: string, maxDistance: int, limit: int): seq<WordRecord>
  {
    Suggest(all, word, maxDistance, limit, PrunedDistance)
  }

  /** A record the pipeline admits: close enough in length, and at a positive distance no larger than the bound. */
  predicate Candidate(word: string, maxDistance: int, dist: Distance, x: WordRecord)
  {
    Abs(|x.word| - |word|) <= maxDistance && 0 < dist(Lower(word), x.word) <= maxDistance
  }

  /** The filters keep exactly the admitted records, each with its distance. */
  lemma KeptExact(all: seq<WordRecord>, word: string, maxDistance: int, dist: Distance, s: Scored)
    ensures s in Kept(all, word, maxDistance, dist) <==>
      s.record in all && Candidate(word, maxDistance, dist, s.record) && s.distance == dist(Lower(word), s.record.word)
  {
    var near := Filter(all, WithinLength(word, maxDistance));
    var scored := Map(near, ScoreAgainst(Lower(word), dist));
    FilterMembership(scored, InRange(maxDistance), s);
    FilterMembership(all, WithinLength(word, maxDistance), s.record);
    if s in scored {
      var i :| 0 <= i < |scored| && scored[i] == s;
      assert near[i] == s.record;
    }
    if s.record in near && s.distance == dist(Lower(word), s.record.word) {
      var i :| 0 <= i < |near| && near[i] == s.record;
      assert scored[i] == s;
    }
  }

  /** The sort receives exactly the admitted records, each with its distance, and orders them. */
  lemma RankedExact(all: seq<WordRecord>, word: string, maxDistance: int, dist: Distance, s: Scored)
    ensures s in Ranked(all, word, maxDistance, dist) <==>
      s.record in all && Candidate(word, maxDistance, dist, s.record) && s.distance == dist(Lower(word), s.record.word)
    ensures SortedBy(Ranked(all, word, maxDistance, dist), DistanceRank)
  {
    var kept := Kept(all, word, maxDistance, dist);
    var r := Ranked(all, word, maxDistance, dist);
    SortIsSorted(kept, DistanceRank);
    SortPermutes(kept, DistanceRank);
    KeptExact(all, word, maxDistance, dist, s);
    assert s in r <==> s in multiset(r);
    assert s in kept <==> s in multiset(kept);
  }

  /**
   * Each suggestion is a record of `all` the pipeline admits, there are at
   * most `limit` of them when `limit` is not negative, and they come by
   * distance, smallest first, then by frequency, highest first.
   */
  lemma SuggestShape(all: seq<WordRecord>, word: string, maxDistance: int, limit: int, dist: Distance)
    ensures forall x :: x in Suggest(all, word, maxDistance, limit, dist) ==>
      x in all && Candidate(word, maxDistance, dist, x)
    ensures limit >= 0 ==> |Suggest(all, word, maxDistance, limit, dist)| <= limit
    ensures WellRanked(Lower(word), maxDistance, limit, dist, Suggest(all, word, maxDistance, limit, dist))
  {
    var ranked := Ranked(all, word, maxDistance, dist);
    var cut := Slice(ranked, limit);
    var r := Suggest(all, word, maxDistance, limit, dist);
    forall i | 0 <= i < |cut|
      ensures cut[i] in ranked && r[i] == cut[i].record
      ensures cut[i].distance == dist(Lower(word), r[i].word)
      ensures Candidate(word, maxDistance, dist, r[i]) && r[i] in all
    {
      assert cut[i] == ranked[i];
      RankedExact(all, word, maxDistance, dist, cut[i]);
    }
    RankedExact(all, word, maxDistance, dist, Scored(WordRecord([], 0, 0, Rare), 0));
    forall i, j | 0 <= i < j < |r|
      ensures !Before(Rank(dist(Lower(word), r[j].word), r[j].frequency), Rank(dist(Lower(word), r[i].word), r[i].frequency))
    {
      assert cut[i] == ranked[i] && cut[j] == ranked[j];
    }
  }

  /**
   * What a cached answer of `getSpellingSuggestions(word, maxDistance, limit)`
   * keeps, whatever happened to the dictionary since: its length bound,
   * every record's length gap and distance to `lowerWord`, and the order.
   */
  predicate WellRanked(lowerWord: string, maxDistance: int, limit: int, dist: Distance, v: seq<WordRecord>)
  {
    && (limit >= 0 ==> |v| <= limit)
    && (forall i :: 0 <= i < |v| ==>
          Abs(|v[i].word| - |lowerWord|) <= maxDistance && 0 < dist(lowerWord, v[i].word) <= maxDistance)
    && (forall i, j :: 0 <= i < j < |v| ==>
          !Before(Rank(dist(lowerWord, v[j].word), v[j].frequency), Rank(dist(lowerWord, v[i].word), v[i].frequency)))
  }

  /**
   * A record the pipeline admits but does not return was beaten: `limit`
   * records came back and each ranks no lower than it.
   */
  lemma SuggestTopK(all: seq<WordRecord>, word: string, maxDistance: int, limit: int, dist: Distance, x: WordRecord)
    requires limit >= 0
    requires x in all && Candidate(word, maxDistance, dist, x)
    ensures x !in Suggest(all, word, maxDistance, limit, dist) ==>
      |Suggest(all, word, maxDistance, limit, dist)| == limit &&
      forall y :: y in Suggest(all, word, maxDistance, limit, dist) ==>
        !Before(Rank(dist(Lower(word), x.word), x.frequency), Rank(dist(Lower(word), y.word), y.frequency))
  {
    var ranked := Ranked(all, word, maxDistance, dist);
    var cut := Slice(ranked, limit);
    var r := Suggest(all, word, maxDistance, limit, dist);
    var sx := Scored(x, dist(Lower(word), x.word));
    RankedExact(all, word, maxDistance, dist, sx);
    forall i | 0 <= i < |cut| && cut[i] == sx
      ensures x in r
    {
      assert r[i] == x;
    }
    if x !in r {
      TopOfSorted(ranked, DistanceRank, limit, sx);
      forall y | y in r
        ensures !Before(Rank(dist(Lower(word), x.word), x.frequency), Rank(dist(Lower(word), y.word), y.frequency))
      {
        var i :| 0 <= i < |r| && r[i] == y;
        assert cut[i] in cut;
        RankedExact(all, word, maxDistance, dist, cut[i]);
      }
    }
  }

  /**
   * With the default bound of 2 or less, the loader's distance of every
   * suggestion is its true Levenshtein distance, so a suggestion is never
   * an exact match and never further than the bound.
   */
  lemma SpellingSuggestionsExact(all: seq<WordRecord>, word: string, maxDistance: int, limit: int)
    requires maxDistance <= 2
    ensures forall x :: x in SpellingSuggestions(all, word, maxDistance, limit) ==>
      PrunedDistance(Lower(word), x.word) == Levenshtein(Lower(word), x.word) &&
      0 < Levenshtein(Lower(word), x.word) <= maxDistance
  {
    SuggestShape(all, word, maxDistance, limit, PrunedDistance);
    forall x | x in SpellingSuggestions(all, word, maxDistance, limit)
      ensures PrunedDistance(Lower(word), x.word) == Levenshtein(Lower(word), x.word)
    {
      PrunedDistanceProperties(Lower(word), x.word);
    }
  }

  // ---------------------------------------------------------------- the sentinel for bounds above 2

  /** The pipeline as the bound intends it: the true Levenshtein distance. */
  function ExactSpellingSuggestions(all: seq<WordRecord>, word: string, maxDistance: int, limit: int): seq<WordRecord>
  {
    Suggest(all, word, maxDistance, limit, Levenshtein)
  }

  /** Whatever the bound, every suggestion is at true distance between 1 and the bound. */
  lemma ExactSpellingSuggestionsWithinBound(all: seq<WordRecord>, word: string, maxDistance: int, limit: int)
    ensures forall x :: x in ExactSpellingSuggestions(all, word, maxDistance, limit) ==>
      x in all && 0 < Levenshtein(Lower(word), x.word) <= maxDistance
  {
    SuggestShape(all, word, maxDistance, limit, Levenshtein);
  }

  /** For bounds of 2 or less the code as written already computes the intended answer. */
  lemma ExactAgreesForSmallBounds(all: seq<WordRecord>, word: string, maxDistance: int, limit: int)
    requires maxDistance <= 2
    ensures ExactSpellingSuggestions(all, word, maxDistance, limit) == SpellingSuggestions(all, word, maxDistance, limit)
  {
    var near := Filter(all, WithinLength(word, maxDistance));
    var a := Map(near, ScoreAgainst(Lower(word), PrunedDistance));
    var b := Map(near, ScoreAgainst(Lower(word), Levenshtein));
    forall i | 0 <= i < |near|
      ensures a[i] == b[i]
    {
      assert WithinLength(word, maxDistance)(near[i]);
      PrunedDistanceProperties(Lower(word), near[i].word);
    }
    assert a == b;
  }

  /** A one-letter string against a string without that letter is as far as the other is long. */
  lemma {:induction false} DistFromAbsentLetter(a: string, b: string, j: nat)
    requires |a| == 1 && j <= |b|
    requires forall k :: 0 <= k < j ==> b[k] != a[0]
    ensures Dist(a, b, 1, j) == if j == 0 then 1 else j
  {
    if j > 0 {
      DistFromAbsentLetter(a, b, j - 1);
    }
  }

  /**
   * With a bound of 3, the query "a" is offered "bcde": their lengths are 3
   * apart, so the distance stops at the sentinel 3, although the true
   * distance is 4.
   */
  lemma SentinelAdmitsFarWord()
    ensures var far := WordRecord("bcde", 1, 4, Rare);
      SpellingSuggestions([far], "a", 3, 5) == [far] && Levenshtein("a", "bcde") == 4
  {
    var far := WordRecord("bcde", 1, 4, Rare);
    assert Lower("a") == "a";
    DistFromAbsentLetter("a", "bcde", 4);
    var ranked := Ranked([far], "a", 3, PrunedDistance);
    var s := Scored(far, 3);
    assert PrunedDistance("a", "bcde") == 3;
    RankedExact([far], "a", 3, PrunedDistance, s);
    assert s in ranked;
    assert |ranked| <= 1 by {
      var near := Filter([far], WithinLength("a", 3));
      assert |ranked| == |Kept([far], "a", 3, PrunedDistance)| <= |near| <= 1;
    }
    assert ranked == [s];
  }
}
