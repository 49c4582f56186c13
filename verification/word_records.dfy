/**
 * The `DictionaryWord` record and the read-only views the dictionary offers
 * over its `words` array: `getWordsByCommonality` and the counts of `getStats`.
 */
module WordRecords {
  import opened Seqs

  datatype Commonality = Common | Uncommon | Rare

  /**
   * One vocabulary entry. `length` is stored as given by whoever built the
   * record; nothing recomputes it from `word`.
   */
  datatype WordRecord = WordRecord(word: string, frequency: int, length: int, commonality: Commonality)

  /** The counting part of `getStats`; the two averages are not modelled. */
  datatype Stats = Stats(totalWords: nat, commonWords: nat, uncommonWords: nat, rareWords: nat)

  /** `words.filter(word => word.commonality === c)`. */
  function ByCommonality(records: seq<WordRecord>, c: Commonality): seq<WordRecord>
  {
    Filter(records, (r: WordRecord) => r.commonality == c)
  }

  /** The counts of `getStats`, each the length of a filter over the records. */
  function StatsOf(records: seq<WordRecord>): Stats
  {
    Stats(|records|,
          |ByCommonality(records, Common)|,
          |ByCommonality(records, Uncommon)|,
          |ByCommonality(records, Rare)|)
  }

  /** The three commonality counts partition the total. */
  lemma {:induction false} StatsAddUp(records: seq<WordRecord>)
    ensures StatsOf(records).commonWords + StatsOf(records).uncommonWords + StatsOf(records).rareWords
         == StatsOf(records).totalWords
  {
    if records != [] {
      StatsAddUp(records[1..]);
    }
  }

  /**
   * `ByCommonality` keeps exactly the records of that commonality, every
   * copy of each, in their original order, and its length is the count
   * reported by the statistics.
   */
  lemma ByCommonalityExact(records: seq<WordRecord>, c: Commonality)
    ensures forall x :: x in ByCommonality(records, c) <==> x in records && x.commonality == c
    ensures forall x :: multiset(ByCommonality(records, c))[x]
                     == if x.commonality == c then multiset(records)[x] else 0
    ensures forall a, b :: records == a + b ==> ByCommonality(records, c) == ByCommonality(a, c) + ByCommonality(b, c)
    ensures |ByCommonality(records, c)| == match c
      case Common => StatsOf(records).commonWords
      case Uncommon => StatsOf(records).uncommonWords
      case Rare => StatsOf(records).rareWords
  {
    var p := (r: WordRecord) => r.commonality == c;
    forall x
      ensures x in ByCommonality(records, c) <==> x in records && x.commonality == c
    {
      FilterMembership(records, p, x);
    }
    forall x
      ensures multiset(ByCommonality(records, c))[x] == if x.commonality == c then multiset(records)[x] else 0
    {
      FilterCount(records, p, x);
    }
    forall a, b | records == a + b
      ensures ByCommonality(records, c) == ByCommonality(a, c) + ByCommonality(b, c)
    {
      FilterConcat(a, b, p);
    }
  }

  /** Every record falls in exactly one commonality: the three filters together hold the records, copy for copy. */
  lemma CommonalitiesPartition(records: seq<WordRecord>)
    ensures multiset(ByCommonality(records, Common)) + multiset(ByCommonality(records, Uncommon))
            + multiset(ByCommonality(records, Rare)) == multiset(records)
  {
    ByCommonalityExact(records, Common);
    ByCommonalityExact(records, Uncommon);
    ByCommonalityExact(records, Rare);
    var all := multiset(ByCommonality(records, Common)) + multiset(ByCommonality(records, Uncommon))
               + multiset(ByCommonality(records, Rare));
    forall x
      ensures all[x] == multiset(records)[x]
    {
    }
  }
}
