/** The recent-search list of the front end: most recent first, at most five entries, each
    submitted term once. Terms are compared as raw strings, so "cake" and " cake" differ. */
module RecentSearches {
  import opened Seqs

  const Limit: nat := 5

  /** The predicate of `prev.filter(s => s !== term)`. */
  function Differs(term: string): string -> bool {
    (s: string) => s != term
  }

  /** `prev` with every copy of `term` removed, in order. */
  function Without(prev: seq<string>, term: string): (r: seq<string>)
    ensures term !in r
    ensures forall k :: 0 <= k < |r| ==> r[k] in prev
    ensures forall i :: 0 <= i < |prev| && prev[i] != term ==> prev[i] in r
  {
    Filter(prev, Differs(term))
  }

  /** `[term, ...prev.filter(s => s !== term)].slice(0, 5)`. */
  function Record(prev: seq<string>, term: string): (r: seq<string>)
    ensures 1 <= |r| <= Limit
    ensures r[0] == term
    ensures r[1..] == Take(Without(prev, term), Limit - 1)
    ensures multiset(r)[term] == 1
  {
    var r := Take([term] + Without(prev, term), Limit);
    assert r == [term] + Take(Without(prev, term), Limit - 1);
    assert term !in r[1..];
    assert r == [r[0]] + r[1..];
    assert multiset(r[1..])[term] == 0;
    r
  }

  /** The entries after the first are, in their original relative order, the entries of the
      previous list that differ from the term, cut to four. */
  lemma RecordKeepsOrder(prev: seq<string>, term: string)
    ensures SelectedBy(Without(prev, term), prev, Positions(prev, Differs(term)))
    ensures forall i :: 0 <= i < |prev| ==> (prev[i] != term <==> i in Positions(prev, Differs(term)))
    ensures Record(prev, term)[1..] <= Without(prev, term)
  {
    FilterSelectsPositions(prev, Differs(term));
  }

  /** Recording keeps a duplicate-free list duplicate-free. */
  lemma RecordNoDuplicates(prev: seq<string>, term: string)
    requires NoDuplicates(prev)
    ensures NoDuplicates(Record(prev, term))
  {
    FilterNoDuplicates(prev, Differs(term));
    var r := Record(prev, term);
    var w := Without(prev, term);
    forall i, j | 0 <= i < j < |r| ensures r[i] != r[j] {
      if i == 0 {
        assert r[j] == w[j - 1];
      } else {
        assert r[i] == w[i - 1] && r[j] == w[j - 1];
      }
    }
  }

  /** Every entry of the new list is the term or an entry of the previous list. */
  lemma RecordDrawsFromPrevious(prev: seq<string>, term: string)
    ensures forall k :: 0 <= k < |Record(prev, term)| ==>
      Record(prev, term)[k] == term || Record(prev, term)[k] in prev
  {
    var r := Record(prev, term);
    forall k | 1 <= k < |r| ensures r[k] in prev {
      assert r[k] == Without(prev, term)[k - 1];
    }
  }

  /** Recording the same term twice in a row gives the list recording it once gives. */
  lemma RecordIdempotent(prev: seq<string>, term: string)
    ensures Record(Record(prev, term), term) == Record(prev, term)
  {
    var once := Record(prev, term);
    WithoutOfRecord(prev, term);
    var twice := Record(once, term);
    assert twice[1..] == Take(once[1..], Limit - 1) == once[1..];
    assert twice == [twice[0]] + twice[1..];
    assert once == [once[0]] + once[1..];
  }

  /** Removing the term from a recorded list leaves the entries after its head. */
  lemma WithoutOfRecord(prev: seq<string>, term: string)
    ensures Without(Record(prev, term), term) == Record(prev, term)[1..]
  {
    var once := Record(prev, term);
    var tail := once[1..];
    assert once == [term] + tail;
    assert term !in tail by {
      assert tail <= Without(prev, term);
    }
    WithoutHeadTerm(tail, term);
  }

  /** A list headed by the term, with no other copy of it, loses just its head. */
  lemma WithoutHeadTerm(tail: seq<string>, term: string)
    requires term !in tail
    ensures Without([term] + tail, term) == tail
  {
    FilterConcat([term], tail, Differs(term));
    FilterSingleton(term, Differs(term));
    forall k | 0 <= k < |tail| ensures Differs(term)(tail[k]) {
    }
    FilterAllPass(tail, Differs(term));
  }

  /** Terms that differ only in whitespace are separate entries. */
  lemma RecordDistinguishesWhitespace()
    ensures Record(["cake"], " cake") == [" cake", "cake"]
  {
    assert Differs(" cake")("cake");
    FilterAllPass(["cake"], Differs(" cake"));
  }
}
