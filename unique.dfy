/** `uniquePetImages`: one picture per distinct pairing key, in the order the keys first appear. */
module Unique {
  import opened Cards
  import opened Deck

  /** Position `k` holds the first card of the deck that carries its key. */
  predicate IsFirstOccurrence<C>(cards: seq<Card<C>>, k: int)
  {
    0 <= k < |cards| && forall i :: 0 <= i < k ==> cards[i].matchId != cards[k].matchId
  }

  /** The positions where a key appears for the first time, from left to right. */
  function FirstOccurrences<C>(cards: seq<Card<C>>): (idx: seq<nat>)
    ensures forall j :: 0 <= j < |idx| ==> IsFirstOccurrence(cards, idx[j])
    ensures forall j1, j2 :: 0 <= j1 < j2 < |idx| ==> idx[j1] < idx[j2]
    ensures forall k :: IsFirstOccurrence(cards, k) ==> k in idx
    decreases |cards|
  {
    if |cards| == 0 then []
    else
      var n := |cards| - 1;
      var prefix := cards[..n];
      assert forall k :: IsFirstOccurrence(prefix, k) ==> IsFirstOccurrence(cards, k);
      assert forall k :: 0 <= k < n && IsFirstOccurrence(cards, k) ==> IsFirstOccurrence(prefix, k);
      assert cards[n].matchId in MatchIds(prefix) <==> !IsFirstOccurrence(cards, n) by {
        if cards[n].matchId in MatchIds(prefix) {
          var i :| 0 <= i < n && prefix[i].matchId == cards[n].matchId;
          assert cards[i].matchId == cards[n].matchId;
        }
        if !IsFirstOccurrence(cards, n) {
          var i :| 0 <= i < n && cards[i].matchId == cards[n].matchId;
          assert prefix[i].matchId == cards[n].matchId;
        }
      }
      FirstOccurrences(prefix) + (if cards[n].matchId in MatchIds(prefix) then [] else [n])
  }

  /** The value of `uniquePetImages`: the content of each first occurrence, in order. */
  function UniqueContents<C>(cards: seq<Card<C>>): seq<C>
  {
    var idx := FirstOccurrences(cards);
    seq(|idx|, j requires 0 <= j < |idx| => cards[idx[j]].content)
  }

  /** Appending a card adds its content exactly when its key has not been seen before: the step
      of the `compactMap` over the deck. */
  lemma UniqueContentsSnoc<C>(cards: seq<Card<C>>, i: nat)
    requires i < |cards|
    ensures UniqueContents(cards[..i + 1]) ==
      UniqueContents(cards[..i]) + (if cards[i].matchId in MatchIds(cards[..i]) then [] else [cards[i].content])
    ensures MatchIds(cards[..i + 1]) == MatchIds(cards[..i]) + {cards[i].matchId}
  {
    var s := cards[..i + 1];
    assert s[..i] == cards[..i];
    assert s == cards[..i] + [cards[i]];
    MatchIdsSnoc(cards[..i], cards[i]);
  }

  /** There are as many first occurrences as distinct keys. */
  lemma {:induction false} FirstOccurrencesCount<C>(cards: seq<Card<C>>)
    ensures |FirstOccurrences(cards)| == |MatchIds(cards)|
    decreases |cards|
  {
    if |cards| == 0 {
      assert MatchIds(cards) == {};
    } else {
      var n := |cards| - 1;
      var prefix := cards[..n];
      FirstOccurrencesCount(prefix);
      assert cards == prefix + [cards[n]];
      MatchIdsSnoc(prefix, cards[n]);
      var m := cards[n].matchId;
      if m in MatchIds(prefix) {
        assert MatchIds(cards) == MatchIds(prefix);
        assert FirstOccurrences(cards) == FirstOccurrences(prefix);
      } else {
        assert |MatchIds(prefix) + {m}| == |MatchIds(prefix)| + 1;
        assert FirstOccurrences(cards) == FirstOccurrences(prefix) + [n];
      }
    }
  }

  /** `uniquePetImages` holds one entry per distinct key: entry `j` is the content of the `j`-th
      first occurrence, the keys of the entries are pairwise different, and every key of the deck
      has its entry. */
  lemma UniqueContentsMeaning<C>(cards: seq<Card<C>>)
    ensures |UniqueContents(cards)| == |FirstOccurrences(cards)| == |MatchIds(cards)|
    ensures forall j :: 0 <= j < |FirstOccurrences(cards)| ==>
      UniqueContents(cards)[j] == cards[FirstOccurrences(cards)[j]].content
    ensures forall j1, j2 :: 0 <= j1 < j2 < |FirstOccurrences(cards)| ==>
      cards[FirstOccurrences(cards)[j1]].matchId != cards[FirstOccurrences(cards)[j2]].matchId
    ensures forall m :: m in MatchIds(cards) ==>
      exists j :: 0 <= j < |FirstOccurrences(cards)| && cards[FirstOccurrences(cards)[j]].matchId == m
  {
    var idx := FirstOccurrences(cards);
    FirstOccurrencesCount(cards);
    forall m | m in MatchIds(cards)
      ensures exists j :: 0 <= j < |idx| && cards[idx[j]].matchId == m
    {
      var k := FirstCarrier(cards, m);
      var j :| 0 <= j < |idx| && idx[j] == k;
    }
  }

  /** The first position of a key present in the deck. */
  lemma FirstCarrier<C>(cards: seq<Card<C>>, m: string) returns (k: nat)
    requires m in MatchIds(cards)
    ensures IsFirstOccurrence(cards, k) && cards[k].matchId == m
  {
    var i :| 0 <= i < |cards| && cards[i].matchId == m;
    k := i;
    while exists p :: 0 <= p < k && cards[p].matchId == m
      invariant k < |cards| && cards[k].matchId == m
      decreases k
    {
      var p :| 0 <= p < k && cards[p].matchId == m;
      k := p;
    }
  }

  /** For a deck whose every key is carried twice, as `startNewGame` builds it and `choose`
      keeps it, `uniquePetImages` holds half as many entries as there are cards. */
  lemma UniqueContentsOfPairedDeck<C>(cards: seq<Card<C>>)
    requires EachKeyTwice(cards)
    ensures 2 * |UniqueContents(cards)| == |cards|
  {
    UniqueContentsMeaning(cards);
    PairedDeckHalf(cards);
  }
}
