/** Cards of the memory-matching game and the queries the engine runs over a deck of them. */
module Cards {

  datatype Option<T> = None | Some(value: T)

  /** A card's identity: stands for the `UUID` every card receives when it is created. */
  type CardId = nat

  /** One card as the engine uses it. `content` is the opaque picture shown face-up. */
  datatype Card<C> = Card(id: CardId, matchId: string, content: C, isFaceUp: bool, isMatched: bool)

  /** A freshly created card: face-down and unmatched, as the struct's defaults say. */
  function NewCard<C>(id: CardId, matchId: string, content: C): Card<C>
  {
    Card(id, matchId, content, false, false)
  }

  /** No two elements of `s` are equal. */
  predicate Distinct<T(==)>(s: seq<T>)
  {
    forall a, b :: 0 <= a < b < |s| ==> s[a] != s[b]
  }

  /** No two cards of the deck share an id. */
  predicate DistinctIds<C>(cards: seq<Card<C>>)
  {
    forall a, b :: 0 <= a < b < |cards| ==> cards[a].id != cards[b].id
  }

  /** `cards.firstIndex(where: { $0.id == id })`: the first position holding a card with this id. */
  function FirstIndex<C>(cards: seq<Card<C>>, id: CardId): (r: Option<nat>)
    ensures r.Some? ==> r.value < |cards| && cards[r.value].id == id
    ensures r.Some? ==> forall k :: 0 <= k < r.value ==> cards[k].id != id
    ensures r.None? <==> forall k :: 0 <= k < |cards| ==> cards[k].id != id
  {
    if |cards| == 0 then None
    else if cards[0].id == id then Some(0)
    else match FirstIndex(cards[1..], id)
      case None => None
      case Some(k) => Some(k + 1)
  }

  /** The number of cards in the deck that carry the pairing key `m`. */
  function Occurrences<C>(cards: seq<Card<C>>, m: string): nat
  {
    if |cards| == 0 then 0
    else (if cards[0].matchId == m then 1 else 0) + Occurrences(cards[1..], m)
  }

  /** The set of pairing keys present in the deck. */
  function MatchIds<C>(cards: seq<Card<C>>): set<string>
  {
    set k | 0 <= k < |cards| :: cards[k].matchId
  }

  /** Every card of the deck is matched (`cards.allSatisfy { $0.isMatched == true }`). */
  predicate AllMatched<C>(cards: seq<Card<C>>)
  {
    forall k :: 0 <= k < |cards| ==> cards[k].isMatched
  }

  lemma {:induction false} OccurrencesConcat<C>(a: seq<Card<C>>, b: seq<Card<C>>, m: string)
    ensures Occurrences(a + b, m) == Occurrences(a, m) + Occurrences(b, m)
    decreases |a|
  {
    if |a| == 0 {
      assert a + b == b;
    } else {
      assert (a + b)[1..] == a[1..] + b;
      OccurrencesConcat(a[1..], b, m);
    }
  }

  /** A key occurs in the deck exactly when some card carries it. */
  lemma {:induction false} OccurrencesPositive<C>(cards: seq<Card<C>>, m: string)
    ensures Occurrences(cards, m) > 0 <==> exists k :: 0 <= k < |cards| && cards[k].matchId == m
    decreases |cards|
  {
    if |cards| > 0 {
      OccurrencesPositive(cards[1..], m);
      if Occurrences(cards[1..], m) > 0 {
        var k :| 0 <= k < |cards[1..]| && cards[1..][k].matchId == m;
        assert cards[k + 1].matchId == m;
      }
      if cards[0].matchId != m && (exists k :: 0 <= k < |cards| && cards[k].matchId == m) {
        var k :| 0 <= k < |cards| && cards[k].matchId == m;
        assert cards[1..][k - 1].matchId == m;
      }
    }
  }

  /** Counting keys does not depend on the order of the deck. */
  lemma {:induction false} OccurrencesPermutation<C>(a: seq<Card<C>>, b: seq<Card<C>>, m: string)
    requires multiset(a) == multiset(b)
    ensures Occurrences(a, m) == Occurrences(b, m)
    decreases |a|
  {
    if |a| == 0 {
      assert |multiset(b)| == 0;
    } else {
      var j := PermutationPartner(a, b);
      OccurrencesPermutation(a[1..], b[..j] + b[j + 1..], m);
      OccurrencesRemove(b, j, m);
    }
  }

  /** The first element of `a` sits at some position `j` of its permutation `b`, and what is left
      of the two is again a permutation. */
  lemma PermutationPartner<T>(a: seq<T>, b: seq<T>) returns (j: nat)
    requires |a| > 0 && multiset(a) == multiset(b)
    ensures j < |b| && b[j] == a[0]
    ensures multiset(a[1..]) == multiset(b[..j] + b[j + 1..])
  {
    assert a[0] in multiset(b);
    j :| 0 <= j < |b| && b[j] == a[0];
    MultisetRemove(a, 0);
    MultisetRemove(b, j);
    assert a[..0] + a[1..] == a[1..];
    MultisetCancel(multiset(a[1..]), multiset(b[..j] + b[j + 1..]), a[0]);
  }

  lemma MultisetRemove<T>(s: seq<T>, j: nat)
    requires j < |s|
    ensures multiset(s) == multiset(s[..j] + s[j + 1..]) + multiset{s[j]}
  {
    assert s == s[..j] + [s[j]] + s[j + 1..];
  }

  lemma MultisetCancel<T>(x: multiset<T>, y: multiset<T>, t: T)
    requires x + multiset{t} == y + multiset{t}
    ensures x == y
  {
    assert x == (x + multiset{t}) - multiset{t};
    assert y == (y + multiset{t}) - multiset{t};
  }

  /** Taking the card at position `j` out of the deck removes its key once. */
  lemma OccurrencesRemove<C>(s: seq<Card<C>>, j: nat, m: string)
    requires j < |s|
    ensures Occurrences(s, m) == Occurrences(s[..j] + s[j + 1..], m) + (if s[j].matchId == m then 1 else 0)
  {
    assert s == s[..j] + ([s[j]] + s[j + 1..]);
    OccurrencesConcat(s[..j], [s[j]] + s[j + 1..], m);
    OccurrencesConcat([s[j]], s[j + 1..], m);
    OccurrencesConcat(s[..j], s[j + 1..], m);
  }

  lemma MatchIdsSnoc<C>(cards: seq<Card<C>>, c: Card<C>)
    ensures MatchIds(cards + [c]) == MatchIds(cards) + {c.matchId}
  {
    var s := cards + [c];
    forall m | m in MatchIds(s) ensures m in MatchIds(cards) + {c.matchId} {
      var k :| 0 <= k < |s| && s[k].matchId == m;
      if k < |cards| { assert cards[k].matchId == m; }
    }
    forall m | m in MatchIds(cards) ensures m in MatchIds(s) {
      var k :| 0 <= k < |cards| && cards[k].matchId == m;
      assert s[k].matchId == m;
    }
    assert s[|cards|].matchId == c.matchId;
  }

  lemma MatchIdsPermutation<C>(a: seq<Card<C>>, b: seq<Card<C>>)
    requires multiset(a) == multiset(b)
    ensures MatchIds(a) == MatchIds(b)
  {
    MatchIdsSubset(a, b);
    MatchIdsSubset(b, a);
  }

  lemma MatchIdsSubset<C>(a: seq<Card<C>>, b: seq<Card<C>>)
    requires multiset(a) == multiset(b)
    ensures MatchIds(a) <= MatchIds(b)
  {
    forall m | m in MatchIds(a) ensures m in MatchIds(b) {
      var k :| 0 <= k < |a| && a[k].matchId == m;
      assert a[k] in multiset(b);
      var j :| 0 <= j < |b| && b[j] == a[k];
    }
  }

  /** Two positions holding the same card value make that value occur twice in the multiset. */
  lemma TwiceInMultiset<T>(s: seq<T>, p: nat, q: nat)
    requires p < q < |s| && s[p] == s[q]
    ensures multiset(s)[s[p]] >= 2
  {
    assert s == s[..q] + s[q..];
    assert s[p] in s[..q];
    assert s[q] in s[q..];
    assert multiset(s) == multiset(s[..q]) + multiset(s[q..]);
  }

  /** A card value that occurs at least twice stands at two different positions. */
  lemma TwoPositions<T>(s: seq<T>, x: T) returns (p: nat, q: nat)
    requires multiset(s)[x] >= 2
    ensures p < q < |s| && s[p] == x && s[q] == x
  {
    assert x in multiset(s);
    var i :| 0 <= i < |s| && s[i] == x;
    var rest := s[..i] + s[i + 1..];
    assert s == s[..i] + [x] + s[i + 1..];
    assert multiset(s) == multiset(rest) + multiset{x};
    assert x in multiset(rest);
    var j :| 0 <= j < |rest| && rest[j] == x;
    if j < i {
      assert s[j] == x;
      p, q := j, i;
    } else {
      assert s[j + 1] == x;
      p, q := i, j + 1;
    }
  }

  /** Distinct ids survive any reordering of the deck. */
  lemma DistinctIdsPermutation<C>(a: seq<Card<C>>, b: seq<Card<C>>)
    requires multiset(a) == multiset(b) && DistinctIds(a)
    ensures DistinctIds(b)
  {
    forall p, q | 0 <= p < q < |b|
      ensures b[p].id != b[q].id
    {
      if b[p] == b[q] {
        TwiceInMultiset(b, p, q);
        var i, j := TwoPositions(a, b[p]);
        assert false;
      } else {
        assert b[p] in multiset(a) && b[q] in multiset(a);
        var i :| 0 <= i < |a| && a[i] == b[p];
        var j :| 0 <= j < |a| && a[j] == b[q];
        if i < j { assert a[i].id != a[j].id; } else { assert a[j].id != a[i].id; }
      }
    }
  }
}
