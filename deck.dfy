/** The deck `startNewGame` builds before it shuffles, and the pairing facts that hold of it. */
module Deck {
  import opened Cards

  /** The default pairing keys, exactly as the source text spells them: the UTF-8 bytes of the cat,
      dog and rabbit face emoji read as Mac OS Roman. They share their first three characters. */
  const Cat: string := "\U{F8FF}\U{FC}\U{EA}\U{B1}"
  const Dog: string := "\U{F8FF}\U{FC}\U{EA}\U{2202}"
  const Rabbit: string := "\U{F8FF}\U{FC}\U{EA}\U{221E}"

  /** The default key list: every key appears twice, one card per entry. */
  const DefaultEmojis: seq<string> := [Cat, Cat, Dog, Dog, Rabbit, Rabbit]

  /** The caller's images are used only when a list was passed and it is not empty. */
  predicate UsesImages<C>(images: Option<seq<C>>)
  {
    images.Some? && |images.value| > 0
  }

  function DeckSize<C>(images: Option<seq<C>>): nat
  {
    if UsesImages(images) then 2 * |images.value| else |DefaultEmojis|
  }

  /** The supplies of fresh card ids and fresh pair ids are long enough for one new deck. */
  predicate EnoughFresh<C>(images: Option<seq<C>>, ids: seq<CardId>, pairIds: seq<string>)
  {
    DeckSize(images) <= |ids| && (UsesImages(images) ==> |images.value| <= |pairIds|)
  }

  /** The value of `newCards` after the loop over the caller's images: two cards per image,
      both keyed by that image's pair id. Card `k` takes the fresh id `ids[k]`. */
  function UserDeck<C>(images: seq<C>, ids: seq<CardId>, pairIds: seq<string>): seq<Card<C>>
    requires 2 * |images| <= |ids| && |images| <= |pairIds|
    decreases |images|
  {
    if |images| == 0 then []
    else
      var n := |images| - 1;
      UserDeck(images[..n], ids, pairIds)
        + [NewCard(ids[2 * n], pairIds[n], images[n]), NewCard(ids[2 * n + 1], pairIds[n], images[n])]
  }

  /** The value of `newCards` after the loop over the emoji keys: one card per key, all showing `heart`. */
  function EmojiDeck<C>(emojis: seq<string>, heart: C, ids: seq<CardId>): seq<Card<C>>
    requires |emojis| <= |ids|
    decreases |emojis|
  {
    if |emojis| == 0 then []
    else
      var n := |emojis| - 1;
      EmojiDeck(emojis[..n], heart, ids) + [NewCard(ids[n], emojis[n], heart)]
  }

  /** The unshuffled deck of `startNewGame(with: images)`; `heart` is the default picture. */
  function NewDeck<C>(images: Option<seq<C>>, heart: C, ids: seq<CardId>, pairIds: seq<string>): seq<Card<C>>
    requires EnoughFresh(images, ids, pairIds)
  {
    if UsesImages(images) then UserDeck(images.value, ids, pairIds) else EmojiDeck(DefaultEmojis, heart, ids)
  }

  /** Every key present in the deck is carried by exactly two cards. */
  ghost predicate EachKeyTwice<C>(cards: seq<Card<C>>)
  {
    forall k :: 0 <= k < |cards| ==> Occurrences(cards, cards[k].matchId) == 2
  }

  /** Cards with the same key show the same content. */
  ghost predicate PairsShareContent<C>(cards: seq<Card<C>>)
  {
    forall a, b :: 0 <= a < |cards| && 0 <= b < |cards| && cards[a].matchId == cards[b].matchId ==>
      cards[a].content == cards[b].content
  }

  ghost predicate PairedDeck<C>(cards: seq<Card<C>>)
  {
    EachKeyTwice(cards) && PairsShareContent(cards)
  }

  predicate AllFaceDown<C>(cards: seq<Card<C>>)
  {
    forall k :: 0 <= k < |cards| ==> !cards[k].isFaceUp && !cards[k].isMatched
  }

  lemma {:induction false} UserDeckShape<C>(images: seq<C>, ids: seq<CardId>, pairIds: seq<string>)
    requires 2 * |images| <= |ids| && |images| <= |pairIds|
    ensures |UserDeck(images, ids, pairIds)| == 2 * |images|
    ensures forall k :: 0 <= k < 2 * |images| ==>
      UserDeck(images, ids, pairIds)[k] == NewCard(ids[k], pairIds[k / 2], images[k / 2])
    decreases |images|
  {
    if |images| > 0 {
      var n := |images| - 1;
      UserDeckShape(images[..n], ids, pairIds);
      forall k | 0 <= k < 2 * n ensures images[..n][k / 2] == images[k / 2] { }
    }
  }

  lemma {:induction false} EmojiDeckShape<C>(emojis: seq<string>, heart: C, ids: seq<CardId>)
    requires |emojis| <= |ids|
    ensures |EmojiDeck(emojis, heart, ids)| == |emojis|
    ensures forall k :: 0 <= k < |emojis| ==> EmojiDeck(emojis, heart, ids)[k] == NewCard(ids[k], emojis[k], heart)
    decreases |emojis|
  {
    if |emojis| > 0 {
      var n := |emojis| - 1;
      EmojiDeckShape(emojis[..n], heart, ids);
    }
  }

  lemma OccurrencesNone<C>(cards: seq<Card<C>>, m: string)
    requires forall k :: 0 <= k < |cards| ==> cards[k].matchId != m
    ensures Occurrences(cards, m) == 0
  {
    OccurrencesPositive(cards, m);
  }

  /** A key carried at exactly the position `j` occurs once. */
  lemma {:induction false} OccurrencesExactlyOne<C>(cards: seq<Card<C>>, m: string, j: nat)
    requires j < |cards| && cards[j].matchId == m
    requires forall k :: 0 <= k < |cards| && k != j ==> cards[k].matchId != m
    ensures Occurrences(cards, m) == 1
    decreases |cards|
  {
    var tail := cards[1..];
    assert forall k :: 0 <= k < |tail| ==> tail[k] == cards[k + 1];
    if j == 0 {
      OccurrencesNone(tail, m);
    } else {
      OccurrencesExactlyOne(tail, m, j - 1);
    }
  }

  /** A key carried at exactly the two positions `i` and `j` occurs twice. */
  lemma {:induction false} OccurrencesExactlyTwo<C>(cards: seq<Card<C>>, m: string, i: nat, j: nat)
    requires i < j < |cards| && cards[i].matchId == m && cards[j].matchId == m
    requires forall k :: 0 <= k < |cards| && k != i && k != j ==> cards[k].matchId != m
    ensures Occurrences(cards, m) == 2
    decreases |cards|
  {
    var tail := cards[1..];
    assert forall k :: 0 <= k < |tail| ==> tail[k] == cards[k + 1];
    if i == 0 {
      OccurrencesExactlyOne(tail, m, j - 1);
    } else {
      OccurrencesExactlyTwo(tail, m, i - 1, j - 1);
    }
  }

  /** With fresh pair ids, every image's pair id keys exactly two cards, both showing that image,
      and the deck holds twice as many cards as images. */
  lemma UserDeckPairs<C>(images: seq<C>, ids: seq<CardId>, pairIds: seq<string>)
    requires 2 * |images| <= |ids| && |images| <= |pairIds| && Distinct(pairIds)
    ensures |UserDeck(images, ids, pairIds)| == 2 * |images|
    ensures forall q :: 0 <= q < |images| ==> Occurrences(UserDeck(images, ids, pairIds), pairIds[q]) == 2
    ensures forall q, k ::
      (0 <= q < |images| && 0 <= k < |UserDeck(images, ids, pairIds)| &&
       UserDeck(images, ids, pairIds)[k].matchId == pairIds[q]) ==>
      UserDeck(images, ids, pairIds)[k].content == images[q]
    ensures PairedDeck(UserDeck(images, ids, pairIds))
  {
    var d := UserDeck(images, ids, pairIds);
    UserDeckShape(images, ids, pairIds);
    forall q | 0 <= q < |images| ensures Occurrences(d, pairIds[q]) == 2 {
      UserDeckPairOf(images, ids, pairIds, q);
    }
    forall q, k | 0 <= q < |images| && 0 <= k < |d| && d[k].matchId == pairIds[q] ensures d[k].content == images[q] {
      assert pairIds[k / 2] == pairIds[q];
    }
    forall k | 0 <= k < |d| ensures Occurrences(d, d[k].matchId) == 2 {
      assert d[k].matchId == pairIds[k / 2];
    }
  }

  /** The pair id of image `q` keys the cards `2q` and `2q + 1` and no other. */
  lemma UserDeckPairOf<C>(images: seq<C>, ids: seq<CardId>, pairIds: seq<string>, q: nat)
    requires 2 * |images| <= |ids| && |images| <= |pairIds| && Distinct(pairIds) && q < |images|
    ensures Occurrences(UserDeck(images, ids, pairIds), pairIds[q]) == 2
  {
    var d := UserDeck(images, ids, pairIds);
    UserDeckShape(images, ids, pairIds);
    forall k | 0 <= k < |d| && k != 2 * q && k != 2 * q + 1 ensures d[k].matchId != pairIds[q] {
      var h := k / 2;
      assert d[k].matchId == pairIds[h];
      if k < 2 * q {
        assert h < q;
        assert pairIds[h] != pairIds[q];
      } else {
        assert q < h < |pairIds|;
        assert pairIds[q] != pairIds[h];
      }
    }
    assert (2 * q) / 2 == q && (2 * q + 1) / 2 == q;
    assert d[2 * q].matchId == pairIds[q] && d[2 * q + 1].matchId == pairIds[q];
    OccurrencesExactlyTwo(d, pairIds[q], 2 * q, 2 * q + 1);
  }

  /** The default deck: six cards, the cat, dog and rabbit keys on two cards each. */
  lemma DefaultDeckPairs<C>(heart: C, ids: seq<CardId>)
    requires |DefaultEmojis| <= |ids|
    ensures |EmojiDeck(DefaultEmojis, heart, ids)| == 6
    ensures Occurrences(EmojiDeck(DefaultEmojis, heart, ids), Cat) == 2
    ensures Occurrences(EmojiDeck(DefaultEmojis, heart, ids), Dog) == 2
    ensures Occurrences(EmojiDeck(DefaultEmojis, heart, ids), Rabbit) == 2
    ensures MatchIds(EmojiDeck(DefaultEmojis, heart, ids)) == {Cat, Dog, Rabbit}
    ensures PairedDeck(EmojiDeck(DefaultEmojis, heart, ids))
  {
    var d := EmojiDeck(DefaultEmojis, heart, ids);
    EmojiDeckShape(DefaultEmojis, heart, ids);
    assert Cat != Dog && Cat != Rabbit && Dog != Rabbit by {
      assert Cat[3] != Dog[3] && Cat[3] != Rabbit[3] && Dog[3] != Rabbit[3];
    }
    assert forall k :: 0 <= k < 6 ==> d[k].matchId == DefaultEmojis[k];
    OccurrencesExactlyTwo(d, Cat, 0, 1);
    OccurrencesExactlyTwo(d, Dog, 2, 3);
    OccurrencesExactlyTwo(d, Rabbit, 4, 5);
    assert d[0].matchId == Cat && d[2].matchId == Dog && d[4].matchId == Rabbit;
  }

  /** Every deck `startNewGame` builds is nonempty, paired, face-down, and its ids are distinct. */
  lemma NewDeckWellFormed<C>(images: Option<seq<C>>, heart: C, ids: seq<CardId>, pairIds: seq<string>)
    requires EnoughFresh(images, ids, pairIds) && Distinct(ids)
    requires UsesImages(images) ==> Distinct(pairIds)
    ensures |NewDeck(images, heart, ids, pairIds)| == DeckSize(images) > 0
    ensures PairedDeck(NewDeck(images, heart, ids, pairIds))
    ensures DistinctIds(NewDeck(images, heart, ids, pairIds))
    ensures AllFaceDown(NewDeck(images, heart, ids, pairIds))
  {
    var d := NewDeck(images, heart, ids, pairIds);
    if UsesImages(images) {
      UserDeckPairs(images.value, ids, pairIds);
      UserDeckShape(images.value, ids, pairIds);
    } else {
      DefaultDeckPairs(heart, ids);
      EmojiDeckShape(DefaultEmojis, heart, ids);
    }
    assert forall k :: 0 <= k < |d| ==> d[k].id == ids[k];
  }

  /** Shuffling keeps the pairing, the distinct ids, the face-down state and the key counts. */
  lemma ShuffledDeck<C>(deck: seq<Card<C>>, cards: seq<Card<C>>)
    requires multiset(cards) == multiset(deck)
    ensures |cards| == |deck|
    ensures forall m :: Occurrences(cards, m) == Occurrences(deck, m)
    ensures MatchIds(cards) == MatchIds(deck)
    ensures PairedDeck(deck) ==> PairedDeck(cards)
    ensures DistinctIds(deck) ==> DistinctIds(cards)
    ensures AllFaceDown(deck) ==> AllFaceDown(cards)
  {
    assert |cards| == |multiset(cards)| == |multiset(deck)| == |deck|;
    forall m ensures Occurrences(cards, m) == Occurrences(deck, m) {
      OccurrencesPermutation(cards, deck, m);
    }
    MatchIdsPermutation(cards, deck);
    if DistinctIds(deck) {
      DistinctIdsPermutation(deck, cards);
    }
    forall k | 0 <= k < |cards| ensures exists i :: 0 <= i < |deck| && deck[i] == cards[k] {
      assert cards[k] in multiset(deck);
    }
  }

  /** In a deck whose every key is carried twice, the distinct keys number half the cards. */
  lemma {:induction false} PairedDeckHalf<C>(cards: seq<Card<C>>)
    requires EachKeyTwice(cards)
    ensures 2 * |MatchIds(cards)| == |cards|
    decreases |cards|
  {
    if |cards| == 0 {
      assert MatchIds(cards) == {};
    } else {
      var m := cards[0].matchId;
      var j := PartnerOfFirst(cards);
      var rest := cards[1..j] + cards[j + 1..];
      RemovePair(cards, j);
      forall k | 0 <= k < |rest| ensures Occurrences(rest, rest[k].matchId) == 2 {
        assert rest[k] == cards[if k < j - 1 then k + 1 else k + 2];
      }
      PairedDeckHalf(rest);
      assert m !in MatchIds(rest);
    }
  }

  /** The other card carrying the first card's key. */
  lemma PartnerOfFirst<C>(cards: seq<Card<C>>) returns (j: nat)
    requires |cards| > 0 && Occurrences(cards, cards[0].matchId) == 2
    ensures 0 < j < |cards| && cards[j].matchId == cards[0].matchId
  {
    var tail := cards[1..];
    OccurrencesPositive(tail, cards[0].matchId);
    var i :| 0 <= i < |tail| && tail[i].matchId == cards[0].matchId;
    j := i + 1;
  }

  /** Taking out the first card and its partner at `j` removes their key twice and nothing else. */
  lemma RemovePair<C>(cards: seq<Card<C>>, j: nat)
    requires 0 < j < |cards| && cards[j].matchId == cards[0].matchId
    requires Occurrences(cards, cards[0].matchId) == 2
    ensures var rest := cards[1..j] + cards[j + 1..];
      && (forall x :: Occurrences(cards, x) == Occurrences(rest, x) + (if x == cards[0].matchId then 2 else 0))
      && (forall k :: 0 <= k < |rest| ==> rest[k].matchId != cards[0].matchId)
      && MatchIds(cards) == MatchIds(rest) + {cards[0].matchId}
  {
    var m := cards[0].matchId;
    var rest := cards[1..j] + cards[j + 1..];
    var shorter := cards[..j] + cards[j + 1..];
    assert shorter[..0] + shorter[1..] == rest;
    assert shorter[0] == cards[0];
    forall x ensures Occurrences(cards, x) == Occurrences(rest, x) + (if x == m then 2 else 0) {
      OccurrencesRemove(cards, j, x);
      OccurrencesRemove(shorter, 0, x);
    }
    OccurrencesPositive(rest, m);
    MatchIdsRemovePair(cards, j);
  }

  /** The keys left after taking out the cards at positions 0 and `j`. */
  lemma MatchIdsRemovePair<C>(cards: seq<Card<C>>, j: nat)
    requires 0 < j < |cards| && cards[j].matchId == cards[0].matchId
    ensures MatchIds(cards) == MatchIds(cards[1..j] + cards[j + 1..]) + {cards[0].matchId}
  {
    var m := cards[0].matchId;
    var rest := cards[1..j] + cards[j + 1..];
    forall x | x in MatchIds(cards) ensures x == m || x in MatchIds(rest) {
      var i :| 0 <= i < |cards| && cards[i].matchId == x;
      if i != 0 && i != j {
        var k := if i < j then i - 1 else i - 2;
        assert rest[k] == cards[i];
      }
    }
    forall x | x in MatchIds(rest) ensures x in MatchIds(cards) {
      var k :| 0 <= k < |rest| && rest[k].matchId == x;
      if k < j - 1 {
        assert rest[k] == cards[1..j][k] == cards[k + 1];
      } else {
        assert rest[k] == cards[j + 1..][k - (j - 1)] == cards[k + 2];
      }
    }
    assert cards[0].matchId == m;
  }
}
