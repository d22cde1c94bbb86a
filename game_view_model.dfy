/** `GameViewModel`: the object that owns the deck, the pending selection, the turn counter and
    the win flag, and updates them in place. */
module ViewModel {
  import opened Cards
  import opened Deck
  import opened Rules
  import opened Unique

  /** The loops of `startNewGame` that fill `newCards`, before the shuffle. The fresh `UUID`s are
      supplied: card `k` takes `ids[k]`, image `i` takes the pair id `pairIds[i]`. */
  method BuildDeck<C>(images: Option<seq<C>>, heart: C, ids: seq<CardId>, pairIds: seq<string>)
    returns (newCards: seq<Card<C>>)
    requires EnoughFresh(images, ids, pairIds)
    ensures newCards == NewDeck(images, heart, ids, pairIds)
  {
    newCards := [];
    if images.Some? && |images.value| > 0 {
      var userImages := images.value;
      for i := 0 to |userImages|
        invariant newCards == UserDeck(userImages[..i], ids, pairIds)
      {
        var pairId := pairIds[i];
        var card1 := NewCard(ids[2 * i], pairId, userImages[i]);
        var card2 := NewCard(ids[2 * i + 1], pairId, userImages[i]);
        newCards := newCards + [card1];
        newCards := newCards + [card2];
        assert userImages[..i + 1][..i] == userImages[..i];
      }
      assert userImages[..|userImages|] == userImages;
    } else {
      var emojis := DefaultEmojis;
      for i := 0 to |emojis|
        invariant newCards == EmojiDeck(emojis[..i], heart, ids)
      {
        var card := NewCard(ids[i], emojis[i], heart);
        newCards := newCards + [card];
        assert emojis[..i + 1][..i] == emojis[..i];
      }
      assert emojis[..|emojis|] == emojis;
    }
  }

  class GameViewModel<C(==)> {
    var cards: seq<Card<C>>
    var isGameOver: bool
    var turnCount: int
    var firstFlippedCardId: Option<CardId>

    /** The fields as one value, the state the rules are stated on. */
    function State(): GameState<C>
      reads this
    {
      GameState(cards, firstFlippedCardId, turnCount, isGameOver)
    }

    /** What every operation keeps: the deck holds pairs under distinct ids, and the win flag is
        up exactly when a nonempty deck is all matched. */
    ghost predicate DeckInvariant()
      reads this
    {
      Sound(State())
    }

    /** `init()`: starts a game with the default deck. */
    constructor (heart: C, ids: seq<CardId>)
      requires Distinct(ids) && |DefaultEmojis| <= |ids|
      ensures multiset(cards) == multiset(EmojiDeck(DefaultEmojis, heart, ids))
      ensures |cards| == 6 && PairedDeck(cards) && DistinctIds(cards) && AllFaceDown(cards)
      ensures firstFlippedCardId == None && !isGameOver && turnCount == 0
      ensures DeckInvariant() && FaceUpSound(State())
    {
      cards, isGameOver, turnCount, firstFlippedCardId := [], false, 0, None;
      new;
      StartNewGame(None, heart, ids, []);
    }

    /** `startNewGame(with: images)`: a new deck of pairs, shuffled, and the counters reset.
        `heart` is the default picture; `ids` and `pairIds` are the fresh `UUID`s. */
    method StartNewGame(images: Option<seq<C>>, heart: C, ids: seq<CardId>, pairIds: seq<string>)
      requires EnoughFresh(images, ids, pairIds) && Distinct(ids)
      requires UsesImages(images) ==> Distinct(pairIds)
      modifies this
      ensures multiset(cards) == multiset(NewDeck(images, heart, ids, pairIds))
      ensures |cards| == DeckSize(images)
      ensures PairedDeck(cards) && DistinctIds(cards) && AllFaceDown(cards)
      ensures MatchIds(cards) == MatchIds(NewDeck(images, heart, ids, pairIds))
      ensures forall m :: Occurrences(cards, m) == Occurrences(NewDeck(images, heart, ids, pairIds), m)
      ensures firstFlippedCardId == None && !isGameOver && turnCount == 0
      ensures DeckInvariant() && FaceUpSound(State())
    {
      var newCards := BuildDeck(images, heart, ids, pairIds);
      NewDeckWellFormed(images, heart, ids, pairIds);
      var shuffled :| multiset(shuffled) == multiset(newCards);
      ShuffledDeck(newCards, shuffled);
      cards := shuffled;
      firstFlippedCardId := None;
      isGameOver := false;
      turnCount := 0;
    }

    /** `choose(card)`: flips, compares and matches in place. Returns the mismatch hide it
        schedules, if any; running it later is `HideMismatch`. */
    method Choose(card: Card<C>) returns (scheduled: Option<DeferredHide>)
      modifies this
      ensures State() == After(old(State()), card)
      ensures scheduled == Scheduled(old(State()), card)
      ensures old(DeckInvariant()) ==> DeckInvariant()
      ensures old(FaceUpSound(State())) ==> FaceUpSound(State())
    {
      ghost var g := State();
      scheduled := None;
      var found := FirstIndex(cards, card.id);
      if found.Some? && !cards[found.value].isFaceUp && !cards[found.value].isMatched {
        var index := found.value;
        var pending := if firstFlippedCardId.Some? then FirstIndex(cards, firstFlippedCardId.value) else None;
        if pending.Some? {
          var firstIndex := pending.value;
          ChooseSecondState(g, card, index, firstIndex);
          cards := cards[index := cards[index].(isFaceUp := true)];
          firstFlippedCardId := None;
          turnCount := turnCount + 1;
          if cards[index].matchId == cards[firstIndex].matchId {
            cards := cards[index := cards[index].(isMatched := true)];
            cards := cards[firstIndex := cards[firstIndex].(isMatched := true)];
          } else {
            scheduled := Some(DeferredHide(index, firstIndex));
          }
          assert cards == Reveal(g.cards, index, firstIndex);
        } else {
          ChooseFirstState(g, card, index);
          TurnUnmatchedFaceDown();
          cards := cards[index := cards[index].(isFaceUp := true)];
          firstFlippedCardId := Some(card.id);
        }
        if AllMatched(cards) {
          isGameOver := true;
        }
      } else {
        ChooseIgnored(g, card);
      }
      ChooseKeepsInvariants(g, card);
    }

    /** The loop of `choose` over `cards.indices` that turns every unmatched card face-down. */
    method TurnUnmatchedFaceDown()
      modifies this
      ensures cards == FaceDownUnmatched(old(cards))
      ensures firstFlippedCardId == old(firstFlippedCardId)
      ensures turnCount == old(turnCount) && isGameOver == old(isGameOver)
    {
      for i := 0 to |cards|
        invariant |cards| == |old(cards)|
        invariant firstFlippedCardId == old(firstFlippedCardId)
        invariant turnCount == old(turnCount) && isGameOver == old(isGameOver)
        invariant forall k :: 0 <= k < i ==> cards[k] == FaceDownUnmatched(old(cards))[k]
        invariant forall k :: i <= k < |cards| ==> cards[k] == old(cards)[k]
      {
        if !cards[i].isMatched {
          cards := cards[i := cards[i].(isFaceUp := false)];
        }
      }
    }

    /** The deferred mismatch hide: the cards at the two captured positions go face-down.
        Writing outside the deck traps, hence the requirement. */
    method HideMismatch(index: nat, firstIndex: nat)
      requires index < |cards| && firstIndex < |cards|
      modifies this
      ensures cards == Rules.HideMismatch(old(cards), index, firstIndex)
      ensures firstFlippedCardId == old(firstFlippedCardId)
      ensures turnCount == old(turnCount) && isGameOver == old(isGameOver)
      ensures old(DeckInvariant()) ==> DeckInvariant()
    {
      if DeckInvariant() {
        HideMismatchKeepsPairs(State(), index, firstIndex);
      }
      cards := cards[index := cards[index].(isFaceUp := false)];
      cards := cards[firstIndex := cards[firstIndex].(isFaceUp := false)];
    }

    /** `uniquePetImages`: the content of the first card of every key, in deck order. */
    method UniquePetImages() returns (images: seq<C>)
      ensures images == UniqueContents(cards)
      ensures |images| == |MatchIds(cards)|
      ensures PairedDeck(cards) ==> 2 * |images| == |cards|
    {
      var seen: set<string> := {};
      images := [];
      for i := 0 to |cards|
        invariant seen == MatchIds(cards[..i])
        invariant images == UniqueContents(cards[..i])
      {
        UniqueContentsSnoc(cards, i);
        var card := cards[i];
        if card.matchId !in seen {
          seen := seen + {card.matchId};
          images := images + [card.content];
        }
      }
      assert cards[..|cards|] == cards;
      UniqueContentsMeaning(cards);
      if PairedDeck(cards) {
        UniqueContentsOfPairedDeck(cards);
      }
    }
  }
}
