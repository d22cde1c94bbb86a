/** The flip / compare / match rules of `choose` and the deferred mismatch hide, as functions on
    the engine's state, with the facts they guarantee. */
module Rules {
  import opened Cards
  import opened Deck

  /** The engine's observable state: the fields of `GameViewModel`. */
  datatype GameState<C> = GameState(
    cards: seq<Card<C>>,
    firstFlippedCardId: Option<CardId>,
    turnCount: int,
    isGameOver: bool)

  /** The work a mismatch schedules: the closure that turns the two cards face-down again,
      with the two positions it captured. */
  datatype DeferredHide = DeferredHide(index: nat, firstIndex: nat)

  /** The position of the pending first selection, when there is one and its id is in the deck. */
  function PendingIndex<C>(g: GameState<C>): Option<nat>
  {
    match g.firstFlippedCardId
    case None => None
    case Some(id) => FirstIndex(g.cards, id)
  }

  /** The loop over `cards.indices` that turns every unmatched card face-down. */
  function FaceDownUnmatched<C>(cards: seq<Card<C>>): seq<Card<C>>
  {
    seq(|cards|, k requires 0 <= k < |cards| =>
      if cards[k].isMatched then cards[k] else cards[k].(isFaceUp := false))
  }

  /** True when `choose` returns at its guards: the id is not in the deck, or its card is
      already face-up or matched. */
  predicate Ignored<C>(g: GameState<C>, card: Card<C>)
  {
    match FirstIndex(g.cards, card.id)
    case None => true
    case Some(index) => g.cards[index].isFaceUp || g.cards[index].isMatched
  }

  /** `choose(card)`: the new state, and the hide it schedules when two unequal cards were compared. */
  function Choose<C>(g: GameState<C>, card: Card<C>): (GameState<C>, Option<DeferredHide>)
  {
    match FirstIndex(g.cards, card.id)
    case None => (g, None)
    case Some(index) =>
      if g.cards[index].isFaceUp || g.cards[index].isMatched then (g, None)
      else
        var flipped := Flip(g, card, index);
        var next := flipped.0;
        (next.(isGameOver := next.isGameOver || AllMatched(next.cards)), flipped.1)
  }

  /** The state `choose(card)` leaves. */
  function After<C>(g: GameState<C>, card: Card<C>): GameState<C>
  {
    Choose(g, card).0
  }

  /** The hide `choose(card)` schedules, if any. */
  function Scheduled<C>(g: GameState<C>, card: Card<C>): Option<DeferredHide>
  {
    Choose(g, card).1
  }

  /** The body of `choose` between its guards and its win check, for the card at `index`. */
  function Flip<C>(g: GameState<C>, card: Card<C>, index: nat): (GameState<C>, Option<DeferredHide>)
    requires index < |g.cards|
  {
    match PendingIndex(g)
    case Some(firstIndex) =>
      (GameState(Reveal(g.cards, index, firstIndex), None, g.turnCount + 1, g.isGameOver),
       if g.cards[index].matchId == g.cards[firstIndex].matchId then None else Some(DeferredHide(index, firstIndex)))
    case None =>
      var down := FaceDownUnmatched(g.cards);
      (GameState(down[index := down[index].(isFaceUp := true)], Some(card.id), g.turnCount, g.isGameOver), None)
  }

  /** The second selection of a turn: the card at `index` comes face-up, and when its key equals
      the pending card's key both are marked matched. */
  function Reveal<C>(cards: seq<Card<C>>, index: nat, firstIndex: nat): seq<Card<C>>
    requires index < |cards| && firstIndex < |cards|
  {
    var up := cards[index := cards[index].(isFaceUp := true)];
    if up[index].matchId == up[firstIndex].matchId then
      var one := up[index := up[index].(isMatched := true)];
      one[firstIndex := one[firstIndex].(isMatched := true)]
    else up
  }

  /** The deferred closure: the cards at the two captured positions are turned face-down. */
  function HideMismatch<C>(cards: seq<Card<C>>, index: nat, firstIndex: nat): seq<Card<C>>
    requires index < |cards| && firstIndex < |cards|
  {
    var one := cards[index := cards[index].(isFaceUp := false)];
    one[firstIndex := one[firstIndex].(isFaceUp := false)]
  }

  /** Matched cards are face-up. */
  predicate MatchedFaceUp<C>(cards: seq<Card<C>>)
  {
    forall k :: 0 <= k < |cards| ==> cards[k].isMatched ==> cards[k].isFaceUp
  }

  /** Position by position the same cards, up to their two flags. */
  ghost predicate SameDeck<C>(a: seq<Card<C>>, b: seq<Card<C>>)
  {
    |a| == |b| &&
    forall k :: 0 <= k < |a| ==> a[k].id == b[k].id && a[k].matchId == b[k].matchId && a[k].content == b[k].content
  }

  /** No card loses its match. */
  predicate MatchesKept<C>(a: seq<Card<C>>, b: seq<Card<C>>)
  {
    |a| == |b| && forall k :: 0 <= k < |a| ==> a[k].isMatched ==> b[k].isMatched
  }

  /** The win flag is up exactly when a nonempty deck is all matched. */
  predicate GameOverExact<C>(g: GameState<C>)
  {
    g.isGameOver <==> |g.cards| > 0 && AllMatched(g.cards)
  }

  /** `choose` changes nothing at all exactly when it stops at one of its guards. */
  lemma ChooseIgnored<C>(g: GameState<C>, card: Card<C>)
    ensures Choose(g, card) == (g, None) <==> Ignored(g, card)
  {
    match FirstIndex(g.cards, card.id)
    case None =>
    case Some(index) =>
      if !Ignored(g, card) {
        assert After(g, card).cards[index].isFaceUp;
      }
  }

  /** The first selection of a turn: every unmatched card goes face-down, then the chosen one
      comes face-up and becomes pending. Afterwards it is the only unmatched face-up card. */
  lemma ChooseFirstSelection<C>(g: GameState<C>, card: Card<C>, index: nat)
    requires FirstIndex(g.cards, card.id) == Some(index)
    requires !g.cards[index].isFaceUp && !g.cards[index].isMatched
    requires PendingIndex(g).None?
    ensures Scheduled(g, card).None?
    ensures After(g, card).firstFlippedCardId == Some(card.id)
    ensures After(g, card).turnCount == g.turnCount
    ensures SameDeck(g.cards, After(g, card).cards)
    ensures After(g, card).cards[index].isFaceUp
    ensures forall k :: 0 <= k < |g.cards| ==> After(g, card).cards[k].isMatched == g.cards[k].isMatched
    ensures forall k :: 0 <= k < |g.cards| && k != index && !g.cards[k].isMatched ==> !After(g, card).cards[k].isFaceUp
    ensures forall k :: 0 <= k < |g.cards| && g.cards[k].isMatched ==> After(g, card).cards[k].isFaceUp == g.cards[k].isFaceUp
    ensures forall k :: 0 <= k < |g.cards| ==>
      (After(g, card).cards[k].isFaceUp && !After(g, card).cards[k].isMatched <==> k == index)
  {
  }

  /** The second selection of a turn: the chosen card comes face-up, the pending selection is
      cleared and the turn is counted. Equal keys mark both cards matched; otherwise no match
      changes and the hide of both positions is scheduled. */
  lemma ChooseSecondSelection<C>(g: GameState<C>, card: Card<C>, index: nat, firstIndex: nat)
    requires FirstIndex(g.cards, card.id) == Some(index)
    requires !g.cards[index].isFaceUp && !g.cards[index].isMatched
    requires PendingIndex(g) == Some(firstIndex)
    ensures After(g, card).cards[index].isFaceUp
    ensures After(g, card).firstFlippedCardId.None?
    ensures After(g, card).turnCount == g.turnCount + 1
    ensures SameDeck(g.cards, After(g, card).cards)
    ensures forall k :: 0 <= k < |g.cards| && k != index && k != firstIndex ==> After(g, card).cards[k] == g.cards[k]
    ensures After(g, card).cards[firstIndex].isFaceUp == (g.cards[firstIndex].isFaceUp || firstIndex == index)
    ensures g.cards[index].matchId == g.cards[firstIndex].matchId ==>
      After(g, card).cards[index].isMatched && After(g, card).cards[firstIndex].isMatched && Scheduled(g, card) == None
    ensures g.cards[index].matchId != g.cards[firstIndex].matchId ==>
      Scheduled(g, card) == Some(DeferredHide(index, firstIndex))
    ensures g.cards[index].matchId != g.cards[firstIndex].matchId ==>
      forall k :: 0 <= k < |g.cards| ==> After(g, card).cards[k].isMatched == g.cards[k].isMatched
  {
    ChooseSecondState(g, card, index, firstIndex);
    RevealEffect(g.cards, index, firstIndex);
  }

  /** The value of the second selection. */
  lemma ChooseSecondState<C>(g: GameState<C>, card: Card<C>, index: nat, firstIndex: nat)
    requires FirstIndex(g.cards, card.id) == Some(index)
    requires !g.cards[index].isFaceUp && !g.cards[index].isMatched
    requires PendingIndex(g) == Some(firstIndex)
    ensures firstIndex < |g.cards|
    ensures After(g, card).cards == Reveal(g.cards, index, firstIndex)
    ensures After(g, card).firstFlippedCardId.None? && After(g, card).turnCount == g.turnCount + 1
    ensures Scheduled(g, card) ==
      if g.cards[index].matchId == g.cards[firstIndex].matchId then None else Some(DeferredHide(index, firstIndex))
    ensures After(g, card).isGameOver == (g.isGameOver || AllMatched(After(g, card).cards))
  {
  }

  /** The value of the first selection. */
  lemma ChooseFirstState<C>(g: GameState<C>, card: Card<C>, index: nat)
    requires FirstIndex(g.cards, card.id) == Some(index)
    requires !g.cards[index].isFaceUp && !g.cards[index].isMatched
    requires PendingIndex(g).None?
    ensures After(g, card).cards ==
      FaceDownUnmatched(g.cards)[index := FaceDownUnmatched(g.cards)[index].(isFaceUp := true)]
    ensures After(g, card).firstFlippedCardId == Some(card.id) && After(g, card).turnCount == g.turnCount
    ensures Scheduled(g, card).None?
    ensures After(g, card).isGameOver == (g.isGameOver || AllMatched(After(g, card).cards))
  {
  }

  /** `Reveal` flips the card at `index` face-up and, on equal keys, matches the two positions;
      nothing else changes. */
  lemma RevealEffect<C>(cards: seq<Card<C>>, index: nat, firstIndex: nat)
    requires index < |cards| && firstIndex < |cards|
    ensures |Reveal(cards, index, firstIndex)| == |cards|
    ensures SameDeck(cards, Reveal(cards, index, firstIndex))
    ensures Reveal(cards, index, firstIndex)[index].isFaceUp
    ensures Reveal(cards, index, firstIndex)[firstIndex].isFaceUp == (cards[firstIndex].isFaceUp || firstIndex == index)
    ensures forall k :: 0 <= k < |cards| && k != index && k != firstIndex ==> Reveal(cards, index, firstIndex)[k] == cards[k]
    ensures cards[index].matchId == cards[firstIndex].matchId ==>
      Reveal(cards, index, firstIndex)[index].isMatched && Reveal(cards, index, firstIndex)[firstIndex].isMatched
    ensures cards[index].matchId != cards[firstIndex].matchId ==>
      forall k :: 0 <= k < |cards| ==> Reveal(cards, index, firstIndex)[k].isMatched == cards[k].isMatched
  {
  }

  /** `choose` raises the win flag exactly when, after its update, every card is matched;
      it never lowers the flag. */
  lemma ChooseGameOver<C>(g: GameState<C>, card: Card<C>)
    ensures g.isGameOver ==> After(g, card).isGameOver
    ensures !Ignored(g, card) ==>
      (After(g, card).isGameOver <==> g.isGameOver || AllMatched(After(g, card).cards))
  {
  }

  /** `choose` keeps every card's id, key and content, and never takes a match away. */
  lemma ChooseKeepsDeck<C>(g: GameState<C>, card: Card<C>)
    ensures SameDeck(g.cards, After(g, card).cards)
    ensures MatchesKept(g.cards, After(g, card).cards)
  {
    match FirstIndex(g.cards, card.id)
    case None =>
    case Some(index) =>
      if !Ignored(g, card) {
        match PendingIndex(g)
        case Some(firstIndex) =>
          ChooseSecondSelection(g, card, index, firstIndex);
        case None =>
          ChooseFirstSelection(g, card, index);
      }
  }

  /** The pending first selection, when its id is in the deck, is a face-up card. */
  predicate PendingFaceUp<C>(g: GameState<C>)
  {
    match PendingIndex(g)
    case None => true
    case Some(firstIndex) => firstIndex < |g.cards| && g.cards[firstIndex].isFaceUp
  }

  /** `FirstIndex` looks only at the ids. */
  lemma {:induction false} FirstIndexSameDeck<C>(a: seq<Card<C>>, b: seq<Card<C>>, id: CardId)
    requires SameDeck(a, b)
    ensures FirstIndex(a, id) == FirstIndex(b, id)
    decreases |a|
  {
    if |a| > 0 && a[0].id != id {
      FirstIndexSameDeck(a[1..], b[1..], id);
    }
  }

  /** While the pending card is face-up, `choose` keeps matched cards face-up and keeps the
      pending card face-up. */
  lemma ChooseKeepsMatchedFaceUp<C>(g: GameState<C>, card: Card<C>)
    requires MatchedFaceUp(g.cards) && PendingFaceUp(g)
    ensures MatchedFaceUp(After(g, card).cards)
    ensures PendingFaceUp(After(g, card))
  {
    match FirstIndex(g.cards, card.id)
    case None =>
    case Some(index) =>
      if !Ignored(g, card) {
        match PendingIndex(g)
        case Some(firstIndex) =>
          ChooseSecondSelection(g, card, index, firstIndex);
        case None =>
          ChooseFirstSelection(g, card, index);
          FirstIndexSameDeck(g.cards, After(g, card).cards, card.id);
      }
  }

  /** The win flag stays exact under `choose`. */
  lemma ChooseKeepsGameOverExact<C>(g: GameState<C>, card: Card<C>)
    requires GameOverExact(g)
    ensures GameOverExact(After(g, card))
  {
    match FirstIndex(g.cards, card.id)
    case None =>
    case Some(index) =>
      if !Ignored(g, card) {
        assert !AllMatched(g.cards);
      }
  }

  /** The hide turns the two captured positions face-down and changes nothing else. */
  lemma HideMismatchEffect<C>(cards: seq<Card<C>>, index: nat, firstIndex: nat)
    requires index < |cards| && firstIndex < |cards|
    ensures SameDeck(cards, HideMismatch(cards, index, firstIndex))
    ensures forall k :: 0 <= k < |cards| ==>
      HideMismatch(cards, index, firstIndex)[k].isMatched == cards[k].isMatched
    ensures forall k :: 0 <= k < |cards| ==>
      HideMismatch(cards, index, firstIndex)[k].isFaceUp == (cards[k].isFaceUp && k != index && k != firstIndex)
  {
  }

  /** The win flag stays exact under the hide, since it leaves every match as it was. */
  lemma HideMismatchKeepsGameOverExact<C>(g: GameState<C>, index: nat, firstIndex: nat)
    requires index < |g.cards| && firstIndex < |g.cards|
    requires GameOverExact(g)
    ensures GameOverExact(g.(cards := HideMismatch(g.cards, index, firstIndex)))
  {
    HideMismatchEffect(g.cards, index, firstIndex);
  }

  /** The hide does not look at `isMatched`, so it turns a matched card at a captured position
      face-down: "matched implies face-up" does not survive it. */
  lemma HideMismatchCanHideMatched<C>(cards: seq<Card<C>>, index: nat, firstIndex: nat)
    requires index < |cards| && firstIndex < |cards|
    requires cards[index].isMatched || cards[firstIndex].isMatched
    ensures !MatchedFaceUp(HideMismatch(cards, index, firstIndex))
  {
    HideMismatchEffect(cards, index, firstIndex);
  }

  /** A hide whose captured position holds the pending card turns that card face-down while it
      stays pending (a hide left over from an earlier turn or an earlier game can do this). */
  lemma HideMismatchCanHidePending<C>(g: GameState<C>, index: nat, firstIndex: nat)
    requires index < |g.cards| && firstIndex < |g.cards|
    requires PendingIndex(g) == Some(index) || PendingIndex(g) == Some(firstIndex)
    ensures !PendingFaceUp(g.(cards := HideMismatch(g.cards, index, firstIndex)))
  {
    var h := HideMismatch(g.cards, index, firstIndex);
    HideMismatchEffect(g.cards, index, firstIndex);
    FirstIndexSameDeck(g.cards, h, g.firstFlippedCardId.value);
  }

  /** With a face-down pending card, `choose` on its partner marks the pending card matched
      while it stays face-down. */
  lemma ChooseMatchesFaceDownPending<C>(g: GameState<C>, card: Card<C>, index: nat, firstIndex: nat)
    requires FirstIndex(g.cards, card.id) == Some(index)
    requires !g.cards[index].isFaceUp && !g.cards[index].isMatched
    requires PendingIndex(g) == Some(firstIndex) && index != firstIndex
    requires !g.cards[firstIndex].isFaceUp && g.cards[index].matchId == g.cards[firstIndex].matchId
    ensures After(g, card).cards[firstIndex].isMatched && !After(g, card).cards[firstIndex].isFaceUp
    ensures !MatchedFaceUp(After(g, card).cards)
  {
    ChooseSecondSelection(g, card, index, firstIndex);
  }

  /** With a face-down pending card, `choose` on that same card compares it with itself: it is
      marked matched alone and a turn is counted. */
  lemma ChooseSelfMatch<C>(g: GameState<C>, card: Card<C>, index: nat)
    requires FirstIndex(g.cards, card.id) == Some(index)
    requires !g.cards[index].isFaceUp && !g.cards[index].isMatched
    requires PendingIndex(g) == Some(index)
    ensures After(g, card).cards[index].isMatched
    ensures forall k :: 0 <= k < |g.cards| && k != index ==> After(g, card).cards[k] == g.cards[k]
    ensures After(g, card).turnCount == g.turnCount + 1
  {
    ChooseSecondSelection(g, card, index, index);
  }

  /** Counting keys looks only at the keys. */
  lemma {:induction false} OccurrencesSameDeck<C>(a: seq<Card<C>>, b: seq<Card<C>>, m: string)
    requires SameDeck(a, b)
    ensures Occurrences(a, m) == Occurrences(b, m)
    decreases |a|
  {
    if |a| > 0 {
      OccurrencesSameDeck(a[1..], b[1..], m);
    }
  }

  /** A deck that is paired and has distinct ids stays so when only the flags change. */
  lemma SameDeckKeepsPairs<C>(a: seq<Card<C>>, b: seq<Card<C>>)
    requires SameDeck(a, b) && PairedDeck(a) && DistinctIds(a)
    ensures PairedDeck(b) && DistinctIds(b)
  {
    forall k | 0 <= k < |b|
      ensures Occurrences(b, b[k].matchId) == 2
    {
      OccurrencesSameDeck(a, b, b[k].matchId);
    }
  }

  /** `choose` keeps the deck paired, its ids distinct and the win flag exact. */
  lemma ChooseKeepsPairs<C>(g: GameState<C>, card: Card<C>)
    requires PairedDeck(g.cards) && DistinctIds(g.cards) && GameOverExact(g)
    ensures PairedDeck(After(g, card).cards) && DistinctIds(After(g, card).cards)
    ensures GameOverExact(After(g, card))
  {
    ChooseKeepsDeck(g, card);
    SameDeckKeepsPairs(g.cards, After(g, card).cards);
    ChooseKeepsGameOverExact(g, card);
  }

  /** So does the deferred hide. */
  lemma HideMismatchKeepsPairs<C>(g: GameState<C>, index: nat, firstIndex: nat)
    requires index < |g.cards| && firstIndex < |g.cards|
    requires PairedDeck(g.cards) && DistinctIds(g.cards) && GameOverExact(g)
    ensures PairedDeck(HideMismatch(g.cards, index, firstIndex))
    ensures DistinctIds(HideMismatch(g.cards, index, firstIndex))
    ensures GameOverExact(g.(cards := HideMismatch(g.cards, index, firstIndex)))
  {
    HideMismatchEffect(g.cards, index, firstIndex);
    SameDeckKeepsPairs(g.cards, HideMismatch(g.cards, index, firstIndex));
    HideMismatchKeepsGameOverExact(g, index, firstIndex);
  }

  /** The invariant every operation keeps: a paired deck under distinct ids and an exact win flag. */
  ghost predicate Sound<C>(g: GameState<C>)
  {
    PairedDeck(g.cards) && DistinctIds(g.cards) && GameOverExact(g)
  }

  /** The invariant `choose` keeps and a stale hide breaks: matched and pending cards are face-up. */
  predicate FaceUpSound<C>(g: GameState<C>)
  {
    MatchedFaceUp(g.cards) && PendingFaceUp(g)
  }

  /** `choose` keeps both invariants. */
  lemma ChooseKeepsInvariants<C>(g: GameState<C>, card: Card<C>)
    ensures Sound(g) ==> Sound(After(g, card))
    ensures FaceUpSound(g) ==> FaceUpSound(After(g, card))
  {
    if Sound(g) {
      ChooseKeepsPairs(g, card);
    }
    if FaceUpSound(g) {
      ChooseKeepsMatchedFaceUp(g, card);
    }
  }

  /** Without a face-up pending card, `choose` does break "matched implies face-up": two face-down
      cards with one key, the first of them pending, and the second chosen. So the face-up
      requirement of `ChooseKeepsMatchedFaceUp` cannot be dropped. */
  lemma ChooseBreaksMatchedFaceUp() returns (g: GameState<int>, card: Card<int>)
    ensures MatchedFaceUp(g.cards) && !PendingFaceUp(g)
    ensures !MatchedFaceUp(After(g, card).cards)
  {
    var first := Card(1, "k", 0, false, false);
    card := Card(2, "k", 0, false, false);
    g := GameState([first, card], Some(1), 0, false);
    assert FirstIndex(g.cards, 1) == Some(0);
    assert FirstIndex(g.cards[1..], 2) == Some(0);
    assert FirstIndex(g.cards, 2) == Some(1);
    ChooseMatchesFaceDownPending(g, card, 1, 0);
  }
}
