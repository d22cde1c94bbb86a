# MofuMatch game engine in Dafny

MofuMatch is a memory-matching game for iOS. This project models its engine, `GameViewModel`,
and proves properties of the model. The engine owns three things:

- a deck of cards;
- the pending first selection of a turn (`firstFlippedCardID`);
- a turn counter and a win flag.

The model covers the engine's four operations:

- `startNewGame(with:)` builds a deck of pairs (two cards per image the player supplied, or the
  six-card default deck keyed by the cat, dog and rabbit emoji), shuffles it and resets the counters.
- `init()` starts a default game.
- `choose(_:)` carries out the flip / compare / match rules. On a mismatch it schedules a closure
  that turns the two cards face-down one second later.
- `uniquePetImages` lists one picture per pairing key, in the order the keys first appear in the deck.

Layout:

- `cards.dfy` (module `Cards`): the card record, the id lookup `firstIndex(where:)`, key counting,
  and the facts about permutations that the shuffle needs.
- `deck.dfy` (module `Deck`): the deck `startNewGame` builds before shuffling, as functions. It
  proves that the deck is made of pairs, that its ids are distinct and that all its cards are face-down.
- `rules.dfy` (module `Rules`): the engine's state as a value (`GameState`) and `choose` as a
  function on it (`Choose`, `After`, `Scheduled`). The deferred closure is `HideMismatch`.
  It holds the lemmas about both.
- `unique.dfy` (module `Unique`): the value of `uniquePetImages` and what it means.
- `game_view_model.dfy` (module `ViewModel`): the class `GameViewModel`. Its fields are the
  engine's, and its methods update them in place with the source's loops. Each method is proved
  against the functions above. `DeckInvariant` is the invariant that every operation keeps.

How the open parts of the platform are modelled:

- UUIDs: each card's identity and each image's pair id are fresh values handed in (`ids`,
  `pairIds`), distinct by precondition.
- Shuffle: `shuffled()` is any permutation of the new deck.
- Pictures: a picture is an opaque type parameter `C`, and the SF Symbol heart of the default deck
  is the parameter `heart`.
- The one-second delay: `Choose` returns the closure it schedules as a `DeferredHide` value. The
  value holds the two positions the closure captured. Running it at any later point is the
  method `HideMismatch`.

The deferred hide works on the two positions it captured when it was scheduled
(`MofuMatch/GameViewModel.swift:67-70`). It does not look the cards up again by id, and it does
not check `isMatched`. The model follows the code, and several consequences are proved:

- A hide that runs after its cards were matched turns matched cards face-down
  (`HideMismatchCanHideMatched`).
- A hide can turn the pending card face-down while that card stays pending
  (`HideMismatchCanHidePending`).
- `choose` then accepts a face-down pending card. It can match its partner and leave the pending
  card face-down (`ChooseMatchesFaceDownPending`).
- `choose` can also compare the pending card with itself, marking a single card matched and
  counting a turn (`ChooseSelfMatch`).
- While the pending card is face-up, no such thing happens: `choose` keeps matched and pending
  cards face-up (`ChooseKeepsMatchedFaceUp`). Without that condition it can fail (`ChooseBreaksMatchedFaceUp`).
- The deck stays paired and the win flag stays exact under every operation, whatever order the
  hides run in (`DeckInvariant`).

A hide left over from an earlier game also acts on the new deck's cards at those positions
(`HideMismatchEffect` holds for any deck).

The default keys are the six string literals of `MofuMatch/GameViewModel.swift:37` as the source
text holds them: the UTF-8 bytes of the cat, dog and rabbit emoji read as Mac OS Roman, each four
characters long. Only their being three different strings matters to the game.

`Card.swift` as shipped declares `content` as a `String` and has no `matchId`. The engine builds
cards with a `matchId` and a `UIImage` content. The model follows the engine.

## Model

| member | source | states |
|---|---|---|
| Cards.FirstIndex | MofuMatch/GameViewModel.swift:52 | the position found holds the id and no earlier position does; nothing is found exactly when no card holds the id |
| Cards.OccurrencesPermutation | MofuMatch/GameViewModel.swift:45 | reordering the deck keeps the number of cards carrying each key |
| Cards.MatchIdsPermutation | MofuMatch/GameViewModel.swift:45 | reordering the deck keeps its set of keys |
| Cards.DistinctIdsPermutation | MofuMatch/GameViewModel.swift:45 | reordering the deck keeps its ids distinct |
| Deck.UserDeckShape | MofuMatch/GameViewModel.swift:27-34 | the deck built from `n` images has `2n` cards; card `k` is a new face-down, unmatched card with id `ids[k]`, key `pairIds[k/2]` and picture `images[k/2]` |
| Deck.EmojiDeckShape | MofuMatch/GameViewModel.swift:38-42 | the default deck has one card per emoji key; card `k` is a new face-down, unmatched heart card with id `ids[k]` and key `emojis[k]` |
| Deck.UserDeckPairOf | MofuMatch/GameViewModel.swift:28-33 | with fresh pair ids, each image's pair id keys exactly two cards |
| Deck.UserDeckPairs | MofuMatch/GameViewModel.swift:26-35 | with fresh pair ids, every key of the image deck is on exactly two cards, both showing that image's picture |
| Deck.DefaultDeckPairs | MofuMatch/GameViewModel.swift:36-43 | the default deck has six cards; the cat, dog and rabbit keys are on two cards each, and they are its only keys |
| Deck.NewDeckWellFormed | MofuMatch/GameViewModel.swift:23-43 | the new deck is nonempty, has the expected size, is made of pairs with shared pictures, has distinct ids and is all face-down |
| Deck.ShuffledDeck | MofuMatch/GameViewModel.swift:45 | any shuffle keeps the size, the count of each key, the set of keys, the pairing, the distinct ids and the face-down state |
| Deck.PairedDeckHalf | MofuMatch/GameViewModel.swift:26-43 | in a deck where every key is on two cards, there are half as many keys as cards |
| Rules.ChooseIgnored | MofuMatch/GameViewModel.swift:52-54 | `choose` changes nothing and schedules nothing exactly when the id is missing or its card is face-up or matched |
| Rules.ChooseFirstSelection | MofuMatch/GameViewModel.swift:73-82 | after a first selection, the chosen card is the only face-up unmatched card; matches and matched cards' faces are kept; the deck keeps its ids, keys and pictures |
| Rules.RevealEffect | MofuMatch/GameViewModel.swift:59-65 | the second flip turns the chosen card face-up; on equal keys it marks both cards matched, on different keys no match changes; every other card is untouched |
| Rules.ChooseSecondSelection | MofuMatch/GameViewModel.swift:56-71 | a second selection turns the chosen card face-up, clears the pending id and counts a turn; on equal keys both cards are matched and nothing is scheduled; otherwise the hide of both positions is scheduled and no match changes |
| Rules.ChooseGameOver | MofuMatch/GameViewModel.swift:84-86 | the win flag is never lowered; when `choose` gets past its guards, the flag is up exactly when it was up or every card is now matched |
| Rules.ChooseKeepsDeck | MofuMatch/GameViewModel.swift:51-87 | `choose` keeps every card's id, key and picture, and never takes a match away |
| Rules.ChooseKeepsMatchedFaceUp | MofuMatch/GameViewModel.swift:51-87 | while matched cards and the pending card are face-up, `choose` keeps them face-up |
| Rules.ChooseKeepsGameOverExact | MofuMatch/GameViewModel.swift:84-86 | if the win flag is up exactly when a nonempty deck is all matched, `choose` keeps it so |
| Rules.ChooseKeepsPairs | MofuMatch/GameViewModel.swift:51-87 | `choose` keeps the deck paired, its ids distinct and the win flag exact |
| Rules.ChooseKeepsInvariants | MofuMatch/GameViewModel.swift:51-87 | `choose` keeps the deck invariant and the face-up invariant |
| Rules.HideMismatchEffect | MofuMatch/GameViewModel.swift:67-70 | the hide turns exactly the two captured positions face-down and changes nothing else, not even a match |
| Rules.HideMismatchKeepsGameOverExact | MofuMatch/GameViewModel.swift:67-70 | the hide keeps the win flag exact |
| Rules.HideMismatchKeepsPairs | MofuMatch/GameViewModel.swift:67-70 | the hide keeps the deck paired, its ids distinct and the win flag exact |
| Rules.HideMismatchCanHideMatched | MofuMatch/GameViewModel.swift:67-70 | a hide whose position holds a matched card leaves a matched card face-down |
| Rules.HideMismatchCanHidePending | MofuMatch/GameViewModel.swift:67-70 | a hide whose position holds the pending card leaves the pending card face-down |
| Rules.ChooseBreaksMatchedFaceUp | MofuMatch/GameViewModel.swift:56-65 | there is a state whose matched cards are all face-up, with a face-down pending card, where `choose` leaves a matched card face-down |
| Rules.ChooseMatchesFaceDownPending | MofuMatch/GameViewModel.swift:56-65 | with a face-down pending card, choosing its partner marks the pending card matched while it stays face-down |
| Rules.ChooseSelfMatch | MofuMatch/GameViewModel.swift:56-65 | with a face-down pending card, choosing that card again marks it matched alone, changes no other card and counts a turn |
| Unique.FirstOccurrences | MofuMatch/GameViewModel.swift:15-21 | lists, in increasing order, exactly the positions where a key appears for the first time |
| Unique.UniqueContentsSnoc | MofuMatch/GameViewModel.swift:16-20 | one more card adds its picture exactly when its key has not been seen, and adds its key to the seen set |
| Unique.UniqueContentsMeaning | MofuMatch/GameViewModel.swift:15-21 | `uniquePetImages` has one entry per distinct key; entry `j` is the picture of the `j`-th first occurrence; no two entries come from the same key, and every key has its entry |
| Unique.UniqueContentsOfPairedDeck | MofuMatch/GameViewModel.swift:15-21 | on a deck where every key is on two cards, `uniquePetImages` has half as many entries as cards |
| ViewModel.BuildDeck | MofuMatch/GameViewModel.swift:24-43 | the loops leave `newCards` equal to the new deck: two cards per image, or one heart card per default emoji |
| ViewModel.GameViewModel.constructor | MofuMatch/GameViewModel.swift:11-13 | `init()` starts a default game of six cards: paired, distinct ids, face-down, nothing pending, turn count 0, not over |
| ViewModel.GameViewModel.StartNewGame | MofuMatch/GameViewModel.swift:23-49 | the cards are a permutation of the new deck, paired with distinct ids and face-down; nothing is pending; the turn count is 0 and the game is not over; both invariants hold |
| ViewModel.GameViewModel.Choose | MofuMatch/GameViewModel.swift:51-87 | the new state and the scheduled hide are those of `Rules.Choose`; the deck invariant and the face-up invariant are kept |
| ViewModel.GameViewModel.TurnUnmatchedFaceDown | MofuMatch/GameViewModel.swift:74-78 | the loop turns every unmatched card face-down and keeps the rest |
| ViewModel.GameViewModel.HideMismatch | MofuMatch/GameViewModel.swift:67-70 | the cards become `Rules.HideMismatch` of the captured positions; the other fields are untouched; the deck invariant is kept |
| ViewModel.GameViewModel.UniquePetImages | MofuMatch/GameViewModel.swift:15-21 | the loop returns `UniqueContents`: one picture per distinct key, half as many as cards on a paired deck |

## Left out

- The SwiftUI view (`ContentView.swift`), `ObservableObject` and `@Published` change notification: these concern the UI, not game state.
- The one-second timer and the main dispatch queue: a scheduled hide is returned as a value, and the caller decides when `HideMismatch` runs. Any interleaving can be expressed, but none is enforced.
- `UIImage` construction and the `?? UIImage()` fallback for the heart symbol: pictures are opaque, and the heart is a parameter.
- The uniformity of `shuffled()`: any permutation is allowed.
- `UUID()` generation: fresh ids are supplied by the caller, and their randomness is not modelled.
- turnCount: an unbounded integer; the overflow trap of Swift's `Int` after 2^63 - 1 turns is not modelled.
- ViewModel.GameViewModel.HideMismatch: requires both captured positions to be inside the current deck. The code traps when a hide from an earlier, larger deck writes past the end of a smaller one, and that trap is not modelled.
- ViewModel.GameViewModel.StartNewGame: requires distinct supplied ids and pair ids, and enough of them. This stands for the uniqueness of freshly generated `UUID`s.
- ViewModel.GameViewModel.constructor: requires six distinct supplied ids, for the same reason.
