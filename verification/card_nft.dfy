/**
 * The playing-card script: a standard 52-card deck of four colour suits, one colour per
 * card, shuffled and drawn on the 8x8 grid.
 */
module CardNft {
  import opened Types
  import opened Shuffle
  import opened Grid

  /** A card as the script holds it: the pair (suit, tone). */
  datatype Card = Card(suit: string, tone: int)

  /** The suits of `create_deck`, in deck order (hearts, diamonds, clubs, spades). */
  const Suits: seq<string> := ["red", "green", "blue", "yellow"]

  /** The tone of the card with value v (0-based): 16, 32, ..., 208. */
  function Tone(v: nat): int
  {
    (v + 1) * 16
  }

  /** The cards the inner loop of `create_deck` appends for suit s. */
  function SuitCards(s: nat): seq<Card>
    requires s < |Suits|
  {
    seq(CardsPerSuit, v requires 0 <= v < CardsPerSuit => Card(Suits[s], Tone(v)))
  }

  /** The cards of the first s suits. */
  function StandardDeckPrefix(s: nat): seq<Card>
    requires s <= |Suits|
  {
    if s == 0 then [] else StandardDeckPrefix(s - 1) + SuitCards(s - 1)
  }

  /** The deck `create_deck` returns: the cards of each suit in turn. */
  function StandardDeck(): (deck: seq<Card>)
    ensures deck == SuitCards(0) + SuitCards(1) + SuitCards(2) + SuitCards(3)
  {
    assert StandardDeckPrefix(1) == SuitCards(0);
    assert StandardDeckPrefix(2) == SuitCards(0) + SuitCards(1);
    assert StandardDeckPrefix(3) == SuitCards(0) + SuitCards(1) + SuitCards(2);
    StandardDeckPrefix(|Suits|)
  }

  /**
   * The deck has 52 cards, suit-major: card 13 * s + v is suit s with tone (v + 1) * 16, so
   * within each suit the tones run 16, 32, ..., 208, strictly increasing.
   */
  lemma StandardDeckLayout()
    ensures |StandardDeck()| == 52
    ensures forall s, v :: 0 <= s < 4 && 0 <= v < CardsPerSuit ==>
      StandardDeck()[DeckIndex(s, v)] == Card(Suits[s], Tone(v))
    ensures forall s, v, w :: 0 <= s < 4 && 0 <= v < w < CardsPerSuit ==>
      16 <= StandardDeck()[DeckIndex(s, v)].tone < StandardDeck()[DeckIndex(s, w)].tone <= 208
  {
    var deck := StandardDeck();
    forall s, v | 0 <= s < 4 && 0 <= v < CardsPerSuit
      ensures deck[DeckIndex(s, v)] == Card(Suits[s], Tone(v))
    {
      if s == 0 {
        assert deck[DeckIndex(s, v)] == SuitCards(0)[v];
      } else if s == 1 {
        assert deck[DeckIndex(s, v)] == SuitCards(1)[v];
      } else if s == 2 {
        assert deck[DeckIndex(s, v)] == SuitCards(2)[v];
      } else {
        assert deck[DeckIndex(s, v)] == SuitCards(3)[v];
      }
    }
  }

  /** `create_deck`: for each suit in order, append the 13 cards of increasing tone. */
  method CreateDeck() returns (deck: seq<Card>)
    ensures deck == StandardDeck()
  {
    deck := [];
    for s := 0 to |Suits|
      invariant deck == StandardDeckPrefix(s)
    {
      for v := 0 to CardsPerSuit
        invariant deck == StandardDeckPrefix(s) + SuitCards(s)[..v]
      {
        assert SuitCards(s)[..v + 1] == SuitCards(s)[..v] + [Card(Suits[s], (v + 1) * 16)];
        var tone := (v + 1) * 16;
        deck := deck + [Card(Suits[s], tone)];
      }
      assert SuitCards(s)[..CardsPerSuit] == SuitCards(s);
    }
  }

  /**
   * `color_for_card`: red, green and blue light their own channel with the tone, yellow
   * lights red and green; any other suit falls through the branches and gets no colour.
   */
  function ColorForCard(card: Card): (r: Option<Rgb>)
    ensures r.Some? <==> card.suit in Suits
    ensures r.Some? ==> r.value == Rgb(
      if card.suit == Suits[0] || card.suit == Suits[3] then card.tone else 0,
      if card.suit == Suits[1] || card.suit == Suits[3] then card.tone else 0,
      if card.suit == Suits[2] then card.tone else 0)
  {
    assert card.suit in Suits <==>
      card.suit == Suits[0] || card.suit == Suits[1] || card.suit == Suits[2] || card.suit == Suits[3];
    if card.suit == "red" then Some(Rgb(card.tone, 0, 0))
    else if card.suit == "green" then Some(Rgb(0, card.tone, 0))
    else if card.suit == "blue" then Some(Rgb(0, 0, card.tone))
    else if card.suit == "yellow" then Some(Rgb(card.tone, card.tone, 0))
    else None
  }

  /** The card has one of the four suits, and so a colour, in byte range and not black. */
  predicate WellColored(card: Card)
  {
    card.suit in Suits && ColorForCard(card).Some? &&
    InByteRange(ColorForCard(card).value) && ColorForCard(card).value != Black
  }

  /** Every card of the deck gets a colour with all channels in [0, 255], and not black. */
  lemma DeckColorsInRange()
    ensures forall i :: 0 <= i < |StandardDeck()| ==> WellColored(StandardDeck()[i])
  {
    StandardDeckLayout();
    var deck := StandardDeck();
    forall i | 0 <= i < 52 ensures WellColored(deck[i]) {
      assert deck[DeckIndex(i / CardsPerSuit, i % CardsPerSuit)] == deck[i];
    }
  }

  /** Reordering keeps every card well coloured. */
  lemma PermutedWellColored(cards: seq<Card>, perm: seq<Card>)
    requires multiset(perm) == multiset(cards)
    requires forall i :: 0 <= i < |cards| ==> WellColored(cards[i])
    ensures forall i :: 0 <= i < |perm| ==> WellColored(perm[i])
  {
    forall i | 0 <= i < |perm| ensures WellColored(perm[i]) {
      assert perm[i] in multiset(cards);
    }
  }

  /** No two cards of the deck get the same colour: the image tells every card apart. */
  lemma DeckColorsDistinct()
    ensures forall i, j :: 0 <= i < j < |StandardDeck()| ==>
      ColorForCard(StandardDeck()[i]) != ColorForCard(StandardDeck()[j])
  {
    StandardDeckLayout();
    var deck := StandardDeck();
    forall i, j | 0 <= i < j < 52 ensures ColorForCard(deck[i]) != ColorForCard(deck[j]) {
      assert deck[DeckIndex(i / CardsPerSuit, i % CardsPerSuit)] == deck[i];
      assert deck[DeckIndex(j / CardsPerSuit, j % CardsPerSuit)] == deck[j];
    }
  }

  /** How many cards of `deck` have the given suit. */
  function SuitCount(deck: seq<Card>, suit: string): nat
  {
    if deck == [] then 0
    else SuitCount(deck[..|deck| - 1], suit) + (if deck[|deck| - 1].suit == suit then 1 else 0)
  }

  lemma {:induction false} SuitCountConcat(a: seq<Card>, b: seq<Card>, suit: string)
    ensures SuitCount(a + b, suit) == SuitCount(a, suit) + SuitCount(b, suit)
    decreases |b|
  {
    if b != [] {
      assert (a + b)[..|a + b| - 1] == a + b[..|b| - 1];
      SuitCountConcat(a, b[..|b| - 1], suit);
    } else {
      assert a + b == a;
    }
  }

  /** The count depends only on the multiset of cards, so no reordering changes it. */
  lemma {:induction false} SuitCountPermutation(a: seq<Card>, b: seq<Card>, suit: string)
    requires multiset(a) == multiset(b)
    ensures SuitCount(a, suit) == SuitCount(b, suit)
    decreases |a|
  {
    if a != [] {
      var n := |a| - 1;
      var x := a[n];
      assert x in multiset(b);
      var j :| 0 <= j < |b| && b[j] == x;
      var rest := b[..j] + b[j + 1..];
      assert b == b[..j] + [x] + b[j + 1..];
      assert a == a[..n] + [x];
      assert multiset(a[..n]) + multiset{x} == multiset(rest) + multiset{x};
      MultisetCancel(multiset(a[..n]), multiset(rest), x);
      SuitCountPermutation(a[..n], rest, suit);
      SuitCountConcat(b[..j] + [x], b[j + 1..], suit);
      SuitCountConcat(b[..j], [x], suit);
      SuitCountConcat(b[..j], b[j + 1..], suit);
      assert SuitCount([x], suit) == if x.suit == suit then 1 else 0 by {
        assert [x][..0] == [];
      }
    } else {
      assert |b| == |multiset(b)| == 0;
    }
  }

  lemma MultisetCancel<T>(m1: multiset<T>, m2: multiset<T>, x: T)
    requires m1 + multiset{x} == m2 + multiset{x}
    ensures m1 == m2
  {
    assert m1 == m1 + multiset{x} - multiset{x};
    assert m2 == m2 + multiset{x} - multiset{x};
  }

  lemma {:induction false} SuitCountOfSuit(s: nat, m: nat, suit: string)
    requires s < |Suits| && m <= CardsPerSuit
    ensures SuitCount(SuitCards(s)[..m], suit) == if suit == Suits[s] then m else 0
  {
    if m > 0 {
      assert SuitCards(s)[..m][..m - 1] == SuitCards(s)[..m - 1];
      SuitCountOfSuit(s, m - 1, suit);
    } else {
      assert SuitCards(s)[..m] == [];
    }
  }

  /** The standard deck has 13 cards of each suit and none of any other suit. */
  lemma StandardDeckSuitCount(suit: string)
    ensures SuitCount(StandardDeck(), suit) == if suit in Suits then 13 else 0
  {
    var c0, c1, c2, c3 := SuitCards(0), SuitCards(1), SuitCards(2), SuitCards(3);
    SuitCountConcat(c0 + c1 + c2, c3, suit);
    SuitCountConcat(c0 + c1, c2, suit);
    SuitCountConcat(c0, c1, suit);
    SuitCountOfSuit(0, CardsPerSuit, suit);
    SuitCountOfSuit(1, CardsPerSuit, suit);
    SuitCountOfSuit(2, CardsPerSuit, suit);
    SuitCountOfSuit(3, CardsPerSuit, suit);
    assert c0[..CardsPerSuit] == c0 && c1[..CardsPerSuit] == c1;
    assert c2[..CardsPerSuit] == c2 && c3[..CardsPerSuit] == c3;
    assert suit in Suits <==> suit == Suits[0] || suit == Suits[1] || suit == Suits[2] || suit == Suits[3];
  }

  /** Whatever the draws, the shuffled deck is 52 cards with 13 of each suit. */
  lemma ShuffledDeckSuitCount(draws: seq<nat>, suit: string)
    requires ValidDraws(draws, 52)
    ensures |Shuffled(StandardDeck(), draws)| == 52
    ensures SuitCount(Shuffled(StandardDeck(), draws), suit) == if suit in Suits then 13 else 0
  {
    StandardDeckLayout();
    ShuffledIsPermutation(StandardDeck(), draws);
    SuitCountPermutation(Shuffled(StandardDeck(), draws), StandardDeck(), suit);
    StandardDeckSuitCount(suit);
  }

  /** Every card has one of the four suits, so `color_for_card` gives each a colour. */
  predicate KnownSuits(cards: seq<Card>)
  {
    forall i :: 0 <= i < |cards| ==> cards[i].suit in Suits
  }

  /** The colour of each card, in deck order. */
  function CardColors(cards: seq<Card>): (colors: seq<Rgb>)
    requires KnownSuits(cards)
    ensures |colors| == |cards|
    ensures forall i :: 0 <= i < |cards| ==> Some(colors[i]) == ColorForCard(cards[i])
  {
    seq(|cards|, i requires 0 <= i < |cards| => ColorForCard(cards[i]).value)
  }

  /**
   * `create_image` without the file: a black 240x240 image, the deck shuffled in place, then
   * the scan that paints the block of each active cell with the colour of the next card.
   */
  method CreateImage(deck: array<Card>, draws: seq<nat>) returns (pixels: array2<Rgb>, ghost writes: nat)
    requires ValidDraws(draws, deck.Length) && KnownSuits(deck[..])
    modifies deck
    ensures deck[..] == Shuffled(old(deck[..]), draws)
    ensures fresh(pixels) && IsImage(pixels)
    ensures KnownSuits(deck[..]) && forall px, py :: 0 <= px < ImageSize && 0 <= py < ImageSize ==>
      pixels[px, py] == ImagePixel(CardColors(deck[..]), px, py)
    ensures writes == BlockSize * BlockSize * Min(deck.Length, 52)
  {
    pixels := NewImage();
    ghost var before := deck[..];
    FisherYatesShuffle(deck, draws);
    ShuffledIsPermutation(before, draws);
    assert KnownSuits(deck[..]) by {
      forall i | 0 <= i < deck.Length ensures deck[..][i].suit in Suits {
        assert deck[..][i] in before;
      }
    }
    writes := PaintDeck(pixels, CardColors(deck[..]));
  }

  /**
   * Whatever the draws, the shuffled standard deck is 52 cards of known suits, none of
   * them coloured black.
   */
  lemma ShuffledDeckColors(draws: seq<nat>)
    requires ValidDraws(draws, 52)
    ensures var shuffled := Shuffled(StandardDeck(), draws);
      |shuffled| == 52 && KnownSuits(shuffled) &&
      forall i :: 0 <= i < 52 ==> CardColors(shuffled)[i] != Black
  {
    DeckColorsInRange();
    var shuffled := Shuffled(StandardDeck(), draws);
    ShuffledIsPermutation(StandardDeck(), draws);
    PermutedWellColored(StandardDeck(), shuffled);
    var colors := CardColors(shuffled);
    assert forall i :: 0 <= i < 52 ==> Some(colors[i]) == ColorForCard(shuffled[i]);
  }

  /**
   * For the standard deck and any draws: a pixel is black exactly when its block is one of
   * the 12 skipped corner blocks, and the k-th active block shows the colour of the k-th
   * card of the shuffled deck.
   */
  lemma StandardDeckImage(draws: seq<nat>, k: nat, px: nat, py: nat)
    requires ValidDraws(draws, 52) && k < 52
    requires px < ImageSize && py < ImageSize
    ensures var shuffled := Shuffled(StandardDeck(), draws);
      |shuffled| == 52 && KnownSuits(shuffled) &&
      var colors := CardColors(shuffled);
      (ImagePixel(colors, px, py) == Black <==> (py / BlockSize, px / BlockSize) in SkipBlocks) &&
      ((py / BlockSize, px / BlockSize) == ScanOrder()[k] ==> Some(ImagePixel(colors, px, py)) == ColorForCard(shuffled[k]))
  {
    ShuffledDeckColors(draws);
    var colors := CardColors(Shuffled(StandardDeck(), draws));
    BlackExactlySkipped(colors, px, py);
    if (py / BlockSize, px / BlockSize) == ScanOrder()[k] {
      KthActiveBlock(colors, k, px, py);
    }
  }

  /**
   * One image of `generate_images`: `create_deck`, then `create_image` on that deck. The
   * whole deck is drawn: 52 blocks of 900 pixel writes.
   */
  method DeckImage(draws: seq<nat>) returns (pixels: array2<Rgb>, ghost writes: nat)
    requires ValidDraws(draws, 52)
    ensures fresh(pixels) && IsImage(pixels)
    ensures KnownSuits(Shuffled(StandardDeck(), draws))
    ensures forall px, py :: 0 <= px < ImageSize && 0 <= py < ImageSize ==>
      pixels[px, py] == ImagePixel(CardColors(Shuffled(StandardDeck(), draws)), px, py)
    ensures writes == BlockSize * BlockSize * 52
  {
    var cards := CreateDeck();
    StandardDeckLayout();
    DeckColorsInRange();
    var deck := new Card[|cards|](i requires 0 <= i < |cards| => cards[i]);
    assert deck[..] == cards;
    pixels, writes := CreateImage(deck, draws);
  }
}
