# card_nft in Dafny

A model of the two deck-image scripts of card_nft, and proofs about them.

- `card_nft.py` builds a standard 52-card deck. There are four colour suits (red, green, blue and yellow) and thirteen tones per suit. It gives each card an RGB colour.
- `rand_deck.py` builds its deck differently. It takes four base colours written in hex and makes thirteen tones of each.

Both scripts then do the same two things:

1. They shuffle the deck in place with Fisher–Yates.
2. They draw the deck on an 8x8 grid of 30x30-pixel blocks in a 240x240 image that starts black. The twelve L-shaped corner cells are skipped. Every other cell, in row-major order, is painted with the next card while the deck lasts.

Modules, one per concern of the scripts:

- `Types` (types.dfy): the RGB triple, plus the Option and Result wrappers.
- `Shuffle` (shuffle.dfy): `fisher_yates_shuffle`, which both scripts share. `FisherYatesShuffle` is a method on an array. The randomness is a sequence of draws: `draws[i]` is what `randint(0, i)` returned at loop index `i`. The method is proved equal to the function `Shuffled`. Proved about `Shuffled`:
  - it is a permutation of the deck;
  - every permutation of the deck is reachable from some draws;
  - on a deck of distinct cards, different draws give different orders.
- `Grid` (grid.dfy): the drawing loop of `create_image`, which both scripts share, on a 240x240 `array2`.
  - `PaintDeck` is proved to leave the image equal to the function `ImagePixel`.
  - The scan rank of a cell is `ActiveBefore`. The active cells in scan order are `ScanOrder`.
  - Proved about the painted image: the 12 skipped blocks stay black; the k-th active block shows the k-th colour; colours past the 52nd are never drawn; each painted block is exactly 900 writes.
- `HexColor` (hex_color.dfy): `hex_to_rgb` and `rgb_to_hex`, with both round trips.
- `RandDeck` (rand_deck.dfy): `generate_tones`, `create_deck` and `create_image` of `rand_deck.py`, plus the deck the script's main block builds.
- `CardNft` (card_nft.dfy): `create_deck`, `color_for_card` and `create_image` of `card_nft.py`.

The hue-lightness-saturation arithmetic of `generate_tones` is floating point. It is passed in as a function parameter, `shade`: tone `i` of `n` for a base colour and a brightness limit. Everything around it is modelled, including:

- the ValueError of a base colour that does not parse;
- the ZeroDivisionError of `num_tones == 1`.

`hex_to_rgb` accepts more than six-digit colours, and the model keeps this:

- any number of leading `#` is stripped;
- a five-character text parses, its last channel being a single digit;
- characters after the sixth are never read.

`HexColor.HexToRgbAccepts` states exactly which texts parse.

## Model

| member | source | states |
|---|---|---|
| Shuffle.ShuffleDown | rand_deck.py:7-9 | running the swap loop down from index m - 1 keeps the deck's length |
| Shuffle.Shuffled | rand_deck.py:5-9 | the shuffled deck has as many cards as the deck |
| Shuffle.Swap | rand_deck.py:9 | the swap exchanges positions i and j, keeps every other position and the multiset |
| Shuffle.ShuffleDownPermutes | rand_deck.py:7-9 | running the loop down from index m - 1 keeps the length and the multiset, and leaves positions m and above untouched |
| Shuffle.ShuffledIsPermutation | rand_deck.py:5-9 | the shuffled deck has the same length, the same multiset and the same members as the deck |
| Shuffle.ShortDeckUnchanged | rand_deck.py:7 | a deck of zero or one cards is returned unchanged (the loop body never runs) |
| Shuffle.ReachableFrom | rand_deck.py:7-9 | for any target with the same multiset, draws within range exist that turn the deck into the target, keeping the draws already made above m |
| Shuffle.EveryPermutationReachable | rand_deck.py:7-9 | every permutation of the deck is the result of some draws with draw i in [0, i] |
| Shuffle.LastDrawDetermined | rand_deck.py:8-9 | the last position the loop fills ends up holding the card chosen by that index's draw |
| Shuffle.DrawsDetermined | rand_deck.py:7-9 | on a deck of distinct cards, two draw sequences giving the same order are equal: draws and orders correspond one to one |
| Shuffle.FisherYatesShuffle | rand_deck.py:5-9 | the in-place swap loop (the same loop as card_nft.py:4-8) leaves the array equal to Shuffled of its old contents; every swap index is in bounds |
| Grid.SkipBlocksShape | card_nft.py:42-47 | skip_blocks holds twelve distinct cells, the three-cell L of each corner |
| Grid.ActiveBefore | rand_deck.py:67-70 | the scan rank of cell (y, x) is at most the number of cells before it in row-major order |
| Grid.CellColor | rand_deck.py:69-75 | a cell's colour is black or one of the deck's colours |
| Grid.ImagePixel | rand_deck.py:65-76 | a pixel's colour is black or one of the deck's colours |
| Grid.ActiveBeforeRows | rand_deck.py:67-70 | the scan rank (the running index while the deck lasts) at the start of row y is 0, 4, 10, 18, 26, 34, 42, 48, 52 |
| Grid.ActiveCellCount | rand_deck.py:67-70 | exactly 52 of the 64 cells are outside skip_blocks |
| Grid.ActiveBeforeMonotone | rand_deck.py:67-76 | the scan rank (the running index while the deck lasts) never decreases along the scan |
| Grid.ActiveBeforeStrict | rand_deck.py:67-76 | an active cell's rank is below that of every later position of the scan |
| Grid.ActiveBeforeBound | rand_deck.py:67-76 | every active cell's rank is one of 0 to 51 |
| Grid.ScanOrder | rand_deck.py:67-70 | the list of active cells in row-major order has 52 entries |
| Grid.ScanOrderRanks | rand_deck.py:67-76 | the k-th cell of ScanOrder is active with rank k, and every active cell sits at its own rank |
| Grid.CellRankInjective | rand_deck.py:67-76 | two different active cells never take the same deck position |
| Grid.PixelInBlock | rand_deck.py:73-75 | the pixel at offset d of block b lies in [0, 240) and in block b |
| Grid.BlockPixels | rand_deck.py:72-75 | every pixel of block (x, y) has the colour of cell (y, x) in ImagePixel |
| Grid.NewImage | rand_deck.py:50 | a fresh 240x240 image, every pixel black |
| Grid.FillBlock | rand_deck.py:73-75 | the two inner loops paint the block's 900 pixels with the colour (900 writes) and leave every other pixel as it was |
| Grid.PaintCell | rand_deck.py:69-76 | a skipped cell is passed over; otherwise, while the index is inside the deck, the block gets the colour at the index and the index moves on; nothing outside the block changes |
| Grid.PaintDeck | rand_deck.py:64-76 | after the scan every pixel equals ImagePixel (its block's colour by rank); the writes are 900 times min(len(deck), 52) |
| Grid.SkippedBlocksStayBlack | rand_deck.py:56-70 | every pixel of a skipped block is black |
| Grid.KthActiveBlock | rand_deck.py:67-76 | the k-th active block is painted entirely with deck[k] when k < len(deck), and is black otherwise |
| Grid.CornerAndFirstBlock | rand_deck.py:56-76 | block (0, 0) is black; block (0, 2), the first painted, has deck[0] |
| Grid.BlackExactlySkipped | card_nft.py:53-62 | with 52 or more colours, none black, a pixel is black exactly when its block is skipped |
| Grid.ExtraColorsUnused | rand_deck.py:71 | the image depends only on the first 52 colours of the deck |
| Grid.PixelsFromDeck | rand_deck.py:71-75 | every pixel is black or one of the first 52 colours |
| HexColor.DigitValue | rand_deck.py:14 | a hex digit of either case has a value below 16 |
| HexColor.Digit | rand_deck.py:18 | the digit written for a value below 16 is lower-case and reads back as that value |
| HexColor.ParseHex | rand_deck.py:14 | int(t, 16) succeeds exactly when t is a non-empty run of hex digits, else raises with t; at most two digits read as a value below 256 |
| HexColor.LStripHash | rand_deck.py:13 | lstrip('#') leaves a text that is empty or does not start with '#' |
| HexColor.Slice | rand_deck.py:14 | the Python slice s[i:j] is cut short at the end of the text |
| HexColor.HexToRgb | rand_deck.py:11-14 | when all three slices parse, every channel is in [0, 255] |
| HexColor.HexValueBound | rand_deck.py:14 | a slice of at most two hex digits reads as a value below 256 |
| HexColor.HexDigits | rand_deck.py:18 | '{:x}' writes at least one lower-case hex digit |
| HexColor.Format02x | rand_deck.py:18 | '{:02x}' writes at least two characters: lower-case hex digits for a non-negative value, a leading '-' for a negative one |
| HexColor.RgbToHex | rand_deck.py:16-18 | rgb_to_hex writes '#' followed by at least six characters |
| HexColor.Format02xByte | rand_deck.py:18 | '{:02x}' writes a byte as exactly two lower-case digits, high nibble first |
| HexColor.RgbToHexShape | rand_deck.py:16-18 | for channels in [0, 255] the result is '#' and six lower-case hex digits, the digit pairs of r, g, b |
| HexColor.TwoDigits | rand_deck.py:14 | int(ab, 16) is 16 times the value of a plus the value of b |
| HexColor.HexToRgbSixDigits | rand_deck.py:13-14 | after the leading '#', six hex digits give the three digit pairs, and any later characters are ignored |
| HexColor.HexToRgbAccepts | rand_deck.py:13-14 | hex_to_rgb succeeds exactly when, after the '#', there are at least five characters and the first six (or five) are hex digits |
| HexColor.HexRoundTrip | rand_deck.py:11-18 | hex_to_rgb(rgb_to_hex(c)) == c for every colour with channels in [0, 255] |
| HexColor.HexRoundTripText | rand_deck.py:11-18 | '#' followed by six lower-case hex digits parses and is written back identically |
| HexColor.PairsRgb | rand_deck.py:14 | the colour read from three pairs of hex digits has every channel in [0, 255] |
| HexColor.FormatPairs | rand_deck.py:16-18 | rgb_to_hex of the colour of three lower-case digit pairs is '#' and those pairs |
| HexColor.PairInverse | rand_deck.py:18 | '{:02x}' writes the value of a lower-case digit pair as that pair |
| RandDeck.Tones | rand_deck.py:20-36 | generate_tones succeeds exactly when the base colour parses and num_tones is not 1; a parse error is raised as is; success gives num_tones tones |
| RandDeck.Deck | rand_deck.py:38-44 | a built deck has 13 tones per base colour |
| RandDeck.GenerateTones | rand_deck.py:20-36 | the loop's result is Tones: the colour's parse error, a division by zero when num_tones is 1, or num_tones shades of the parsed colour in order |
| RandDeck.DeckErrorSticks | rand_deck.py:41-43 | once a base colour raises, the later base colours do not change the outcome |
| RandDeck.CreateDeck | rand_deck.py:38-44 | the loop's result is Deck: the tone lists concatenated, or the first error raised |
| RandDeck.DeckBuilt | rand_deck.py:38-44 | the deck is built exactly when every base colour parses |
| RandDeck.DeckFirstError | rand_deck.py:41-43 | when some base colour fails, the error raised is that of the first one to fail |
| RandDeck.DeckLayout | rand_deck.py:38-44 | with every base colour parsed, the deck has 13 per base colour, and entry 13k + i is tone i of base colour k |
| RandDeck.CardOfLaidOutDeck | rand_deck.py:40-43 | every entry of such a deck is tone i of base colour k for some k and i, returned as witnesses |
| RandDeck.CreateImage | rand_deck.py:46-76 | the deck is shuffled in place to Shuffled(old deck, draws); the new image equals ImagePixel of the shuffled deck; 900 writes per painted block |
| RandDeck.ShuffledPixelsFromDeck | rand_deck.py:53-76 | whatever the draws, every pixel is black or a card of the deck |
| RandDeck.ShuffledFirstBlocks | rand_deck.py:53-76 | whatever the draws, block (0, 0) is black and block (0, 2) has the first card after the shuffle |
| RandDeck.ImageOfFourColourDeck | rand_deck.py:84-86 | for four base colours that parse and any draws, the deck is 52 tones and every pixel is black or tone i of base colour k |
| RandDeck.ScriptBaseColorsParse | rand_deck.py:92 | the main block's base colours parse to (238, 232, 44), (145, 203, 62), (83, 165, 72), (76, 147, 76) |
| RandDeck.ScriptDeck | rand_deck.py:92-95 | the main block's deck at brightness 80 is built, 52 tones, laid out by base colour |
| CardNft.StandardDeckLayout | card_nft.py:12-18 | the deck has 52 cards; card 13s + v is (suits[s], (v + 1) * 16); within a suit, tones rise strictly from 16 to 208 |
| CardNft.CreateDeck | card_nft.py:10-18 | the nested loops return StandardDeck |
| CardNft.StandardDeck | card_nft.py:10-18 | the deck is the thirteen cards of red, then of green, then of blue, then of yellow |
| CardNft.ColorForCard | card_nft.py:20-30 | a card gets a colour exactly when its suit is red, green, blue or yellow (None otherwise); the tone goes to the red channel for red, green for green, blue for blue, red and green for yellow, and every other channel is 0 |
| CardNft.DeckColorsInRange | card_nft.py:16-30 | every card of the deck gets a colour, every channel in [0, 255], and none is black |
| CardNft.DeckColorsDistinct | card_nft.py:12-30 | no two cards of the deck get the same colour |
| CardNft.PermutedWellColored | card_nft.py:39 | reordering a deck keeps every card well coloured |
| CardNft.SuitCountConcat | card_nft.py:13-17 | the count of a suit in two decks joined is the sum of the counts |
| CardNft.SuitCountPermutation | card_nft.py:4-8 | two decks with the same multiset have the same count of every suit |
| CardNft.SuitCountOfSuit | card_nft.py:15-17 | the inner loop's cards all have the suit of the outer loop |
| CardNft.StandardDeckSuitCount | card_nft.py:12-18 | the deck has 13 cards of each suit and none of any other suit |
| CardNft.ShuffledDeckSuitCount | card_nft.py:39 | whatever the draws, the shuffled deck has 52 cards, 13 of each suit |
| CardNft.CardColors | card_nft.py:58 | colour i is color_for_card(deck[i]), for a deck whose suits are all known |
| CardNft.CreateImage | card_nft.py:32-62 | the deck is shuffled in place to Shuffled(old deck, draws); the image equals ImagePixel of the card colours; 900 writes per painted block, so 52 x 900 for a deck of 52 or more cards |
| CardNft.ShuffledDeckColors | card_nft.py:39 | whatever the draws, the shuffled deck is 52 cards of known suits, none coloured black |
| CardNft.StandardDeckImage | card_nft.py:36-62 | for the standard deck and any draws: a pixel is black exactly when its block is skipped; the k-th active block has the colour of the k-th card |
| CardNft.DeckImage | card_nft.py:67-72 | the driver's one image: the standard deck, shuffled by the draws, gives the image ImagePixel of its card colours, all suits known, with 52 x 900 pixel writes |

## Left out

- Image files: `Image.new` becomes a fresh black `array2`, and `img.load()` is the array itself. `img.save` and the output file name are not modelled.
- Randomness: `random.randint(0, i)` becomes a draw supplied by the caller and checked to lie in [0, i]. The uniform distribution of the shuffle is probabilistic and is not stated. What is proved instead is that, on a deck of distinct cards, draws and orderings correspond one to one.
- RandDeck.GenerateTones: does not model the hue-lightness-saturation conversion (`rgb_to_hls`, `hls_to_rgb` and the `int(x * 255)` truncation), because it is floating point. It is the parameter `shade`, and nothing is proved about the values of the tones.
- HexColor.HexToRgb: rejects some slices that `int(s, 16)` accepts. These are slices with a sign, surrounding whitespace, or non-ASCII digits (for example `"#-f0000"` reads as (-15, 0, 0) in Python). Only ASCII hex digits of either case are read.
- CardNft.CreateImage: requires every card to have one of the four suits. For any other suit `color_for_card` returns None, and what the image library does with that colour is not modelled. Every deck `create_deck` builds meets the requirement (CardNft.StandardDeckImage).
- RandDeck.CreateDeck: always asks for 13 tones, as the script does. `generate_tones` with other counts is covered by RandDeck.GenerateTones.
- `generate_images`, its file names and `print`, and the `__main__` blocks are drivers and are not modelled. The base colours of `rand_deck.py`'s main block are modelled (RandDeck.ScriptDeck).
- RandDeck.CreateImage: the image is an array of unbounded integers, while a PIL 'RGB' image stores 8-bit channels. For shade colours outside [0, 255] its ensures does not describe what PIL holds; the model leaves the range of `shade` open.
- Pixel writes are counted by a ghost counter. The pixel values themselves are modelled exactly.
