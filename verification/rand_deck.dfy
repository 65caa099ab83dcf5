/**
 * The tone-interpolation script: four base colours given as hex text, thirteen tones of
 * each, shuffled and drawn on the 8x8 grid. The hue-lightness-saturation arithmetic of
 * `generate_tones` works on floating point and is a parameter here (`shade`).
 */
module RandDeck {
  import opened Types
  import opened HexColor
  import opened Shuffle
  import opened Grid

  /** The number of tones `create_deck` asks of `generate_tones` (its default). */
  const NumTones: nat := 13

  /** What `generate_tones` can raise. */
  datatype ToneError =
    | BadColor(error: HexError)  // the ValueError of hex_to_rgb
    | ZeroDivision               // `i / (num_tones - 1)` with num_tones == 1

  /**
   * The HLS step of `generate_tones`: tone i of num_tones for a base colour and a
   * brightness limit, converted back to RGB and truncated to integers.
   */
  type Shade = (Rgb, int, nat, nat) -> Rgb

  /** The result `generate_tones(base_color, num_tones, brightness_limit)` stands for. */
  function Tones(baseColor: string, numTones: nat, brightnessLimit: int, shade: Shade): (r: Result<seq<Rgb>, ToneError>)
    ensures r.Ok? <==> HexToRgb(baseColor).Ok? && numTones != 1
    ensures HexToRgb(baseColor).Err? ==> r == Err(BadColor(HexToRgb(baseColor).error))
    ensures r.Ok? ==> |r.value| == numTones
  {
    match HexToRgb(baseColor)
    case Err(e) => Err(BadColor(e))
    case Ok(rgb) =>
      if numTones == 1 then Err(ZeroDivision)
      else Ok(seq(numTones, i requires 0 <= i < numTones => shade(rgb, brightnessLimit, i, numTones)))
  }

  /**
   * `generate_tones`: parse the base colour, then append one tone per index. With a single
   * tone the spread `i / (num_tones - 1)` divides by zero before anything is appended.
   */
  method GenerateTones(baseColor: string, numTones: nat, brightnessLimit: int, shade: Shade)
    returns (r: Result<seq<Rgb>, ToneError>)
    ensures r == Tones(baseColor, numTones, brightnessLimit, shade)
    ensures r.Ok? ==> |r.value| == numTones
  {
    var parsed := HexToRgb(baseColor);
    if parsed.Err? {
      return Err(BadColor(parsed.error));
    }
    var rgb := parsed.value;
    var tones: seq<Rgb> := [];
    for i := 0 to numTones
      invariant numTones != 1 || i == 0
      invariant |tones| == i
      invariant forall k :: 0 <= k < i ==> tones[k] == shade(rgb, brightnessLimit, k, numTones)
    {
      if numTones - 1 == 0 {
        return Err(ZeroDivision);
      }
      tones := tones + [shade(rgb, brightnessLimit, i, numTones)];
    }
    assert tones == seq(numTones, i requires 0 <= i < numTones => shade(rgb, brightnessLimit, i, numTones));
    return Ok(tones);
  }

  /** The result `create_deck(base_colors, brightness_limit)` stands for: the tone lists, concatenated. */
  function Deck(baseColors: seq<string>, brightnessLimit: int, shade: Shade): (r: Result<seq<Rgb>, ToneError>)
    ensures r.Ok? ==> |r.value| == NumTones * |baseColors|
    decreases |baseColors|
  {
    if baseColors == [] then Ok([])
    else
      match Deck(baseColors[..|baseColors| - 1], brightnessLimit, shade)
      case Err(e) => Err(e)
      case Ok(deck) =>
        match Tones(baseColors[|baseColors| - 1], NumTones, brightnessLimit, shade)
        case Err(e) => Err(e)
        case Ok(tones) => Ok(deck + tones)
  }

  /** Once a base colour has failed, the rest of the list does not matter. */
  lemma {:induction false} DeckErrorSticks(baseColors: seq<string>, k: nat, brightnessLimit: int, shade: Shade)
    requires k <= |baseColors| && Deck(baseColors[..k], brightnessLimit, shade).Err?
    ensures Deck(baseColors, brightnessLimit, shade) == Deck(baseColors[..k], brightnessLimit, shade)
    decreases |baseColors|
  {
    if k < |baseColors| {
      var init := baseColors[..|baseColors| - 1];
      assert init[..k] == baseColors[..k];
      DeckErrorSticks(init, k, brightnessLimit, shade);
    } else {
      assert baseColors[..k] == baseColors;
    }
  }

  /** `create_deck`: extend the deck with the tones of each base colour in turn. */
  method CreateDeck(baseColors: seq<string>, brightnessLimit: int, shade: Shade)
    returns (r: Result<seq<Rgb>, ToneError>)
    ensures r == Deck(baseColors, brightnessLimit, shade)
  {
    var deck: seq<Rgb> := [];
    for k := 0 to |baseColors|
      invariant Deck(baseColors[..k], brightnessLimit, shade) == Ok(deck)
    {
      assert baseColors[..k + 1][..k] == baseColors[..k];
      var tones := GenerateTones(baseColors[k], NumTones, brightnessLimit, shade);
      if tones.Err? {
        DeckErrorSticks(baseColors, k + 1, brightnessLimit, shade);
        return Err(tones.error);
      }
      deck := deck + tones.value;
    }
    assert baseColors[..|baseColors|] == baseColors;
    return Ok(deck);
  }

  /** A deck is built exactly when every base colour parses. */
  lemma {:induction false} DeckBuilt(baseColors: seq<string>, brightnessLimit: int, shade: Shade)
    ensures Deck(baseColors, brightnessLimit, shade).Ok? <==>
      forall k :: 0 <= k < |baseColors| ==> HexToRgb(baseColors[k]).Ok?
    decreases |baseColors|
  {
    if baseColors != [] {
      var n := |baseColors| - 1;
      DeckBuilt(baseColors[..n], brightnessLimit, shade);
      assert forall k :: 0 <= k < n ==> baseColors[..n][k] == baseColors[k];
    }
  }

  /** Entry 13 * k + i of `deck` is tone i of base colour k, for every base colour of `rgbs`. */
  predicate LaidOut(deck: seq<Rgb>, rgbs: seq<Rgb>, brightnessLimit: int, shade: Shade)
  {
    |deck| == NumTones * |rgbs| &&
    forall k, i :: 0 <= k < |rgbs| && 0 <= i < NumTones ==>
      deck[DeckIndex(k, i)] == shade(rgbs[k], brightnessLimit, i, NumTones)
  }

  /**
   * With every base colour parsing (to `rgbs`), the deck is built, has 13 entries per base
   * colour and is base-colour-major: entry 13 * k + i is tone i of base colour k.
   */
  lemma {:induction false} DeckLayout(baseColors: seq<string>, rgbs: seq<Rgb>, brightnessLimit: int, shade: Shade)
    requires |rgbs| == |baseColors|
    requires forall k :: 0 <= k < |baseColors| ==> HexToRgb(baseColors[k]) == Ok(rgbs[k])
    ensures Deck(baseColors, brightnessLimit, shade).Ok?
    ensures LaidOut(Deck(baseColors, brightnessLimit, shade).value, rgbs, brightnessLimit, shade)
    decreases |baseColors|
  {
    if baseColors != [] {
      var n := |baseColors| - 1;
      var init := baseColors[..n];
      DeckLayout(init, rgbs[..n], brightnessLimit, shade);
      var prev := Deck(init, brightnessLimit, shade).value;
      assert HexToRgb(baseColors[n]) == Ok(rgbs[n]);
      var tones := Tones(baseColors[n], NumTones, brightnessLimit, shade).value;
      var deck := Deck(baseColors, brightnessLimit, shade).value;
      assert deck == prev + tones;
      assert |deck| == NumTones * |rgbs|;
      forall k, i | 0 <= k < |rgbs| && 0 <= i < NumTones
        ensures deck[DeckIndex(k, i)] == shade(rgbs[k], brightnessLimit, i, NumTones)
      {
        if k < n {
          assert rgbs[..n][k] == rgbs[k];
          assert deck[DeckIndex(k, i)] == prev[DeckIndex(k, i)];
        } else {
          assert deck[DeckIndex(k, i)] == tones[i];
        }
      }
    }
  }

  /** When some base colour fails to parse, the error raised is that of the first one to fail. */
  lemma {:induction false} DeckFirstError(baseColors: seq<string>, brightnessLimit: int, shade: Shade, k: nat)
    requires k < |baseColors| && HexToRgb(baseColors[k]).Err?
    requires forall j :: 0 <= j < k ==> HexToRgb(baseColors[j]).Ok?
    ensures Deck(baseColors, brightnessLimit, shade) == Err(BadColor(HexToRgb(baseColors[k]).error))
  {
    var pre := baseColors[..k];
    DeckBuilt(pre, brightnessLimit, shade);
    assert baseColors[..k + 1][..k] == pre;
    assert Deck(baseColors[..k + 1], brightnessLimit, shade) == Err(BadColor(HexToRgb(baseColors[k]).error));
    DeckErrorSticks(baseColors, k + 1, brightnessLimit, shade);
  }

  /**
   * `create_image` without the file: a black 240x240 image, the deck shuffled in place,
   * then the scan that paints one block per active cell.
   */
  method CreateImage(deck: array<Rgb>, draws: seq<nat>) returns (pixels: array2<Rgb>, ghost writes: nat)
    requires ValidDraws(draws, deck.Length)
    modifies deck
    ensures deck[..] == Shuffled(old(deck[..]), draws)
    ensures fresh(pixels) && IsImage(pixels)
    ensures forall px, py :: 0 <= px < ImageSize && 0 <= py < ImageSize ==>
      pixels[px, py] == ImagePixel(deck[..], px, py)
    ensures writes == BlockSize * BlockSize * Min(deck.Length, 52)
  {
    pixels := NewImage();
    FisherYatesShuffle(deck, draws);
    writes := PaintDeck(pixels, deck[..]);
  }

  /** Whatever the draws, the image of a shuffled deck shows only black and cards of the deck. */
  lemma ShuffledPixelsFromDeck(deck: seq<Rgb>, draws: seq<nat>, px: nat, py: nat)
    requires ValidDraws(draws, |deck|)
    requires px < ImageSize && py < ImageSize
    ensures var pixel := ImagePixel(Shuffled(deck, draws), px, py);
      pixel == Black || pixel in deck
  {
    var shuffled := Shuffled(deck, draws);
    ShuffledIsPermutation(deck, draws);
    PixelsFromDeck(shuffled, px, py);
    var pixel := ImagePixel(shuffled, px, py);
    if pixel != Black {
      assert pixel in shuffled;
    }
  }

  /**
   * Whatever the draws, cell (0, 0) of the image is black and cell (0, 2), the first of the
   * scan, shows the first card of the shuffled deck.
   */
  lemma ShuffledFirstBlocks(deck: seq<Rgb>, draws: seq<nat>, px: nat, py: nat)
    requires |deck| == 52 && ValidDraws(draws, 52)
    requires px < ImageSize && py < ImageSize
    ensures var shuffled := Shuffled(deck, draws);
      |shuffled| == 52 &&
      (py < BlockSize && 2 * BlockSize <= px < 3 * BlockSize ==> ImagePixel(shuffled, px, py) == shuffled[0]) &&
      (py < BlockSize && px < BlockSize ==> ImagePixel(shuffled, px, py) == Black)
  {
    CornerAndFirstBlock(Shuffled(deck, draws), px, py);
  }

  /** Every card of a laid-out deck is some tone of some base colour. */
  lemma CardOfLaidOutDeck(deck: seq<Rgb>, rgbs: seq<Rgb>, brightnessLimit: int, shade: Shade, card: Rgb)
    returns (k: nat, i: nat)
    requires LaidOut(deck, rgbs, brightnessLimit, shade) && card in deck
    ensures k < |rgbs| && i < NumTones && card == shade(rgbs[k], brightnessLimit, i, NumTones)
  {
    var j :| 0 <= j < |deck| && deck[j] == card;
    k, i := j / NumTones, j % NumTones;
    assert DeckIndex(k, i) == j;
  }

  /**
   * The script's own run: four base colours that parse, 13 tones each, shuffled with any
   * draws. Every pixel of the image is black or tone i of base colour k for some k and i.
   */
  lemma ImageOfFourColourDeck(baseColors: seq<string>, rgbs: seq<Rgb>, brightnessLimit: int, shade: Shade,
                              draws: seq<nat>, px: nat, py: nat)
    requires |baseColors| == 4 && |rgbs| == 4
    requires forall k :: 0 <= k < 4 ==> HexToRgb(baseColors[k]) == Ok(rgbs[k])
    requires ValidDraws(draws, 52)
    requires px < ImageSize && py < ImageSize
    ensures Deck(baseColors, brightnessLimit, shade).Ok?
    ensures var deck := Deck(baseColors, brightnessLimit, shade).value;
      |deck| == 52 &&
      var pixel := ImagePixel(Shuffled(deck, draws), px, py);
      pixel == Black ||
      exists k, i :: 0 <= k < 4 && 0 <= i < NumTones && pixel == shade(rgbs[k], brightnessLimit, i, NumTones)
  {
    DeckLayout(baseColors, rgbs, brightnessLimit, shade);
    var deck := Deck(baseColors, brightnessLimit, shade).value;
    ShuffledPixelsFromDeck(deck, draws, px, py);
    var pixel := ImagePixel(Shuffled(deck, draws), px, py);
    if pixel != Black {
      var k, i := CardOfLaidOutDeck(deck, rgbs, brightnessLimit, shade, pixel);
      assert 0 <= k < 4 && 0 <= i < NumTones && pixel == shade(rgbs[k], brightnessLimit, i, NumTones);
    }
  }

  /** The base colours the script's main block passes to `generate_images`. */
  const ScriptBaseColors: seq<string> := ["EEE82C", "91CB3E", "53A548", "4C934C"]

  /** What `hex_to_rgb` reads from them. */
  const ScriptRgbs: seq<Rgb> := [Rgb(238, 232, 44), Rgb(145, 203, 62), Rgb(83, 165, 72), Rgb(76, 147, 76)]

  /** The script's base colours parse, channel pair by channel pair. */
  lemma ScriptBaseColorsParse()
    ensures forall k :: 0 <= k < 4 ==> HexToRgb(ScriptBaseColors[k]) == Ok(ScriptRgbs[k])
  {
    forall k | 0 <= k < 4 ensures HexToRgb(ScriptBaseColors[k]) == Ok(ScriptRgbs[k]) {
      var s := ScriptBaseColors[k];
      assert |s| == 6 && s[0] != '#';
      assert LStripHash(s) == s;
      assert s[..6] == s;
      HexToRgbSixDigits(s);
    }
  }

  /**
   * The script's own deck, brightness limit 80: it is built, 52 tones, 13 for each of the
   * four parsed base colours in order.
   */
  lemma ScriptDeck(shade: Shade)
    ensures Deck(ScriptBaseColors, 80, shade).Ok?
    ensures LaidOut(Deck(ScriptBaseColors, 80, shade).value, ScriptRgbs, 80, shade)
    ensures |Deck(ScriptBaseColors, 80, shade).value| == 52
  {
    ScriptBaseColorsParse();
    DeckLayout(ScriptBaseColors, ScriptRgbs, 80, shade);
  }
}
