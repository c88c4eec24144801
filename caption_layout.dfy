/**
 * The caption layout of `create_meme`: shrink the font by 10% until the
 * caption fits on one line, wrapping it greedily instead once the size would
 * drop below the minimum; then a white band above the image tall enough for
 * the text, and a canvas holding the band and the image.
 *
 * Pillow's text metrics are parameters: `textWidth(text, px)` is
 * `textbbox((0,0), text, font)[2]` and `blockHeight(text, px)` is the height
 * of `multiline_textbbox` for the font of size `px`.
 */
module CaptionLayout {
  import opened Results
  import opened PyStr
  import opened WordWrap

  // ---------------------------------------------------------------- font size and band

  /** Python's `int(x)` on a float: truncation toward zero. */
  function Trunc(x: real): int {
    if x >= 0.0 then x.Floor else -((-x).Floor)
  }

  /** The font size after `n` reductions by 10% from `start` (exact arithmetic). */
  function SizeAt(start: int, n: nat): real
    decreases n
  {
    if n == 0 then start as real else SizeAt(start, n - 1) * 0.9
  }

  /** How many more reductions a size `f` can take before falling below `t`. */
  function ShrinksLeft(f: real, t: real): nat
    requires t > 0.0
  {
    if f >= t then ((f - t) * 10.0 / t).Floor + 1 else 0
  }

  /** The loop stops: a reduction that keeps the size at or above the minimum leaves fewer reductions. */
  lemma ShrinksLeftDecreases(f: real, t: real)
    requires t > 0.0 && f * 0.9 >= t
    ensures ShrinksLeft(f * 0.9, t) < ShrinksLeft(f, t)
  {
    var a := (f - t) * 10.0 / t;
    var b := (f * 0.9 - t) * 10.0 / t;
    assert a - b == f / t;
    assert f / t >= 1.0 by {
      assert f >= t;
    }
  }

  /** The result of `create_meme` apart from the pixels: what is drawn, with which font, and where. */
  datatype Layout = Layout(
    text: string,       // `wrapped_text`
    fontPx: int,        // the size the font was loaded with
    fontSize: real,     // `font_size` when the loop ended
    bandHeight: int,
    canvasWidth: int,
    canvasHeight: int,
    imageTop: int,      // vertical offset of the pasted image
    textX: int,         // anchor of the centred text inside the band
    textY: int)

  /** `create_meme` when wrapping is needed and the caption has no words (`words[0]` raises `IndexError`). */
  datatype LayoutError = NoWords

  /** `int(buffer_scale * image.width)`. */
  function Buffer(imageWidth: nat, bufferScale: real): int {
    Trunc(bufferScale * imageWidth as real)
  }

  /** `int(font_scale * image.width)`: the size of the first font tried. */
  function StartSize(imageWidth: nat, fontScale: real): int {
    Trunc(fontScale * imageWidth as real)
  }

  /** `image.width - 2 * buffer_size`: the width a line may take. */
  function Room(imageWidth: nat, buffer: int): int {
    imageWidth - 2 * buffer
  }

  /** `min_scale * image.width`: the smallest font size before wrapping. */
  function MinSize(imageWidth: nat, minScale: real): real {
    minScale * imageWidth as real
  }

  /** The band and canvas arithmetic for `text` drawn with the font of size `px` while `font_size` is `fontSize`. */
  function Arrange(text: string, px: int, fontSize: real, imageWidth: nat, imageHeight: nat,
                   blockHeight: (string, int) -> nat, buffer: int): (l: Layout)
    ensures l.text == text && l.fontPx == px && l.fontSize == fontSize
    ensures l.canvasWidth == imageWidth && l.canvasHeight == imageHeight + l.bandHeight
    ensures l.imageTop == l.bandHeight
  {
    var band := blockHeight(text, px) + Trunc(fontSize * 0.1) + 2 * buffer;
    Layout(text, px, fontSize, band, imageWidth, imageHeight + band, band, imageWidth / 2, band / 2)
  }

  /**
   * The canvas is as wide as the image and holds the band and the image one
   * above the other, the image starting right where the band ends; the text
   * is anchored at the middle of the band, and the band is at least as tall
   * as the text block plus a buffer above and below.
   */
  lemma ArrangeFits(text: string, px: int, fontSize: real, imageWidth: nat, imageHeight: nat,
                    blockHeight: (string, int) -> nat, buffer: int)
    requires fontSize >= 0.0 && buffer >= 0
    ensures var l := Arrange(text, px, fontSize, imageWidth, imageHeight, blockHeight, buffer);
      && l.canvasWidth == imageWidth
      && l.canvasHeight == l.bandHeight + imageHeight
      && l.imageTop == l.bandHeight
      && l.bandHeight == blockHeight(text, px) + Trunc(fontSize * 0.1) + 2 * buffer
      && l.bandHeight >= blockHeight(text, px) + 2 * buffer
      && 0 <= l.textX <= imageWidth && 2 * l.textX <= imageWidth < 2 * l.textX + 2
      && 0 <= l.textY <= l.bandHeight && 2 * l.textY <= l.bandHeight < 2 * l.textY + 2
  {
  }

  /** `textWidth(line, px) <= image.width - 2 * buffer_size`. */
  function FitsWidth(textWidth: (string, int) -> int, px: int, avail: int): string -> bool {
    line => textWidth(line, px) <= avail
  }

  /** `'\n'.join(lines)` after the greedy wrap. */
  method WrapText(words: seq<string>, fits: string -> bool) returns (text: string, ghost breaks: seq<nat>)
    requires words != [] && forall i :: 0 <= i < |words| ==> IsWord(words[i])
    ensures Greedy(words, fits, breaks, |words|)
    ensures text == Join(LinesAt(words, breaks, |words|), "\n")
  {
    var lines;
    lines, breaks := WrapWords(words, fits);
    text := Join(lines, "\n");
  }

  /** The font after `k` reductions was too wide for one line, and the next reduction kept the size at or above `minSize`. */
  predicate TooWideThenShrunk(text: string, textWidth: (string, int) -> int, f0: int, k: nat, avail: int, minSize: real) {
    textWidth(text, Trunc(SizeAt(f0, k))) > avail && SizeAt(f0, k) * 0.9 >= minSize
  }

  /**
   * The font-size loop of `create_meme`, starting from size `f0`: with
   * `shrinks` the number of reductions done, every font tried before the last
   * was too wide and every reduction kept the size at or above `minSize`. The
   * loop ends either because the caption fits with the last font (`wrap` is
   * false), or because the next reduction went below the minimum (`wrap` is
   * true; this is where the source wraps the words and leaves the loop).
   */
  method ShrinkFont(topText: string, textWidth: (string, int) -> int, f0: int, avail: int, minSize: real)
    returns (px: int, fontSize: real, wrap: bool, ghost shrinks: nat)
    requires minSize > 0.0
    ensures forall k :: 0 <= k < shrinks ==> TooWideThenShrunk(topText, textWidth, f0, k, avail, minSize)
    ensures px == Trunc(SizeAt(f0, shrinks))
    ensures !wrap ==> textWidth(topText, px) <= avail && fontSize == SizeAt(f0, shrinks)
    ensures wrap ==> textWidth(topText, px) > avail && fontSize == SizeAt(f0, shrinks) * 0.9 && fontSize < minSize
  {
    fontSize := f0 as real;
    px := f0;
    wrap := false;
    shrinks := 0;
    while textWidth(topText, px) > avail
      invariant fontSize == SizeAt(f0, shrinks) && px == Trunc(fontSize)
      invariant forall k :: 0 <= k < shrinks ==> TooWideThenShrunk(topText, textWidth, f0, k, avail, minSize)
      decreases ShrinksLeft(fontSize, minSize)
    {
      ghost var before := fontSize;
      fontSize := fontSize * 0.9;
      if fontSize < minSize {
        wrap := true;
        break;
      }
      ShrinksLeftDecreases(before, minSize);
      px := Trunc(fontSize);
      shrinks := shrinks + 1;
    }
  }

  /**
   * What `create_meme` lays out, for the caption `topText` split into
   * `words`, the first font size `f0`, the buffer and the minimum size, after
   * `shrinks` reductions: every font tried before the last was too wide and
   * each reduction kept the size at or above the minimum. Then either the
   * caption fits with the last font and is drawn unchanged, or the next
   * reduction fell below the minimum and the caption is drawn greedily
   * wrapped with the last font loaded; with no words to wrap, `words[0]`
   * fails.
   */
  ghost predicate LaidOut(imageWidth: nat, imageHeight: nat, topText: string, words: seq<string>,
                          textWidth: (string, int) -> int, blockHeight: (string, int) -> nat,
                          f0: int, buffer: int, minSize: real,
                          r: Result<Layout, LayoutError>, shrinks: nat, breaks: seq<nat>)
  {
    var px := Trunc(SizeAt(f0, shrinks));
    var avail := Room(imageWidth, buffer);
    && (forall k :: 0 <= k < shrinks ==> TooWideThenShrunk(topText, textWidth, f0, k, avail, minSize))
    && (textWidth(topText, px) <= avail ==>
          r == Ok(Arrange(topText, px, SizeAt(f0, shrinks), imageWidth, imageHeight, blockHeight, buffer)))
    && (textWidth(topText, px) > avail ==>
          && SizeAt(f0, shrinks) * 0.9 < minSize
          && (words == [] <==> r == Err(NoWords))
          && (words != [] ==>
                && Greedy(words, FitsWidth(textWidth, px, avail), breaks, |words|)
                && r == Ok(Arrange(Join(LinesAt(words, breaks, |words|), "\n"), px, SizeAt(f0, shrinks) * 0.9,
                                   imageWidth, imageHeight, blockHeight, buffer))))
  }

  /** `create_meme` up to drawing, for the caption split into `words` and the sizes already computed. */
  method LayoutWords(imageWidth: nat, imageHeight: nat, topText: string, words: seq<string>,
                     textWidth: (string, int) -> int, blockHeight: (string, int) -> nat,
                     f0: int, buffer: int, minSize: real)
    returns (r: Result<Layout, LayoutError>, ghost shrinks: nat, ghost breaks: seq<nat>)
    requires minSize > 0.0 && forall i :: 0 <= i < |words| ==> IsWord(words[i])
    ensures LaidOut(imageWidth, imageHeight, topText, words, textWidth, blockHeight, f0, buffer, minSize, r, shrinks, breaks)
  {
    var avail := Room(imageWidth, buffer);
    var px, fontSize, wrap;
    px, fontSize, wrap, shrinks := ShrinkFont(topText, textWidth, f0, avail, minSize);
    breaks := [];
    var text := topText;
    if wrap {
      if words == [] {
        return Err(NoWords), shrinks, breaks;
      }
      text, breaks := WrapText(words, FitsWidth(textWidth, px, avail));
    }
    r := Ok(Arrange(text, px, fontSize, imageWidth, imageHeight, blockHeight, buffer));
  }

  /**
   * `create_meme` up to drawing: the sizes come from the image width and the
   * scales, and the words from `top_text.split()`.
   */
  method LayoutCaption(imageWidth: nat, imageHeight: nat, topText: string,
                       textWidth: (string, int) -> int, blockHeight: (string, int) -> nat,
                       minScale: real, bufferScale: real, fontScale: real)
    returns (r: Result<Layout, LayoutError>, ghost shrinks: nat, ghost breaks: seq<nat>)
    requires imageWidth > 0 && minScale > 0.0
    ensures LaidOut(imageWidth, imageHeight, topText, Split(topText), textWidth, blockHeight,
                    StartSize(imageWidth, fontScale), Buffer(imageWidth, bufferScale), MinSize(imageWidth, minScale),
                    r, shrinks, breaks)
  {
    var words := Split(topText);
    var buffer := Buffer(imageWidth, bufferScale);
    var f0 := StartSize(imageWidth, fontScale);
    var minSize := MinSize(imageWidth, minScale);
    r, shrinks, breaks := LayoutWords(imageWidth, imageHeight, topText, words, textWidth, blockHeight, f0, buffer, minSize);
  }

  /** The default scales of `create_meme`: minimum 5% of the width, buffer 3%, starting font 100%. */
  const DefaultMinScale: real := 0.05
  const DefaultBufferScale: real := 0.03
  const DefaultFontScale: real := 1.0

  /**
   * With the default scales and an image of positive width, the first font
   * is as large as the image is wide, the buffers leave a positive width for
   * the text, and the minimum size is positive, so the font loop ends.
   */
  lemma DefaultScalesFit(imageWidth: nat)
    requires imageWidth > 0
    ensures StartSize(imageWidth, DefaultFontScale) == imageWidth
    ensures var b := Buffer(imageWidth, DefaultBufferScale); 0 <= b && 0 < Room(imageWidth, b)
    ensures MinSize(imageWidth, DefaultMinScale) > 0.0
  {
    var w := imageWidth as real;
    assert DefaultFontScale * w == w;
    var x := DefaultBufferScale * w;
    assert 0.0 <= x;
    assert (x.Floor as real) <= x;
    assert 2.0 * x < w;
  }
}
