/**
 * The image-to-HEX converter: the path checks it runs before converting,
 * the salt-and-pepper noise it can add to the greyscale image, and the
 * loop that writes the HEX memory image.
 */
module Img2Hex {
  import opened PixelGrid
  import opened HexCodec

  // ---------------------------------------------------------------------
  // Path checks
  // ---------------------------------------------------------------------

  /** The image formats the converter accepts, by file-name suffix. */
  const SupportedExtensions: seq<string> := [".jpg", ".jpeg", ".png", ".bmp"]

  datatype PathError = UnsupportedFormat | NotHexOutput

  function LowerChar(c: char): (d: char)
    ensures 'A' <= c <= 'Z' ==> 'a' <= d <= 'z' && d as int == c as int + 32
    ensures !('A' <= c <= 'Z') ==> d == c
  {
    if 'A' <= c <= 'Z' then (c as int + 32) as char else c
  }

  /** str.lower() on the ASCII letters. */
  function Lower(s: string): (r: string)
    ensures |r| == |s| && forall i :: 0 <= i < |s| ==> r[i] == LowerChar(s[i])
  {
    seq(|s|, i requires 0 <= i < |s| => LowerChar(s[i]))
  }

  /** A string without capital letters is its own lower-case form. */
  lemma LowerWithoutCapitals(s: string)
    requires forall i :: 0 <= i < |s| ==> !('A' <= s[i] <= 'Z')
    ensures Lower(s) == s
  {
  }

  predicate EndsWith(s: string, suffix: string)
  {
    |suffix| <= |s| && s[|s| - |suffix|..] == suffix
  }

  /** The text after the last '.', or the whole path when it has none: split('.')[-1]. */
  function LastComponent(s: string): (r: string)
    ensures '.' !in r
    ensures EndsWith(s, r)
    ensures |r| < |s| ==> s[|s| - |r| - 1] == '.'
  {
    if s == [] then []
    else if s[|s| - 1] == '.' then []
    else
      var p, c := s[..|s| - 1], s[|s| - 1];
      var init := LastComponent(p);
      assert p[|p| - |init|..] == init;
      assert s[|s| - |init| - 1..] == p[|p| - |init|..] + [c];
      assert |init| < |p| ==> s[|s| - |init| - 2] == p[|p| - |init| - 1];
      init + [c]
  }

  /** A path without a dot is its own last part. */
  lemma {:induction false} LastComponentWithoutDot(s: string)
    requires '.' !in s
    ensures LastComponent(s) == s
  {
    if s != [] {
      var p := s[..|s| - 1];
      assert '.' !in p by {
        forall i | 0 <= i < |p|
          ensures p[i] != '.'
        {
          assert p[i] == s[i];
        }
      }
      LastComponentWithoutDot(p);
      assert s == p + [s[|s| - 1]];
    }
  }

  /** The input path is checked first, then the output path; None means both pass. */
  function ValidateInputs(inputPath: string, outputPath: string): (r: Option<PathError>)
    ensures r.None? ==> 3 <= |outputPath|
  {
    if !(exists k :: 0 <= k < |SupportedExtensions| && EndsWith(Lower(inputPath), SupportedExtensions[k])) then
      Some(UnsupportedFormat)
    else if Lower(LastComponent(outputPath)) != "hex" then
      Some(NotHexOutput)
    else None
  }

  /**
   * The paths pass exactly when the lower-cased input path ends with a
   * supported extension and the last dot-separated part of the output path,
   * lower-cased, is "hex"; an unsupported input is reported whatever the
   * output path is.
   */
  lemma ValidateInputsIff(inputPath: string, outputPath: string)
    ensures ValidateInputs(inputPath, outputPath) == None <==>
      (EndsWith(Lower(inputPath), ".jpg") || EndsWith(Lower(inputPath), ".jpeg")
       || EndsWith(Lower(inputPath), ".png") || EndsWith(Lower(inputPath), ".bmp"))
      && Lower(LastComponent(outputPath)) == "hex"
    ensures !(EndsWith(Lower(inputPath), ".jpg") || EndsWith(Lower(inputPath), ".jpeg")
       || EndsWith(Lower(inputPath), ".png") || EndsWith(Lower(inputPath), ".bmp"))
      ==> ValidateInputs(inputPath, outputPath) == Some(UnsupportedFormat)
  {
    var lo := Lower(inputPath);
    assert SupportedExtensions[0] == ".jpg" && SupportedExtensions[1] == ".jpeg";
    assert SupportedExtensions[2] == ".png" && SupportedExtensions[3] == ".bmp";
  }

  /** The output extension is compared case-insensitively. */
  lemma UpperCaseHexAccepted()
    ensures ValidateInputs("cat.PNG", "a.HEX") == None
  {
    assert LastComponent("a.HEX") == "HEX" by {
      assert LastComponent("a.") == [];
      assert "a.HEX"[..4] == "a.HE" && "a.HE"[..3] == "a.H" && "a.H"[..2] == "a.";
    }
    assert EndsWith(Lower("cat.PNG"), SupportedExtensions[2]);
  }

  /** Only the part after the last dot counts. */
  lemma DoubleExtensionRejected()
    ensures ValidateInputs("cat.png", "a.hex.txt") == Some(NotHexOutput)
  {
    assert LastComponent("a.hex.txt") == "txt" by {
      assert LastComponent("a.hex.") == [];
      assert "a.hex.txt"[..8] == "a.hex.tx" && "a.hex.tx"[..7] == "a.hex.t" && "a.hex.t"[..6] == "a.hex.";
    }
    assert EndsWith(Lower("cat.png"), SupportedExtensions[2]);
  }

  /** A path without a dot is its own last part, so the bare name "hex" passes. */
  lemma BareHexAccepted()
    ensures ValidateInputs("a.JPEG", "hex") == None
  {
    LastComponentWithoutDot("hex");
    LowerWithoutCapitals("hex");
    assert EndsWith(Lower("a.JPEG"), SupportedExtensions[1]) by {
      var lo := Lower("a.JPEG");
      assert LowerChar('J') == 'j' && LowerChar('P') == 'p' && LowerChar('E') == 'e' && LowerChar('G') == 'g';
      assert lo[0] == 'a' && lo[1] == '.' && lo[2] == 'j' && lo[3] == 'p' && lo[4] == 'e' && lo[5] == 'g';
      assert lo == "a.jpeg";
    }
  }

  /** An unsupported image format is reported even when the output path is fine. */
  lemma UnsupportedInputRejected()
    ensures ValidateInputs("cat.gif", "a.hex") == Some(UnsupportedFormat)
  {
    var lo := Lower("cat.gif");
    assert lo == "cat.gif";
    assert !EndsWith(lo, ".jpeg") by { assert lo[2] != '.'; }
    assert !EndsWith(lo, ".jpg") by { assert lo[4] != 'j'; }
    assert !EndsWith(lo, ".png") by { assert lo[4] != 'p'; }
    assert !EndsWith(lo, ".bmp") by { assert lo[4] != 'b'; }
    ValidateInputsIff("cat.gif", "a.hex");
  }

  // ---------------------------------------------------------------------
  // Salt-and-pepper noise
  // ---------------------------------------------------------------------

  /** int(noise_amount * height * width): the number of salt and of pepper positions. */
  function NoiseCount(noiseAmount: real, height: nat, width: nat): (n: int)
    ensures 0.0 <= noiseAmount ==> 0 <= n
    ensures noiseAmount <= 1.0 ==> n <= height * width
  {
    ScaledCount(noiseAmount, height * width);
    (noiseAmount * (height * width) as real).Floor
  }

  /** A share of at most all of the cells is between none and all of them. */
  lemma ScaledCount(share: real, cells: nat)
    ensures 0.0 <= share ==> 0 <= (share * cells as real).Floor
    ensures share <= 1.0 ==> (share * cells as real).Floor <= cells
  {
    var c := cells as real;
    if share <= 1.0 {
      assert c - share * c == (1.0 - share) * c;
    }
  }

  /** Whether position (y, x) is one of the coordinate pairs (ys[k], xs[k]). */
  predicate Hit(ys: seq<nat>, xs: seq<nat>, y: nat, x: nat)
    requires |ys| == |xs|
  {
    exists k :: 0 <= k < |ys| && ys[k] == y && xs[k] == x
  }

  /** Coordinates as randint(0, dim - 1) draws them: below dim - 1. */
  predicate Drawn(ys: seq<nat>, xs: seq<nat>, height: nat, width: nat)
  {
    |ys| == |xs| && (forall k :: 0 <= k < |ys| ==> ys[k] < height - 1) && (forall k :: 0 <= k < |xs| ==> xs[k] < width - 1)
  }

  /** The noisy value of a pixel: pepper wins over salt, since it is written last. */
  function NoisedPixel(v: Byte, saltYs: seq<nat>, saltXs: seq<nat>, pepperYs: seq<nat>, pepperXs: seq<nat>, y: nat, x: nat): (n: Byte)
    requires |saltYs| == |saltXs| && |pepperYs| == |pepperXs|
    ensures n != v ==> n == 0 || n == 255
  {
    if Hit(pepperYs, pepperXs, y, x) then 0 else if Hit(saltYs, saltXs, y, x) then 255 else v
  }

  /**
   * Adds salt-and-pepper noise. A non-positive amount returns the very
   * image it was given; otherwise a copy is made, the salt positions are
   * set to 255 and then the pepper positions to 0. The random coordinates
   * are parameters.
   */
  method AddSaltPepperNoise(image: array2<Byte>, noiseAmount: real,
                            saltYs: seq<nat>, saltXs: seq<nat>, pepperYs: seq<nat>, pepperXs: seq<nat>)
    returns (noisy: array2<Byte>)
    requires noiseAmount > 0.0 ==> ((NoiseCount(noiseAmount, image.Length0, image.Length1) > 0 ==> image.Length0 >= 2 && image.Length1 >= 2)
      && |saltYs| == |pepperYs| == NoiseCount(noiseAmount, image.Length0, image.Length1)
      && Drawn(saltYs, saltXs, image.Length0, image.Length1)
      && Drawn(pepperYs, pepperXs, image.Length0, image.Length1))
    ensures noiseAmount <= 0.0 ==> noisy == image
    ensures noiseAmount > 0.0 ==> fresh(noisy) && noisy.Length0 == image.Length0 && noisy.Length1 == image.Length1
    ensures noiseAmount > 0.0 ==> forall y, x :: 0 <= y < image.Length0 && 0 <= x < image.Length1 ==>
      noisy[y, x] == NoisedPixel(image[y, x], saltYs, saltXs, pepperYs, pepperXs, y, x)
  {
    if noiseAmount <= 0.0 {
      return image;
    }
    noisy := new Byte[image.Length0, image.Length1]((y, x) reads image =>
      if 0 <= y < image.Length0 && 0 <= x < image.Length1 then image[y, x] else 0);
    var k := 0;
    while k < |saltYs|
      invariant k <= |saltYs|
      invariant forall y, x :: 0 <= y < image.Length0 && 0 <= x < image.Length1 ==>
        noisy[y, x] == if Hit(saltYs[..k], saltXs[..k], y, x) then 255 else image[y, x]
    {
      noisy[saltYs[k], saltXs[k]] := 255;
      k := k + 1;
      assert forall y, x :: Hit(saltYs[..k], saltXs[..k], y, x) <==>
        Hit(saltYs[..k - 1], saltXs[..k - 1], y, x) || (saltYs[k - 1] == y && saltXs[k - 1] == x) by {
        assert forall j :: 0 <= j < k - 1 ==> saltYs[..k][j] == saltYs[..k - 1][j] && saltXs[..k][j] == saltXs[..k - 1][j];
      }
    }
    assert saltYs[..k] == saltYs && saltXs[..k] == saltXs;
    k := 0;
    while k < |pepperYs|
      invariant k <= |pepperYs|
      invariant forall y, x :: 0 <= y < image.Length0 && 0 <= x < image.Length1 ==>
        noisy[y, x] == if Hit(pepperYs[..k], pepperXs[..k], y, x) then 0
          else if Hit(saltYs, saltXs, y, x) then 255 else image[y, x]
    {
      noisy[pepperYs[k], pepperXs[k]] := 0;
      k := k + 1;
      assert forall y, x :: Hit(pepperYs[..k], pepperXs[..k], y, x) <==>
        Hit(pepperYs[..k - 1], pepperXs[..k - 1], y, x) || (pepperYs[k - 1] == y && pepperXs[k - 1] == x) by {
        assert forall j :: 0 <= j < k - 1 ==> pepperYs[..k][j] == pepperYs[..k - 1][j] && pepperXs[..k][j] == pepperXs[..k - 1][j];
      }
    }
    assert pepperYs[..k] == pepperYs && pepperXs[..k] == pepperXs;
  }

  /** A pixel hit by both salt and pepper ends black. */
  lemma SaltThenPepper(v: Byte, saltYs: seq<nat>, saltXs: seq<nat>, pepperYs: seq<nat>, pepperXs: seq<nat>, j: nat, k: nat)
    requires |saltYs| == |saltXs| && |pepperYs| == |pepperXs|
    requires j < |saltYs| && k < |pepperYs| && saltYs[j] == pepperYs[k] && saltXs[j] == pepperXs[k]
    ensures NoisedPixel(v, saltYs, saltXs, pepperYs, pepperXs, saltYs[j], saltXs[j]) == 0
  {
  }

  /** Noise never reaches the last row or the last column, since no coordinate reaches dim - 1. */
  lemma LastRowAndColumnUntouched(v: Byte, saltYs: seq<nat>, saltXs: seq<nat>, pepperYs: seq<nat>, pepperXs: seq<nat>,
                                  height: nat, width: nat, y: nat, x: nat)
    requires Drawn(saltYs, saltXs, height, width) && Drawn(pepperYs, pepperXs, height, width)
    requires y == height - 1 || x == width - 1
    ensures NoisedPixel(v, saltYs, saltXs, pepperYs, pepperXs, y, x) == v
  {
  }

  /** Every drawn salt position is white unless pepper also landed there; every pepper position is black. */
  lemma DrawnPositionsAreExtremes(v: Byte, saltYs: seq<nat>, saltXs: seq<nat>, pepperYs: seq<nat>, pepperXs: seq<nat>, k: nat)
    requires |saltYs| == |saltXs| && |pepperYs| == |pepperXs|
    ensures k < |pepperYs| ==> NoisedPixel(v, saltYs, saltXs, pepperYs, pepperXs, pepperYs[k], pepperXs[k]) == 0
    ensures k < |saltYs| ==> NoisedPixel(v, saltYs, saltXs, pepperYs, pepperXs, saltYs[k], saltXs[k]) in {0, 255}
  {
  }

  // ---------------------------------------------------------------------
  // Writing the HEX file
  // ---------------------------------------------------------------------

  /** The writer loop: one "%02X\n" line per sample, in order. */
  method WriteSamples(pixels: seq<Byte>) returns (text: string)
    ensures text == EncodeText(pixels)
  {
    text := [];
    var i := 0;
    while i < |pixels|
      invariant i <= |pixels|
      invariant text == EncodeText(pixels[..i])
    {
      EncodeTextAppend(pixels[..i], pixels[i]);
      PrefixGrows(pixels, i);
      text := text + Hex2(pixels[i]) + "\n";
      i := i + 1;
    }
    assert pixels[..i] == pixels;
  }

  /**
   * The writer: the flattened image is written line by line; returns the
   * text written and the number of pixels. The text decodes back to the
   * image.
   */
  method WriteHex(img: array2<Byte>) returns (text: string, count: nat)
    ensures text == EncodeText(Flatten(GridOf(img)))
    ensures count == img.Length0 * img.Length1
    ensures Decode(text, img.Length0, img.Length1) == Ok(GridOf(img))
  {
    var pixels := Flatten(GridOf(img));
    text := WriteSamples(pixels);
    FlattenLength(GridOf(img), img.Length0, img.Length1);
    count := |pixels|;
    DecodeEncode(GridOf(img), img.Length0, img.Length1);
  }

  /**
   * The conversion after the image is loaded: noise is added when the
   * amount is positive, then the HEX text is written. The text holds one
   * line per pixel of the (possibly noisy) image.
   */
  method ConvertToHex(img: array2<Byte>, noiseAmount: real,
                      saltYs: seq<nat>, saltXs: seq<nat>, pepperYs: seq<nat>, pepperXs: seq<nat>)
    returns (text: string, count: nat)
    requires noiseAmount > 0.0 ==> ((NoiseCount(noiseAmount, img.Length0, img.Length1) > 0 ==> img.Length0 >= 2 && img.Length1 >= 2)
      && |saltYs| == |pepperYs| == NoiseCount(noiseAmount, img.Length0, img.Length1)
      && Drawn(saltYs, saltXs, img.Length0, img.Length1)
      && Drawn(pepperYs, pepperXs, img.Length0, img.Length1))
    ensures count == img.Length0 * img.Length1 && |text| == 3 * count
    ensures Decode(text, img.Length0, img.Length1).Ok?
    ensures text == EncodeText(Flatten(Decode(text, img.Length0, img.Length1).value))
    ensures forall y, x :: 0 <= y < img.Length0 && 0 <= x < img.Length1 ==>
      Decode(text, img.Length0, img.Length1).value[y][x]
        == if noiseAmount > 0.0 then NoisedPixel(img[y, x], saltYs, saltXs, pepperYs, pepperXs, y, x) else img[y, x]
  {
    var image := img;
    if noiseAmount > 0.0 {
      image := AddSaltPepperNoise(img, noiseAmount, saltYs, saltXs, pepperYs, pepperXs);
    }
    text, count := WriteHex(image);
    FlattenLength(GridOf(image), image.Length0, image.Length1);
  }
}
