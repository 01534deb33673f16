/**
 * The filtering program end to end, without its file and PNG handling:
 * load the 256 x 256 HEX image, filter it, write the filtered HEX image.
 */
module MedianPipeline {
  import opened PixelGrid
  import opened SortingNetwork
  import opened HexCodec
  import opened MedianFilter

  /**
   * Loads the HEX text, filters the grid with the network as the program
   * runs it, and returns the HEX text written for the filtered grid; a load
   * error is passed on unchanged, and nothing is filtered then.
   */
  method ProcessHex(text: string) returns (r: Result<string, LoadError>)
    ensures r.Err? <==> Decode(text, ImageSize, ImageSize).Err?
    ensures r.Err? ==> r.error == Decode(text, ImageSize, ImageSize).error
    ensures r.Ok? ==> |r.value| == 3 * ImageSize * ImageSize
    ensures r.Ok? ==> r.value == EncodeText(Flatten(FilterGrid(Decode(text, ImageSize, ImageSize).value, ImageSize, ImageSize, SourceRounds)))
    ensures r.Ok? ==> (IsGrid(Decode(text, ImageSize, ImageSize).value, ImageSize, ImageSize)
      && Decode(r.value, ImageSize, ImageSize)
        == Ok(FilterGrid(Decode(text, ImageSize, ImageSize).value, ImageSize, ImageSize, SourceRounds)))
  {
    var loaded := LoadHex(text, ImageSize, ImageSize);
    if loaded.Err? {
      return Err(loaded.error);
    }
    DecodeSuccess(text, ImageSize, ImageSize);
    var img := loaded.value;
    var filtered := OriginalMedianFilter(img, ImageSize, ImageSize, SourceRounds);
    var grid := GridOf(filtered);
    FilteredArrayIsFilterGrid(filtered, img, ImageSize, ImageSize, SourceRounds);
    var out := EncodeText(Flatten(grid));
    FlattenLength(grid, ImageSize, ImageSize);
    DecodeEncode(grid, ImageSize, ImageSize);
    r := Ok(out);
  }
}
