/** What an ICNS file produced by the encoder means: a reader that walks the
    blocks by their declared lengths, the facts about which images are
    embedded in which order, and what a whole conversion yields. */
module IcnsReader {
  import opened Bytes
  import opened Wrappers
  import opened NodeBuffer
  import opened IcnsConverter

  /** Read a sequence of blocks: each starts with its type code and its
      length, header included. None when a block is shorter than its header
      or runs past the end. */
  function ParseBlocks(body: seq<byte>): Option<seq<IconBlock>>
    decreases |body|
  {
    if body == [] then Some([])
    else if |body| < BLOCK_HEADER_SIZE then None
    else
      var len := DecodeU32BE(body[4..8]);
      if len < BLOCK_HEADER_SIZE || len > |body| then None
      else
        match ParseBlocks(body[len..])
        case None => None
        case Some(rest) => Some([IconBlock(AsciiDecode(body[..4]), body[BLOCK_HEADER_SIZE..len])] + rest)
  }

  /** Read an ICNS file: the magic, a total length equal to the file's own
      length, then the blocks. */
  function ParseIcns(file: seq<byte>): Option<seq<IconBlock>>
  {
    if |file| < FILE_HEADER_SIZE || AsciiDecode(file[..4]) != MAGIC || DecodeU32BE(file[4..8]) != |file| then None
    else ParseBlocks(file[FILE_HEADER_SIZE..])
  }

  // ---------------------------------------------------------------------
  // The layout of IcnsFile
  // ---------------------------------------------------------------------

  /** The file is as long as its header says: 8 plus every block. */
  lemma IcnsFileLength(blocks: seq<IconBlock>)
    requires AllEncodable(blocks) && TotalSize(blocks) < U32_LIMIT
    ensures |IcnsFile(blocks)| == TotalSize(blocks)
    ensures DecodeU32BE(IcnsFile(blocks)[4..8]) == |IcnsFile(blocks)|
    ensures AsciiDecode(IcnsFile(blocks)[..4]) == MAGIC
  {
    var file := IcnsFile(blocks);
    FlattenLength(EncodeBlocks(blocks));
    assert file[4..8] == U32BE(TotalSize(blocks));
    assert file[..4] == AsciiBytes(MAGIC);
    U32BERoundTrip(TotalSize(blocks));
    AsciiRoundTrip(MAGIC);
  }

  /** Block i starts right after the header and the blocks before it; its
      first four bytes are its type code, the next four its own length, and
      the rest its data. */
  lemma IcnsBlockAt(blocks: seq<IconBlock>, i: nat)
    requires AllEncodable(blocks) && TotalSize(blocks) < U32_LIMIT && i < |blocks|
    ensures var start := FILE_HEADER_SIZE + TotalLength(EncodeBlocks(blocks)[..i]);
      var end := start + BLOCK_HEADER_SIZE + |blocks[i].data|;
      end <= |IcnsFile(blocks)| &&
      var block := IcnsFile(blocks)[start..end];
      AsciiDecode(block[..4]) == blocks[i].iconType &&
      DecodeU32BE(block[4..8]) == |block| &&
      block[BLOCK_HEADER_SIZE..] == blocks[i].data
  {
    var enc := EncodeBlocks(blocks);
    var header := AsciiBytes(MAGIC) + U32BE(TotalSize(blocks));
    var start := FILE_HEADER_SIZE + TotalLength(enc[..i]);
    FlattenAt(enc, i);
    assert IcnsFile(blocks) == header + Flatten(enc);
    SliceRight(header, Flatten(enc), start, start + |enc[i]|);
    assert IcnsFile(blocks)[start..start + |enc[i]|] == EncodeBlock(blocks[i]);
    EncodeBlockFields(blocks[i]);
  }

  /** The blocks read back from their concatenated encodings. */
  lemma {:induction false} ParseBlocksRoundTrip(blocks: seq<IconBlock>)
    requires AllEncodable(blocks)
    ensures ParseBlocks(Flatten(EncodeBlocks(blocks))) == Some(blocks)
    decreases |blocks|
  {
    if blocks != [] {
      var b := blocks[0];
      var enc := EncodeBlocks(blocks);
      var tail := blocks[1..];
      assert AllEncodable(tail);
      assert enc[1..] == EncodeBlocks(tail);
      var e := enc[0];
      var body := Flatten(enc);
      assert body == e + Flatten(enc[1..]);
      var len := |e|;
      assert body[4..8] == U32BE(len);
      U32BERoundTrip(len);
      AsciiRoundTrip(b.iconType);
      assert body[..4] == AsciiBytes(b.iconType);
      assert body[BLOCK_HEADER_SIZE..len] == b.data;
      assert body[len..] == Flatten(enc[1..]);
      ParseBlocksRoundTrip(tail);
      assert [b] + tail == blocks;
    }
  }

  /** Reading the encoder's output back gives exactly the blocks, in order. */
  lemma IcnsRoundTrip(blocks: seq<IconBlock>)
    requires AllEncodable(blocks) && TotalSize(blocks) < U32_LIMIT
    ensures ParseIcns(IcnsFile(blocks)) == Some(blocks)
  {
    var file := IcnsFile(blocks);
    IcnsFileLength(blocks);
    assert file[FILE_HEADER_SIZE..] == Flatten(EncodeBlocks(blocks));
    ParseBlocksRoundTrip(blocks);
  }

  // ---------------------------------------------------------------------
  // Which images, in which order
  // ---------------------------------------------------------------------

  /** The number of list elements found in the table, duplicates included. */
  function Supported(sizes: seq<nat>): nat
  {
    if sizes == [] then 0
    else Supported(sizes[..|sizes| - 1]) + if sizes[|sizes| - 1] in ICON_TYPES then 1 else 0
  }

  /** The table: six sizes, each with its 1x and 2x type codes. */
  lemma IconTypesTable()
    ensures ICON_TYPES.Keys == {16, 32, 64, 128, 256, 512}
    ensures ICON_TYPES[16] == IconTypes("ic04", "ic11") && ICON_TYPES[32] == IconTypes("ic05", "ic12")
    ensures ICON_TYPES[64] == IconTypes("ic07", "ic13") && ICON_TYPES[128] == IconTypes("ic08", "ic14")
    ensures ICON_TYPES[256] == IconTypes("ic09", "ic15") && ICON_TYPES[512] == IconTypes("ic10", "ic16")
    ensures forall s :: s in ICON_TYPES ==> ICON_TYPES[s].twoX != ""
  {
  }

  /** One block per supported element, two when retina is on. */
  lemma {:induction false} RequestsCount(sizes: seq<nat>, retina: bool)
    ensures |Requests(sizes, retina)| == Supported(sizes) * (if retina then 2 else 1)
  {
    if sizes != [] {
      RequestsSnoc(sizes, retina);
      RequestsCount(sizes[..|sizes| - 1], retina);
      IconTypesTable();
    }
  }

  /** An element outside the table adds no block and no error. */
  lemma UnsupportedSkipped(before: seq<nat>, size: nat, after: seq<nat>, retina: bool)
    requires size !in ICON_TYPES
    ensures Requests(before + [size] + after, retina) == Requests(before + after, retina)
  {
    RequestsAppend(before + [size], after, retina);
    RequestsAppend(before, [size], retina);
    RequestsAppend(before, after, retina);
    assert [size][..0] == [];
  }

  /** Blocks follow the size list: a supported element i contributes its 1x
      block at its own size, followed at once, when retina is on, by its 2x
      block at twice the size; all of them come after the blocks of the
      earlier elements. */
  lemma RequestsOrder(sizes: seq<nat>, i: nat, retina: bool)
    requires i < |sizes| && sizes[i] in ICON_TYPES
    ensures var p := |Requests(sizes[..i], retina)|;
      var reqs := Requests(sizes, retina);
      var types := ICON_TYPES[sizes[i]];
      p < |reqs| && reqs[..p] == Requests(sizes[..i], retina) &&
      reqs[p] == Request(types.oneX, sizes[i]) &&
      (retina ==> p + 1 < |reqs| && reqs[p + 1] == Request(types.twoX, 2 * sizes[i]))
  {
    RequestsStep(sizes, i, retina);
    IconTypesTable();
  }

  /** Retina is on unless the option is exactly false; the default sizes. */
  lemma OptionDefaults()
    ensures RetinaEnabled(None) && RetinaEnabled(Some(true)) && !RetinaEnabled(Some(false))
    ensures ResolveSizes(None) == [16, 32, 64, 128, 256, 512]
    ensures forall s :: ResolveSizes(Some(s)) == s
  {
  }

  /** The scenario sizes 16, 32 and 64: with retina, six requests in order,
      without it three; a size outside the table alone gives none. */
  lemma ScenarioRequests(sizes: seq<nat>, unsupported: seq<nat>)
    requires sizes == [16, 32, 64] && unsupported == [1024]
    ensures Requests(sizes, true) ==
      [Request("ic04", 16), Request("ic11", 32), Request("ic05", 32), Request("ic12", 64),
       Request("ic07", 64), Request("ic13", 128)]
    ensures Requests(sizes, false) == [Request("ic04", 16), Request("ic05", 32), Request("ic07", 64)]
    ensures Requests(unsupported, true) == []
  {
    ScenarioRequestsWith(sizes, true);
    ScenarioRequestsWith(sizes, false);
    RequestsSingle(unsupported, true);
  }

  /** The requests of the scenario sizes with retina on or off. */
  lemma ScenarioRequestsWith(sizes: seq<nat>, retina: bool)
    requires sizes == [16, 32, 64]
    ensures retina ==> (Requests(sizes, retina) ==
      [Request("ic04", 16), Request("ic11", 32), Request("ic05", 32), Request("ic12", 64),
       Request("ic07", 64), Request("ic13", 128)])
    ensures !retina ==> Requests(sizes, retina) == [Request("ic04", 16), Request("ic05", 32), Request("ic07", 64)]
  {
    RequestsOfThree(sizes, retina);
    IconTypesTable();
    SupportedRequests(sizes[0], retina);
    SupportedRequests(sizes[1], retina);
    SupportedRequests(sizes[2], retina);
  }

  /** The requests of a three-element list, element by element. */
  lemma RequestsOfThree(sizes: seq<nat>, retina: bool)
    requires |sizes| == 3
    ensures Requests(sizes, retina) ==
      SizeRequests(sizes[0], retina) + SizeRequests(sizes[1], retina) + SizeRequests(sizes[2], retina)
  {
    assert sizes[..2][..1] == sizes[..1] && sizes[..1][..0] == [];
    RequestsSnoc(sizes, retina);
    RequestsSnoc(sizes[..2], retina);
    RequestsSnoc(sizes[..1], retina);
  }

  /** The requests of a one-element list. */
  lemma RequestsSingle(sizes: seq<nat>, retina: bool)
    requires |sizes| == 1
    ensures Requests(sizes, retina) == SizeRequests(sizes[0], retina)
  {
    assert sizes[..0] == [];
    RequestsSnoc(sizes, retina);
  }

  /** A size in the table: its 1x request, then its 2x request when retina is
      on. */
  lemma SupportedRequests(size: nat, retina: bool)
    requires size in ICON_TYPES
    ensures SizeRequests(size, retina) ==
      [Request(ICON_TYPES[size].oneX, size)] + if retina then [Request(ICON_TYPES[size].twoX, 2 * size)] else []
  {
    IconTypesTable();
  }

  // ---------------------------------------------------------------------
  // The whole conversion
  // ---------------------------------------------------------------------

  /** The file length when every request is rasterized: the header and, per
      request, eight header bytes and the image. */
  function RenderedSize(raster: Rasterizer, reqs: seq<Request>): nat
  {
    if reqs == [] then FILE_HEADER_SIZE
    else
      var last := reqs[|reqs| - 1];
      var png := raster(last.dimension, last.dimension);
      RenderedSize(raster, reqs[..|reqs| - 1]) + BLOCK_HEADER_SIZE + if png.Some? then |png.value| else 0
  }

  /** Once every request is made into a block, the file length is the
      rendered size. */
  lemma {:induction false} TotalSizeRendered(raster: Rasterizer, reqs: seq<Request>)
    requires MakeBlocks(raster, reqs).Ok?
    ensures AllEncodable(MakeBlocks(raster, reqs).value)
    ensures TotalSize(MakeBlocks(raster, reqs).value) == RenderedSize(raster, reqs)
  {
    MakeBlocksMeaning(raster, reqs);
    if reqs != [] {
      var init := reqs[..|reqs| - 1];
      MakeBlocksMeaning(raster, init);
      TotalSizeRendered(raster, init);
      var blocks := MakeBlocks(raster, init).value;
      var last := reqs[|reqs| - 1];
      var b := IconBlock(last.iconType, raster(last.dimension, last.dimension).value);
      assert MakeBlocks(raster, reqs).value == blocks + [b];
      EncodeBlocksAppend(blocks, [b]);
      TotalLengthSnoc(EncodeBlocks(blocks), EncodeBlock(b));
      assert EncodeBlocks([b]) == [EncodeBlock(b)];
    }
  }

  /** `convert` succeeds exactly when every image is rasterized and every
      length fits its 32-bit field. */
  lemma IcnsConvertSucceeds(raster: Rasterizer, sizesOption: Option<seq<nat>>, includeRetina: Option<bool>)
    ensures var reqs := Requests(ResolveSizes(sizesOption), RetinaEnabled(includeRetina));
      IcnsConvert(raster, sizesOption, includeRetina).Ok? <==>
        (forall k :: 0 <= k < |reqs| ==> Renders(raster, reqs[k])) && RenderedSize(raster, reqs) < U32_LIMIT
  {
    var reqs := Requests(ResolveSizes(sizesOption), RetinaEnabled(includeRetina));
    MakeBlocksMeaning(raster, reqs);
    if MakeBlocks(raster, reqs).Ok? {
      TotalSizeRendered(raster, reqs);
    }
  }

  /** `e` is the error of the first request that does not render. */
  predicate FirstFailureError(raster: Rasterizer, reqs: seq<Request>, e: Error)
  {
    exists k :: 0 <= k < |reqs| && FirstFailureAt(raster, reqs, k) && e == RequestError(raster, reqs[k])
  }

  /** A failed `convert` reports the first request that does not render, or
      a total length that does not fit its 32-bit field. */
  lemma IcnsConvertFailure(raster: Rasterizer, sizesOption: Option<seq<nat>>, includeRetina: Option<bool>)
    requires IcnsConvert(raster, sizesOption, includeRetina).Err?
    ensures var reqs := Requests(ResolveSizes(sizesOption), RetinaEnabled(includeRetina));
      var e := IcnsConvert(raster, sizesOption, includeRetina).error;
      FirstFailureError(raster, reqs, e) || (e == RangeError && RenderedSize(raster, reqs) >= U32_LIMIT)
  {
    var reqs := Requests(ResolveSizes(sizesOption), RetinaEnabled(includeRetina));
    MakeBlocksMeaning(raster, reqs);
    if MakeBlocks(raster, reqs).Ok? {
      TotalSizeRendered(raster, reqs);
    } else {
      assert FirstFailureError(raster, reqs, MakeBlocks(raster, reqs).error);
    }
  }

  /** A successful `convert` reads back as one block per request, in order,
      each holding the request's type code and the rasterizer's image at the
      request's dimension; the header declares the file's own length. */
  lemma IcnsConvertOutput(raster: Rasterizer, sizesOption: Option<seq<nat>>, includeRetina: Option<bool>)
    requires IcnsConvert(raster, sizesOption, includeRetina).Ok?
    ensures var reqs := Requests(ResolveSizes(sizesOption), RetinaEnabled(includeRetina));
      var file := IcnsConvert(raster, sizesOption, includeRetina).value;
      var parsed := ParseIcns(file);
      |file| >= FILE_HEADER_SIZE && DecodeU32BE(file[4..8]) == |file| &&
      parsed.Some? && |parsed.value| == |reqs| &&
      forall k :: 0 <= k < |reqs| ==>
        parsed.value[k].iconType == reqs[k].iconType &&
        Some(parsed.value[k].data) == raster(reqs[k].dimension, reqs[k].dimension)
  {
    var reqs := Requests(ResolveSizes(sizesOption), RetinaEnabled(includeRetina));
    MakeBlocksMeaning(raster, reqs);
    var blocks := MakeBlocks(raster, reqs).value;
    assert IcnsConvert(raster, sizesOption, includeRetina) == Ok(IcnsFile(blocks));
    IcnsFileLength(blocks);
    IcnsRoundTrip(blocks);
    assert forall k :: 0 <= k < |reqs| ==> BlockFor(raster, reqs[k], blocks[k]);
  }
}
