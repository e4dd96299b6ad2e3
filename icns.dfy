/** The macOS ICNS container encoder (ICNSConverter): the magic "icns" and
    the total length, then one block per embedded image, each a four-letter
    type code, the block length and the PNG bytes. */
module IcnsConverter {
  import opened Bytes
  import opened Wrappers
  import opened NodeBuffer

  /** The sizes used when the caller gives none. */
  const DEFAULT_SIZES: seq<nat> := [16, 32, 64, 128, 256, 512]

  const FILE_HEADER_SIZE: nat := 8
  const BLOCK_HEADER_SIZE: nat := 8
  const MAGIC: string := "icns"

  /** A four-letter ASCII block type code. */
  type TypeCode = s: string | IsTypeCode(s) witness "ic04"

  /** The type codes of one nominal size: at 1x and at 2x (retina). */
  datatype IconTypes = IconTypes(oneX: TypeCode, twoX: TypeCode)

  /** The converter's iconTypes table, from nominal size to type codes. It is
      set once when the converter is built and only read afterwards. */
  const ICON_TYPES: map<nat, IconTypes> := map[
    16 := IconTypes("ic04", "ic11"),
    32 := IconTypes("ic05", "ic12"),
    64 := IconTypes("ic07", "ic13"),
    128 := IconTypes("ic08", "ic14"),
    256 := IconTypes("ic09", "ic15"),
    512 := IconTypes("ic10", "ic16")]

  /** `options.sizes || DEFAULT_SIZES`. */
  function ResolveSizes(sizes: Option<seq<nat>>): seq<nat>
  {
    if sizes.Some? then sizes.value else DEFAULT_SIZES
  }

  /** `options.includeRetina !== false`: retina blocks are written unless the
      option is exactly false. */
  function RetinaEnabled(includeRetina: Option<bool>): bool
  {
    includeRetina != Some(false)
  }

  // ---------------------------------------------------------------------
  // Blocks and the file header
  // ---------------------------------------------------------------------

  /** One embedded image: its type code and its PNG bytes. */
  datatype IconBlock = IconBlock(iconType: string, data: seq<byte>)

  predicate IsTypeCode(s: string)
  {
    |s| == 4 && IsAscii(s)
  }

  predicate BlockEncodable(b: IconBlock)
  {
    IsTypeCode(b.iconType) && BLOCK_HEADER_SIZE + |b.data| < U32_LIMIT
  }

  /** The type code, the big-endian block length (header included) and the
      data. */
  function EncodeBlock(b: IconBlock): (r: seq<byte>)
    requires BlockEncodable(b)
    ensures |r| == BLOCK_HEADER_SIZE + |b.data|
  {
    AsciiBytes(b.iconType) + U32BE(BLOCK_HEADER_SIZE + |b.data|) + b.data
  }

  /** An encoded block reads back as its type code, its own length and its
      data. */
  lemma EncodeBlockFields(b: IconBlock)
    requires BlockEncodable(b)
    ensures var e := EncodeBlock(b);
      AsciiDecode(e[..4]) == b.iconType && DecodeU32BE(e[4..8]) == |e| && e[BLOCK_HEADER_SIZE..] == b.data
  {
    var e := EncodeBlock(b);
    ThreeParts(e, AsciiBytes(b.iconType), U32BE(|e|), b.data);
    U32BERoundTrip(|e|);
    AsciiRoundTrip(b.iconType);
  }

  function EncodeBlocks(blocks: seq<IconBlock>): (r: seq<seq<byte>>)
    requires forall k :: 0 <= k < |blocks| ==> BlockEncodable(blocks[k])
    ensures |r| == |blocks|
  {
    seq(|blocks|, k requires 0 <= k < |blocks| => EncodeBlock(blocks[k]))
  }

  /** _createFileHeader: the magic and the total file length. */
  method CreateFileHeader(fileSize: nat) returns (header: seq<byte>)
    requires fileSize < U32_LIMIT
    ensures header == AsciiBytes(MAGIC) + U32BE(fileSize)
    ensures |header| == FILE_HEADER_SIZE
    ensures AsciiDecode(header[..4]) == MAGIC && DecodeU32BE(header[4..8]) == fileSize
  {
    var buf := Alloc(FILE_HEADER_SIZE);
    WriteAscii(buf, MAGIC, 0);
    WriteUInt32BE(buf, fileSize, 4);
    header := buf[..];
    assert header[..4] == AsciiBytes(MAGIC) && header[4..8] == U32BE(fileSize);
    U32BERoundTrip(fileSize);
  }

  /** _createIconBlock: a block whose length field counts its own eight
      header bytes and the data. */
  method CreateIconBlock(iconType: string, data: seq<byte>) returns (block: seq<byte>)
    requires IsTypeCode(iconType) && BLOCK_HEADER_SIZE + |data| < U32_LIMIT
    ensures block == EncodeBlock(IconBlock(iconType, data))
    ensures |block| == BLOCK_HEADER_SIZE + |data|
    ensures AsciiDecode(block[..4]) == iconType
    ensures DecodeU32BE(block[4..8]) == |block| && block[8..] == data
  {
    var blockSize := BLOCK_HEADER_SIZE + |data|;
    var buf := Alloc(blockSize);
    WriteAscii(buf, iconType, 0);
    ghost var typed := buf[..];
    assert typed[..4] == AsciiBytes(iconType);
    WriteUInt32BE(buf, blockSize, 4);
    ghost var sized := buf[..];
    assert sized[..8] == AsciiBytes(iconType) + U32BE(blockSize);
    CopyInto(data, buf, 8);
    block := buf[..];
    assert block == AsciiBytes(iconType) + U32BE(blockSize) + data;
    ThreeParts(block, AsciiBytes(iconType), U32BE(blockSize), data);
    U32BERoundTrip(blockSize);
  }

  // ---------------------------------------------------------------------
  // Which images are embedded, in which order
  // ---------------------------------------------------------------------

  /** One image to embed: its type code and the dimension to rasterize at. */
  datatype Request = Request(iconType: TypeCode, dimension: nat)

  /** The requests of one list element: none for a size outside the table;
      otherwise the 1x image, then, when retina is on, the 2x image at twice
      the size. */
  function SizeRequests(size: nat, retina: bool): seq<Request>
  {
    if size !in ICON_TYPES then []
    else
      [Request(ICON_TYPES[size].oneX, size)] +
      if retina && ICON_TYPES[size].twoX != "" then [Request(ICON_TYPES[size].twoX, size * 2)] else []
  }

  function SizeRequestsOf(retina: bool): nat -> seq<Request>
  {
    (size: nat) => SizeRequests(size, retina)
  }

  /** The requests of the whole list, element by element in list order. */
  function Requests(sizes: seq<nat>, retina: bool): seq<Request>
  {
    ConcatMap(sizes, SizeRequestsOf(retina))
  }

  /** Request k is the first whose rasterization fails or whose block would
      not fit the 32-bit length field. */
  predicate FirstFailureAt(raster: Rasterizer, reqs: seq<Request>, k: int)
  {
    0 <= k < |reqs| && !Renders(raster, reqs[k]) &&
    forall j :: 0 <= j < k ==> Renders(raster, reqs[j])
  }

  /** Request `req` is rasterized and its block fits. */
  predicate Renders(raster: Rasterizer, req: Request)
  {
    var png := raster(req.dimension, req.dimension);
    png.Some? && BLOCK_HEADER_SIZE + |png.value| < U32_LIMIT
  }

  /** The error of a request that does not render. */
  function RequestError(raster: Rasterizer, req: Request): Error
  {
    if raster(req.dimension, req.dimension).None? then RasterizationError(req.dimension, req.dimension)
    else RangeError
  }

  /** Block `b` holds request `req`'s type and rasterized image. */
  predicate BlockFor(raster: Rasterizer, req: Request, b: IconBlock)
  {
    BlockEncodable(b) && b.iconType == req.iconType &&
    Some(b.data) == raster(req.dimension, req.dimension)
  }

  /** Rasterize the requests in order and wrap each in a block; the first
      failure aborts. */
  function MakeBlocks(raster: Rasterizer, reqs: seq<Request>): Result<seq<IconBlock>>
  {
    if reqs == [] then Ok([])
    else
      var init, last := reqs[..|reqs| - 1], reqs[|reqs| - 1];
      match MakeBlocks(raster, init)
      case Err(e) => Err(e)
      case Ok(blocks) =>
        match raster(last.dimension, last.dimension)
        case None => Err(RasterizationError(last.dimension, last.dimension))
        case Some(png) =>
          if BLOCK_HEADER_SIZE + |png| >= U32_LIMIT then Err(RangeError)
          else Ok(blocks + [IconBlock(last.iconType, png)])
  }

  /** The blocks are made exactly when every request renders; block k then
      holds request k's type code and image; otherwise the error is that of
      the first request that does not render. */
  lemma {:induction false} MakeBlocksMeaning(raster: Rasterizer, reqs: seq<Request>)
    ensures var r := MakeBlocks(raster, reqs);
      (r.Ok? <==> forall k :: 0 <= k < |reqs| ==> Renders(raster, reqs[k])) &&
      (r.Ok? ==> |r.value| == |reqs| && forall k :: 0 <= k < |reqs| ==> BlockFor(raster, reqs[k], r.value[k])) &&
      (r.Err? ==> exists k :: FirstFailureAt(raster, reqs, k) && r.error == RequestError(raster, reqs[k]))
  {
    if reqs != [] {
      var init, last := reqs[..|reqs| - 1], reqs[|reqs| - 1];
      MakeBlocksMeaning(raster, init);
      var r := MakeBlocks(raster, init);
      if r.Err? {
        var k :| FirstFailureAt(raster, init, k) && r.error == RequestError(raster, init[k]);
        assert FirstFailureAt(raster, reqs, k);
      } else if !Renders(raster, last) {
        assert FirstFailureAt(raster, reqs, |reqs| - 1);
      }
    }
  }

  /** Every block made fits its length field. */
  lemma {:induction false} MakeBlocksEncodable(raster: Rasterizer, reqs: seq<Request>)
    ensures MakeBlocks(raster, reqs).Ok? ==> AllEncodable(MakeBlocks(raster, reqs).value)
  {
    if reqs != [] {
      MakeBlocksEncodable(raster, reqs[..|reqs| - 1]);
    }
  }

  // ---------------------------------------------------------------------
  // The whole file
  // ---------------------------------------------------------------------

  predicate AllEncodable(blocks: seq<IconBlock>)
  {
    forall k :: 0 <= k < |blocks| ==> BlockEncodable(blocks[k])
  }

  /** The total file length: the header and every block. */
  function TotalSize(blocks: seq<IconBlock>): nat
    requires AllEncodable(blocks)
  {
    FILE_HEADER_SIZE + TotalLength(EncodeBlocks(blocks))
  }

  /** The ICNS file: header, then the blocks in order. */
  function IcnsFile(blocks: seq<IconBlock>): seq<byte>
    requires AllEncodable(blocks) && TotalSize(blocks) < U32_LIMIT
  {
    AsciiBytes(MAGIC) + U32BE(TotalSize(blocks)) + Flatten(EncodeBlocks(blocks))
  }

  /** The whole conversion, minus the file write: the output bytes or the
      error that `convert` would throw. */
  function IcnsConvert(raster: Rasterizer, sizesOption: Option<seq<nat>>, includeRetina: Option<bool>)
    : Result<seq<byte>>
  {
    var reqs := Requests(ResolveSizes(sizesOption), RetinaEnabled(includeRetina));
    match MakeBlocks(raster, reqs)
    case Err(e) => Err(e)
    case Ok(blocks) =>
      MakeBlocksEncodable(raster, reqs);
      if TotalSize(blocks) < U32_LIMIT then Ok(IcnsFile(blocks)) else Err(RangeError)
  }

  /** Requests of a concatenated list are the requests of each part. */
  lemma RequestsAppend(a: seq<nat>, b: seq<nat>, retina: bool)
    ensures Requests(a + b, retina) == Requests(a, retina) + Requests(b, retina)
  {
    ConcatMapAppend(a, b, SizeRequestsOf(retina));
  }

  /** The requests of a non-empty list: those of all but its last element,
      then those of the last element. */
  lemma RequestsSnoc(sizes: seq<nat>, retina: bool)
    requires sizes != []
    ensures Requests(sizes, retina) ==
      Requests(sizes[..|sizes| - 1], retina) + SizeRequests(sizes[|sizes| - 1], retina)
  {
  }

  /** Making the blocks of two lists of requests one after the other: the
      first failure wins, otherwise the blocks of the first list come first. */
  lemma {:induction false} MakeBlocksAppend(raster: Rasterizer, xs: seq<Request>, ys: seq<Request>)
    ensures MakeBlocks(raster, xs + ys) ==
      match MakeBlocks(raster, xs)
      case Err(e) => Err(e)
      case Ok(a) =>
        match MakeBlocks(raster, ys)
        case Err(e) => Err(e)
        case Ok(b) => Ok(a + b)
    decreases |ys|
  {
    if ys == [] {
      assert xs + ys == xs;
      match MakeBlocks(raster, xs)
      case Err(_) =>
      case Ok(a) => assert a + [] == a;
    } else {
      var init, last := ys[..|ys| - 1], ys[|ys| - 1];
      assert (xs + ys)[..|xs + ys| - 1] == xs + init;
      assert (xs + ys)[|xs + ys| - 1] == last;
      MakeBlocksAppend(raster, xs, init);
      match MakeBlocks(raster, xs)
      case Err(_) =>
      case Ok(a) =>
        match MakeBlocks(raster, init)
        case Err(_) =>
        case Ok(b) =>
          var png := raster(last.dimension, last.dimension);
          if png.Some? && BLOCK_HEADER_SIZE + |png.value| < U32_LIMIT {
            assert a + (b + [IconBlock(last.iconType, png.value)]) == (a + b) + [IconBlock(last.iconType, png.value)];
          }
    }
  }

  /** The blocks of a single request. */
  lemma MakeBlocksSingle(raster: Rasterizer, req: Request)
    ensures var png := raster(req.dimension, req.dimension);
      MakeBlocks(raster, [req]) ==
        if png.None? then Err(RasterizationError(req.dimension, req.dimension))
        else if BLOCK_HEADER_SIZE + |png.value| >= U32_LIMIT then Err(RangeError)
        else Ok([IconBlock(req.iconType, png.value)])
  {
    assert [req][..0] == [];
    var png := raster(req.dimension, req.dimension);
    if png.Some? {
      assert [] + [IconBlock(req.iconType, png.value)] == [IconBlock(req.iconType, png.value)];
    }
  }

  /** The requests up to element i + 1 extend those up to element i by the
      requests of element i, and the whole list's requests continue them. */
  lemma RequestsStep(sizes: seq<nat>, i: nat, retina: bool)
    requires i < |sizes|
    ensures Requests(sizes[..i + 1], retina) == Requests(sizes[..i], retina) + SizeRequests(sizes[i], retina)
    ensures Requests(sizes, retina) == Requests(sizes[..i + 1], retina) + Requests(sizes[i + 1..], retina)
  {
    assert sizes[..i + 1][..i] == sizes[..i];
    RequestsSnoc(sizes[..i + 1], retina);
    RequestsAppend(sizes[..i + 1], sizes[i + 1..], retina);
    assert sizes[..i + 1] + sizes[i + 1..] == sizes;
  }

  /** Encoding two lists of blocks one after the other. */
  lemma EncodeBlocksAppend(xs: seq<IconBlock>, ys: seq<IconBlock>)
    requires AllEncodable(xs) && AllEncodable(ys)
    ensures AllEncodable(xs + ys)
    ensures EncodeBlocks(xs + ys) == EncodeBlocks(xs) + EncodeBlocks(ys)
  {
    assert forall k :: 0 <= k < |xs| ==> (xs + ys)[k] == xs[k];
    assert forall k :: |xs| <= k < |xs + ys| ==> (xs + ys)[k] == ys[k - |xs|];
  }

  /** The body of the loop of `convert` for one element of the size list
      (lines 61-76): the blocks of that element's requests, or the error that
      aborts the conversion. */
  method SizeBlocks(raster: Rasterizer, size: nat, includeRetina: bool)
    returns (r: Result<seq<seq<byte>>>, ghost made: seq<IconBlock>)
    ensures r.Err? ==> MakeBlocks(raster, SizeRequests(size, includeRetina)) == Err(r.error)
    ensures r.Ok? ==> MakeBlocks(raster, SizeRequests(size, includeRetina)) == Ok(made)
    ensures r.Ok? ==> AllEncodable(made) && r.value == EncodeBlocks(made)
  {
    made := [];
    if size !in ICON_TYPES {
      return Ok([]), made;
    }
    var types := ICON_TYPES[size];
    ghost var req1 := Request(types.oneX, size);
    ghost var own := SizeRequests(size, includeRetina);
    MakeBlocksSingle(raster, req1);
    assert own == [req1] + own[1..];
    MakeBlocksAppend(raster, [req1], own[1..]);
    var pngBuffer1x := raster(size, size);
    if pngBuffer1x.None? {
      return Err(RasterizationError(size, size)), made;
    }
    if BLOCK_HEADER_SIZE + |pngBuffer1x.value| >= U32_LIMIT {
      return Err(RangeError), made;
    }
    var block1x := CreateIconBlock(types.oneX, pngBuffer1x.value);
    made := [IconBlock(types.oneX, pngBuffer1x.value)];
    var iconBlocks := [block1x];
    if includeRetina && types.twoX != "" {
      var retinaSize := size * 2;
      ghost var req2 := Request(types.twoX, retinaSize);
      assert own[1..] == [req2];
      MakeBlocksSingle(raster, req2);
      var pngBuffer2x := raster(retinaSize, retinaSize);
      if pngBuffer2x.None? {
        return Err(RasterizationError(retinaSize, retinaSize)), made;
      }
      if BLOCK_HEADER_SIZE + |pngBuffer2x.value| >= U32_LIMIT {
        return Err(RangeError), made;
      }
      var block2x := CreateIconBlock(types.twoX, pngBuffer2x.value);
      made := made + [IconBlock(types.twoX, pngBuffer2x.value)];
      iconBlocks := iconBlocks + [block2x];
    } else {
      assert own[1..] == [];
      assert made + [] == made;
    }
    r := Ok(iconBlocks);
  }

  /** A failing element aborts the whole conversion with its error. */
  lemma ConvertAborts(raster: Rasterizer, sizes: seq<nat>, i: nat, retina: bool, blocks: seq<IconBlock>, e: Error)
    requires i < |sizes|
    requires MakeBlocks(raster, Requests(sizes[..i], retina)) == Ok(blocks)
    requires MakeBlocks(raster, SizeRequests(sizes[i], retina)) == Err(e)
    ensures MakeBlocks(raster, Requests(sizes, retina)) == Err(e)
  {
    RequestsStep(sizes, i, retina);
    var before, own := Requests(sizes[..i], retina), SizeRequests(sizes[i], retina);
    MakeBlocksAppend(raster, before, own);
    MakeBlocksAppend(raster, before + own, Requests(sizes[i + 1..], retina));
  }

  /** A succeeding element appends its blocks. */
  lemma ConvertStep(raster: Rasterizer, sizes: seq<nat>, i: nat, retina: bool, blocks: seq<IconBlock>, made: seq<IconBlock>)
    requires i < |sizes|
    requires MakeBlocks(raster, Requests(sizes[..i], retina)) == Ok(blocks)
    requires MakeBlocks(raster, SizeRequests(sizes[i], retina)) == Ok(made)
    ensures MakeBlocks(raster, Requests(sizes[..i + 1], retina)) == Ok(blocks + made)
  {
    RequestsStep(sizes, i, retina);
    MakeBlocksAppend(raster, Requests(sizes[..i], retina), SizeRequests(sizes[i], retina));
  }

  /** Once the blocks are made and encoded, the conversion outputs the header
      and the block buffers when the file length fits the length field. */
  lemma ConvertFinish(raster: Rasterizer, sizesOption: Option<seq<nat>>, includeRetina: Option<bool>,
                      blocks: seq<IconBlock>, iconBlocks: seq<seq<byte>>, header: seq<byte>)
    requires MakeBlocks(raster, Requests(ResolveSizes(sizesOption), RetinaEnabled(includeRetina))) == Ok(blocks)
    requires AllEncodable(blocks) && iconBlocks == EncodeBlocks(blocks)
    requires FILE_HEADER_SIZE + TotalLength(iconBlocks) < U32_LIMIT
    requires header == AsciiBytes(MAGIC) + U32BE(FILE_HEADER_SIZE + TotalLength(iconBlocks))
    ensures IcnsConvert(raster, sizesOption, includeRetina) == Ok(Flatten([header] + iconBlocks))
  {
    IcnsFileLayout(blocks, header);
  }

  /** A request that fails fails the conversion with its error. */
  lemma ConvertFails(raster: Rasterizer, sizesOption: Option<seq<nat>>, includeRetina: Option<bool>, e: Error)
    requires MakeBlocks(raster, Requests(ResolveSizes(sizesOption), RetinaEnabled(includeRetina))) == Err(e)
    ensures IcnsConvert(raster, sizesOption, includeRetina) == Err(e)
  {
  }

  /** Otherwise it fails with a RangeError. */
  lemma ConvertTooLarge(raster: Rasterizer, sizesOption: Option<seq<nat>>, includeRetina: Option<bool>,
                        blocks: seq<IconBlock>, iconBlocks: seq<seq<byte>>)
    requires MakeBlocks(raster, Requests(ResolveSizes(sizesOption), RetinaEnabled(includeRetina))) == Ok(blocks)
    requires AllEncodable(blocks) && iconBlocks == EncodeBlocks(blocks)
    requires FILE_HEADER_SIZE + TotalLength(iconBlocks) >= U32_LIMIT
    ensures IcnsConvert(raster, sizesOption, includeRetina) == Err(RangeError)
  {
  }

  /** The file is the concatenation of the header and the block buffers. */
  lemma IcnsFileLayout(blocks: seq<IconBlock>, header: seq<byte>)
    requires AllEncodable(blocks) && TotalSize(blocks) < U32_LIMIT
    requires header == AsciiBytes(MAGIC) + U32BE(TotalSize(blocks))
    ensures IcnsFile(blocks) == Flatten([header] + EncodeBlocks(blocks))
  {
    FlattenAppend([header], EncodeBlocks(blocks));
    assert [header][1..] == [];
    assert Flatten([header]) == header + Flatten([]);
  }

  /** The loop of `convert` (lines 61-76): the block buffers of every
      element in list order, or the error of the first request that fails. */
  method CollectBlocks(raster: Rasterizer, sizes: seq<nat>, includeRetina: bool)
    returns (r: Result<seq<seq<byte>>>, ghost blocks: seq<IconBlock>)
    ensures r.Err? ==> MakeBlocks(raster, Requests(sizes, includeRetina)) == Err(r.error)
    ensures r.Ok? ==> MakeBlocks(raster, Requests(sizes, includeRetina)) == Ok(blocks)
    ensures r.Ok? ==> AllEncodable(blocks) && r.value == EncodeBlocks(blocks)
  {
    var iconBlocks: seq<seq<byte>> := [];
    blocks := [];
    var i := 0;
    while i < |sizes|
      invariant 0 <= i <= |sizes|
      invariant MakeBlocks(raster, Requests(sizes[..i], includeRetina)) == Ok(blocks)
      invariant AllEncodable(blocks) && iconBlocks == EncodeBlocks(blocks)
    {
      var step, made := SizeBlocks(raster, sizes[i], includeRetina);
      if step.Err? {
        ConvertAborts(raster, sizes, i, includeRetina, blocks, step.error);
        return Err(step.error), blocks;
      }
      ConvertStep(raster, sizes, i, includeRetina, blocks, made);
      EncodeBlocksAppend(blocks, made);
      iconBlocks := iconBlocks + step.value;
      blocks := blocks + made;
      i := i + 1;
    }
    assert sizes[..i] == sizes;
    r := Ok(iconBlocks);
  }

  /** `convert` (lines 55-85), returning the bytes it would write. */
  method Convert(raster: Rasterizer, sizesOption: Option<seq<nat>>, includeRetinaOption: Option<bool>)
    returns (r: Result<seq<byte>>)
    ensures r == IcnsConvert(raster, sizesOption, includeRetinaOption)
  {
    var sizes := ResolveSizes(sizesOption);
    var includeRetina := RetinaEnabled(includeRetinaOption);
    var collected, blocks := CollectBlocks(raster, sizes, includeRetina);
    if collected.Err? {
      ConvertFails(raster, sizesOption, includeRetinaOption, collected.error);
      return Err(collected.error);
    }
    var iconBlocks := collected.value;
    var totalSize := FILE_HEADER_SIZE + TotalLength(iconBlocks);
    if totalSize >= U32_LIMIT {
      ConvertTooLarge(raster, sizesOption, includeRetinaOption, blocks, iconBlocks);
      return Err(RangeError);
    }
    var fileHeader := CreateFileHeader(totalSize);
    ConvertFinish(raster, sizesOption, includeRetinaOption, blocks, iconBlocks, fileHeader);
    r := Ok(Flatten([fileHeader] + iconBlocks));
  }
}
