/** The Windows ICO container encoder (ICOConverter): a 6-byte header, one
    16-byte directory entry per requested size, then the PNG payloads in the
    same order. */
module IcoConverter {
  import opened Bytes
  import opened Wrappers
  import opened NodeBuffer

  /** The sizes used when the caller gives none. */
  const DEFAULT_SIZES: seq<nat> := [16, 24, 32, 48, 64, 128, 256]

  const FILE_HEADER_SIZE: nat := 6
  const DIR_ENTRY_SIZE: nat := 16

  /** `options.sizes || DEFAULT_SIZES`: an absent option selects the default
      list; any given list, the empty one included, is used as it is. */
  function ResolveSizes(sizes: Option<seq<nat>>): seq<nat>
  {
    if sizes.Some? then sizes.value else DEFAULT_SIZES
  }

  // ---------------------------------------------------------------------
  // The file header (ICONDIR) and the directory entry (ICONDIRENTRY)
  // ---------------------------------------------------------------------

  datatype IconDir = IconDir(reserved: nat, imageType: nat, count: nat)

  predicate IconDirEncodable(h: IconDir)
  {
    h.reserved < U16_LIMIT && h.imageType < U16_LIMIT && h.count < U16_LIMIT
  }

  function EncodeIconDir(h: IconDir): (r: seq<byte>)
    requires IconDirEncodable(h)
    ensures |r| == FILE_HEADER_SIZE
  {
    U16LE(h.reserved) + U16LE(h.imageType) + U16LE(h.count)
  }

  function DecodeIconDir(b: seq<byte>): (h: IconDir)
    requires |b| == FILE_HEADER_SIZE
    ensures IconDirEncodable(h)
  {
    IconDir(DecodeU16LE(b[0..2]), DecodeU16LE(b[2..4]), DecodeU16LE(b[4..6]))
  }

  lemma IconDirRoundTrip(h: IconDir)
    requires IconDirEncodable(h)
    ensures DecodeIconDir(EncodeIconDir(h)) == h
  {
    var b := EncodeIconDir(h);
    assert b[0..2] == U16LE(h.reserved) && b[2..4] == U16LE(h.imageType) && b[4..6] == U16LE(h.count);
    U16LERoundTrip(h.reserved);
    U16LERoundTrip(h.imageType);
    U16LERoundTrip(h.count);
  }

  lemma IconDirOfDecode(b: seq<byte>)
    requires |b| == FILE_HEADER_SIZE
    ensures EncodeIconDir(DecodeIconDir(b)) == b
  {
    U16LEOfDecode(b[0..2]);
    U16LEOfDecode(b[2..4]);
    U16LEOfDecode(b[4..6]);
    assert b == b[0..2] + b[2..4] + b[4..6];
  }

  datatype DirEntry = DirEntry(
    width: byte, height: byte, colorCount: byte, reserved: byte,
    planes: nat, bitCount: nat, bytesInRes: nat, imageOffset: nat)

  predicate DirEntryEncodable(e: DirEntry)
  {
    e.planes < U16_LIMIT && e.bitCount < U16_LIMIT &&
    e.bytesInRes < U32_LIMIT && e.imageOffset < U32_LIMIT
  }

  function EncodeDirEntry(e: DirEntry): (r: seq<byte>)
    requires DirEntryEncodable(e)
    ensures |r| == DIR_ENTRY_SIZE
  {
    [e.width, e.height, e.colorCount, e.reserved] + U16LE(e.planes) + U16LE(e.bitCount)
      + U32LE(e.bytesInRes) + U32LE(e.imageOffset)
  }

  function DecodeDirEntry(b: seq<byte>): (e: DirEntry)
    requires |b| == DIR_ENTRY_SIZE
    ensures DirEntryEncodable(e)
  {
    DirEntry(b[0], b[1], b[2], b[3], DecodeU16LE(b[4..6]), DecodeU16LE(b[6..8]),
             DecodeU32LE(b[8..12]), DecodeU32LE(b[12..16]))
  }

  lemma DirEntryRoundTrip(e: DirEntry)
    requires DirEntryEncodable(e)
    ensures DecodeDirEntry(EncodeDirEntry(e)) == e
  {
    var b := EncodeDirEntry(e);
    assert b[4..6] == U16LE(e.planes) && b[6..8] == U16LE(e.bitCount);
    assert b[8..12] == U32LE(e.bytesInRes) && b[12..16] == U32LE(e.imageOffset);
    U16LERoundTrip(e.planes);
    U16LERoundTrip(e.bitCount);
    U32LERoundTrip(e.bytesInRes);
    U32LERoundTrip(e.imageOffset);
  }

  lemma DirEntryOfDecode(b: seq<byte>)
    requires |b| == DIR_ENTRY_SIZE
    ensures EncodeDirEntry(DecodeDirEntry(b)) == b
  {
    U16LEOfDecode(b[4..6]);
    U16LEOfDecode(b[6..8]);
    U32LEOfDecode(b[8..12]);
    U32LEOfDecode(b[12..16]);
    assert b == [b[0], b[1], b[2], b[3]] + b[4..6] + b[6..8] + b[8..12] + b[12..16];
  }

  /** The one-byte width or height field: 256 does not fit and is written as
      0, which readers take to mean 256. */
  function SizeByte(size: nat): byte
    requires size <= 256
  {
    if size == 256 then 0 else size
  }

  /** How a reader interprets the width or height byte. */
  function SizeOfByte(b: byte): nat
  {
    if b == 0 then 256 else b
  }

  lemma SizeByteRoundTrip(size: nat)
    requires 1 <= size <= 256
    ensures SizeOfByte(SizeByte(size)) == size
  {
  }

  /** The size byte is the size modulo 256. */
  lemma SizeByteMod(size: nat)
    requires size <= 256
    ensures SizeByte(size) == size % 256
  {
  }

  /** _createFileHeader: reserved 0, type 1 (icon), then the image count. */
  method CreateFileHeader(numImages: nat) returns (header: seq<byte>)
    requires numImages < U16_LIMIT
    ensures header == EncodeIconDir(IconDir(0, 1, numImages))
    ensures DecodeIconDir(header) == IconDir(0, 1, numImages)
  {
    var buf := Alloc(FILE_HEADER_SIZE);
    WriteUInt16LE(buf, 0, 0);
    WriteUInt16LE(buf, 1, 2);
    WriteUInt16LE(buf, numImages, 4);
    header := buf[..];
    IconDirRoundTrip(IconDir(0, 1, numImages));
  }

  /** _createDirEntry: the entry of an image of width x height pixels whose
      PNG bytes are `imageData`, stored at `offset` in the file; one colour
      plane and 32 bits per pixel. */
  method CreateDirEntry(width: nat, height: nat, colorCount: nat, offset: nat, imageData: seq<byte>)
    returns (entry: seq<byte>)
    requires width <= 256 && height <= 256 && colorCount < 256
    requires offset < U32_LIMIT && |imageData| < U32_LIMIT
    ensures entry == EncodeDirEntry(DirEntry(SizeByte(width), SizeByte(height), colorCount, 0,
                                             1, 32, |imageData|, offset))
    ensures DecodeDirEntry(entry) == DirEntry(SizeByte(width), SizeByte(height), colorCount, 0,
                                              1, 32, |imageData|, offset)
  {
    var buf := Alloc(DIR_ENTRY_SIZE);
    var w: byte, h: byte := SizeByte(width), SizeByte(height);
    WriteUInt8(buf, if width == 256 then 0 else width, 0);
    assert buf[..1] == [w];
    WriteUInt8(buf, if height == 256 then 0 else height, 1);
    assert buf[..2] == [w, h];
    WriteUInt8(buf, colorCount, 2);
    assert buf[..3] == [w, h, colorCount];
    WriteUInt8(buf, 0, 3);
    assert buf[..4] == [w, h, colorCount, 0];
    WriteUInt16LE(buf, 1, 4);
    assert buf[..6] == [w, h, colorCount, 0] + U16LE(1);
    WriteUInt16LE(buf, 32, 6);
    assert buf[..8] == [w, h, colorCount, 0] + U16LE(1) + U16LE(32);
    WriteUInt32LE(buf, |imageData|, 8);
    assert buf[..12] == [w, h, colorCount, 0] + U16LE(1) + U16LE(32) + U32LE(|imageData|);
    WriteUInt32LE(buf, offset, 12);
    entry := buf[..];
    DirEntryRoundTrip(DirEntry(SizeByte(width), SizeByte(height), colorCount, 0, 1, 32, |imageData|, offset));
  }

  // ---------------------------------------------------------------------
  // The layout of the whole file
  // ---------------------------------------------------------------------

  /** Where image i starts: after the header, all entries and the images
      before it. */
  function ImageOffset(images: seq<seq<byte>>, i: nat): nat
    requires i <= |images|
  {
    FILE_HEADER_SIZE + DIR_ENTRY_SIZE * |images| + TotalLength(images[..i])
  }

  /** Entry i can be written without a Buffer RangeError: the size fits the
      width byte (256 being written as 0) and the length and offset fit 32
      bits. */
  predicate EntryFits(sizes: seq<nat>, images: seq<seq<byte>>, i: nat)
    requires |sizes| == |images| && i < |sizes|
  {
    sizes[i] <= 256 && |images[i]| < U32_LIMIT && ImageOffset(images, i) < U32_LIMIT
  }

  /** The whole file can be written without a Buffer RangeError. */
  predicate Fits(sizes: seq<nat>, images: seq<seq<byte>>)
    requires |sizes| == |images|
  {
    |sizes| < U16_LIMIT && forall i :: 0 <= i < |sizes| ==> EntryFits(sizes, images, i)
  }

  /** The directory entry of image i. */
  function EntryFor(sizes: seq<nat>, images: seq<seq<byte>>, i: nat): (e: DirEntry)
    requires |sizes| == |images| && i < |sizes| && EntryFits(sizes, images, i)
    ensures DirEntryEncodable(e)
  {
    DirEntry(SizeByte(sizes[i]), SizeByte(sizes[i]), 0, 0, 1, 32, |images[i]|, ImageOffset(images, i))
  }

  function DirEntries(sizes: seq<nat>, images: seq<seq<byte>>): (r: seq<seq<byte>>)
    requires |sizes| == |images| && Fits(sizes, images)
    ensures |r| == |sizes|
  {
    seq(|sizes|, i requires 0 <= i < |sizes| => EncodeDirEntry(EntryFor(sizes, images, i)))
  }

  /** The ICO file: header, then the entries, then the images, in list order. */
  function IcoFile(sizes: seq<nat>, images: seq<seq<byte>>): seq<byte>
    requires |sizes| == |images| && Fits(sizes, images)
  {
    EncodeIconDir(IconDir(0, 1, |sizes|)) + Flatten(DirEntries(sizes, images)) + Flatten(images)
  }

  /** Lines 67-85 of `convert`: lay out the already rasterized images. Any
      field that does not fit makes Buffer throw a RangeError. */
  method Layout(sizes: seq<nat>, images: seq<seq<byte>>) returns (r: Result<seq<byte>>)
    requires |sizes| == |images|
    ensures r == if Fits(sizes, images) then Ok(IcoFile(sizes, images)) else Err(RangeError)
  {
    var dirEntriesSize := DIR_ENTRY_SIZE * |sizes|;
    var currentOffset := FILE_HEADER_SIZE + dirEntriesSize;
    var dirEntries: seq<seq<byte>> := [];
    var i := 0;
    while i < |sizes|
      invariant 0 <= i <= |sizes|
      invariant currentOffset == ImageOffset(images, i)
      invariant forall k :: 0 <= k < i ==> EntryFits(sizes, images, k)
      invariant |dirEntries| == i
      invariant forall k :: 0 <= k < i ==> dirEntries[k] == EncodeDirEntry(EntryFor(sizes, images, k))
    {
      var size := sizes[i];
      var imageData := images[i];
      if !(size <= 256 && |imageData| < U32_LIMIT && currentOffset < U32_LIMIT) {
        assert !EntryFits(sizes, images, i);
        return Err(RangeError);
      }
      assert EntryFits(sizes, images, i);
      var entry := CreateDirEntry(size, size, 0, currentOffset, imageData);
      assert entry == EncodeDirEntry(EntryFor(sizes, images, i));
      dirEntries := dirEntries + [entry];
      assert images[..i + 1] == images[..i] + [images[i]];
      TotalLengthSnoc(images[..i], images[i]);
      currentOffset := currentOffset + |imageData|;
      i := i + 1;
    }
    if |sizes| >= U16_LIMIT {
      return Err(RangeError);
    }
    assert Fits(sizes, images);
    var fileHeader := CreateFileHeader(|sizes|);
    assert dirEntries == DirEntries(sizes, images);
    IcoFileLayout(sizes, images, fileHeader);
    r := Ok(Flatten([fileHeader] + dirEntries + images));
  }

  /** The file is the concatenation of the header, the entry buffers and the
      images (Buffer.concat at line 85). */
  lemma IcoFileLayout(sizes: seq<nat>, images: seq<seq<byte>>, header: seq<byte>)
    requires |sizes| == |images| && Fits(sizes, images)
    requires header == EncodeIconDir(IconDir(0, 1, |sizes|))
    ensures IcoFile(sizes, images) == Flatten([header] + DirEntries(sizes, images) + images)
  {
    var dirEntries := DirEntries(sizes, images);
    FlattenAppend([header] + dirEntries, images);
    FlattenAppend([header], dirEntries);
    assert [header][1..] == [];
    assert Flatten([header]) == header + Flatten([]);
  }

  // ---------------------------------------------------------------------
  // Rasterization and the whole conversion
  // ---------------------------------------------------------------------

  /** Element k is the first whose rasterization fails. */
  predicate FirstFailureAt(raster: Rasterizer, sizes: seq<nat>, k: int)
  {
    0 <= k < |sizes| && raster(sizes[k], sizes[k]).None? &&
    forall j :: 0 <= j < k ==> raster(sizes[j], sizes[j]).Some?
  }

  /** Rasterize every size of the list, duplicates included, at
      (size, size) in list order; the first failure aborts. */
  function Rasterize(raster: Rasterizer, sizes: seq<nat>): (r: Result<seq<seq<byte>>>)
    ensures r.Ok? ==> |r.value| == |sizes|
  {
    if sizes == [] then Ok([])
    else
      var init, last := sizes[..|sizes| - 1], sizes[|sizes| - 1];
      match Rasterize(raster, init)
      case Err(e) => Err(e)
      case Ok(images) =>
        match raster(last, last)
        case None => Err(RasterizationError(last, last))
        case Some(png) => Ok(images + [png])
  }

  /** The images are made exactly when every rasterization succeeds; image i
      is then the rasterizer's output for element i; otherwise the error
      names the first size that fails. */
  lemma {:induction false} RasterizeMeaning(raster: Rasterizer, sizes: seq<nat>)
    ensures var r := Rasterize(raster, sizes);
      (r.Ok? <==> forall i :: 0 <= i < |sizes| ==> raster(sizes[i], sizes[i]).Some?) &&
      (r.Ok? ==> forall i :: 0 <= i < |sizes| ==> raster(sizes[i], sizes[i]) == Some(r.value[i])) &&
      (r.Err? ==> exists k :: FirstFailureAt(raster, sizes, k) && r.error == RasterizationError(sizes[k], sizes[k]))
  {
    if sizes != [] {
      var init, last := sizes[..|sizes| - 1], sizes[|sizes| - 1];
      RasterizeMeaning(raster, init);
      var r := Rasterize(raster, init);
      if r.Err? {
        var k :| FirstFailureAt(raster, init, k) && r.error == RasterizationError(init[k], init[k]);
        assert FirstFailureAt(raster, sizes, k);
      } else if raster(last, last).None? {
        assert FirstFailureAt(raster, sizes, |sizes| - 1);
      }
    }
  }

  /** Lines 61-65 of `convert`: one rasterizer call per list element. */
  method RasterizeSizes(raster: Rasterizer, sizes: seq<nat>) returns (r: Result<seq<seq<byte>>>)
    ensures r == Rasterize(raster, sizes)
  {
    var imageDataList: seq<seq<byte>> := [];
    var i := 0;
    while i < |sizes|
      invariant 0 <= i <= |sizes|
      invariant Rasterize(raster, sizes[..i]) == Ok(imageDataList)
    {
      assert sizes[..i + 1][..i] == sizes[..i];
      var png := raster(sizes[i], sizes[i]);
      if png.None? {
        assert Rasterize(raster, sizes[..i + 1]) == Err(RasterizationError(sizes[i], sizes[i]));
        RasterizeFailurePersists(raster, sizes, i + 1);
        return Err(RasterizationError(sizes[i], sizes[i]));
      }
      imageDataList := imageDataList + [png.value];
      i := i + 1;
    }
    assert sizes[..i] == sizes;
    r := Ok(imageDataList);
  }

  /** Once a prefix fails, the whole list fails with the same error. */
  lemma {:induction false} RasterizeFailurePersists(raster: Rasterizer, sizes: seq<nat>, n: nat)
    requires n <= |sizes| && Rasterize(raster, sizes[..n]).Err?
    ensures Rasterize(raster, sizes) == Rasterize(raster, sizes[..n])
    decreases |sizes| - n
  {
    if n < |sizes| {
      assert sizes[..n + 1][..n] == sizes[..n];
      RasterizeFailurePersists(raster, sizes, n + 1);
    } else {
      assert sizes[..n] == sizes;
    }
  }

  /** The whole conversion, minus the file write: the output bytes or the
      error that `convert` would throw. */
  function IcoConvert(raster: Rasterizer, sizesOption: Option<seq<nat>>): Result<seq<byte>>
  {
    var sizes := ResolveSizes(sizesOption);
    match Rasterize(raster, sizes)
    case Err(e) => Err(e)
    case Ok(images) => if Fits(sizes, images) then Ok(IcoFile(sizes, images)) else Err(RangeError)
  }

  /** `convert` (lines 55-85), returning the bytes it would write. */
  method Convert(raster: Rasterizer, sizesOption: Option<seq<nat>>) returns (r: Result<seq<byte>>)
    ensures r == IcoConvert(raster, sizesOption)
  {
    var sizes := ResolveSizes(sizesOption);
    var images := RasterizeSizes(raster, sizes);
    if images.Err? {
      return Err(images.error);
    }
    r := Layout(sizes, images.value);
  }
}
