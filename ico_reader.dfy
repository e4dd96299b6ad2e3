/** What an ICO file produced by the encoder means: the position of every
    field, and a reader that recovers the directory and the images from the
    bytes alone. */
module IcoReader {
  import opened Bytes
  import opened Wrappers
  import opened IcoConverter

  /** One image as a reader sees it: its directory entry and its bytes. */
  datatype IcoImage = IcoImage(entry: DirEntry, data: seq<byte>)

  /** The bytes of directory entry i of a file with at least i + 1 entries. */
  function EntryBytes(file: seq<byte>, i: nat): (r: seq<byte>)
    requires FILE_HEADER_SIZE + DIR_ENTRY_SIZE * (i + 1) <= |file|
    ensures |r| == DIR_ENTRY_SIZE
  {
    file[FILE_HEADER_SIZE + DIR_ENTRY_SIZE * i .. FILE_HEADER_SIZE + DIR_ENTRY_SIZE * i + DIR_ENTRY_SIZE]
  }

  /** Entry i's image lies inside the file. */
  predicate ImageInFile(file: seq<byte>, count: nat, i: nat)
    requires i < count && FILE_HEADER_SIZE + DIR_ENTRY_SIZE * count <= |file|
  {
    var e := DecodeDirEntry(EntryBytes(file, i));
    e.imageOffset + e.bytesInRes <= |file|
  }

  /** Read an ICO file: check the header, then read every entry and the
      bytes it points at. None when the header is not that of an icon or an
      entry points outside the file. */
  function ParseIco(file: seq<byte>): Option<seq<IcoImage>>
  {
    if |file| < FILE_HEADER_SIZE then None
    else
      var dir := DecodeIconDir(file[..FILE_HEADER_SIZE]);
      if dir.reserved != 0 || dir.imageType != 1 || |file| < FILE_HEADER_SIZE + DIR_ENTRY_SIZE * dir.count then None
      else if !(forall i :: 0 <= i < dir.count ==> ImageInFile(file, dir.count, i)) then None
      else
        Some(seq(dir.count, i requires 0 <= i < dir.count && ImageInFile(file, dir.count, i) =>
          var e := DecodeDirEntry(EntryBytes(file, i));
          IcoImage(e, file[e.imageOffset .. e.imageOffset + e.bytesInRes])))
  }

  // ---------------------------------------------------------------------
  // The layout of IcoFile
  // ---------------------------------------------------------------------

  /** The file is header, entries and images: 6 + 16 N + the image bytes. */
  lemma IcoFileLength(sizes: seq<nat>, images: seq<seq<byte>>)
    requires |sizes| == |images| && Fits(sizes, images)
    ensures |IcoFile(sizes, images)| == FILE_HEADER_SIZE + DIR_ENTRY_SIZE * |sizes| + TotalLength(images)
    ensures |Flatten(DirEntries(sizes, images))| == DIR_ENTRY_SIZE * |sizes|
  {
    var entries := DirEntries(sizes, images);
    FlattenLength(entries);
    FlattenLength(images);
    TotalLengthUniform(entries, DIR_ENTRY_SIZE);
  }

  /** The first six bytes are the header: reserved 0, type 1, count N. */
  lemma IcoHeaderAt(sizes: seq<nat>, images: seq<seq<byte>>)
    requires |sizes| == |images| && Fits(sizes, images)
    ensures |IcoFile(sizes, images)| >= FILE_HEADER_SIZE
    ensures DecodeIconDir(IcoFile(sizes, images)[..FILE_HEADER_SIZE]) == IconDir(0, 1, |sizes|)
  {
    var header := EncodeIconDir(IconDir(0, 1, |sizes|));
    var file := IcoFile(sizes, images);
    assert file[..FILE_HEADER_SIZE] == header;
    IconDirRoundTrip(IconDir(0, 1, |sizes|));
  }

  /** Image i starts right after the entries and the images before it. */
  lemma ImageOffsetChain(images: seq<seq<byte>>, i: nat)
    requires i < |images|
    ensures ImageOffset(images, 0) == FILE_HEADER_SIZE + DIR_ENTRY_SIZE * |images|
    ensures ImageOffset(images, i + 1) == ImageOffset(images, i) + |images[i]|
  {
    assert images[..0] == [];
    assert images[..i + 1] == images[..i] + [images[i]];
    TotalLengthSnoc(images[..i], images[i]);
  }

  /** Directory entry i sits at 6 + 16 i and describes image i: its size
      byte (256 written as 0), colour count 0, reserved 0, one plane, 32 bits
      per pixel, the image's length and its offset. */
  lemma IcoEntryAt(sizes: seq<nat>, images: seq<seq<byte>>, i: nat)
    requires |sizes| == |images| && Fits(sizes, images) && i < |sizes|
    ensures FILE_HEADER_SIZE + DIR_ENTRY_SIZE * (i + 1) <= |IcoFile(sizes, images)|
    ensures DecodeDirEntry(EntryBytes(IcoFile(sizes, images), i)) == EntryFor(sizes, images, i)
  {
    var header := EncodeIconDir(IconDir(0, 1, |sizes|));
    var entries := Flatten(DirEntries(sizes, images));
    var file := IcoFile(sizes, images);
    IcoFileLength(sizes, images);
    var lo := FILE_HEADER_SIZE + DIR_ENTRY_SIZE * i;
    assert file == (header + entries) + Flatten(images);
    SliceLeft(header + entries, Flatten(images), lo, lo + DIR_ENTRY_SIZE);
    SliceRight(header, entries, lo, lo + DIR_ENTRY_SIZE);
    EntryInDirectory(sizes, images, i);
    assert EntryBytes(file, i) == EncodeDirEntry(EntryFor(sizes, images, i));
    DirEntryRoundTrip(EntryFor(sizes, images, i));
  }

  /** Entry i occupies bytes 16 i to 16 i + 16 of the directory. */
  lemma EntryInDirectory(sizes: seq<nat>, images: seq<seq<byte>>, i: nat)
    requires |sizes| == |images| && Fits(sizes, images) && i < |sizes|
    ensures DIR_ENTRY_SIZE * (i + 1) <= |Flatten(DirEntries(sizes, images))|
    ensures Flatten(DirEntries(sizes, images))[DIR_ENTRY_SIZE * i .. DIR_ENTRY_SIZE * i + DIR_ENTRY_SIZE] ==
      EncodeDirEntry(EntryFor(sizes, images, i))
  {
    var entries := DirEntries(sizes, images);
    var before := entries[..i];
    assert forall k :: 0 <= k < |before| ==> |before[k]| == DIR_ENTRY_SIZE;
    TotalLengthUniform(before, DIR_ENTRY_SIZE);
    FlattenAt(entries, i);
    FlattenLength(entries);
  }

  /** Image i occupies exactly [offset_i, offset_i + length_i) of the file. */
  lemma IcoPayloadAt(sizes: seq<nat>, images: seq<seq<byte>>, i: nat)
    requires |sizes| == |images| && Fits(sizes, images) && i < |sizes|
    ensures ImageOffset(images, i) + |images[i]| <= |IcoFile(sizes, images)|
    ensures IcoFile(sizes, images)[ImageOffset(images, i) .. ImageOffset(images, i) + |images[i]|] == images[i]
  {
    var header := EncodeIconDir(IconDir(0, 1, |sizes|));
    var entries := DirEntries(sizes, images);
    IcoFileLength(sizes, images);
    FlattenAt(images, i);
    var start := TotalLength(images[..i]);
    SliceRight(header + Flatten(entries), Flatten(images),
               ImageOffset(images, i), ImageOffset(images, i) + |images[i]|);
  }

  /** The images follow the directory and do not overlap: an earlier image
      ends before a later one starts. */
  lemma PayloadsDisjoint(images: seq<seq<byte>>, i: nat, j: nat)
    requires i < j < |images|
    ensures FILE_HEADER_SIZE + DIR_ENTRY_SIZE * |images| <= ImageOffset(images, i)
    ensures ImageOffset(images, i) + |images[i]| <= ImageOffset(images, j)
  {
    ImageOffsetChain(images, i);
    TotalLengthPrefix(images, i + 1, j);
  }

  /** The reader's result on any file whose header, entries and images are
      known. */
  lemma ParseIcoOf(file: seq<byte>, entries: seq<DirEntry>, datas: seq<seq<byte>>)
    requires |entries| == |datas| < U16_LIMIT
    requires FILE_HEADER_SIZE + DIR_ENTRY_SIZE * |entries| <= |file|
    requires DecodeIconDir(file[..FILE_HEADER_SIZE]) == IconDir(0, 1, |entries|)
    requires forall i :: 0 <= i < |entries| ==>
      DecodeDirEntry(EntryBytes(file, i)) == entries[i] &&
      entries[i].imageOffset + |datas[i]| <= |file| && entries[i].bytesInRes == |datas[i]| &&
      file[entries[i].imageOffset .. entries[i].imageOffset + |datas[i]|] == datas[i]
    ensures ParseIco(file) == Some(seq(|entries|, i requires 0 <= i < |entries| => IcoImage(entries[i], datas[i])))
  {
    var n := |entries|;
    assert forall i :: 0 <= i < n ==> ImageInFile(file, n, i);
    var parsed := ParseIco(file);
    var expected := seq(n, i requires 0 <= i < n => IcoImage(entries[i], datas[i]));
    assert parsed.Some? && |parsed.value| == n;
    forall i | 0 <= i < n
      ensures parsed.value[i] == expected[i]
    {
    }
    assert parsed.value == expected;
  }

  /** Reading the encoder's output back gives, image by image in list order,
      the entry for that size and exactly the bytes that were encoded. */
  lemma IcoRoundTrip(sizes: seq<nat>, images: seq<seq<byte>>)
    requires |sizes| == |images| && Fits(sizes, images)
    ensures ParseIco(IcoFile(sizes, images)) ==
      Some(seq(|sizes|, i requires 0 <= i < |sizes| => IcoImage(EntryFor(sizes, images, i), images[i])))
  {
    var file := IcoFile(sizes, images);
    var n := |sizes|;
    var entries := seq(n, i requires 0 <= i < n => EntryFor(sizes, images, i));
    IcoHeaderAt(sizes, images);
    forall i | 0 <= i < n
      ensures FILE_HEADER_SIZE + DIR_ENTRY_SIZE * (i + 1) <= |file|
      ensures DecodeDirEntry(EntryBytes(file, i)) == entries[i]
      ensures entries[i].imageOffset + |images[i]| <= |file| && entries[i].bytesInRes == |images[i]|
      ensures file[entries[i].imageOffset .. entries[i].imageOffset + |images[i]|] == images[i]
    {
      IcoEntryAt(sizes, images, i);
      IcoPayloadAt(sizes, images, i);
    }
    assert FILE_HEADER_SIZE + DIR_ENTRY_SIZE * n <= |file| by {
      if n > 0 {
        assert FILE_HEADER_SIZE + DIR_ENTRY_SIZE * (n - 1 + 1) <= |file|;
      }
    }
    ParseIcoOf(file, entries, images);
    var viaEntries := seq(n, i requires 0 <= i < n => IcoImage(entries[i], images[i]));
    var direct := seq(n, i requires 0 <= i < n => IcoImage(EntryFor(sizes, images, i), images[i]));
    assert forall i :: 0 <= i < n ==> viaEntries[i] == direct[i];
    assert viaEntries == direct;
  }

  /** Example from a three-size conversion: sizes 16, 32 and 64, each
      rasterized to M bytes, give a file of 6 + 48 + 3M bytes whose third
      image starts at 6 + 48 + 2M. The bound on M is the one under which
      that third offset, the largest field, fits 32 bits. */
  lemma ThreeSizesExample(m: nat)
    requires 54 + 2 * m < U32_LIMIT
    ensures var images := [seq(m, _ => 0), seq(m, _ => 0), seq(m, _ => 0)];
      Fits([16, 32, 64], images) &&
      |IcoFile([16, 32, 64], images)| == 54 + 3 * m &&
      EntryFor([16, 32, 64], images, 2).imageOffset == 54 + 2 * m
  {
    var png: seq<byte> := seq(m, _ => 0);
    var images := [png, png, png];
    assert images[..0] == [] && images[..1] == [png] && images[..2] == [png, png];
    assert TotalLength([png]) == m by { assert [png][1..] == []; }
    assert TotalLength([png, png]) == 2 * m by { assert [png, png][1..] == [png]; }
    assert TotalLength(images) == 3 * m by { assert images[1..] == [png, png]; }
    assert Fits([16, 32, 64], images);
    IcoFileLength([16, 32, 64], images);
  }

  /** A size of 256 gets width and height bytes 0, not 256. */
  lemma Size256Entry(sizes: seq<nat>, images: seq<seq<byte>>, i: nat)
    requires |sizes| == |images| && Fits(sizes, images) && i < |sizes| && sizes[i] == 256
    ensures FILE_HEADER_SIZE + DIR_ENTRY_SIZE * (i + 1) <= |IcoFile(sizes, images)|
    ensures var e := DecodeDirEntry(EntryBytes(IcoFile(sizes, images), i));
      e.width == 0 && e.height == 0 && SizeOfByte(e.width) == 256
  {
    IcoEntryAt(sizes, images, i);
  }

  // ---------------------------------------------------------------------
  // The whole conversion
  // ---------------------------------------------------------------------

  /** `convert` succeeds exactly when every rasterization succeeds and every
      field fits. */
  lemma IcoConvertSucceeds(raster: Rasterizer, sizesOption: Option<seq<nat>>)
    ensures var sizes := ResolveSizes(sizesOption);
      IcoConvert(raster, sizesOption).Ok? <==>
        (forall i :: 0 <= i < |sizes| ==> raster(sizes[i], sizes[i]).Some?) &&
        Rasterize(raster, sizes).Ok? && Fits(sizes, Rasterize(raster, sizes).value)
  {
    RasterizeMeaning(raster, ResolveSizes(sizesOption));
  }

  /** A failed `convert` reports the first size whose rasterization fails,
      or, when every size is rasterized, a field that does not fit. */
  lemma IcoConvertFailure(raster: Rasterizer, sizesOption: Option<seq<nat>>)
    requires IcoConvert(raster, sizesOption).Err?
    ensures var sizes := ResolveSizes(sizesOption); var e := IcoConvert(raster, sizesOption).error;
      (exists k :: FirstFailureAt(raster, sizes, k) && e == RasterizationError(sizes[k], sizes[k])) ||
      (e == RangeError && Rasterize(raster, sizes).Ok? && !Fits(sizes, Rasterize(raster, sizes).value))
  {
    RasterizeMeaning(raster, ResolveSizes(sizesOption));
  }

  /** Example: when the second of three sizes fails to rasterize, the
      conversion fails with that size and produces no output. */
  lemma SecondOfThreeFails(raster: Rasterizer, sizes: seq<nat>)
    requires sizes == [16, 32, 64]
    requires raster(16, 16).Some? && raster(32, 32).None?
    ensures IcoConvert(raster, Some(sizes)) == Err(RasterizationError(32, 32))
  {
    var prefix := sizes[..2];
    assert prefix == [16, 32];
    RasterizeMeaning(raster, prefix);
    assert Rasterize(raster, prefix).Err?;
    var k :| FirstFailureAt(raster, prefix, k) && Rasterize(raster, prefix).error == RasterizationError(prefix[k], prefix[k]);
    assert k == 1;
    RasterizeFailurePersists(raster, sizes, 2);
  }

  /** A successful `convert` reads back as the rasterizer's images, one per
      list element and in list order, each under an entry whose width and
      height bytes are its size (256 written as 0). */
  lemma IcoConvertOutput(raster: Rasterizer, sizesOption: Option<seq<nat>>)
    requires IcoConvert(raster, sizesOption).Ok?
    ensures var sizes := ResolveSizes(sizesOption);
      var parsed := ParseIco(IcoConvert(raster, sizesOption).value);
      parsed.Some? && |parsed.value| == |sizes| &&
      forall i :: 0 <= i < |sizes| ==>
        Some(parsed.value[i].data) == raster(sizes[i], sizes[i]) &&
        parsed.value[i].entry.width == sizes[i] % 256 &&
        parsed.value[i].entry.height == sizes[i] % 256
  {
    var sizes := ResolveSizes(sizesOption);
    var images := Rasterize(raster, sizes).value;
    assert IcoConvert(raster, sizesOption) == Ok(IcoFile(sizes, images));
    RasterizeMeaning(raster, sizes);
    IcoParsedFields(sizes, images);
  }

  /** The reader's view of an encoded file: one image per element, holding
      that element's bytes under an entry whose width and height bytes are
      the size modulo 256. */
  lemma IcoParsedFields(sizes: seq<nat>, images: seq<seq<byte>>)
    requires |sizes| == |images| && Fits(sizes, images)
    ensures var parsed := ParseIco(IcoFile(sizes, images));
      parsed.Some? && |parsed.value| == |sizes| &&
      forall i :: 0 <= i < |sizes| ==>
        parsed.value[i].data == images[i] &&
        parsed.value[i].entry.width == sizes[i] % 256 &&
        parsed.value[i].entry.height == sizes[i] % 256
  {
    IcoRoundTrip(sizes, images);
    var expected := seq(|sizes|, i requires 0 <= i < |sizes| => IcoImage(EntryFor(sizes, images, i), images[i]));
    assert ParseIco(IcoFile(sizes, images)) == Some(expected);
    forall i | 0 <= i < |sizes|
      ensures expected[i].data == images[i]
      ensures expected[i].entry.width == sizes[i] % 256 && expected[i].entry.height == sizes[i] % 256
    {
      assert EntryFits(sizes, images, i);
      SizeByteMod(sizes[i]);
    }
  }
}
