/**
 * The logic of the main gallery page (my-app/src/components/MainPage.js): the image
 * list shown in the library, the name displayed for each image, the selection state,
 * and the rasterisation of the processed pixel grid into an RGBA buffer.
 */
module MainPage {
  import opened Wrappers

  // ---------------------------------------------------------------------------
  // Rasterising the processed image (drawProcessedImage)
  // ---------------------------------------------------------------------------

  /** One element of the canvas' Uint8ClampedArray. */
  type byte = b: int | 0 <= b < 256

  /** A processed image: rows of pixels, each pixel a list of channel values [R, G, B]. */
  type Image = seq<seq<seq<int>>>

  /** Storing a number into a Uint8ClampedArray clamps it to 0..255. */
  function Clamp(v: int): (b: byte)
    ensures 0 <= v <= 255 ==> b == v
    ensures v < 0 ==> b == 0
    ensures 255 < v ==> b == 255
  {
    if v < 0 then 0 else if v > 255 then 255 else v
  }

  /** Channel `k` of a pixel as the buffer stores it: a missing channel reads as
      `undefined`, which the clamped array stores as 0. */
  function Channel(pixel: seq<int>, k: nat): (b: byte)
    ensures k >= |pixel| ==> b == 0
    ensures k < |pixel| && 0 <= pixel[k] <= 255 ==> b == pixel[k]
    ensures k < |pixel| && pixel[k] < 0 ==> b == 0
    ensures k < |pixel| && 255 < pixel[k] ==> b == 255
  {
    if k < |pixel| then Clamp(pixel[k]) else 0
  }

  /** drawProcessedImage reads the width from row 0 and then reads `width` pixels of
      every row, so every row must be at least as long as row 0. */
  predicate WellShaped(image: Image) {
    |image| > 0 && forall y :: 0 <= y < |image| ==> |image[0]| <= |image[y]|
  }

  function Width(image: Image): nat
    requires |image| > 0
  {
    |image[0]|
  }

  /** The position of channel `k` of pixel `(x, y)` in the buffer: `(y * width + x) * 4 + k`. */
  function ByteIndex(width: nat, x: nat, y: nat, k: nat): nat {
    (y * width + x) * 4 + k
  }

  /** Byte `k` of pixel `(x, y)` as drawProcessedImage writes it: the clamped red,
      green and blue channels, then an opaque alpha. */
  function PixelByte(image: Image, x: nat, y: nat, k: nat): byte
    requires y < |image| && x < |image[y]|
  {
    if k == 3 then 255 else Channel(image[y][x], k)
  }

  /** Pixel `(x, y)` comes before the cursor `(cx, cy)` of a row-major scan. */
  predicate Before(x: int, y: int, cx: int, cy: int) {
    y < cy || (y == cy && x < cx)
  }

  /** Every byte of every pixel before the cursor `(cx, cy)` holds its value. */
  ghost predicate Drawn(image: Image, data: seq<byte>, cx: int, cy: int)
    requires WellShaped(image)
  {
    forall x: nat, y: nat, k: nat :: x < Width(image) && y < |image| && k < 4 && Before(x, y, cx, cy) ==>
      ByteIndex(Width(image), x, y, k) < |data| &&
      data[ByteIndex(Width(image), x, y, k)] == PixelByte(image, x, y, k)
  }

  lemma {:induction false} MulMono(a: int, b: int, w: nat)
    requires a <= b
    ensures a * w <= b * w
  {
    if w > 0 {
      MulMono(a, b, w - 1);
      assert a * w == a * (w - 1) + a && b * w == b * (w - 1) + b;
    }
  }

  /** A non-zero multiplier moves a product at least one factor away from zero. */
  lemma MulSign(d: int, w: nat)
    ensures d >= 1 ==> d * w >= w
    ensures d <= -1 ==> d * w + w <= 0
  {
    if d >= 1 {
      MulMono(1, d, w);
    } else if d <= -1 {
      MulMono(d, -1, w);
    }
  }

  lemma DivModUnique(p: int, w: int, q: int, r: int)
    requires 0 < w && 0 <= r < w && p == q * w + r
    ensures p / w == q && p % w == r
  {
    var q', r' := p / w, p % w;
    assert p == q' * w + r' && 0 <= r' < w;
    MulSign(q - q', w);
    assert (q - q') * w == q * w - q' * w;
  }

  /** The byte positions of different (pixel, channel) pairs differ ... */
  lemma ByteIndexInjective(width: nat, x: nat, y: nat, k: nat, x': nat, y': nat, k': nat)
    requires x < width && x' < width && k < 4 && k' < 4
    requires ByteIndex(width, x, y, k) == ByteIndex(width, x', y', k')
    ensures x == x' && y == y' && k == k'
  {
    var i := ByteIndex(width, x, y, k);
    DivModUnique(i, 4, y * width + x, k);
    DivModUnique(i, 4, y' * width + x', k');
    DivModUnique(y * width + x, width, y, x);
    DivModUnique(y' * width + x', width, y', x');
  }

  /** ... and every one of them lies inside the `4 * width * height` bytes of the buffer. */
  lemma ByteIndexInBuffer(width: nat, height: nat, x: nat, y: nat, k: nat)
    requires x < width && y < height && k < 4
    ensures ByteIndex(width, x, y, k) < 4 * width * height
  {
    calc {
      ByteIndex(width, x, y, k);
    <
      (y * width + x) * 4 + 4;
    ==
      (y * width + x + 1) * 4;
    <=
      { assert y * width + x + 1 <= (y + 1) * width; }
      (y + 1) * width * 4;
    <=
      { assert (y + 1) * width <= height * width; }
      height * width * 4;
    ==
      4 * width * height;
    }
  }

  /** The bytes of pixels before `(x, y)` lie below the first byte of `(x, y)`. */
  lemma EarlierBytesBelow(width: nat, x: nat, y: nat, x': nat, y': nat, k': nat)
    requires x < width && x' < width && k' < 4 && Before(x', y', x, y)
    ensures ByteIndex(width, x', y', k') < ByteIndex(width, x, y, 0)
  {
    if y' < y {
      MulMono(y' + 1, y, width);
      assert y' * width + x' + 1 <= (y' + 1) * width;
    }
    assert y' * width + x' + 1 <= y * width + x;
    MulMono(y' * width + x' + 1, y * width + x, 4);
  }

  /** Writing the four bytes of pixel `(x, y)` moves the cursor one pixel on. */
  lemma DrawStep(image: Image, before: seq<byte>, after: seq<byte>, x: nat, y: nat)
    requires WellShaped(image) && x < Width(image) && y < |image|
    requires Drawn(image, before, x, y)
    requires ByteIndex(Width(image), x, y, 3) < |before|
    requires var i := ByteIndex(Width(image), x, y, 0);
      after == before[i := PixelByte(image, x, y, 0)][i + 1 := PixelByte(image, x, y, 1)]
                     [i + 2 := PixelByte(image, x, y, 2)][i + 3 := PixelByte(image, x, y, 3)]
    ensures Drawn(image, after, x + 1, y)
  {
    var width := Width(image);
    forall x': nat, y': nat, k': nat | x' < width && y' < |image| && k' < 4 && Before(x', y', x + 1, y)
      ensures ByteIndex(width, x', y', k') < |after| &&
              after[ByteIndex(width, x', y', k')] == PixelByte(image, x', y', k')
    {
      if x' == x && y' == y {
        assert ByteIndex(width, x', y', k') == ByteIndex(width, x, y, 0) + k';
      } else {
        assert Before(x', y', x, y);
        EarlierBytesBelow(width, x, y, x', y', k');
      }
    }
  }

  /** Finishing a row moves the cursor to the start of the next one. */
  lemma DrawNextRow(image: Image, data: seq<byte>, y: nat)
    requires WellShaped(image) && Drawn(image, data, Width(image), y)
    ensures Drawn(image, data, 0, y + 1)
  {
    var next := y + 1;
    forall x: nat, y': nat, k: nat | x < Width(image) && y' < |image| && k < 4 && Before(x, y', 0, next)
      ensures ByteIndex(Width(image), x, y', k) < |data| &&
              data[ByteIndex(Width(image), x, y', k)] == PixelByte(image, x, y', k)
    {
      assert Before(x, y', Width(image), y);
    }
  }

  /** The nested pixel loop of drawProcessedImage: for pixel `(x, y)` it writes R, G, B
      and an opaque alpha at `(y * width + x) * 4`. */
  method FillImageData(image: Image, data: array<byte>)
    requires WellShaped(image)
    requires data.Length == 4 * Width(image) * |image|
    modifies data
    ensures Drawn(image, data[..], 0, |image|)
  {
    var width := Width(image);
    var height := |image|;
    var y := 0;
    while y < height
      invariant 0 <= y <= height
      invariant Drawn(image, data[..], 0, y)
    {
      var x := 0;
      while x < width
        invariant 0 <= x <= width
        invariant Drawn(image, data[..], x, y)
      {
        var pixel := image[y][x];
        var index := (y * width + x) * 4;
        ByteIndexInBuffer(width, height, x, y, 3);
        ghost var before := data[..];
        // a missing channel is undefined, which the clamped array stores as 0
        data[index] := Channel(pixel, 0);
        data[index + 1] := Channel(pixel, 1);
        data[index + 2] := Channel(pixel, 2);
        data[index + 3] := 255;
        DrawStep(image, before, data[..], x, y);
        x := x + 1;
      }
      DrawNextRow(image, data[..], y);
      y := y + 1;
    }
  }

  /** The images drawProcessedImage gets through without throwing: `processedImage[0]`
      must exist, `createImageData(width, height)` refuses a width of 0, and a row
      shorter than row 0 yields an `undefined` pixel whose channels cannot be read. */
  predicate Drawable(image: Image) {
    WellShaped(image) && |image[0]| > 0
  }

  /** What drawProcessedImage ends in: nothing to draw, the RGBA buffer it hands to
      putImageData, or a thrown error. */
  datatype Drawing = Blank | Rendered(rgba: seq<byte>) | Throws

  /** drawProcessedImage without the canvas: no image gives no result; an image it cannot
      draw throws; otherwise the buffer holds `4 * width * height` bytes with every
      channel of every pixel at its place. */
  method DrawProcessedImage(image: Option<Image>) returns (result: Drawing)
    ensures result == Blank <==> image.None?
    ensures result == Throws <==> image.Some? && !Drawable(image.value)
    ensures result.Rendered? ==>
      && image.Some? && Drawable(image.value)
      && |result.rgba| == 4 * Width(image.value) * |image.value|
      && Drawn(image.value, result.rgba, 0, |image.value|)
  {
    if image.None? {
      return Blank;
    }
    if !Drawable(image.value) {
      return Throws;
    }
    var width := Width(image.value);
    var height := |image.value|;
    var data := new byte[4 * width * height];
    FillImageData(image.value, data);
    result := Rendered(data[..]);
  }

  /** Every byte of the buffer is the byte of exactly one (pixel, channel) pair. */
  lemma ByteIndexOnto(width: nat, height: nat, i: nat)
    requires i < 4 * width * height
    ensures exists x: nat, y: nat, k: nat :: x < width && y < height && k < 4 && ByteIndex(width, x, y, k) == i
  {
    var p, k := i / 4, i % 4;
    assert width > 0;
    var y, x := p / width, p % width;
    assert p == y * width + x;
    assert i == ByteIndex(width, x, y, k);
    MulSign(y - height + 1, width);
    assert (y - height + 1) * width == y * width - height * width + width;
    assert width * height == height * width;
  }

  // ---------------------------------------------------------------------------
  // The image list (loadImages) and the name shown for each image
  // ---------------------------------------------------------------------------

  /** An object of the listed bucket: its key and its modification time, here a number. */
  datatype ImageItem = ImageItem(key: string, lastModified: int)

  /** A key ending in `/` names a folder. */
  predicate IsFolder(key: string) {
    |key| > 0 && key[|key| - 1] == '/'
  }

  /** `filter(image => !image.key.endsWith('/'))`: the items that are not folders, in order. */
  function FilesOnly(images: seq<ImageItem>): (files: seq<ImageItem>)
    ensures forall e :: e in files ==> !IsFolder(e.key)
  {
    if images == [] then []
    else (if IsFolder(images[0].key) then [] else [images[0]]) + FilesOnly(images[1..])
  }

  /** Every file keeps its multiplicity; folders are gone. */
  lemma {:induction false} FilesOnlyCounts(images: seq<ImageItem>)
    ensures forall e :: multiset(FilesOnly(images))[e] == if IsFolder(e.key) then 0 else multiset(images)[e]
  {
    if images != [] {
      FilesOnlyCounts(images[1..]);
      assert images == [images[0]] + images[1..];
    }
  }

  /** Most recently modified first. */
  ghost predicate NewestFirst(s: seq<ImageItem>) {
    forall i, j :: 0 <= i < j < |s| ==> s[i].lastModified >= s[j].lastModified
  }

  /** An item no older than the head of a newest-first list can go in front of it. */
  lemma ConsNewestFirst(x: ImageItem, s: seq<ImageItem>)
    requires NewestFirst(s) && (s == [] || s[0].lastModified <= x.lastModified)
    ensures NewestFirst([x] + s)
  {
    var r := [x] + s;
    forall i, j | 0 <= i < j < |r| ensures r[i].lastModified >= r[j].lastModified {
      if i == 0 {
        assert r[j] == s[j - 1] && s[0].lastModified >= s[j - 1].lastModified;
      } else {
        assert r[i] == s[i - 1] && r[j] == s[j - 1];
      }
    }
  }

  /** Puts `e` in front of the first item that is not newer than it. */
  function InsertByRecency(e: ImageItem, sorted: seq<ImageItem>): (r: seq<ImageItem>)
    requires NewestFirst(sorted)
    ensures NewestFirst(r)
    ensures r != [] && (r[0] == e || (sorted != [] && r[0] == sorted[0]))
  {
    if sorted == [] || sorted[0].lastModified <= e.lastModified then
      ConsNewestFirst(e, sorted);
      [e] + sorted
    else
      var tail := sorted[1..];
      assert sorted == [sorted[0]] + tail;
      assert tail != [] ==> tail[0] == sorted[1];
      var rest := InsertByRecency(e, tail);
      ConsNewestFirst(sorted[0], rest);
      [sorted[0]] + rest
  }

  /** Inserting adds `e` and loses nothing. */
  lemma {:induction false} InsertPermutes(e: ImageItem, sorted: seq<ImageItem>)
    requires NewestFirst(sorted)
    ensures multiset(InsertByRecency(e, sorted)) == multiset(sorted) + multiset{e}
  {
    if !(sorted == [] || sorted[0].lastModified <= e.lastModified) {
      var tail := sorted[1..];
      assert sorted == [sorted[0]] + tail;
      InsertPermutes(e, tail);
    }
  }

  /** `sort((a, b) => b.last_modified - a.last_modified)`: a stable sort, newest first. */
  function SortByRecency(images: seq<ImageItem>): (r: seq<ImageItem>)
    ensures NewestFirst(r)
    ensures multiset(r) == multiset(images)
  {
    if images == [] then []
    else
      assert images == [images[0]] + images[1..];
      var rest := SortByRecency(images[1..]);
      InsertPermutes(images[0], rest);
      InsertByRecency(images[0], rest)
  }

  /** The items modified at time `t`, in order. */
  function WithTime(s: seq<ImageItem>, t: int): seq<ImageItem> {
    if s == [] then []
    else (if s[0].lastModified == t then [s[0]] else []) + WithTime(s[1..], t)
  }

  lemma {:induction false} WithTimeAppend(a: seq<ImageItem>, b: seq<ImageItem>, t: int)
    ensures WithTime(a + b, t) == WithTime(a, t) + WithTime(b, t)
  {
    if a != [] {
      assert (a + b)[0] == a[0] && (a + b)[1..] == a[1..] + b;
      WithTimeAppend(a[1..], b, t);
    } else {
      assert a + b == b;
    }
  }

  lemma {:induction false} InsertKeepsTies(e: ImageItem, sorted: seq<ImageItem>, t: int)
    requires NewestFirst(sorted)
    ensures WithTime(InsertByRecency(e, sorted), t) == WithTime([e] + sorted, t)
  {
    if !(sorted == [] || sorted[0].lastModified <= e.lastModified) {
      var s0, rest := sorted[0], sorted[1..];
      var r := InsertByRecency(e, sorted);
      var mid := InsertByRecency(e, rest);
      assert r == [s0] + mid;
      InsertKeepsTies(e, rest, t);
      var tiedS0 := if s0.lastModified == t then [s0] else [];
      var tiedE := if e.lastModified == t then [e] else [];
      assert r[1..] == mid && ([e] + rest)[1..] == rest && ([e] + sorted)[1..] == sorted;
      assert WithTime(r, t) == tiedS0 + WithTime([e] + rest, t) == tiedS0 + (tiedE + WithTime(rest, t));
      assert WithTime([e] + sorted, t) == tiedE + WithTime(sorted, t) == tiedE + (tiedS0 + WithTime(rest, t));
      assert tiedS0 == [] || tiedE == [];
    }
  }

  /** The sort is stable: items with the same modification time keep their order. */
  lemma {:induction false} SortIsStable(images: seq<ImageItem>, t: int)
    ensures WithTime(SortByRecency(images), t) == WithTime(images, t)
  {
    if images != [] {
      var rest := images[1..];
      SortIsStable(rest, t);
      InsertKeepsTies(images[0], SortByRecency(rest), t);
      var tied := if images[0].lastModified == t then [images[0]] else [];
      assert ([images[0]] + SortByRecency(rest))[1..] == SortByRecency(rest);
      assert WithTime(SortByRecency(images), t) == tied + WithTime(SortByRecency(rest), t);
    }
  }

  /** `filter` keeps the listed order: filtering a concatenation filters each part. */
  lemma {:induction false} FilesOnlyAppend(a: seq<ImageItem>, b: seq<ImageItem>)
    ensures FilesOnly(a + b) == FilesOnly(a) + FilesOnly(b)
  {
    if a == [] {
      assert a + b == b;
    } else {
      var ab := a + b;
      assert ab[0] == a[0] && ab[1..] == a[1..] + b;
      FilesOnlyAppend(a[1..], b);
      var kept := if IsFolder(a[0].key) then [] else [a[0]];
      assert FilesOnly(ab) == kept + FilesOnly(ab[1..]);
      assert FilesOnly(a) == kept + FilesOnly(a[1..]);
    }
  }

  /** Dropping folders and picking the items of one timestamp can be done in either order. */
  lemma {:induction false} FilesOnlyWithTime(s: seq<ImageItem>, t: int)
    ensures WithTime(FilesOnly(s), t) == FilesOnly(WithTime(s, t))
  {
    if s != [] {
      var rest := s[1..];
      FilesOnlyWithTime(rest, t);
      var kept := if IsFolder(s[0].key) then [] else [s[0]];
      var tied := if s[0].lastModified == t then [s[0]] else [];
      assert FilesOnly(s) == kept + FilesOnly(rest);
      assert WithTime(s, t) == tied + WithTime(rest, t);
      WithTimeAppend(kept, FilesOnly(rest), t);
      FilesOnlyAppend(tied, WithTime(rest, t));
      assert [s[0]][1..] == [];
    }
  }

  /** The list loadImages shows: the listed items without folders, newest first; each
      file is kept as often as it was listed, and files with the same timestamp keep
      their listed order. */
  function LoadedImages(listed: seq<ImageItem>): (shown: seq<ImageItem>)
    ensures forall e :: e in shown ==> !IsFolder(e.key)
    ensures forall e :: multiset(shown)[e] == if IsFolder(e.key) then 0 else multiset(listed)[e]
    ensures NewestFirst(shown)
    ensures forall t :: WithTime(shown, t) == FilesOnly(WithTime(listed, t))
  {
    var files := FilesOnly(listed);
    var shown := SortByRecency(files);
    FilesOnlyCounts(listed);
    assert forall t :: WithTime(shown, t) == FilesOnly(WithTime(listed, t)) by {
      forall t ensures WithTime(shown, t) == FilesOnly(WithTime(listed, t)) {
        SortIsStable(files, t);
        FilesOnlyWithTime(listed, t);
      }
    }
    assert forall e :: e in shown ==> e in files by {
      forall e | e in shown ensures e in files {
        assert e in multiset(shown);
      }
    }
    shown
  }

  /** `key.split('/').pop()`: the part of the key after its last `/`, or the whole key. */
  function DisplayName(key: string): (name: string)
    ensures '/' !in name
    ensures |name| <= |key| && name == key[|key| - |name|..]
    ensures |name| < |key| ==> key[|key| - |name| - 1] == '/'
  {
    if key == [] || key[|key| - 1] == '/' then []
    else DisplayName(key[..|key| - 1]) + [key[|key| - 1]]
  }

  /** The key an upload is stored under, `${userSub}/${file.name}`, is shown under the
      file's own name. */
  lemma UploadedNameShown(userSub: string, fileName: string)
    requires '/' !in fileName
    ensures DisplayName(userSub + "/" + fileName) == fileName
  {
    var key := userSub + "/" + fileName;
    var name := DisplayName(key);
    assert key[|userSub|] == '/';
    assert key[|key| - |fileName|..] == fileName;
    if |name| > |fileName| {
      assert false;
    } else if |name| < |fileName| {
      assert false;
    }
  }

  // ---------------------------------------------------------------------------
  // The selection state of the page
  // ---------------------------------------------------------------------------

  /** The state the page keeps about the library and the selected image. */
  class Gallery {
    var images: seq<ImageItem>
    var selectedImage: string           // URL of the selected image
    var selectedImageKey: string
    var processedImage: Option<Image>
    var loading: bool
    var error: string

    constructor ()
      ensures images == [] && selectedImage == "" && selectedImageKey == ""
      ensures processedImage == None && !loading && error == ""
    {
      images := [];
      selectedImage := "";
      selectedImageKey := "";
      processedImage := None;
      loading := false;
      error := "";
    }

    /** loadImages once the listing arrived: the list shown, or an error message. */
    method ImagesListed(response: Result<seq<ImageItem>, string>)
      modifies this
      ensures response.Ok? ==> images == LoadedImages(response.value) && error == old(error)
      ensures response.Err? ==> images == old(images) && error == "Failed to load image list: " + response.error
      ensures selectedImage == old(selectedImage) && selectedImageKey == old(selectedImageKey)
      ensures processedImage == old(processedImage) && loading == old(loading)
    {
      match response
      case Ok(listed) => images := LoadedImages(listed);
      case Err(message) => error := "Failed to load image list: " + message;
    }

    /** handleImageSelect up to its request: the key is selected and the URL, the
        processed result and the error are cleared. */
    method SelectImage(imageKey: string)
      modifies this
      ensures selectedImageKey == imageKey && selectedImage == "" && processedImage == None
      ensures loading && error == "" && images == old(images)
    {
      selectedImage := "";
      selectedImageKey := imageKey;
      processedImage := None;
      loading := true;
      error := "";
    }

    /** handleImageSelect once the URL request finished. */
    method ImageUrlReceived(response: Result<string, string>)
      modifies this
      ensures response.Ok? ==> selectedImage == response.value && error == old(error)
      ensures response.Err? ==> selectedImage == old(selectedImage) && error == "Failed to load image: " + response.error
      ensures !loading
      ensures selectedImageKey == old(selectedImageKey) && processedImage == old(processedImage) && images == old(images)
    {
      match response {
        case Ok(url) => selectedImage := url;
        case Err(message) => error := "Failed to load image: " + message;
      }
      loading := false;
    }

    /** processImage up to its request: nothing happens without a selected key;
        otherwise the previous result and error are cleared. */
    method ProcessImage() returns (requested: bool)
      modifies this
      ensures requested <==> old(selectedImageKey) != ""
      ensures !requested ==> loading == old(loading) && processedImage == old(processedImage) && error == old(error)
      ensures requested ==> loading && processedImage == None && error == ""
      ensures selectedImageKey == old(selectedImageKey) && selectedImage == old(selectedImage) && images == old(images)
    {
      if selectedImageKey == "" {
        return false;
      }
      loading := true;
      processedImage := None;
      error := "";
      requested := true;
    }

    /** processImage once the analysis answered. */
    method ProcessingFinished(response: Result<Image, string>)
      modifies this
      ensures response.Ok? ==> processedImage == Some(response.value) && error == old(error)
      ensures response.Err? ==> processedImage == old(processedImage) && error == "Image processing failed: " + response.error
      ensures !loading
      ensures selectedImageKey == old(selectedImageKey) && selectedImage == old(selectedImage) && images == old(images)
    {
      match response {
        case Ok(result) => processedImage := Some(result);
        case Err(message) => error := "Image processing failed: " + message;
      }
      loading := false;
    }
  }
}
