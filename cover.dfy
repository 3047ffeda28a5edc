/** bskybook/cover.py: the geometry of the cover image.

    Pixels are not modelled. An image is its size; a cover is the list of what
    is drawn where: the tiles of the mosaic with their crop boxes, the
    translucent title band, and the two lines of text. Downloading and
    decoding a thumbnail, measuring text in a font, and reading the clock are
    parameters. */
module Cover {
  import opened Wrappers
  import opened Strings
  import opened Content

  const CoverWidth: int := 1264
  const CoverHeight: int := 1680
  /** Height of the band at the bottom that the mosaic leaves for the title. */
  const TitleBand: int := 200
  const Columns: int := 2
  const MaxImages: nat := 20

  /** A decoded image has at least one pixel in each direction. */
  type Pixels = x: int | x >= 1 witness 1

  datatype ImageSize = ImageSize(width: Pixels, height: Pixels)

  /** The extent `textbbox` reports for a text in a font. */
  datatype TextSize = TextSize(width: int, height: int)

  /** The date `datetime.now()` gives, with the names `strftime` prints. */
  datatype Today = Today(weekday: string, day: int, month: string, year: nat)

  // ---------------------------------------------------------------------------
  // _get_ordinal_suffix and _format_creation_date
  // ---------------------------------------------------------------------------

  /** _get_ordinal_suffix. Python's `%` with a positive divisor never gives a
      negative result, exactly like Dafny's. */
  function OrdinalSuffix(day: int): (s: string)
    ensures s in {"st", "nd", "rd", "th"}
  {
    if 10 <= day % 100 <= 20 then "th"
    else if day % 10 == 1 then "st"
    else if day % 10 == 2 then "nd"
    else if day % 10 == 3 then "rd"
    else "th"
  }

  /** The English rule stated the usual way: numbers ending in 11, 12 or 13
      take "th"; otherwise the last digit 1, 2, 3 gives "st", "nd", "rd" and any
      other digit gives "th". */
  function EnglishOrdinalSuffix(n: int): string {
    var last := n % 10;
    if 11 <= n % 100 <= 13 then "th"
    else if last == 1 then "st" else if last == 2 then "nd" else if last == 3 then "rd"
    else "th"
  }

  /** The range 10..20 of the source covers more than 11..13, but every other
      number in it ends in 0 or 4..9 and takes "th" anyway: the two rules agree
      for every number. */
  lemma OrdinalSuffixIsEnglish(day: int)
    ensures OrdinalSuffix(day) == EnglishOrdinalSuffix(day)
  {
    var r := day % 100;
    LastDigit(day);
    if 10 <= r < 20 {
      assert day % 10 == r - 10;
    } else if r == 20 {
      assert day % 10 == 0;
    }
  }

  /** The last digit of a number is the last digit of its last two. */
  lemma LastDigit(n: int)
    ensures n % 10 == (n % 100) % 10
  {
    var q, r := n / 100, n % 100;
    var m := 10 * q + r / 10;
    assert r == 10 * (r / 10) + r % 10;
    assert n == 10 * m + r % 10;
    RemainderUnique(n, m, r % 10);
  }

  lemma RemainderUnique(n: int, m: int, d: int)
    requires n == 10 * m + d && 0 <= d < 10
    ensures n % 10 == d
  {
    assert n == 10 * (n / 10) + n % 10;
    assert m == n / 10;
  }

  /** _format_creation_date: "%A, {day}{suffix} of %B %Y". */
  function FormatCreationDate(today: Today): (s: string)
    requires today.day >= 0
  {
    today.weekday + ", " + NatToString(today.day) + OrdinalSuffix(today.day) + " of "
      + today.month + " " + NatToString(today.year)
  }

  function Subtitle(today: Today): string
    requires today.day >= 0
  {
    "Created on " + FormatCreationDate(today) + ", by bskybook"
  }

  /** At position p of s a reader finds the number n: a maximal run of digits
      that denotes n, followed by the two-letter word. */
  predicate NumberAt(s: string, p: nat, n: nat, word: string) {
    var digits := NatToString(n);
    p + |digits| + |word| <= |s|
    && (forall i :: p <= i < p + |digits| ==> IsDigit(s[i]))
    && (p + |digits| == |s| || !IsDigit(s[p + |digits|]))
    && DecimalValue(s[p..p + |digits|]) == n
    && s[p + |digits|..p + |digits| + |word|] == word
  }

  /** Where the pieces of `head + mid + word + tail` lie. */
  lemma Pieces(head: string, mid: string, word: string, tail: string)
    ensures var s, p, q := head + mid + word + tail, |head|, |head| + |mid|;
      q + |word| <= |s| && s[..p] == head && s[p..q] == mid && s[q..q + |word|] == word
      && (forall i :: p <= i < q ==> s[i] == mid[i - p])
  {
    var rest := mid + word + tail;
    var s := head + rest;
    assert s == head + mid + word + tail;
    assert s[|head|..|head| + |mid|] == rest[..|mid|] == mid;
    assert s[|head| + |mid|..|head| + |mid| + |word|] == rest[|mid|..|mid| + |word|] == word;
  }

  /** A number printed between a head and a word that starts with a non-digit
      is found again right after the head. */
  lemma NumberField(head: string, n: nat, word: string, tail: string)
    requires |word| == 2 && !IsDigit(word[0])
    ensures var s := head + NatToString(n) + word + tail;
      s[..|head|] == head && NumberAt(s, |head|, n, word)
  {
    var digits := NatToString(n);
    var s := head + digits + word + tail;
    Pieces(head, digits, word, tail);
    var q := |head| + |digits|;
    assert s[q] == s[q..q + 2][0] == word[0];
    NatToStringRoundTrip(n);
  }

  /** The creation date reads back: after "<weekday>, " the day is a maximal
      run of digits followed by its English suffix, and the text ends with
      " of <month> " and the digits of the year. */
  lemma CreationDateReadsBack(today: Today)
    requires today.day >= 0
    ensures var s, p, y := FormatCreationDate(today), |today.weekday| + 2, NatToString(today.year);
      p <= |s| && s[..p] == today.weekday + ", "
      && NumberAt(s, p, today.day, EnglishOrdinalSuffix(today.day))
      && EndsWith(s, " of " + today.month + " " + y) && DecimalValue(y) == today.year
  {
    var suffix := OrdinalSuffix(today.day);
    var head := today.weekday + ", ";
    var tail := " of " + today.month + " " + NatToString(today.year);
    var s := FormatCreationDate(today);
    assert s == head + NatToString(today.day) + suffix + tail;
    assert !IsDigit(suffix[0]);
    NumberField(head, today.day, suffix, tail);
    OrdinalSuffixIsEnglish(today.day);
    assert s[|s| - |tail|..] == tail;
    NatToStringRoundTrip(today.year);
  }

  /** The subtitle can be read back: after "Created on ", the weekday and ", "
      comes the day, printed so that it reads back as itself, followed by its
      English ordinal suffix. */
  lemma SubtitleReadsBack(today: Today)
    requires today.day >= 0
    ensures var s, p := Subtitle(today), 13 + |today.weekday|;
      p <= |s| && s[..p] == "Created on " + today.weekday + ", "
      && NumberAt(s, p, today.day, EnglishOrdinalSuffix(today.day))
  {
    var suffix := OrdinalSuffix(today.day);
    var head := "Created on " + today.weekday + ", ";
    var tail := " of " + today.month + " " + NatToString(today.year) + ", by bskybook";
    assert Subtitle(today) == head + NatToString(today.day) + suffix + tail;
    assert |head| == 13 + |today.weekday|;
    assert !IsDigit(suffix[0]);
    NumberField(head, today.day, suffix, tail);
    OrdinalSuffixIsEnglish(today.day);
  }

  // ---------------------------------------------------------------------------
  // _crop_to_fill
  // ---------------------------------------------------------------------------

  lemma MulMono(a: int, b: int, c: int)
    requires a <= b && c >= 0
    ensures a * c <= b * c
  {
  }

  lemma FloorDiv(a: int, b: int)
    requires b > 0
    ensures (a / b) * b <= a < (a / b) * b + b
  {
  }

  /** Rounding a quotient down never takes it below a whole number it
      reaches exactly. */
  lemma DivAtLeast(n: int, d: int, t: int)
    requires d > 0 && t * d <= n
    ensures n / d >= t
  {
    FloorDiv(n, d);
    if n / d < t {
      MulMono(n / d + 1, t, d);
    }
  }

  /** The size _crop_to_fill scales the image to. With exact ratios, the image
      is wider than the target when iw/ih > tw/th, that is iw*th > tw*ih. It
      then gets the target height and the width that keeps its ratio, rounded
      down. Otherwise it gets the target width and the height that keeps its
      ratio, rounded down. Either way it covers the whole target. */
  function ScaleToFill(img: ImageSize, targetWidth: int, targetHeight: int): (s: (int, int))
    requires targetWidth > 0 && targetHeight > 0
    ensures s.0 >= targetWidth && s.1 >= targetHeight
    ensures img.width * targetHeight > targetWidth * img.height ==>
      s.1 == targetHeight
      && s.0 * img.height <= targetHeight * img.width < s.0 * img.height + img.height
    ensures img.width * targetHeight <= targetWidth * img.height ==>
      s.0 == targetWidth
      && s.1 * img.width <= targetWidth * img.height < s.1 * img.width + img.width
  {
    var (iw, ih, tw, th) := (img.width, img.height, targetWidth, targetHeight);
    if iw * th > tw * ih then
      FloorDiv(th * iw, ih);
      DivAtLeast(th * iw, ih, tw);
      (th * iw / ih, th)
    else
      FloorDiv(tw * ih, iw);
      DivAtLeast(tw * ih, iw, th);
      (tw, tw * ih / iw)
  }

  /** The scaled size and the box cut out of the scaled image. */
  datatype Crop = Crop(scaledWidth: int, scaledHeight: int, left: int, top: int, right: int, bottom: int)

  /** _crop_to_fill: the box is exactly the target size, lies inside the
      scaled image, and is centred in it up to one pixel in each direction. */
  function CropToFill(img: ImageSize, targetWidth: int, targetHeight: int): (c: Crop)
    requires targetWidth > 0 && targetHeight > 0
    ensures (c.scaledWidth, c.scaledHeight) == ScaleToFill(img, targetWidth, targetHeight)
    ensures c.right - c.left == targetWidth && c.bottom - c.top == targetHeight
    ensures 0 <= c.left && c.right <= c.scaledWidth && 0 <= c.top && c.bottom <= c.scaledHeight
    ensures 0 <= (c.scaledWidth - c.right) - c.left <= 1 && 0 <= (c.scaledHeight - c.bottom) - c.top <= 1
  {
    var (sw, sh) := ScaleToFill(img, targetWidth, targetHeight);
    var left := (sw - targetWidth) / 2;
    var top := (sh - targetHeight) / 2;
    Crop(sw, sh, left, top, left + targetWidth, top + targetHeight)
  }

  // ---------------------------------------------------------------------------
  // _create_mosaic: the grid
  // ---------------------------------------------------------------------------

  /** rows = ceil(n / 2). */
  function Rows(n: int): (rows: int)
    requires n >= 1
    ensures 2 * (rows - 1) < n <= 2 * rows
  {
    (n + 1) / 2
  }

  function CellWidth(): int {
    CoverWidth / Columns
  }

  /** The height left above the title band, shared equally by the rows. */
  function CellHeight(n: int): (h: int)
    requires n >= 1
    ensures h * Rows(n) <= CoverHeight - TitleBand < (h + 1) * Rows(n)
  {
    FloorDiv(CoverHeight - TitleBand, Rows(n));
    (CoverHeight - TitleBand) / Rows(n)
  }

  /** One tile of the mosaic: where the cropped image is pasted, and its crop. */
  datatype Tile = Tile(x: int, y: int, crop: Crop)

  /** Where image idx goes: column idx % 2, row idx / 2. */
  function CellOrigin(n: int, idx: int): (xy: (int, int))
    requires 1 <= n && 0 <= idx < n
  {
    (idx % Columns * CellWidth(), idx / Columns * CellHeight(n))
  }

  /** The cells lie inside the cover and above the title band, each one cell
      wide and high. Needs the grid to have cells at least one pixel high,
      which any number of images up to 2960 gives. */
  lemma CellInside(n: int, idx: int)
    requires 1 <= n <= 2960 && 0 <= idx < n
    ensures var (x, y) := CellOrigin(n, idx);
      0 <= x && x + CellWidth() <= CoverWidth
      && 0 <= y && y + CellHeight(n) <= CoverHeight - TitleBand
      && CellHeight(n) >= 1
  {
    var h := CellHeight(n);
    var rows := Rows(n);
    var row := idx / 2;
    assert row + 1 <= rows;
    MulMono(row + 1, rows, h);
    assert h >= 1;
  }

  /** Two different images never share a pixel of their cells. */
  lemma CellsDisjoint(n: int, a: int, b: int)
    requires 1 <= n <= 2960 && 0 <= a < n && 0 <= b < n && a != b
    ensures var (xa, ya) := CellOrigin(n, a);
      var (xb, yb) := CellOrigin(n, b);
      xa + CellWidth() <= xb || xb + CellWidth() <= xa
      || ya + CellHeight(n) <= yb || yb + CellHeight(n) <= ya
  {
    var h := CellHeight(n);
    CellInside(n, a);
    var ra, rb := a / 2, b / 2;
    if ra == rb {
      assert a % 2 != b % 2;
    } else if ra < rb {
      RowBelow(ra, rb, h);
    } else {
      RowBelow(rb, ra, h);
    }
  }

  /** A row that comes later starts below the end of an earlier one. */
  lemma RowBelow(r: int, s: int, h: int)
    requires 0 <= r < s && h >= 0
    ensures r * h + h <= s * h
  {
    MulMono(r + 1, s, h);
    assert (r + 1) * h == r * h + h;
  }

  /** The tiles `_create_mosaic` pastes, in image order. */
  function MosaicTiles(images: seq<ImageSize>): (tiles: seq<Tile>)
    requires 1 <= |images| <= 2960
    ensures |tiles| == |images|
  {
    var n := |images|;
    CellInside(n, 0);
    seq(n, i requires 0 <= i < n =>
      Tile(CellOrigin(n, i).0, CellOrigin(n, i).1, CropToFill(images[i], CellWidth(), CellHeight(n))))
  }

  /** Every tile exactly fills its own cell: the crop is one cell in size and
      is pasted at the cell's origin, inside the area above the title band. */
  lemma MosaicTilesFill(images: seq<ImageSize>, i: int)
    requires 1 <= |images| <= 2960
    requires 0 <= i < |images|
    ensures var t := MosaicTiles(images)[i];
      (t.x, t.y) == CellOrigin(|images|, i)
      && t.crop.right - t.crop.left == CellWidth() && t.crop.bottom - t.crop.top == CellHeight(|images|)
      && 0 <= t.x && t.x + CellWidth() <= CoverWidth
      && 0 <= t.y && t.y + CellHeight(|images|) <= CoverHeight - TitleBand
  {
    CellInside(|images|, i);
  }

  // ---------------------------------------------------------------------------
  // Text placement: _add_title_overlay and _create_simple_cover
  // ---------------------------------------------------------------------------

  /** A line of text drawn at (x, y) in a font of the given size. */
  datatype TextDraw = TextDraw(text: string, fontSize: nat, x: int, y: int)

  /** Horizontal position that centres a text of width w on a canvas of width W. */
  function CenterX(canvasWidth: int, w: int): (x: int)
    ensures 0 <= canvasWidth - (2 * x + w) <= 1
  {
    (canvasWidth - w) / 2
  }

  /** Title and subtitle stacked from startY: the subtitle starts `spacing`
      below the title, and each line is centred across the cover. */
  function StackText(title: string, titleFont: nat, titleSize: TextSize,
                     subtitle: string, subtitleFont: nat, subtitleSize: TextSize,
                     startY: int, spacing: int): (lines: (TextDraw, TextDraw))
    ensures lines.0.y == startY && lines.1.y == startY + titleSize.height + spacing
    ensures 0 <= CoverWidth - (2 * lines.0.x + titleSize.width) <= 1
    ensures 0 <= CoverWidth - (2 * lines.1.x + subtitleSize.width) <= 1
    ensures lines.0.text == title && lines.1.text == subtitle
    ensures lines.0.fontSize == titleFont && lines.1.fontSize == subtitleFont
  {
    (TextDraw(title, titleFont, CenterX(CoverWidth, titleSize.width), startY),
     TextDraw(subtitle, subtitleFont, CenterX(CoverWidth, subtitleSize.width), startY + titleSize.height + spacing))
  }

  const OverlaySpacing: int := 10
  const SimpleSpacing: int := 20

  /** Height of the title, the spacing and the subtitle together. */
  function BlockHeight(titleSize: TextSize, subtitleSize: TextSize, spacing: int): int {
    titleSize.height + spacing + subtitleSize.height
  }

  /** Top of the text block in the overlay: half the block above the middle of
      the band. */
  function OverlayStartY(total: int): (y: int)
    ensures 0 <= (2 * y + total) - 2 * (CoverHeight - TitleBand / 2) <= 1
    ensures 0 <= total <= TitleBand ==> CoverHeight - TitleBand <= y && y + total <= CoverHeight
  {
    CoverHeight - TitleBand / 2 - total / 2
  }

  /** Top of the text block on the simple cover: the block centred on the page. */
  function SimpleStartY(total: int): (y: int)
    ensures 0 <= CoverHeight - (2 * y + total) <= 1
    ensures 0 <= total <= CoverHeight ==> 0 <= y && y + total <= CoverHeight
  {
    (CoverHeight - total) / 2
  }

  // ---------------------------------------------------------------------------
  // The cover as drawn
  // ---------------------------------------------------------------------------

  /** The translucent rectangle of the overlay: (left, top) to (right, bottom)
      and its alpha. */
  datatype Band = Band(left: int, top: int, right: int, bottom: int, alpha: int)

  datatype CoverImage =
    | Mosaic(background: string, tiles: seq<Tile>, band: Band, title: TextDraw, subtitle: TextDraw)
    | Simple(background: string, title: TextDraw, subtitle: TextDraw)

  /** _add_title_overlay over the mosaic tiles. */
  function MosaicCover(tiles: seq<Tile>, title: string, today: Today, measure: (string, nat) -> TextSize): (c: CoverImage)
    requires today.day >= 0
    ensures c.Mosaic? && c.tiles == tiles && c.title.text == title
    ensures c.band == Band(0, CoverHeight - TitleBand, CoverWidth, CoverHeight, 180)
    ensures c.title.fontSize == 60 && c.subtitle.fontSize == 24
    ensures c.background == "#1a1a1a" && c.subtitle.text == Subtitle(today)
  {
    var sub := Subtitle(today);
    var ts, ss := measure(title, 60), measure(sub, 24);
    var lines := StackText(title, 60, ts, sub, 24, ss,
      OverlayStartY(BlockHeight(ts, ss, OverlaySpacing)), OverlaySpacing);
    Mosaic("#1a1a1a", tiles, Band(0, CoverHeight - TitleBand, CoverWidth, CoverHeight, 180), lines.0, lines.1)
  }

  /** _create_simple_cover. */
  function SimpleCover(title: string, today: Today, measure: (string, nat) -> TextSize): (c: CoverImage)
    requires today.day >= 0
    ensures c.Simple? && c.title.text == title
    ensures c.title.fontSize == 80 && c.subtitle.fontSize == 30
    ensures c.background == "#2C3E50" && c.subtitle.text == Subtitle(today)
  {
    var sub := Subtitle(today);
    var ts, ss := measure(title, 80), measure(sub, 30);
    var lines := StackText(title, 80, ts, sub, 30, ss,
      SimpleStartY(BlockHeight(ts, ss, SimpleSpacing)), SimpleSpacing);
    Simple("#2C3E50", lines.0, lines.1)
  }

  /** On both covers the title sits centred, the subtitle follows it after the
      spacing, and when the two lines fit (in the band, or on the page) the
      block lies inside it, centred up to a pixel. */
  lemma TextPlacement(title: string, today: Today, measure: (string, nat) -> TextSize, tiles: seq<Tile>)
    requires today.day >= 0
    ensures var c := MosaicCover(tiles, title, today, measure);
      var ts, ss := measure(title, 60), measure(Subtitle(today), 24);
      var total := BlockHeight(ts, ss, OverlaySpacing);
      c.subtitle.y == c.title.y + ts.height + OverlaySpacing
      && 0 <= CoverWidth - (2 * c.title.x + ts.width) <= 1
      && 0 <= CoverWidth - (2 * c.subtitle.x + ss.width) <= 1
      && 0 <= (2 * c.title.y + total) - 2 * (CoverHeight - TitleBand / 2) <= 1
      && (0 <= total <= TitleBand ==> c.band.top <= c.title.y && c.title.y + total <= c.band.bottom)
    ensures var c := SimpleCover(title, today, measure);
      var ts, ss := measure(title, 80), measure(Subtitle(today), 30);
      var total := BlockHeight(ts, ss, SimpleSpacing);
      c.subtitle.y == c.title.y + ts.height + SimpleSpacing
      && 0 <= CoverWidth - (2 * c.title.x + ts.width) <= 1
      && 0 <= CoverWidth - (2 * c.subtitle.x + ss.width) <= 1
      && 0 <= CoverHeight - (2 * c.title.y + total) <= 1
  {
  }

  // ---------------------------------------------------------------------------
  // _download_images and generate_cover
  // ---------------------------------------------------------------------------

  /** `urls[:20]`. */
  function FirstImages(urls: seq<string>): (r: seq<string>)
    ensures |r| <= MaxImages && |r| <= |urls| && r == urls[..|r|]
    ensures |urls| <= MaxImages ==> r == urls
    ensures |urls| > MaxImages ==> r == urls[..MaxImages]
  {
    if |urls| <= MaxImages then urls else urls[..MaxImages]
  }

  /** What fetching and decoding each of the first 20 URLs gives. */
  function Downloads(urls: seq<string>, fetch: string -> Option<ImageSize>): (r: seq<Option<ImageSize>>)
    ensures |r| == |FirstImages(urls)|
  {
    var first := FirstImages(urls);
    seq(|first|, i requires 0 <= i < |first| => fetch(first[i]))
  }

  lemma DownloadsGrow(urls: seq<string>, fetch: string -> Option<ImageSize>, i: nat)
    requires i < |urls|
    ensures Downloads(urls[..i + 1], fetch) ==
      (if i < MaxImages then Downloads(urls[..i], fetch) + [fetch(urls[i])] else Downloads(urls[..i], fetch))
  {
    assert urls[..i + 1][..i] == urls[..i];
    if i >= MaxImages {
      assert urls[..i + 1][..MaxImages] == urls[..i][..MaxImages];
    }
  }

  /** _download_images: the images of the first 20 URLs, in URL order, with
      every URL whose download or decoding fails skipped. */
  method DownloadImages(urls: seq<string>, fetch: string -> Option<ImageSize>) returns (images: seq<ImageSize>)
    ensures images == Somes(Downloads(urls, fetch))
  {
    images := [];
    var first := FirstImages(urls);
    var i := 0;
    while i < |first|
      invariant 0 <= i <= |first|
      invariant images == Somes(Downloads(first[..i], fetch))
    {
      DownloadsGrow(first, fetch, i);
      var img := fetch(first[i]);
      if img.Some? {
        images := images + [img.value];
      }
      i := i + 1;
    }
    assert first[..i] == first;
    assert FirstImages(first) == first;
    assert Downloads(first, fetch) == Downloads(urls, fetch);
  }

  /** At most 20 images come back, each fetched from one of the first 20 URLs. */
  lemma DownloadedImages(urls: seq<string>, fetch: string -> Option<ImageSize>, img: ImageSize)
    ensures |Somes(Downloads(urls, fetch))| <= MaxImages
    ensures img in Somes(Downloads(urls, fetch)) <==>
      exists i :: 0 <= i < |urls| && i < MaxImages && fetch(urls[i]) == Some(img)
  {
    var d := Downloads(urls, fetch);
    var first := FirstImages(urls);
    SomesMembers(d, img);
    if Some(img) in d {
      var i :| 0 <= i < |d| && d[i] == Some(img);
      assert first[i] == urls[i];
    } else {
      forall i | 0 <= i < |urls| && i < MaxImages ensures fetch(urls[i]) != Some(img) {
        assert first[i] == urls[i];
        assert d[i] == fetch(urls[i]);
      }
    }
  }

  /** Each article's thumbnail URL when it is non-empty, in article order. */
  function Thumbnails(articles: seq<Article>): (t: seq<Option<string>>)
    ensures |t| == |articles|
  {
    seq(|articles|, i requires 0 <= i < |articles| =>
      if Truthy(articles[i].thumbnailUrl) then articles[i].thumbnailUrl else None)
  }

  /** The thumbnail URLs generate_cover uses: those of the articles that have a
      non-empty one, in article order. */
  function ThumbnailUrls(articles: seq<Article>): (urls: seq<string>)
    ensures |urls| <= |articles|
    ensures urls == Somes(Thumbnails(articles))
    ensures forall u :: u in urls <==> exists a :: a in articles && Truthy(a.thumbnailUrl) && a.thumbnailUrl.value == u
    decreases |articles|
  {
    if articles == [] then []
    else
      var last := articles[|articles| - 1];
      var rest := ThumbnailUrls(articles[..|articles| - 1]);
      assert forall a :: a in articles <==> a in articles[..|articles| - 1] || a == last;
      assert Thumbnails(articles)[..|articles| - 1] == Thumbnails(articles[..|articles| - 1]);
      if Truthy(last.thumbnailUrl) then rest + [last.thumbnailUrl.value] else rest
  }

  /** generate_cover, up to the JPEG encoding: the mosaic of the downloaded
      thumbnails, or the simple cover when none could be obtained. */
  method GenerateCover(articles: seq<Article>, title: string, today: Today,
                       fetch: string -> Option<ImageSize>, measure: (string, nat) -> TextSize)
    returns (cover: CoverImage)
    requires today.day >= 0
    ensures var images := Somes(Downloads(ThumbnailUrls(articles), fetch));
      (cover.Simple? <==> images == [])
      && (cover.Simple? ==> cover == SimpleCover(title, today, measure))
      && (cover.Mosaic? ==>
            1 <= |images| <= MaxImages && cover == MosaicCover(MosaicTiles(images), title, today, measure))
  {
    var urls := ThumbnailUrls(articles);
    var images := DownloadImages(urls, fetch);
    if images == [] {
      cover := SimpleCover(title, today, measure);
    } else {
      DownloadedImages(urls, fetch, images[0]);
      var tiles := CreateMosaic(images);
      cover := MosaicCover(tiles, title, today, measure);
    }
  }

  /** _create_mosaic's loop: each image, cropped to one cell, pasted at its
      cell's origin, in image order. */
  method CreateMosaic(images: seq<ImageSize>) returns (tiles: seq<Tile>)
    requires 1 <= |images| <= 2960
    ensures tiles == MosaicTiles(images)
  {
    var n := |images|;
    var cellWidth := CoverWidth / Columns;
    var cellHeight := (CoverHeight - TitleBand) / Rows(n);
    CellInside(n, 0);
    tiles := [];
    var idx := 0;
    while idx < n
      invariant 0 <= idx <= n
      invariant tiles == MosaicTiles(images)[..idx]
    {
      var row := idx / Columns;
      var col := idx % Columns;
      var cropped := CropToFill(images[idx], cellWidth, cellHeight);
      tiles := tiles + [Tile(col * cellWidth, row * cellHeight, cropped)];
      idx := idx + 1;
    }
  }
}
