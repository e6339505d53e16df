/**
 * Entry classification of zip archives, `processZip` and `couldBeImage`
 * (archives.go:75-123): the first ten entries are checked against a list of
 * image extensions, the first candidate becomes the thumbnail source, and an
 * archive whose entries are mostly images is reported as a comic book (cbz).
 *
 * Names are sequences of characters, each standing for one byte, and lower-
 * casing touches ASCII letters only.
 */
module Archives {
  import opened Base

  function LowerChar(c: char): char {
    if 'A' <= c <= 'Z' then (c as int + 32) as char else c
  }

  function Lower(s: string): (t: string)
    ensures |t| == |s| && forall i | 0 <= i < |s| :: t[i] == LowerChar(s[i])
  {
    seq(|s|, i requires 0 <= i < |s| => LowerChar(s[i]))
  }

  predicate HasSuffix(s: string, suffix: string) {
    |suffix| <= |s| && s[|s| - |suffix|..] == suffix
  }

  /** Extensions `couldBeImage` looks for, in the order it tries them. */
  const Extensions: seq<string> := [".png", ".jpg", ".jpeg", ".webp"]

  /** Length of the tail of the name `couldBeImage` keeps. */
  const TailLength: nat := 4

  /** `couldBeImage` as written: the extensions are compared with the lower-cased last four characters only. */
  function CouldBeImage(name: string): (r: bool)
    ensures |name| < TailLength ==> !r
  {
    if |name| < TailLength then false
    else
      var tail := Lower(name[|name| - TailLength..]);
      exists e: nat | e < |Extensions| :: HasSuffix(tail, Extensions[e])
  }

  /** The extension test as evidently intended: against the whole lower-cased name. */
  function CouldBeImageIntended(name: string): (r: bool) {
    exists e: nat | e < |Extensions| :: HasSuffix(Lower(name), Extensions[e])
  }

  lemma LowerSuffix(s: string, n: nat)
    requires n <= |s|
    ensures Lower(s)[|s| - n..] == Lower(s[|s| - n..])
  {
  }

  /** On a four-character tail only the four-character extensions can match. */
  lemma TailMatches(tail: string)
    requires |tail| == TailLength
    ensures (exists e: nat | e < |Extensions| :: HasSuffix(tail, Extensions[e])) <==> tail == ".png" || tail == ".jpg"
  {
    assert |Extensions[2]| > |tail| && |Extensions[3]| > |tail|;
    assert tail[|tail| - 4..] == tail;
    if tail == ".png" {
      assert HasSuffix(tail, Extensions[0]);
    }
    if tail == ".jpg" {
      assert HasSuffix(tail, Extensions[1]);
    }
  }

  /**
   * What `couldBeImage` accepts: exactly the names whose lower-cased form ends
   * in ".png" or ".jpg".
   */
  lemma CouldBeImageMeaning(name: string)
    ensures CouldBeImage(name) <==> HasSuffix(Lower(name), ".png") || HasSuffix(Lower(name), ".jpg")
  {
    if |name| >= TailLength {
      var tail := Lower(name[|name| - TailLength..]);
      TailMatches(tail);
      LowerSuffix(name, TailLength);
      assert HasSuffix(Lower(name), ".png") <==> tail == ".png";
      assert HasSuffix(Lower(name), ".jpg") <==> tail == ".jpg";
    }
  }

  /** Two names with the same lower-cased last four characters are classified alike. */
  lemma CouldBeImageReadsTail(a: string, b: string)
    requires |a| >= TailLength && |b| >= TailLength
    requires Lower(a)[|a| - TailLength..] == Lower(b)[|b| - TailLength..]
    ensures CouldBeImage(a) == CouldBeImage(b)
  {
    LowerSuffix(a, TailLength);
    LowerSuffix(b, TailLength);
  }

  /** A name ending in ".jpeg" or ".webp", in any letter case, is never taken for an image. */
  lemma LongExtensionsRejected(name: string)
    requires HasSuffix(Lower(name), ".jpeg") || HasSuffix(Lower(name), ".webp")
    ensures !CouldBeImage(name)
  {
    CouldBeImageMeaning(name);
    var l := Lower(name);
    assert l[|l| - 4] == l[|l| - 5..][1];
    assert l[|l| - 4] == 'j' || l[|l| - 4] == 'w';
    assert l[|l| - 4..][0] == l[|l| - 4];
  }

  /** The intended test accepts exactly the names whose lower-cased form ends in one of the four extensions. */
  lemma CouldBeImageIntendedMeaning(name: string)
    ensures CouldBeImageIntended(name) <==>
      || HasSuffix(Lower(name), ".png") || HasSuffix(Lower(name), ".jpg")
      || HasSuffix(Lower(name), ".jpeg") || HasSuffix(Lower(name), ".webp")
  {
    var l := Lower(name);
    assert Extensions[0] == ".png" && Extensions[1] == ".jpg";
    assert Extensions[2] == ".jpeg" && Extensions[3] == ".webp";
    if HasSuffix(l, ".png") {
      assert HasSuffix(l, Extensions[0]);
    } else if HasSuffix(l, ".jpg") {
      assert HasSuffix(l, Extensions[1]);
    } else if HasSuffix(l, ".jpeg") {
      assert HasSuffix(l, Extensions[2]);
    } else if HasSuffix(l, ".webp") {
      assert HasSuffix(l, Extensions[3]);
    }
  }

  /**
   * The two tests differ on exactly the names ending in ".jpeg" or ".webp";
   * everything `couldBeImage` accepts, the intended test accepts too.
   */
  lemma IntendedExtendsAsWritten(name: string)
    ensures CouldBeImage(name) ==> CouldBeImageIntended(name)
    ensures CouldBeImageIntended(name) && !CouldBeImage(name) <==>
      HasSuffix(Lower(name), ".jpeg") || HasSuffix(Lower(name), ".webp")
  {
    CouldBeImageMeaning(name);
    CouldBeImageIntendedMeaning(name);
    if HasSuffix(Lower(name), ".jpeg") || HasSuffix(Lower(name), ".webp") {
      LongExtensionsRejected(name);
    }
  }

  /** A ".jpeg" page: the evident intent is to accept it, the code rejects it. */
  lemma JpegPageMissed()
    ensures !CouldBeImage("page.jpeg")
    ensures CouldBeImageIntended("page.jpeg")
  {
    assert Lower("page.jpeg") == "page.jpeg";
    LongExtensionsRejected("page.jpeg");
    assert HasSuffix(Lower("page.jpeg"), Extensions[2]);
  }

  // ---------------------------------------------------------------------------
  // The entry scan of processZip

  /** Number of entries processZip looks at. */
  const ScanLimit: nat := 10

  function Min(a: nat, b: nat): nat {
    if a <= b then a else b
  }

  /** Number of names satisfying `isImage`. */
  function CountImages(names: seq<string>, isImage: string -> bool): (n: nat)
    ensures n <= |names|
    ensures n == 0 <==> forall i | 0 <= i < |names| :: !isImage(names[i])
  {
    if names == [] then 0
    else
      var last := |names| - 1;
      CountImages(names[..last], isImage) + if isImage(names[last]) then 1 else 0
  }

  lemma {:induction false} CountAllImages(names: seq<string>, isImage: string -> bool)
    requires forall i | 0 <= i < |names| :: isImage(names[i])
    ensures CountImages(names, isImage) == |names|
  {
    if names != [] {
      CountAllImages(names[..|names| - 1], isImage);
    }
  }

  datatype Scan = Scan(scanned: nat, imageCount: nat, firstImage: Option<nat>)

  /** The loop of archives.go:80-88 with the extension test `isImage`. */
  method ScanEntries(names: seq<string>, isImage: string -> bool) returns (s: Scan)
    ensures s.scanned == Min(ScanLimit, |names|)
    ensures s.imageCount == CountImages(names[..s.scanned], isImage)
    ensures s.imageCount <= s.scanned
    ensures s.firstImage.None? <==> s.imageCount == 0
    ensures s.firstImage.None? <==> forall i | 0 <= i < s.scanned :: !isImage(names[i])
    ensures s.firstImage.Some? ==>
      && s.firstImage.value < s.scanned
      && isImage(names[s.firstImage.value])
      && forall j | 0 <= j < s.firstImage.value :: !isImage(names[j])
  {
    var imageCount := 0;
    var firstImage: Option<nat> := None;
    var i := 0;
    while i < ScanLimit && i < |names|
      invariant i <= Min(ScanLimit, |names|)
      invariant imageCount == CountImages(names[..i], isImage)
      invariant firstImage.None? <==> imageCount == 0
      invariant firstImage.None? <==> forall j | 0 <= j < i :: !isImage(names[j])
      invariant firstImage.Some? ==>
        && firstImage.value < i
        && isImage(names[firstImage.value])
        && forall j | 0 <= j < firstImage.value :: !isImage(names[j])
    {
      assert names[..i + 1][..i] == names[..i];
      if isImage(names[i]) {
        if firstImage == None {
          firstImage := Some(i);
        }
        imageCount := imageCount + 1;
      }
      i := i + 1;
    }
    s := Scan(i, imageCount, firstImage);
  }

  // ---------------------------------------------------------------------------
  // The comic-book rule

  /**
   * archives.go:92 as written: the candidates among the first ten entries are
   * divided by the number of all entries, and the quotient compared with 0.9.
   * With no entries the quotient is NaN and the comparison fails. The test is
   * decided in integers, `10 * imageCount >= 9 * entries`.
   */
  function ComicAsWritten(imageCount: nat, entries: nat): (comic: bool)
    ensures comic <==> entries > 0 && (imageCount as real) / (entries as real) >= 0.9
  {
    if entries == 0 then false
    else
      DivAtLeast(imageCount as real, entries as real, 0.9);
      TenthsExact(imageCount, entries);
      10 * imageCount >= 9 * entries
  }

  /** The rule the comment above archives.go:92 describes: 90% of the entries looked at. */
  predicate ComicIntended(imageCount: nat, scanned: nat) {
    scanned > 0 && 10 * imageCount >= 9 * scanned
  }

  lemma DivAtLeast(x: real, e: real, y: real)
    requires e > 0.0
    ensures x / e >= y <==> x >= y * e
  {
    DivTimes(x, e);
    RealScale(x / e, y, e);
  }

  lemma DivTimes(x: real, e: real)
    requires e > 0.0
    ensures (x / e) * e == x
  {
  }

  lemma TenthsExact(imageCount: nat, entries: nat)
    ensures (imageCount as real) >= 0.9 * (entries as real) <==> 10 * imageCount >= 9 * entries
  {
  }

  /** Scaling by a positive factor keeps the order. */
  lemma RealScale(x: real, y: real, e: real)
    requires e > 0.0
    ensures x >= y <==> x * e >= y * e
  {
    if x >= y {
      assert x * e - y * e == (x - y) * e;
    } else {
      assert y * e - x * e == (y - x) * e;
    }
  }

  datatype ZipVerdict = ZipVerdict(comic: bool, first: Option<nat>)

  /**
   * The classification part of processZip as written: the as-written extension
   * test and the as-written ratio. `first == None` is `ErrCantThumbnail`.
   */
  method ClassifyZipAsWritten(names: seq<string>) returns (v: ZipVerdict)
    ensures v.first.None? <==> forall i | 0 <= i < Min(ScanLimit, |names|) :: !CouldBeImage(names[i])
    ensures v.first.None? ==> !v.comic
    ensures v.first.Some? ==>
      && v.first.value < Min(ScanLimit, |names|)
      && CouldBeImage(names[v.first.value])
      && forall j | 0 <= j < v.first.value :: !CouldBeImage(names[j])
    ensures v.comic <==>
      ComicAsWritten(CountImages(names[..Min(ScanLimit, |names|)], CouldBeImage), |names|)
    ensures v.comic ==> 0 < |names| <= 11
    ensures 0 < |names| <= ScanLimit && (forall i | 0 <= i < |names| :: CouldBeImage(names[i])) ==> v.comic
  {
    var s := ScanEntries(names, CouldBeImage);
    assert s.imageCount <= ScanLimit;
    if 0 < |names| <= ScanLimit && forall i | 0 <= i < |names| :: CouldBeImage(names[i]) {
      CountAllImages(names[..s.scanned], CouldBeImage);
    }
    v := ZipVerdict(ComicAsWritten(s.imageCount, |names|), s.firstImage);
  }

  /**
   * processZip's classification as evidently intended: every extension in the
   * list counts, and the ratio is taken over the entries looked at.
   */
  method ClassifyZip(names: seq<string>) returns (v: ZipVerdict)
    ensures v.first.None? <==> forall i | 0 <= i < Min(ScanLimit, |names|) :: !CouldBeImageIntended(names[i])
    ensures v.first.None? ==> !v.comic
    ensures v.first.Some? ==>
      && v.first.value < Min(ScanLimit, |names|)
      && CouldBeImageIntended(names[v.first.value])
      && forall j | 0 <= j < v.first.value :: !CouldBeImageIntended(names[j])
    ensures v.comic <==>
      var scanned := Min(ScanLimit, |names|);
      scanned > 0 && 10 * CountImages(names[..scanned], CouldBeImageIntended) >= 9 * scanned
    ensures 0 < |names| && (forall i | 0 <= i < Min(ScanLimit, |names|) :: CouldBeImageIntended(names[i])) ==> v.comic
  {
    var s := ScanEntries(names, CouldBeImageIntended);
    if forall i | 0 <= i < s.scanned :: CouldBeImageIntended(names[i]) {
      CountAllImages(names[..s.scanned], CouldBeImageIntended);
    }
    v := ZipVerdict(ComicIntended(s.imageCount, s.scanned), s.firstImage);
  }

  /**
   * Twelve ".png" pages: the code does not report a comic book, although all
   * the entries it looked at are images.
   */
  method TwelvePages() returns (asWritten: ZipVerdict, intended: ZipVerdict)
    ensures !asWritten.comic
    ensures intended.comic
  {
    var names := seq(12, _ => "p.png");
    assert HasSuffix(Lower("p.png"), Extensions[0]);
    asWritten := ClassifyZipAsWritten(names);
    intended := ClassifyZip(names);
  }
}
