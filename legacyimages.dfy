/**
 * The image half of parse_pdf.py: the renaming loop of `process_kindle_pdf`
 * and the image list that `create_structured_data` builds from the folder it
 * wrote to. The folder is not read: its listing is a parameter, and the
 * files the loop writes come back as a list.
 */
module LegacyImages {
  import opened Wrappers
  import opened Text
  import opened ImageDedup
  import opened StrOrder

  /** One file written by the loop: where, and which bytes. */
  datatype SavedFile = SavedFile(path: string, bytes: seq<bv8>)

  /** The name of the `k`-th distinct image (from 0): the logo first, then the counted notes. */
  function LegacyName(k: nat, ext: string): string {
    if k == 0 then "kindle_logo." + ext else NoteName(k, ext)
  }

  /** The files written for the distinct images `us`, in order. */
  function SavedFiles(dir: string, us: seq<Image>): (fs: seq<SavedFile>)
    ensures |fs| == |us|
  {
    seq(|us|, k requires 0 <= k < |us| => SavedFile(PathJoin(dir, LegacyName(k, us[k].ext)), us[k].bytes))
  }

  /** What the loop writes for the images `imgs`. */
  function Written(dir: string, imgs: seq<Image>, hash: seq<bv8> -> string): seq<SavedFile> {
    SavedFiles(dir, Uniques(imgs, hash))
  }

  /** The k-th file written (from 0) is the k-th distinct image under its name. */
  lemma SavedFileAt(dir: string, us: seq<Image>, k: nat)
    requires k < |us|
    ensures SavedFiles(dir, us)[k] == SavedFile(PathJoin(dir, LegacyName(k, us[k].ext)), us[k].bytes)
  {
  }

  lemma SavedFilesSnoc(dir: string, us: seq<Image>, x: Image)
    ensures SavedFiles(dir, us + [x])
         == SavedFiles(dir, us) + [SavedFile(PathJoin(dir, LegacyName(|us|, x.ext)), x.bytes)]
  {
    var a, b := SavedFiles(dir, us + [x]), SavedFiles(dir, us) + [SavedFile(PathJoin(dir, LegacyName(|us|, x.ext)), x.bytes)];
    forall k | 0 <= k < |a| ensures a[k] == b[k] {
      SavedFilesSnocAt(dir, us, x, k);
    }
  }

  lemma SavedFilesSnocAt(dir: string, us: seq<Image>, x: Image, k: nat)
    requires k <= |us|
    ensures SavedFiles(dir, us + [x])[k]
         == (SavedFiles(dir, us) + [SavedFile(PathJoin(dir, LegacyName(|us|, x.ext)), x.bytes)])[k]
  {
    SavedFileAt(dir, us + [x], k);
    if k < |us| {
      SavedFileAt(dir, us, k);
      assert (us + [x])[k] == us[k];
    }
  }

  /** One more image: nothing is written for a digest seen before; otherwise the next file is. */
  lemma WriteStep(dir: string, done: seq<Image>, img: Image, hash: seq<bv8> -> string)
    ensures Hashes(done + [img], hash) == Hashes(done, hash) + {hash(img.bytes)}
    ensures |Written(dir, done, hash)| == |Hashes(done, hash)|
    ensures hash(img.bytes) in Hashes(done, hash) ==> Written(dir, done + [img], hash) == Written(dir, done, hash)
    ensures hash(img.bytes) !in Hashes(done, hash) ==>
              Written(dir, done + [img], hash)
              == Written(dir, done, hash) + [SavedFile(PathJoin(dir, LegacyName(|Hashes(done, hash)|, img.ext)), img.bytes)]
  {
    UniquesSnoc(done, img, hash);
    HashesSnoc(done, img, hash);
    UniquesFacts(done, hash);
    SavedFilesSnoc(dir, Uniques(done, hash), img);
  }

  /**
   * The renaming loop of `process_kindle_pdf`: every distinct digest is
   * written once, the first as `kindle_logo.<ext>` and the later ones as
   * `note_001.<ext>`, `note_002.<ext>`, ..., and `unique_image_count` ends
   * as the number of distinct digests.
   */
  method ProcessKindleImages(pages: seq<seq<Image>>, imageOutputFolder: string, hash: seq<bv8> -> string)
    returns (saved: seq<SavedFile>, uniqueImageCount: nat)
    ensures saved == Written(imageOutputFolder, Flatten(pages), hash)
    ensures uniqueImageCount == |Hashes(Flatten(pages), hash)| == |saved|
  {
    uniqueImageCount := 0;
    var noteCounter := 1;
    var seenHashes: set<string> := {};
    saved := [];
    var p := 0;
    while p < |pages|
      invariant 0 <= p <= |pages|
      invariant Saving(imageOutputFolder, hash, Flatten(pages[..p]), seenHashes, saved, uniqueImageCount, noteCounter)
    {
      seenHashes, saved, uniqueImageCount, noteCounter :=
        SavePage(pages[p], imageOutputFolder, hash, Flatten(pages[..p]), seenHashes, saved, uniqueImageCount, noteCounter);
      FlattenAt(pages, p);
      p := p + 1;
    }
    assert pages[..p] == pages;
  }

  /**
   * The loop's counters after the images `done`: the digests seen, the files
   * written, `unique_image_count` as the number of both, and `note_counter`
   * as the number the next note file gets.
   */
  ghost predicate Saving(dir: string, hash: seq<bv8> -> string, done: seq<Image>,
                         seen: set<string>, saved: seq<SavedFile>, count: nat, counter: nat) {
    && seen == Hashes(done, hash)
    && saved == Written(dir, done, hash)
    && count == |seen| == |saved|
    && counter == if count == 0 then 1 else count
  }

  /** The inner loop over the images of one page, after the images `before` of the earlier pages. */
  method SavePage(page: seq<Image>, imageOutputFolder: string, hash: seq<bv8> -> string, ghost before: seq<Image>,
                  seen0: set<string>, saved0: seq<SavedFile>, count0: nat, counter0: nat)
    returns (seenHashes: set<string>, saved: seq<SavedFile>, uniqueImageCount: nat, noteCounter: nat)
    requires Saving(imageOutputFolder, hash, before, seen0, saved0, count0, counter0)
    ensures Saving(imageOutputFolder, hash, before + page, seenHashes, saved, uniqueImageCount, noteCounter)
  {
    seenHashes, saved, uniqueImageCount, noteCounter := seen0, saved0, count0, counter0;
    assert before + page[..0] == before;
    var q := 0;
    while q < |page|
      invariant 0 <= q <= |page|
      invariant Saving(imageOutputFolder, hash, before + page[..q], seenHashes, saved, uniqueImageCount, noteCounter)
    {
      ghost var done := before + page[..q];
      assert before + page[..q + 1] == done + [page[q]];
      seenHashes, saved, uniqueImageCount, noteCounter :=
        SaveImage(page[q], imageOutputFolder, hash, done, seenHashes, saved, uniqueImageCount, noteCounter);
      q := q + 1;
    }
    assert page[..q] == page;
  }

  /** The body of the inner loop for one image, after the images `done`. */
  method SaveImage(img: Image, imageOutputFolder: string, hash: seq<bv8> -> string, ghost done: seq<Image>,
                   seen0: set<string>, saved0: seq<SavedFile>, count0: nat, counter0: nat)
    returns (seenHashes: set<string>, saved: seq<SavedFile>, uniqueImageCount: nat, noteCounter: nat)
    requires Saving(imageOutputFolder, hash, done, seen0, saved0, count0, counter0)
    ensures Saving(imageOutputFolder, hash, done + [img], seenHashes, saved, uniqueImageCount, noteCounter)
  {
    seenHashes, saved, uniqueImageCount, noteCounter := seen0, saved0, count0, counter0;
    WriteStep(imageOutputFolder, done, img, hash);
    var imageHash := hash(img.bytes);
    if imageHash in seenHashes {
      return;
    }
    seenHashes := seenHashes + {imageHash};
    uniqueImageCount := uniqueImageCount + 1;
    var imageFilename;
    if uniqueImageCount == 1 {
      imageFilename := "kindle_logo." + img.ext;
    } else {
      imageFilename := "note_" + ZeroPad3(noteCounter) + "." + img.ext;
      noteCounter := noteCounter + 1;
    }
    var outputPath := PathJoin(imageOutputFolder, imageFilename);
    saved := saved + [SavedFile(outputPath, img.bytes)];
  }

  /**
   * What the loop writes: one file per distinct digest, no two with the same
   * digest; the logo file holds the document's first image; and the note
   * files are exactly the paths the newer `_extract_unique_images` returns.
   */
  lemma WrittenFacts(dir: string, imgs: seq<Image>, hash: seq<bv8> -> string)
    ensures var w := Written(dir, imgs, hash);
      && |w| == |Hashes(imgs, hash)|
      && (forall i, j :: 0 <= i < j < |w| ==> hash(w[i].bytes) != hash(w[j].bytes))
      && (|imgs| > 0 ==> |w| > 0)
      && (|imgs| > 0 && |w| > 0 ==> w[0] == SavedFile(PathJoin(dir, "kindle_logo." + imgs[0].ext), imgs[0].bytes))
      && |ExtractedPaths(dir, imgs, hash)| == (if |w| == 0 then 0 else |w| - 1)
      && (forall k :: 1 <= k < |w| ==> w[k].path == ExtractedPaths(dir, imgs, hash)[k - 1])
  {
    UniquesFacts(imgs, hash);
    WrittenDistinct(dir, imgs, hash);
    WrittenNotes(dir, imgs, hash);
  }

  /** No two files written hold images with the same digest. */
  lemma WrittenDistinct(dir: string, imgs: seq<Image>, hash: seq<bv8> -> string)
    ensures var w := Written(dir, imgs, hash);
      forall i, j :: 0 <= i < j < |w| ==> hash(w[i].bytes) != hash(w[j].bytes)
  {
    var u := Uniques(imgs, hash);
    var w := Written(dir, imgs, hash);
    UniquesHashes(imgs, hash);
    forall i, j | 0 <= i < j < |w| ensures hash(w[i].bytes) != hash(w[j].bytes) {
      SavedFileAt(dir, u, i);
      SavedFileAt(dir, u, j);
    }
  }

  /** The files after the logo's are at the paths the newer version returns. */
  lemma WrittenNotes(dir: string, imgs: seq<Image>, hash: seq<bv8> -> string)
    ensures var w := Written(dir, imgs, hash);
      && |ExtractedPaths(dir, imgs, hash)| == (if |w| == 0 then 0 else |w| - 1)
      && (forall k :: 1 <= k < |w| ==> w[k].path == ExtractedPaths(dir, imgs, hash)[k - 1])
  {
    var u := Uniques(imgs, hash);
    if |u| > 0 {
      var w, paths := SavedFiles(dir, u), NoteFiles(dir, u[1..]);
      assert Written(dir, imgs, hash) == w && ExtractedPaths(dir, imgs, hash) == paths;
      forall k | 1 <= k < |w| ensures w[k].path == paths[k - 1] {
        SavedNotePath(dir, u, k);
      }
    }
  }

  /** The k-th file saved, past the logo, is at the (k - 1)-th note path. */
  lemma SavedNotePath(dir: string, us: seq<Image>, k: nat)
    requires 1 <= k < |us|
    ensures SavedFiles(dir, us)[k].path == NoteFiles(dir, us[1..])[k - 1]
  {
    SavedFileAt(dir, us, k);
    NoteFileAt(dir, us[1..], k - 1);
    assert k - 1 + 1 == k && us[1..][k - 1] == us[k];
  }

  // ---------------------------------------------------------------------
  // The image list handed to the notes

  /** `[os.path.join(image_folder, img) for img in listing]` */
  function JoinAll(folder: string, names: seq<string>): (paths: seq<string>)
    ensures |paths| == |names|
  {
    if |names| == 0 then [] else [PathJoin(folder, names[0])] + JoinAll(folder, names[1..])
  }

  /** The k-th path is the k-th name joined to the folder. */
  lemma {:induction false} JoinAllAt(folder: string, names: seq<string>, k: nat)
    requires k < |names|
    ensures JoinAll(folder, names)[k] == PathJoin(folder, names[k])
  {
    if k > 0 {
      JoinAllAt(folder, names[1..], k - 1);
    }
  }

  /** Joining a concatenation joins each part. */
  lemma {:induction false} JoinAllAppend(folder: string, a: seq<string>, b: seq<string>)
    ensures JoinAll(folder, a + b) == JoinAll(folder, a) + JoinAll(folder, b)
  {
    if |a| > 0 {
      assert (a + b)[1..] == a[1..] + b;
      JoinAllAppend(folder, a[1..], b);
    } else {
      assert a + b == b;
    }
  }

  predicate IsLogoPath(path: string) {
    Contains(path, "kindle_logo")
  }

  /** `[img for img in paths if 'kindle_logo' not in img]` */
  function DropLogos(paths: seq<string>): seq<string> {
    if |paths| == 0 then []
    else if IsLogoPath(paths[0]) then DropLogos(paths[1..])
    else [paths[0]] + DropLogos(paths[1..])
  }

  /** Each path is kept as often as it occurs, unless it names the logo. */
  lemma {:induction false} DropLogosCount(paths: seq<string>, x: string)
    ensures multiset(DropLogos(paths))[x] == if IsLogoPath(x) then 0 else multiset(paths)[x]
  {
    if |paths| > 0 {
      DropLogosCount(paths[1..], x);
      assert paths == [paths[0]] + paths[1..];
    }
  }

  /** Dropping paths keeps what was ascending ascending. */
  lemma {:induction false} DropLogosSorted(paths: seq<string>)
    requires Sorted(paths)
    ensures Sorted(DropLogos(paths))
  {
    if |paths| > 0 {
      var t := paths[1..];
      assert Sorted(t);
      DropLogosSorted(t);
      if !IsLogoPath(paths[0]) {
        var d := DropLogos(t);
        forall k | 0 <= k < |d| ensures LessEq(paths[0], d[k]) {
          assert d[k] in multiset(d);
          DropLogosCount(t, d[k]);
          assert d[k] in multiset(t);
          var m :| 0 <= m < |t| && t[m] == d[k];
          assert paths[m + 1] == t[m];
        }
        SortedConsBound(paths[0], d);
      }
    }
  }

  /** The image list of `create_structured_data`: the folder's paths, sorted by name, with every logo path left out. */
  function ImageFiles(folder: string, listing: seq<string>): seq<string> {
    DropLogos(Sort(JoinAll(folder, listing)))
  }

  /**
   * The image list is ascending, and holds each joined path of the listing
   * exactly as often as the listing does, except the paths that mention
   * `kindle_logo`, which it never holds.
   */
  lemma ImageFilesSpec(folder: string, listing: seq<string>)
    ensures Sorted(ImageFiles(folder, listing))
    ensures forall x :: multiset(ImageFiles(folder, listing))[x]
                     == if IsLogoPath(x) then 0 else multiset(JoinAll(folder, listing))[x]
  {
    var joined := JoinAll(folder, listing);
    SortFacts(joined);
    DropLogosSorted(Sort(joined));
    forall x ensures multiset(ImageFiles(folder, listing))[x] == if IsLogoPath(x) then 0 else multiset(joined)[x] {
      DropLogosCount(Sort(joined), x);
    }
  }

  /** The order `os.listdir` happens to list the folder in does not matter. */
  lemma ImageFilesIgnoresListingOrder(folder: string, l1: seq<string>, l2: seq<string>)
    requires multiset(l1) == multiset(l2)
    ensures ImageFiles(folder, l1) == ImageFiles(folder, l2)
  {
    ImageFilesSpec(folder, l1);
    ImageFilesSpec(folder, l2);
    var a, b := ImageFiles(folder, l1), ImageFiles(folder, l2);
    forall x ensures multiset(a)[x] == multiset(b)[x] {
      JoinAllCount(folder, l1, l2, x);
    }
    SortedUnique(a, b);
  }

  lemma JoinAllCount(folder: string, l1: seq<string>, l2: seq<string>, x: string)
    requires multiset(l1) == multiset(l2)
    ensures multiset(JoinAll(folder, l1))[x] == multiset(JoinAll(folder, l2))[x]
  {
    JoinAllPermutes(folder, l1, l2);
  }

  lemma {:induction false} JoinAllPermutes(folder: string, l1: seq<string>, l2: seq<string>)
    requires multiset(l1) == multiset(l2)
    ensures multiset(JoinAll(folder, l1)) == multiset(JoinAll(folder, l2))
    decreases |l1|
  {
    if |l1| > 0 {
      var i := TailPermutes(l1, l2);
      var rest2 := l2[..i] + l2[i + 1..];
      JoinAllPermutes(folder, l1[1..], rest2);
      JoinAllRemove(folder, l2, i);
      JoinAllRemove(folder, l1, 0);
      assert l1[..0] + l1[1..] == l1[1..];
    } else {
      assert |l2| == |multiset(l2)| == 0;
    }
  }

  /** The first element of `l1` sits at some place `i` of its permutation `l2`; the rests are permutations too. */
  lemma TailPermutes(l1: seq<string>, l2: seq<string>) returns (i: nat)
    requires |l1| > 0 && multiset(l1) == multiset(l2)
    ensures i < |l2| && l2[i] == l1[0] && multiset(l1[1..]) == multiset(l2[..i] + l2[i + 1..])
  {
    assert l1[0] in multiset(l2);
    i :| 0 <= i < |l2| && l2[i] == l1[0];
    RemoveAt(l2, i);
    RemoveAt(l1, 0);
    assert l1[..0] + l1[1..] == l1[1..];
    MultisetCancel(multiset(l1[1..]), multiset(l2[..i] + l2[i + 1..]), multiset{l1[0]});
  }

  lemma RemoveAt(l: seq<string>, i: nat)
    requires i < |l|
    ensures multiset(l) == multiset{l[i]} + multiset(l[..i] + l[i + 1..])
  {
    assert l == l[..i] + [l[i]] + l[i + 1..];
  }

  lemma JoinAllRemove(folder: string, l: seq<string>, i: nat)
    requires i < |l|
    ensures multiset(JoinAll(folder, l)) == multiset{PathJoin(folder, l[i])} + multiset(JoinAll(folder, l[..i] + l[i + 1..]))
  {
    assert l == l[..i] + ([l[i]] + l[i + 1..]);
    JoinAllAppend(folder, l[..i], [l[i]] + l[i + 1..]);
    JoinAllAppend(folder, l[..i], l[i + 1..]);
    assert JoinAll(folder, [l[i]] + l[i + 1..]) == [PathJoin(folder, l[i])] + JoinAll(folder, l[i + 1..]);
  }

  // ---------------------------------------------------------------------
  // Sorting by name against the order the notes were written in

  /** The names the loop leaves in a folder emptied beforehand, in the order it wrote them. */
  function Listing(imgs: seq<Image>, hash: seq<bv8> -> string): (names: seq<string>)
    ensures |names| == |Uniques(imgs, hash)|
  {
    var u := Uniques(imgs, hash);
    seq(|u|, k requires 0 <= k < |u| => LegacyName(k, u[k].ext))
  }

  /**
   * The image list the notes should be handed: the note files in the order
   * they were written, which is the list the newer version passes on.
   */
  function NoteImagesInOrder(folder: string, imgs: seq<Image>, hash: seq<bv8> -> string): seq<string> {
    var w := Written(folder, imgs, hash);
    seq(if |w| == 0 then 0 else |w| - 1, k requires 0 <= k < |w| - 1 => w[k + 1].path)
  }

  /** Its k-th path (from 0) is the note file numbered k + 1. */
  lemma NoteImageAt(folder: string, imgs: seq<Image>, hash: seq<bv8> -> string, k: nat)
    requires k < |NoteImagesInOrder(folder, imgs, hash)|
    ensures k + 1 < |Uniques(imgs, hash)|
    ensures NoteImagesInOrder(folder, imgs, hash)[k] == PathJoin(folder, NoteName(k + 1, Uniques(imgs, hash)[k + 1].ext))
  {
    SavedFileAt(folder, Uniques(imgs, hash), k + 1);
  }

  /**
   * In that list the k-th path (from 0) is the note numbered k + 1, with its
   * own image's extension: the k-th note of the document gets the k-th
   * distinct note image.
   */
  lemma NoteImagesInOrderNumbered(folder: string, imgs: seq<Image>, hash: seq<bv8> -> string)
    ensures NoteImagesInOrder(folder, imgs, hash) == ExtractedPaths(folder, imgs, hash)
    ensures var d, u := NoteImagesInOrder(folder, imgs, hash), Uniques(imgs, hash);
      forall k :: 0 <= k < |d| ==> k + 1 < |u| && d[k] == PathJoin(folder, NoteName(k + 1, u[k + 1].ext))
  {
    var d, w, u := NoteImagesInOrder(folder, imgs, hash), Written(folder, imgs, hash), Uniques(imgs, hash);
    var e := ExtractedPaths(folder, imgs, hash);
    WrittenFacts(folder, imgs, hash);
    assert |d| == |e|;
    forall k | 0 <= k < |d| ensures d[k] == e[k] {
      assert d[k] == w[k + 1].path;
    }
    forall k | 0 <= k < |d| ensures k + 1 < |u| && d[k] == PathJoin(folder, NoteName(k + 1, u[k + 1].ext)) {
      NoteImageAt(folder, imgs, hash, k);
    }
  }

  /** Joining the directory in front keeps the order of two relative names. */
  lemma PathJoinLess(dir: string, a: string, b: string)
    requires |a| > 0 && a[0] != '/' && |b| > 0 && b[0] != '/'
    ensures Less(PathJoin(dir, a), PathJoin(dir, b)) == Less(a, b)
  {
    var p := if dir == [] || dir[|dir| - 1] == '/' then dir else dir + "/";
    assert PathJoin(dir, a) == p + a && PathJoin(dir, b) == p + b;
    LessCommonPrefix(p, a, b);
  }

  /** `note_1000.<ext>` sorts before `note_101.<ext>`. */
  lemma NoteThousandFirst(e1: string, e2: string)
    ensures Less(NoteName(1000, e1), NoteName(101, e2))
  {
    ZeroPad3Wide(1000);
    assert Decimal(1000) == Decimal(100) + [DigitChar(0)];
    assert Decimal(100) == Decimal(10) + [DigitChar(0)];
    assert Decimal(10) == Decimal(1) + [DigitChar(0)];
    assert ZeroPad3(1000) == "1000";
    ZeroPad3Digits(101);
    assert ZeroPad3(101) == "101";
    var a, b := NoteName(1000, e1), NoteName(101, e2);
    assert a == "note_1000." + e1 && b == "note_101." + e2;
    assert a[..7] == "note_10" == b[..7];
    LessAt(a, b, 7);
  }

  /** Below 1000 the padded counters sort like the numbers. */
  lemma NoteNamesAscending(a: nat, b: nat, e1: string, e2: string)
    requires a < b < 1000
    ensures Less(NoteName(a, e1), NoteName(b, e2))
  {
    PaddedAscending(a, b);
    LessSameLength(ZeroPad3(a), ZeroPad3(b), "." + e1, "." + e2);
    assert NoteName(a, e1) == "note_" + (ZeroPad3(a) + ("." + e1));
    assert NoteName(b, e2) == "note_" + (ZeroPad3(b) + ("." + e2));
    LessCommonPrefix("note_", ZeroPad3(a) + ("." + e1), ZeroPad3(b) + ("." + e2));
  }

  /** Two strings of one length keep their order whatever follows them. */
  lemma {:induction false} LessSameLength(a: string, b: string, s: string, t: string)
    requires |a| == |b| && Less(a, b)
    ensures Less(a + s, b + t)
  {
    if a[0] == b[0] {
      assert (a + s)[1..] == a[1..] + s && (b + t)[1..] == b[1..] + t;
      LessSameLength(a[1..], b[1..], s, t);
    }
  }

  lemma PaddedAscending(a: nat, b: nat)
    requires a < b < 1000
    ensures |ZeroPad3(a)| == 3 == |ZeroPad3(b)| && Less(ZeroPad3(a), ZeroPad3(b))
  {
    ZeroPad3Digits(a);
    ZeroPad3Digits(b);
    DigitsAscending(a, b);
    var x, y := ZeroPad3(a), ZeroPad3(b);
    if a / 100 == b / 100 {
      assert x[1..] == [DigitChar(a / 10 % 10), DigitChar(a % 10)];
      assert y[1..] == [DigitChar(b / 10 % 10), DigitChar(b % 10)];
      if a / 10 % 10 == b / 10 % 10 {
        assert x[1..][1..] == [DigitChar(a % 10)] && y[1..][1..] == [DigitChar(b % 10)];
      }
    }
  }

  lemma DigitsAscending(a: nat, b: nat)
    requires a < b < 1000
    ensures a / 100 <= b / 100
    ensures a / 100 == b / 100 ==> a / 10 % 10 <= b / 10 % 10
    ensures a / 100 == b / 100 && a / 10 % 10 == b / 10 % 10 ==> a % 10 < b % 10
  {
    assert a == 100 * (a / 100) + 10 * (a / 10 % 10) + a % 10;
    assert b == 100 * (b / 100) + 10 * (b / 10 % 10) + b % 10;
  }

  /**
   * As written, with more than a thousand distinct images (so a thousand
   * notes or more), the name sort puts `note_1000` before `note_101`: the
   * image list is no longer in the order the notes were written in, and
   * from the 101st note on, notes get another note's image.
   */
  lemma SortedImagesOutOfOrder(folder: string, imgs: seq<Image>, hash: seq<bv8> -> string)
    requires |Hashes(imgs, hash)| > 1000
    ensures var d := NoteImagesInOrder(folder, imgs, hash);
      |d| >= 1000 && Less(d[999], d[100])
    ensures ImageFiles(folder, Listing(imgs, hash)) != NoteImagesInOrder(folder, imgs, hash)
  {
    var d, u := NoteImagesInOrder(folder, imgs, hash), Uniques(imgs, hash);
    NoteImagesInOrderNumbered(folder, imgs, hash);
    UniquesFacts(imgs, hash);
    var n101, n1000 := NoteName(101, u[101].ext), NoteName(1000, u[1000].ext);
    NoteThousandFirst(u[1000].ext, u[101].ext);
    NoteNamesDiffer(101, u[101].ext, 1000, u[1000].ext);
    NoteNamesDiffer(1000, u[1000].ext, 101, u[101].ext);
    PathJoinLess(folder, n1000, n101);
    assert Less(d[999], d[100]);
    LessIrreflexive(d[999]);
    LessAsymmetric(d[999], d[100]);
    assert !LessEq(d[100], d[999]);
    ImageFilesSpec(folder, Listing(imgs, hash));
  }

  /**
   * With at most a thousand distinct images, and no note path that mentions
   * `kindle_logo`, the sorted list is exactly the list in writing order.
   */
  lemma SortedImagesInOrderBelow1000(folder: string, imgs: seq<Image>, hash: seq<bv8> -> string)
    requires |Hashes(imgs, hash)| <= 1000
    requires forall k :: 0 <= k < |NoteImagesInOrder(folder, imgs, hash)| ==> !IsLogoPath(NoteImagesInOrder(folder, imgs, hash)[k])
    ensures ImageFiles(folder, Listing(imgs, hash)) == NoteImagesInOrder(folder, imgs, hash)
  {
    var d := NoteImagesInOrder(folder, imgs, hash);
    var f := ImageFiles(folder, Listing(imgs, hash));
    InOrderAscending(folder, imgs, hash);
    ImageFilesSpec(folder, Listing(imgs, hash));
    forall x ensures multiset(f)[x] == multiset(d)[x] {
      InOrderCount(folder, imgs, hash, x);
    }
    assert multiset(f) == multiset(d);
    SortedUnique(f, d);
  }

  /** Below a thousand notes, the writing order is also name order. */
  lemma InOrderAscending(folder: string, imgs: seq<Image>, hash: seq<bv8> -> string)
    requires |Hashes(imgs, hash)| <= 1000
    ensures Sorted(NoteImagesInOrder(folder, imgs, hash))
  {
    var d := NoteImagesInOrder(folder, imgs, hash);
    forall i, j | 0 <= i < j < |d| ensures LessEq(d[i], d[j]) {
      InOrderPair(folder, imgs, hash, i, j);
    }
  }

  lemma InOrderPair(folder: string, imgs: seq<Image>, hash: seq<bv8> -> string, i: nat, j: nat)
    requires |Hashes(imgs, hash)| <= 1000 && i < j < |NoteImagesInOrder(folder, imgs, hash)|
    ensures Less(NoteImagesInOrder(folder, imgs, hash)[i], NoteImagesInOrder(folder, imgs, hash)[j])
  {
    var u := Uniques(imgs, hash);
    NoteImageAt(folder, imgs, hash, i);
    NoteImageAt(folder, imgs, hash, j);
    UniquesFacts(imgs, hash);
    NotePathsAscending(folder, i + 1, j + 1, u[i + 1].ext, u[j + 1].ext);
  }

  /** Below 1000, note paths sort like their counters. */
  lemma NotePathsAscending(folder: string, a: nat, b: nat, e1: string, e2: string)
    requires a < b < 1000
    ensures Less(PathJoin(folder, NoteName(a, e1)), PathJoin(folder, NoteName(b, e2)))
  {
    NoteNamesAscending(a, b, e1, e2);
    NoteNamesDiffer(a, e1, b, e2);
    NoteNamesDiffer(b, e2, a, e1);
    PathJoinLess(folder, NoteName(a, e1), NoteName(b, e2));
  }

  /** The joined listing is the logo's path followed by the note paths in writing order. */
  lemma ListingJoined(folder: string, imgs: seq<Image>, hash: seq<bv8> -> string)
    requires |Uniques(imgs, hash)| > 0
    ensures JoinAll(folder, Listing(imgs, hash))
         == [PathJoin(folder, "kindle_logo." + Uniques(imgs, hash)[0].ext)] + NoteImagesInOrder(folder, imgs, hash)
  {
    var joined := JoinAll(folder, Listing(imgs, hash));
    var r := [PathJoin(folder, "kindle_logo." + Uniques(imgs, hash)[0].ext)] + NoteImagesInOrder(folder, imgs, hash);
    assert |joined| == |r|;
    forall k | 0 <= k < |joined| ensures joined[k] == r[k] {
      ListingJoinedAt(folder, imgs, hash, k);
    }
  }

  lemma ListingJoinedAt(folder: string, imgs: seq<Image>, hash: seq<bv8> -> string, k: nat)
    requires 0 < |Uniques(imgs, hash)| && k < |Uniques(imgs, hash)|
    ensures |JoinAll(folder, Listing(imgs, hash))| == |Uniques(imgs, hash)| == |NoteImagesInOrder(folder, imgs, hash)| + 1
    ensures JoinAll(folder, Listing(imgs, hash))[k]
         == ([PathJoin(folder, "kindle_logo." + Uniques(imgs, hash)[0].ext)] + NoteImagesInOrder(folder, imgs, hash))[k]
  {
    var u := Uniques(imgs, hash);
    JoinAllAt(folder, Listing(imgs, hash), k);
    assert Listing(imgs, hash)[k] == LegacyName(k, u[k].ext);
    SavedFileAt(folder, u, k);
  }

  /** With no note path mentioning `kindle_logo`, the filter takes out exactly the logo. */
  lemma InOrderCount(folder: string, imgs: seq<Image>, hash: seq<bv8> -> string, x: string)
    requires forall k :: 0 <= k < |NoteImagesInOrder(folder, imgs, hash)| ==> !IsLogoPath(NoteImagesInOrder(folder, imgs, hash)[k])
    ensures (if IsLogoPath(x) then 0 else multiset(JoinAll(folder, Listing(imgs, hash)))[x])
         == multiset(NoteImagesInOrder(folder, imgs, hash))[x]
  {
    var u, d := Uniques(imgs, hash), NoteImagesInOrder(folder, imgs, hash);
    var joined := JoinAll(folder, Listing(imgs, hash));
    if |u| > 0 {
      var logo := PathJoin(folder, "kindle_logo." + u[0].ext);
      LogoPathIsLogo(folder, u[0].ext);
      ListingJoined(folder, imgs, hash);
      if !IsLogoPath(x) {
        assert multiset(joined)[x] == multiset([logo])[x] + multiset(d)[x];
      } else {
        assert forall k :: 0 <= k < |d| ==> d[k] != x;
      }
    } else {
      assert d == [];
    }
  }

  /** The logo's path always mentions `kindle_logo`. */
  lemma LogoPathIsLogo(folder: string, ext: string)
    ensures IsLogoPath(PathJoin(folder, "kindle_logo." + ext))
  {
    var p := if folder == [] || folder[|folder| - 1] == '/' then folder else folder + "/";
    assert PathJoin(folder, "kindle_logo." + ext) == p + "kindle_logo" + ("." + ext);
    ContainsMiddle(p, "kindle_logo", "." + ext);
  }
}
