/**
 * What both versions do with the images of the document before any text is
 * read: walk them page by page, keep the first image with each SHA-256
 * digest, and name the kept images after a running counter.
 *
 * The digest is a parameter `hash`: any function from image bytes to a
 * string. Nothing here assumes it is injective.
 */
module ImageDedup {
  import opened Wrappers
  import opened Text

  /** `base_image["image"]` and `base_image["ext"]` for one image reference of a page. */
  datatype Image = Image(bytes: seq<bv8>, ext: string)

  /** All images of the document, page after page, each page's in its own order. */
  function Flatten(pages: seq<seq<Image>>): seq<Image> {
    if |pages| == 0 then [] else Flatten(pages[..|pages| - 1]) + pages[|pages| - 1]
  }

  lemma FlattenAt(pages: seq<seq<Image>>, p: nat)
    requires p < |pages|
    ensures Flatten(pages[..p + 1]) == Flatten(pages[..p]) + pages[p]
  {
    assert pages[..p + 1][..p] == pages[..p];
  }

  /** The digests seen after walking `imgs`. */
  function Hashes(imgs: seq<Image>, hash: seq<bv8> -> string): set<string> {
    set i | 0 <= i < |imgs| :: hash(imgs[i].bytes)
  }

  lemma HashesSnoc(imgs: seq<Image>, x: Image, hash: seq<bv8> -> string)
    ensures Hashes(imgs + [x], hash) == Hashes(imgs, hash) + {hash(x.bytes)}
  {
    var a, b := Hashes(imgs + [x], hash), Hashes(imgs, hash) + {hash(x.bytes)};
    forall h | h in a ensures h in b {
      var i :| 0 <= i < |imgs| + 1 && h == hash((imgs + [x])[i].bytes);
      if i < |imgs| {
        assert h == hash(imgs[i].bytes);
      }
    }
    forall h | h in b ensures h in a {
      if h == hash(x.bytes) {
        assert (imgs + [x])[|imgs|] == x;
      } else {
        var i :| 0 <= i < |imgs| && h == hash(imgs[i].bytes);
        assert (imgs + [x])[i] == imgs[i];
      }
    }
  }

  /** The images the `if image_hash in seen_hashes: continue` test lets through, in order. */
  function Uniques(imgs: seq<Image>, hash: seq<bv8> -> string): seq<Image> {
    if |imgs| == 0 then []
    else
      var init, x := imgs[..|imgs| - 1], imgs[|imgs| - 1];
      if hash(x.bytes) in Hashes(init, hash) then Uniques(init, hash) else Uniques(init, hash) + [x]
  }

  lemma UniquesSnoc(imgs: seq<Image>, x: Image, hash: seq<bv8> -> string)
    ensures Uniques(imgs + [x], hash)
         == if hash(x.bytes) in Hashes(imgs, hash) then Uniques(imgs, hash) else Uniques(imgs, hash) + [x]
  {
    assert (imgs + [x])[..|imgs|] == imgs;
  }

  /** No two kept images share a digest. */
  ghost predicate DistinctHashes(u: seq<Image>, hash: seq<bv8> -> string) {
    forall i, j :: 0 <= i < j < |u| ==> hash(u[i].bytes) != hash(u[j].bytes)
  }

  /** Appending an image with a new digest keeps the digests distinct. */
  lemma DistinctHashesSnoc(u: seq<Image>, x: Image, hash: seq<bv8> -> string)
    requires DistinctHashes(u, hash) && hash(x.bytes) !in Hashes(u, hash)
    ensures DistinctHashes(u + [x], hash)
  {
    var v := u + [x];
    forall i, j | 0 <= i < j < |v| ensures hash(v[i].bytes) != hash(v[j].bytes) {
      assert v[i] == u[i];
      if j < |u| {
        assert v[j] == u[j];
      } else {
        assert hash(u[i].bytes) in Hashes(u, hash);
      }
    }
  }

  /** A list of images with distinct digests has as many digests as images. */
  lemma {:induction false} DistinctHashesCount(u: seq<Image>, hash: seq<bv8> -> string)
    requires DistinctHashes(u, hash)
    ensures |Hashes(u, hash)| == |u|
  {
    if |u| > 0 {
      var init, x := u[..|u| - 1], u[|u| - 1];
      assert u == init + [x];
      assert DistinctHashes(init, hash);
      DistinctHashesCount(init, hash);
      HashesSnoc(init, x, hash);
      forall h | h in Hashes(init, hash) ensures h != hash(x.bytes) {
        var i :| 0 <= i < |init| && h == hash(init[i].bytes);
        assert init[i] == u[i];
      }
    }
  }

  /** The kept images carry every digest of the document, once each. */
  lemma {:induction false} UniquesHashes(imgs: seq<Image>, hash: seq<bv8> -> string)
    ensures Hashes(Uniques(imgs, hash), hash) == Hashes(imgs, hash)
    ensures DistinctHashes(Uniques(imgs, hash), hash)
  {
    if |imgs| > 0 {
      var init, x := imgs[..|imgs| - 1], imgs[|imgs| - 1];
      assert imgs == init + [x];
      UniquesHashes(init, hash);
      HashesSnoc(init, x, hash);
      var u0 := Uniques(init, hash);
      if hash(x.bytes) !in Hashes(init, hash) {
        HashesSnoc(u0, x, hash);
        DistinctHashesSnoc(u0, x, hash);
      }
    }
  }

  /** Every kept image is one of the document's, and the first image is kept first. */
  lemma {:induction false} UniquesMembers(imgs: seq<Image>, hash: seq<bv8> -> string)
    ensures forall k :: 0 <= k < |Uniques(imgs, hash)| ==> Uniques(imgs, hash)[k] in imgs
    ensures |imgs| > 0 ==> |Uniques(imgs, hash)| > 0 && Uniques(imgs, hash)[0] == imgs[0]
  {
    if |imgs| > 0 {
      var init, x := imgs[..|imgs| - 1], imgs[|imgs| - 1];
      assert imgs == init + [x];
      UniquesMembers(init, hash);
      var u0, u := Uniques(init, hash), Uniques(imgs, hash);
      assert u == u0 || u == u0 + [x];
      forall k | 0 <= k < |u| ensures u[k] in imgs {
        if k < |u0| {
          assert u[k] == u0[k] && u0[k] in init;
        }
      }
      if |init| > 0 {
        assert init[0] == imgs[0];
      }
    }
  }

  /**
   * The kept images carry every digest of the document once each, so there
   * are as many of them as distinct digests; every kept image is one of the
   * document's, and the document's very first image is always kept first.
   */
  lemma UniquesFacts(imgs: seq<Image>, hash: seq<bv8> -> string)
    ensures var u := Uniques(imgs, hash);
      && Hashes(u, hash) == Hashes(imgs, hash)
      && (forall i, j :: 0 <= i < j < |u| ==> hash(u[i].bytes) != hash(u[j].bytes))
      && |u| == |Hashes(imgs, hash)|
      && (forall k :: 0 <= k < |u| ==> u[k] in imgs)
      && (|imgs| > 0 ==> |u| > 0 && u[0] == imgs[0])
  {
    UniquesHashes(imgs, hash);
    DistinctHashesCount(Uniques(imgs, hash), hash);
    UniquesMembers(imgs, hash);
  }

  /** What is kept of an earlier part of the document is kept first: later images only add to the end. */
  lemma {:induction false} UniquesPrefix(a: seq<Image>, b: seq<Image>, hash: seq<bv8> -> string)
    ensures Uniques(a, hash) <= Uniques(a + b, hash)
  {
    if |b| > 0 {
      var b', y := b[..|b| - 1], b[|b| - 1];
      UniquesPrefix(a, b', hash);
      assert a + b == (a + b') + [y];
      UniquesSnoc(a + b', y, hash);
      assert Uniques(a + b', hash) <= Uniques(a + b, hash);
    } else {
      assert a + b == a;
    }
  }

  /** `f"note_{counter:03d}.{ext}"` */
  function NoteName(counter: nat, ext: string): string {
    "note_" + ZeroPad3(counter) + "." + ext
  }

  /** The inverse of `NoteName`: the counter and the extension, read back from a file name. */
  function ParseNoteName(name: string): Option<(nat, string)> {
    if |name| >= 5 && name[..5] == "note_" then
      var rest := name[5..];
      var d := LeadingDigits(rest);
      LeadingDigitsFacts(rest);
      if d != [] && |d| < |rest| && rest[|d|] == '.' then Some((DecimalValue(d), rest[|d| + 1..])) else None
    else None
  }

  lemma LeadingDigitsOf(d: string, rest: string)
    requires AllDigits(d) && (rest == [] || !IsDigit(rest[0]))
    ensures LeadingDigits(d + rest) == d
  {
    if d != [] {
      assert (d + rest)[1..] == d[1..] + rest;
      LeadingDigitsOf(d[1..], rest);
    } else {
      assert d + rest == rest;
    }
  }

  /** Reading a note file name back gives its counter and extension: different counters never share a name. */
  lemma NoteNameRoundTrip(counter: nat, ext: string)
    ensures ParseNoteName(NoteName(counter, ext)) == Some((counter, ext))
  {
    var z := ZeroPad3(counter);
    var name := NoteName(counter, ext);
    assert name[..5] == "note_";
    assert name[5..] == z + ("." + ext);
    LeadingDigitsOf(z, "." + ext);
    ZeroPad3RoundTrip(counter);
    assert name[5..][|z| + 1..] == ext;
  }

  /** Two note file names with different counters differ; neither starts with a slash. */
  lemma NoteNamesDiffer(c1: nat, e1: string, c2: nat, e2: string)
    requires c1 != c2
    ensures NoteName(c1, e1) != NoteName(c2, e2)
    ensures |NoteName(c1, e1)| > 0 && NoteName(c1, e1)[0] == 'n'
  {
    NoteNameRoundTrip(c1, e1);
    NoteNameRoundTrip(c2, e2);
  }

  /** POSIX `os.path.join(dir, name)` */
  function PathJoin(dir: string, name: string): string {
    if |name| > 0 && name[0] == '/' then name
    else if dir == [] || dir[|dir| - 1] == '/' then dir + name
    else dir + "/" + name
  }

  /** The directory part is the same for every file, so distinct file names give distinct paths. */
  lemma PathJoinInjective(dir: string, n1: string, n2: string)
    requires |n1| > 0 && n1[0] != '/' && |n2| > 0 && n2[0] != '/' && n1 != n2
    ensures PathJoin(dir, n1) != PathJoin(dir, n2)
  {
    var p := if dir == [] || dir[|dir| - 1] == '/' then dir else dir + "/";
    assert PathJoin(dir, n1) == p + n1 && PathJoin(dir, n2) == p + n2;
    assert n1 == (p + n1)[|p|..] && n2 == (p + n2)[|p|..];
  }

  /** The paths of the note images `us`, numbered from 1. */
  function NoteFiles(dir: string, us: seq<Image>): (paths: seq<string>)
    ensures |paths| == |us|
  {
    seq(|us|, k requires 0 <= k < |us| => PathJoin(dir, NoteName(k + 1, us[k].ext)))
  }

  /** The k-th of them (from 0) is the file numbered k + 1, named after the k-th image's extension. */
  lemma NoteFileAt(dir: string, us: seq<Image>, k: nat)
    requires k < |us|
    ensures NoteFiles(dir, us)[k] == PathJoin(dir, NoteName(k + 1, us[k].ext))
  {
  }

  lemma NoteFilesSnoc(dir: string, us: seq<Image>, x: Image)
    ensures NoteFiles(dir, us + [x]) == NoteFiles(dir, us) + [PathJoin(dir, NoteName(|us| + 1, x.ext))]
  {
    var last := PathJoin(dir, NoteName(|us| + 1, x.ext));
    var a, b := NoteFiles(dir, us + [x]), NoteFiles(dir, us) + [last];
    assert |a| == |b|;
    forall k | 0 <= k < |a| ensures a[k] == b[k] {
      NoteFileAt(dir, us + [x], k);
      if k < |us| {
        NoteFileAt(dir, us, k);
        assert (us + [x])[k] == us[k];
      }
    }
  }

  /**
   * The paths `_extract_unique_images` returns for the images `imgs`: the
   * kept images after the first one (the Kindle logo), named from 1 on.
   */
  function ExtractedPaths(dir: string, imgs: seq<Image>, hash: seq<bv8> -> string): seq<string> {
    var u := Uniques(imgs, hash);
    if |u| == 0 then [] else NoteFiles(dir, u[1..])
  }

  /** One path per distinct digest, less the logo's. */
  lemma ExtractedCount(dir: string, imgs: seq<Image>, hash: seq<bv8> -> string)
    ensures |ExtractedPaths(dir, imgs, hash)| == if |Hashes(imgs, hash)| == 0 then 0 else |Hashes(imgs, hash)| - 1
  {
    UniquesFacts(imgs, hash);
  }

  /**
   * The k-th path (from 0) is the file numbered k + 1, with the extension of
   * the (k + 1)-th kept image.
   */
  lemma ExtractedName(dir: string, imgs: seq<Image>, hash: seq<bv8> -> string, k: nat)
    requires k < |ExtractedPaths(dir, imgs, hash)|
    ensures var u := Uniques(imgs, hash);
      exists name :: ExtractedPaths(dir, imgs, hash)[k] == PathJoin(dir, name) && ParseNoteName(name) == Some((k + 1, u[k + 1].ext))
  {
    var u := Uniques(imgs, hash);
    NoteNameRoundTrip(k + 1, u[k + 1].ext);
    NoteFileAt(dir, u[1..], k);
    assert ExtractedPaths(dir, imgs, hash)[k] == PathJoin(dir, NoteName(k + 1, u[k + 1].ext));
  }

  /** The k-th note path (from 0) is a file in `dir` whose name reads back as counter k + 1 and the k-th extension. */
  lemma NoteFileName(dir: string, us: seq<Image>, k: nat) returns (name: string)
    requires k < |us|
    ensures NoteFiles(dir, us)[k] == PathJoin(dir, name) && ParseNoteName(name) == Some((k + 1, us[k].ext))
  {
    name := NoteName(k + 1, us[k].ext);
    NoteNameRoundTrip(k + 1, us[k].ext);
    NoteFileAt(dir, us, k);
  }

  /** No two note paths coincide: their names read back as different counters. */
  lemma {:induction false} NoteFilesDistinct(dir: string, us: seq<Image>, i: nat, j: nat)
    requires i < j < |us|
    ensures NoteFiles(dir, us)[i] != NoteFiles(dir, us)[j]
  {
    var n1 := NoteFileName(dir, us, i);
    var n2 := NoteFileName(dir, us, j);
    assert n1 != n2;
    assert n1[..5] == "note_" && n2[..5] == "note_";
    assert n1[0] == n1[..5][0] && n2[0] == n2[..5][0];
    PathJoinInjective(dir, n1, n2);
  }

  /** No two extracted paths coincide, so no image file overwrites another. */
  lemma ExtractedPathsDistinct(dir: string, imgs: seq<Image>, hash: seq<bv8> -> string, i: nat, j: nat)
    requires i < j < |ExtractedPaths(dir, imgs, hash)|
    ensures ExtractedPaths(dir, imgs, hash)[i] != ExtractedPaths(dir, imgs, hash)[j]
  {
    var u := Uniques(imgs, hash);
    NoteFilesDistinct(dir, u[1..], i, j);
  }
}
