/** Catalog discovery: the image paths a gallery page links to, and the cache
    file name derived from each of them.

    The page is scanned for the pattern `bilderbig/[a-zA-Z0-9_]*\.jpg`.  The
    scanner below is the left-to-right search a regular-expression `findall`
    performs for this pattern; the lemmas prove that it finds exactly the
    occurrences of the pattern in the page. */
module Catalog {

  datatype Option<T> = None | Some(value: T)

  /** The site the pages and images are served from. */
  const Base: string := "https://www.simonstalenhag.se/"

  /** The gallery folder every image path starts with. */
  const Prefix: string := "bilderbig/"

  /** The extension every image path ends with. */
  const Suffix: string := ".jpg"

  /** The character class `[a-zA-Z0-9_]`. */
  predicate IsWordChar(c: char) {
    ('a' <= c <= 'z') || ('A' <= c <= 'Z') || ('0' <= c <= '9') || c == '_'
  }

  predicate IsWord(w: string) {
    forall k :: 0 <= k < |w| ==> IsWordChar(w[k])
  }

  /** `t` occurs in `s` starting at position `i`. */
  predicate HasAt(s: string, i: nat, t: string) {
    i + |t| <= |s| && s[i..i + |t|] == t
  }

  /** A plain file name: appended to a directory path, it names an entry
      directly inside that directory, and not the directory itself (`""`,
      `"."`), its parent (`".."`) or an entry further down (a `/`). */
  predicate IsFileName(n: string) {
    n != "" && n != "." && n != ".." &&
    forall k :: 0 <= k < |n| ==> n[k] != '/'
  }

  predicate EndsWith(s: string, t: string) {
    |t| <= |s| && s[|s| - |t|..] == t
  }

  /** The pattern occurs in `s` as the slice `s[i..e]`: the prefix, a
      (possibly empty) word, and the extension.  This is what the regular
      expression means, independently of how it is searched for. */
  predicate OccursAt(s: string, i: nat, e: nat) {
    i + |Prefix| + |Suffix| <= e <= |s| &&
    s[i..i + |Prefix|] == Prefix &&
    IsWord(s[i + |Prefix|..e - |Suffix|]) &&
    s[e - |Suffix|..e] == Suffix
  }

  /** A string that is, as a whole, one image path. */
  predicate IsImagePath(x: string) {
    OccursAt(x, 0, |x|)
  }

  /** End of the longest run of word characters starting at `i`: what the
      greedy `[a-zA-Z0-9_]*` consumes. */
  function RunEnd(s: string, i: nat): (j: nat)
    requires i <= |s|
    ensures i <= j <= |s|
    ensures IsWord(s[i..j])
    ensures j == |s| || !IsWordChar(s[j])
    decreases |s| - i
  {
    if i < |s| && IsWordChar(s[i]) then
      var j := RunEnd(s, i + 1);
      assert s[i..j] == [s[i]] + s[i + 1..j];
      j
    else
      i
  }

  /** One match attempt at position `i`: the end of the match, if any.
      The greedy run is never given back, because `.` is not a word
      character, so no backtracking is needed. */
  function MatchAt(s: string, i: nat): (r: Option<nat>)
    requires i <= |s|
    ensures r.Some? ==> i + |Prefix| + |Suffix| <= r.value <= |s|
  {
    if HasAt(s, i, Prefix) then
      var j := RunEnd(s, i + |Prefix|);
      if HasAt(s, j, Suffix) then Some(j + |Suffix|) else None
    else
      None
  }

  /** The scan of a `findall`: a match is emitted and the search resumes
      after it; otherwise the search moves on by one character. */
  function ScanFrom(s: string, i: nat): seq<string>
    requires i <= |s|
    decreases |s| - i
  {
    if i == |s| then
      []
    else
      match MatchAt(s, i)
      case Some(e) => [s[i..e]] + ScanFrom(s, e)
      case None => ScanFrom(s, i + 1)
  }

  /** All matches of the pattern in the page, in page order, duplicates kept. */
  function FindAll(page: string): seq<string> {
    ScanFrom(page, 0)
  }

  predicate Distinct<T(==)>(xs: seq<T>) {
    forall i, j :: 0 <= i < j < |xs| ==> xs[i] != xs[j]
  }

  /** Removal of duplicates: the list rebuilt from a set. */
  function Dedup(xs: seq<string>): (r: seq<string>)
    ensures forall x :: x in r <==> x in xs
    ensures Distinct(r)
    decreases |xs|
  {
    if xs == [] then []
    else if xs[0] in xs[1..] then Dedup(xs[1..])
    else [xs[0]] + Dedup(xs[1..])
  }

  /** The catalog of a page: its image paths, each once. */
  function ImageList(page: string): (r: seq<string>)
    ensures Distinct(r)
    ensures forall x :: x in r <==> x in FindAll(page)
    ensures forall x :: x in r ==> IsImagePath(x)
  {
    FindAllImagePaths(page);
    Dedup(FindAll(page))
  }

  /** The cache file name of an image path: the slice `img[10:]`, which is
      empty when the path is shorter than ten characters. */
  function Name(img: string): string {
    if |img| >= 10 then img[10..] else []
  }

  /** The URL an image name is downloaded from. */
  function RemoteUrl(name: string): string {
    Base + Prefix + name
  }

  // ---------------------------------------------------------------------
  // The match attempt finds exactly the occurrences of the pattern.

  lemma RunEndExact(s: string, a: nat, b: nat)
    requires a <= b <= |s|
    requires IsWord(s[a..b])
    requires b == |s| || !IsWordChar(s[b])
    ensures RunEnd(s, a) == b
  {
    var j := RunEnd(s, a);
    forall k | a <= k < b ensures IsWordChar(s[k]) {
      assert s[a..b][k - a] == s[k];
    }
    forall k | a <= k < j ensures IsWordChar(s[k]) {
      assert s[a..j][k - a] == s[k];
    }
  }

  /** A match attempt at `i` succeeds, ending at `e`, exactly when the
      pattern occurs as `s[i..e]`. */
  lemma MatchAtIffOccurs(s: string, i: nat, e: nat)
    requires i <= |s|
    ensures MatchAt(s, i) == Some(e) <==> OccursAt(s, i, e)
  {
    if OccursAt(s, i, e) {
      var a, b := i + |Prefix|, e - |Suffix|;
      assert s[b] == s[b..e][0] == '.';
      RunEndExact(s, a, b);
    }
  }

  /** A character that differs from the prefix rules the prefix out. */
  lemma MismatchAt(s: string, p: nat, q: nat)
    requires p <= q < p + |Prefix| && q < |s|
    requires s[q] != Prefix[q - p]
    ensures !HasAt(s, p, Prefix)
  {
    if p + |Prefix| <= |s| {
      assert s[p..p + |Prefix|][q - p] == s[q];
    }
  }

  /** The prefix cannot start strictly inside a match: a `/` inside the
      word or the extension is impossible, and the extension cannot be the
      start of the prefix. */
  lemma NoPrefixInside(s: string, i: nat, e: nat, p: nat)
    requires OccursAt(s, i, e)
    requires i < p < e
    ensures !HasAt(s, p, Prefix)
  {
    var a, b := i + |Prefix|, e - |Suffix|;
    assert s[b..e] == Suffix;
    assert s[b] == '.' && s[b + 1] == 'j' && s[b + 2] == 'p' && s[b + 3] == 'g' by {
      assert s[b..e][0] == s[b] && s[b..e][1] == s[b + 1];
      assert s[b..e][2] == s[b + 2] && s[b..e][3] == s[b + 3];
    }
    if p + 9 < b {
      assert IsWordChar(s[p + 9]) by { assert s[a..b][p + 9 - a] == s[p + 9]; }
      MismatchAt(s, p, p + 9);
    } else if p + 9 < e {
      MismatchAt(s, p, p + 9);
    } else if p <= b {
      MismatchAt(s, p, b);
    } else {
      MismatchAt(s, p, p);
    }
  }

  // ---------------------------------------------------------------------
  // The scan emits exactly the occurrences of the pattern.

  /** Everything the scan emits is an occurrence at or after `i`. */
  lemma {:induction false} ScanSound(s: string, i: nat, x: string)
    requires i <= |s|
    requires x in ScanFrom(s, i)
    ensures exists j: nat, e: nat :: i <= j && OccursAt(s, j, e) && x == s[j..e]
    decreases |s| - i
  {
    match MatchAt(s, i)
    case Some(e) =>
      if x == s[i..e] {
        MatchAtIffOccurs(s, i, e);
      } else {
        ScanSound(s, e, x);
      }
    case None =>
      ScanSound(s, i + 1, x);
  }

  /** Every occurrence at or after `i` is emitted: the scan never skips one,
      because no occurrence starts inside an earlier match. */
  lemma {:induction false} ScanComplete(s: string, i: nat, j: nat, e: nat)
    requires i <= j
    requires OccursAt(s, j, e)
    ensures s[j..e] in ScanFrom(s, i)
    decreases |s| - i
  {
    MatchAtIffOccurs(s, j, e);
    if i < j {
      match MatchAt(s, i)
      case Some(e') =>
        MatchAtIffOccurs(s, i, e');
        if j < e' {
          NoPrefixInside(s, i, e', j);
          assert false;
        }
        ScanComplete(s, e', j, e);
      case None =>
        ScanComplete(s, i + 1, j, e);
    }
  }

  /** The image paths found on a page are exactly the slices of the page
      where the pattern occurs. */
  lemma FindAllIffOccurs(page: string, x: string)
    ensures x in FindAll(page) <==> exists j: nat, e: nat :: OccursAt(page, j, e) && x == page[j..e]
  {
    if x in FindAll(page) {
      ScanSound(page, 0, x);
    }
    if exists j: nat, e: nat :: OccursAt(page, j, e) && x == page[j..e] {
      var j: nat, e: nat :| OccursAt(page, j, e) && x == page[j..e];
      ScanComplete(page, 0, j, e);
    }
  }

  /** A slice where the pattern occurs is an image path on its own. */
  lemma OccurrenceIsImagePath(s: string, j: nat, e: nat)
    requires OccursAt(s, j, e)
    ensures IsImagePath(s[j..e])
  {
    var x := s[j..e];
    assert |x| == e - j;
    assert x[0..|Prefix|] == s[j..j + |Prefix|];
    var w, v := x[|Prefix|..|x| - |Suffix|], s[j + |Prefix|..e - |Suffix|];
    forall k | 0 <= k < |w| ensures IsWordChar(w[k]) {
      assert w[k] == s[j + |Prefix| + k] == v[k];
    }
    assert x[|x| - |Suffix|..|x|] == s[e - |Suffix|..e];
  }

  /** Every path found on a page has the shape `bilderbig/<word>.jpg`. */
  lemma FindAllImagePaths(page: string)
    ensures forall x :: x in FindAll(page) ==> IsImagePath(x)
  {
    forall x | x in FindAll(page) ensures IsImagePath(x) {
      FindAllIffOccurs(page, x);
      var j: nat, e: nat :| OccursAt(page, j, e) && x == page[j..e];
      OccurrenceIsImagePath(page, j, e);
    }
  }

  // ---------------------------------------------------------------------
  // Names derived from image paths.

  /** Stripping the prefix is undone by putting it back; the name is a plain
      file name (no `/`, neither empty nor `.` nor `..`) ending in `.jpg`, and the download URL
      of the name is the page-relative path resolved against the site. */
  lemma NameRoundTrip(img: string)
    requires IsImagePath(img)
    ensures Prefix + Name(img) == img
    ensures EndsWith(Name(img), Suffix)
    ensures IsFileName(Name(img))
    ensures RemoteUrl(Name(img)) == Base + img
  {
    var n := Name(img);
    assert img == img[..|Prefix|] + n;
    var w := img[|Prefix|..|img| - |Suffix|];
    forall k | 0 <= k < |n| ensures n[k] != '/' {
      if k < |w| {
        assert n[k] == w[k] && IsWordChar(w[k]);
      } else {
        assert n[k] == img[|img| - |Suffix|..|img|][k - |w|] == Suffix[k - |w|];
      }
    }
    assert n[|n| - |Suffix|..] == img[|img| - |Suffix|..];
  }

  /** Different image paths get different cache names. */
  lemma NameInjective(a: string, b: string)
    requires IsImagePath(a) && IsImagePath(b)
    requires Name(a) == Name(b)
    ensures a == b
  {
    NameRoundTrip(a);
    NameRoundTrip(b);
  }

  /** The names of a catalog's entries are pairwise different, so no two
      catalog entries share a cache file. */
  lemma CatalogNamesDistinct(page: string, i: nat, j: nat)
    requires i < j < |ImageList(page)|
    ensures Name(ImageList(page)[i]) != Name(ImageList(page)[j])
  {
    var cat := ImageList(page);
    if Name(cat[i]) == Name(cat[j]) {
      NameInjective(cat[i], cat[j]);
    }
  }
}
