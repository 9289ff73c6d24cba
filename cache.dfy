/** The local image cache and the selection of a background.

    The image directory is a map from entry names to "is a regular file".
    The network is an oracle: the gallery page is `Some(text)` when it could
    be fetched and `None` otherwise, and `served` is the set of URLs whose
    download succeeds.  A random choice is an arbitrary valid index (or, for
    a set, an arbitrary member). */
module Cache {
  import opened Catalog

  /** The image directory, `~/Pictures/Stålenhag/` below the user's home. */
  const ImagesDir: string := "~/Pictures/Stålenhag/"

  datatype Error = PageUnavailable | EmptyCatalog | DownloadFailed(name: string)

  datatype Result<T> = Success(value: T) | Failure(error: Error)

  /** One line of the bulk download's progress report: the running index,
      the file name, and whether its download went through. */
  datatype Attempt = Attempt(index: nat, name: string, ok: bool)

  /** What a selection returns together with the directory it leaves. */
  datatype Outcome = Outcome(result: Result<string>, files: map<string, bool>)

  function PathOf(name: string): string {
    ImagesDir + name
  }

  predicate IsRegular(files: map<string, bool>, name: string) {
    name in files && files[name]
  }

  /** A download of `name` into the directory succeeds: the server delivers
      its URL, and the target path is a plain file name inside the directory
      (not the directory itself nor its parent) that is absent or a regular
      file. */
  predicate Retrieves(files: map<string, bool>, name: string, served: set<string>) {
    RemoteUrl(name) in served && IsFileName(name) && (name in files ==> files[name])
  }

  /** The local fallback pool: regular files whose names end in `.jpg`. */
  function LocalPool(files: map<string, bool>): set<string> {
    set f | f in files && files[f] && EndsWith(f, Suffix)
  }

  /** The catalog's entries by cache name. */
  function NamesOf(imgs: seq<string>): set<string> {
    set k | 0 <= k < |imgs| :: Name(imgs[k])
  }

  /** `random.choice` is defined on a page with a non-empty catalog only when
      the index is in range. */
  predicate ValidChoice(page: Option<string>, choice: nat) {
    page.Some? && ImageList(page.value) != [] ==> choice < |ImageList(page.value)|
  }

  /** The effect of picking a random remote image, once the directory exists:
      the cache name of the chosen catalog entry is downloaded only when it
      is not already a regular file. */
  function RandomImageSpec(files: map<string, bool>, page: Option<string>,
                           served: set<string>, choice: nat): Outcome
    requires ValidChoice(page, choice)
  {
    if page.None? then
      Outcome(Failure(PageUnavailable), files)
    else if ImageList(page.value) == [] then
      Outcome(Failure(EmptyCatalog), files)
    else
      var name := Name(ImageList(page.value)[choice]);
      if IsRegular(files, name) then
        Outcome(Success(PathOf(name)), files)
      else if Retrieves(files, name, served) then
        Outcome(Success(PathOf(name)), files[name := true])
      else
        Outcome(Failure(DownloadFailed(name)), files)
  }

  /** The directory after downloading every entry of `imgs` in order, each
      attempted whether or not it is already cached. */
  function StoredAll(files: map<string, bool>, imgs: seq<string>,
                     served: set<string>): map<string, bool>
    decreases |imgs|
  {
    if imgs == [] then
      files
    else
      var before := StoredAll(files, imgs[..|imgs| - 1], served);
      var name := Name(imgs[|imgs| - 1]);
      if Retrieves(before, name, served) then before[name := true] else before
  }

  /** The entries a bulk download of `names` adds: those whose download
      succeeds, as regular files. */
  function AddedBy(files: map<string, bool>, names: set<string>,
                   served: set<string>): map<string, bool>
  {
    map n | n in names && Retrieves(files, n, served) :: true
  }

  // ---------------------------------------------------------------------
  // Properties of the specifications.

  /** A catalog whose page has no match is empty, and the selection then
      fails without touching the directory. */
  lemma RandomImageEmptyCatalog(files: map<string, bool>, page: string,
                                served: set<string>, choice: nat)
    requires FindAll(page) == []
    ensures ValidChoice(Some(page), choice)
    ensures RandomImageSpec(files, Some(page), served, choice)
         == Outcome(Failure(EmptyCatalog), files)
  {
    var cat := ImageList(page);
    assert forall k :: 0 <= k < |cat| ==> cat[k] in FindAll(page);
  }

  /** A chosen entry that is already cached is not downloaded again: the
      selection succeeds even when the server would not deliver it. */
  lemma RandomImageHit(files: map<string, bool>, page: string,
                       served: set<string>, choice: nat)
    requires choice < |ImageList(page)|
    requires IsRegular(files, Name(ImageList(page)[choice]))
    ensures RandomImageSpec(files, Some(page), served, choice)
         == Outcome(Success(PathOf(Name(ImageList(page)[choice]))), files)
  {
  }

  /** A successful selection returns the path of a `.jpg` regular file of the
      new directory whose name is that of an image path found on the page;
      the only change to the directory is that this file now exists. */
  lemma RandomImageCachedResult(files: map<string, bool>, page: Option<string>,
                                served: set<string>, choice: nat)
    requires ValidChoice(page, choice)
    ensures var o := RandomImageSpec(files, page, served, choice);
            o.result.Success? ==>
              page.Some? && choice < |ImageList(page.value)| &&
              var img := ImageList(page.value)[choice];
              img in FindAll(page.value) &&
              o.result.value == PathOf(Name(img)) &&
              Name(img) in LocalPool(o.files) &&
              o.files == files[Name(img) := true]
  {
    var o := RandomImageSpec(files, page, served, choice);
    if o.result.Success? {
      var img := ImageList(page.value)[choice];
      NameRoundTrip(img);
    }
  }

  /** In a fresh environment, where the image directory is still empty, a
      successful selection has downloaded the chosen entry from the server,
      and the directory then holds exactly that one file. */
  lemma RandomImageFresh(page: Option<string>, served: set<string>, choice: nat)
    requires ValidChoice(page, choice)
    ensures var o := RandomImageSpec(map[], page, served, choice);
            o.result.Success? ==>
              page.Some? && choice < |ImageList(page.value)| &&
              var name := Name(ImageList(page.value)[choice]);
              RemoteUrl(name) in served &&
              o.files == map[name := true]
  {
    RandomImageCachedResult(map[], page, served, choice);
  }

  /** Repeating a successful selection with the same choice returns the same
      path and downloads nothing. */
  lemma RandomImageIdempotent(files: map<string, bool>, page: Option<string>,
                              served: set<string>, choice: nat)
    requires ValidChoice(page, choice)
    ensures var o := RandomImageSpec(files, page, served, choice);
            o.result.Success? ==>
              RandomImageSpec(o.files, page, served, choice) == o
  {
  }

  /** Whether a download succeeds does not depend on the downloads before it. */
  lemma {:induction false} RetrievesStable(files: map<string, bool>, imgs: seq<string>,
                                           name: string, served: set<string>)
    ensures Retrieves(StoredAll(files, imgs, served), name, served)
         == Retrieves(files, name, served)
    decreases |imgs|
  {
    if imgs != [] {
      RetrievesStable(files, imgs[..|imgs| - 1], name, served);
    }
  }

  /** After the bulk download, exactly the names of the entries whose download
      succeeds have been added as regular files; every other entry is as
      before. */
  lemma {:induction false} StoredAllClosedForm(files: map<string, bool>, imgs: seq<string>,
                                               served: set<string>)
    ensures StoredAll(files, imgs, served) == files + AddedBy(files, NamesOf(imgs), served)
    decreases |imgs|
  {
    if imgs != [] {
      var init := imgs[..|imgs| - 1];
      var m := Name(imgs[|imgs| - 1]);
      StoredAllClosedForm(files, init, served);
      RetrievesStable(files, init, m, served);
      NamesOfSnoc(imgs);
      AddedByInsert(files, NamesOf(init), m, served);
      var before := AddedBy(files, NamesOf(init), served);
      if Retrieves(files, m, served) {
        assert (files + before)[m := true] == files + before[m := true];
      }
    }
  }

  lemma AddedByInsert(files: map<string, bool>, names: set<string>, m: string,
                      served: set<string>)
    ensures AddedBy(files, names + {m}, served)
         == if Retrieves(files, m, served) then AddedBy(files, names, served)[m := true]
            else AddedBy(files, names, served)
  {
    var before, after := AddedBy(files, names, served), AddedBy(files, names + {m}, served);
    if Retrieves(files, m, served) {
      assert after.Keys == before.Keys + {m};
    } else {
      assert after.Keys == before.Keys;
    }
  }

  lemma NamesOfSnoc(imgs: seq<string>)
    requires imgs != []
    ensures NamesOf(imgs) == NamesOf(imgs[..|imgs| - 1]) + {Name(imgs[|imgs| - 1])}
  {
    var init, m := imgs[..|imgs| - 1], Name(imgs[|imgs| - 1]);
    forall n | n in NamesOf(imgs) ensures n in NamesOf(init) + {m} {
      var k :| 0 <= k < |imgs| && n == Name(imgs[k]);
      if k < |imgs| - 1 {
        assert imgs[k] == init[k];
      }
    }
    forall n | n in NamesOf(init) ensures n in NamesOf(imgs) {
      var k :| 0 <= k < |init| && n == Name(init[k]);
      assert init[k] == imgs[k];
    }
  }

  // ---------------------------------------------------------------------
  // The image directory.

  class ImageDir {
    /** Whether the image directory exists. */
    var present: bool
    /** Its entries: name to "is a regular file". */
    var files: map<string, bool>

    ghost predicate Valid()
      reads this
    {
      !present ==> files == map[]
    }

    constructor (present: bool, files: map<string, bool>)
      requires present || files == map[]
      ensures Valid()
      ensures this.present == present && this.files == files
    {
      this.present := present;
      this.files := files;
    }

    /** Creates the directory when it is absent. */
    method CheckDirs()
      requires Valid()
      modifies this
      ensures Valid() && present
      ensures files == old(files)
    {
      if !present {
        present := true;
      }
    }

    /** `name` is a regular file of the directory. */
    predicate LocalExists(name: string)
      reads this
    {
      IsRegular(files, name)
    }

    /** Downloads `name` from the gallery folder into the directory.  Every
        name the program downloads is a plain file name (`NameRoundTrip`). */
    method Download(name: string, served: set<string>) returns (ok: bool)
      requires Valid() && present
      requires IsFileName(name)
      modifies this
      ensures Valid() && present
      ensures ok == Retrieves(old(files), name, served)
      ensures files == if ok then old(files)[name := true] else old(files)
    {
      ok := Retrieves(files, name, served);
      if ok {
        files := files[name := true];
      }
    }

    /** Picks a catalog entry and returns its local path, downloading it first
        when it is not cached. */
    method RandomImage(page: Option<string>, served: set<string>, choice: nat)
      returns (r: Result<string>)
      requires Valid()
      requires ValidChoice(page, choice)
      modifies this
      ensures Valid() && present
      ensures Outcome(r, files) == RandomImageSpec(old(files), page, served, choice)
      ensures !old(present) && r.Success? ==>
                page.Some? && choice < |ImageList(page.value)| &&
                files == map[Name(ImageList(page.value)[choice]) := true]
    {
      RandomImageFresh(page, served, choice);
      CheckDirs();
      if page.None? {
        return Failure(PageUnavailable);
      }
      var images := ImageList(page.value);
      if images == [] {
        return Failure(EmptyCatalog);
      }
      var name := Name(images[choice]);
      NameRoundTrip(images[choice]);
      if !LocalExists(name) {
        var ok := Download(name, served);
        if !ok {
          return Failure(DownloadFailed(name));
        }
      }
      return Success(PathOf(name));
    }

    /** Picks a `.jpg` regular file of the directory, if there is one. */
    method RandomLocalImage() returns (r: Option<string>)
      requires Valid() && present
      ensures r.None? <==> LocalPool(files) == {}
      ensures r.Some? ==> exists f :: f in LocalPool(files) && r.value == PathOf(f)
    {
      var images := LocalPool(files);
      if images == {} {
        return None;
      }
      var f :| f in images;
      return Some(PathOf(f));
    }

    /** Downloads every catalog entry in order, numbering the attempts from 1
        and carrying on after a failed one. */
    method DownloadAll(page: Option<string>, served: set<string>)
      returns (r: Result<seq<Attempt>>)
      requires Valid()
      modifies this
      ensures Valid() && present
      ensures page.None? ==> r == Failure(PageUnavailable) && files == old(files)
      ensures page.Some? ==>
                var cat := ImageList(page.value);
                r.Success? && |r.value| == |cat| &&
                (forall k :: 0 <= k < |cat| ==>
                   r.value[k] == Attempt(k + 1, Name(cat[k]),
                                         Retrieves(old(files), Name(cat[k]), served))) &&
                files == old(files) + AddedBy(old(files), NamesOf(cat), served)
    {
      CheckDirs();
      if page.None? {
        return Failure(PageUnavailable);
      }
      var images := ImageList(page.value);
      forall k | 0 <= k < |images| ensures IsFileName(Name(images[k])) {
        NameRoundTrip(images[k]);
      }
      var log := DownloadEach(images, served);
      return Success(log);
    }

    /** The loop of the bulk download: every entry of `images` is attempted
        once, in order, with a running index from 1. */
    method DownloadEach(images: seq<string>, served: set<string>)
      returns (log: seq<Attempt>)
      requires Valid() && present
      requires forall k :: 0 <= k < |images| ==> IsFileName(Name(images[k]))
      modifies this
      ensures Valid() && present
      ensures |log| == |images|
      ensures forall k :: 0 <= k < |images| ==>
                log[k] == Attempt(k + 1, Name(images[k]),
                                  Retrieves(old(files), Name(images[k]), served))
      ensures files == old(files) + AddedBy(old(files), NamesOf(images), served)
    {
      ghost var before := files;
      log := [];
      var index := 1;
      for i := 0 to |images|
        invariant Valid() && present
        invariant index == i + 1
        invariant |log| == i
        invariant forall k :: 0 <= k < i ==>
                    log[k] == Attempt(k + 1, Name(images[k]),
                                      Retrieves(before, Name(images[k]), served))
        invariant files == StoredAll(before, images[..i], served)
      {
        var name := Name(images[i]);
        RetrievesStable(before, images[..i], name, served);
        var ok := Download(name, served);
        log := log + [Attempt(index, name, ok)];
        index := index + 1;
        assert images[..i + 1][..i] == images[..i];
      }
      assert images[..|images|] == images;
      StoredAllClosedForm(before, images, served);
    }

    /** The selection branch of the program's entry point: try a remote image,
        and on any failure fall back to a local one.  The background is set
        exactly when the result is `Some`. */
    method ChooseBackground(page: Option<string>, served: set<string>, choice: nat)
      returns (bg: Option<string>)
      requires Valid()
      requires ValidChoice(page, choice)
      modifies this
      ensures Valid() && present
      ensures var o := RandomImageSpec(old(files), page, served, choice);
              files == o.files &&
              (o.result.Success? ==> bg == Some(o.result.value)) &&
              (o.result.Failure? ==> (bg.None? <==> LocalPool(files) == {}))
      ensures bg.Some? ==> exists f :: f in LocalPool(files) && bg.value == PathOf(f)
    {
      RandomImageCachedResult(files, page, served, choice);
      var remote := RandomImage(page, served, choice);
      if remote.Success? {
        bg := Some(remote.value);
        assert Name(ImageList(page.value)[choice]) in LocalPool(files);
      } else {
        bg := RandomLocalImage();
      }
    }
  }
}
