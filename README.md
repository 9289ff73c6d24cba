# Stålenhag wallpaper downloader: image discovery and local cache

This project models the core of a small wallpaper tool for Simon Stålenhag's
gallery (`stalenhag.py`). The tool reads the gallery's front page and
collects every image path of the form `bilderbig/<word>.jpg`. It keeps
downloaded images in `~/Pictures/Stålenhag/` and picks one as the desktop
background. When the network fails, it falls back to an image already
cached. A second mode downloads the whole catalog.

Two modules:

- `catalog.dfy`, module `Catalog`. This is the pure part. It scans a page
  for the pattern `bilderbig/[a-zA-Z0-9_]*\.jpg` from left to right, the way
  `re.findall` does. It removes duplicates (`list(set(...))`) and derives
  the cache name `img[10:]`. The lemmas prove three things about the scan:
  - it emits exactly the slices of the page where the pattern occurs;
  - the greedy word run never needs backtracking;
  - no occurrence can start inside an earlier match.
- `cache.dfy`, module `Cache`. This is the stateful part. The class
  `ImageDir` holds whether the image directory exists and its entries, a map
  from name to "is a regular file". Its methods are `check_dirs`,
  `local_exists`, `download_image`, `get_random_image`,
  `get_random_local_image`, `get_all_images` and the try-remote,
  else-local branch of the entry point. `CheckDirs` and `Download` state
  their new directory directly. `RandomImage` is proved equal to the pure
  function `RandomImageSpec`, whose properties are lemmas. The bulk loop is
  proved against the recursive function `StoredAll` in its invariant, and
  `DownloadAll` states the closed form that `StoredAllClosedForm` proves for
  it: the old directory plus `AddedBy`, the names that downloaded.

Inputs the program gets from the outside world become parameters:

- the page text is `Option<string>`, where `None` means fetching the page
  failed;
- the network's answer to downloads is `served`, the set of URLs that
  download successfully;
- `random.choice` is an arbitrary index `choice` into the catalog, or an
  arbitrary member of the local pool.

## Model

| member | source | states |
|---|---|---|
| `Catalog.OccursAt` | stalenhag.py:18 | What the pattern means, apart from how it is searched for: the slice `[i, e)` of the page is `bilderbig/`, then a possibly empty run of ASCII letters, digits and `_`, then `.jpg`. `MatchAtIffOccurs`, `NoPrefixInside`, `ScanSound`, `ScanComplete` and `FindAllIffOccurs` are stated against it. |
| `Catalog.IsImagePath` | stalenhag.py:18 | A string that is, as a whole, one occurrence of the pattern. `OccurrenceIsImagePath`, `FindAllImagePaths`, `ImageList`, `NameRoundTrip` and `NameInjective` use it. |
| `Catalog.MatchAt` | stalenhag.py:18 | One match attempt at a position: the prefix, then the greedy word run, then `.jpg`, giving the end of the match. A match is at least 14 characters long and lies inside the page. `MatchAtIffOccurs` characterises it. |
| `Catalog.ScanFrom` | stalenhag.py:18 | The `findall` scan: emit a match and resume after it, else move on by one character. `ScanSound` and `ScanComplete` characterise it. |
| `Catalog.FindAll` | stalenhag.py:18 | The raw match list of the page, in page order, with duplicates. `FindAllIffOccurs` and `FindAllImagePaths` characterise it. |
| `Catalog.Name` | stalenhag.py:39 | The slice `img[10:]`, empty for a string shorter than ten characters. `NameRoundTrip` and `NameInjective` characterise it on image paths. |
| `Catalog.RemoteUrl` | stalenhag.py:22 | The download URL `BASE + 'bilderbig/' + name`. `NameRoundTrip` shows it is the site base followed by the image path. |
| `Catalog.RunEnd` | stalenhag.py:18 | The greedy `[a-zA-Z0-9_]*` consumes a run of word characters and stops at the first non-word character or at the end of the text. |
| `Catalog.MatchAtIffOccurs` | stalenhag.py:18 | One match attempt at position `i` ends at `e` if and only if the page slice `[i, e)` is `bilderbig/`, then a word, then `.jpg`. So greedy matching without backtracking finds every occurrence that starts at `i`. |
| `Catalog.NoPrefixInside` | stalenhag.py:18 | `bilderbig/` cannot start strictly inside a match, so occurrences never overlap. |
| `Catalog.ScanSound` | stalenhag.py:18 | Every string the left-to-right scan emits is an occurrence of the pattern in the page at or after the start position. |
| `Catalog.ScanComplete` | stalenhag.py:18 | Every occurrence of the pattern at or after the start position is emitted by the scan. |
| `Catalog.FindAllIffOccurs` | stalenhag.py:18 | A string is among the page's matches if and only if it is a slice of the page where the pattern occurs. |
| `Catalog.OccurrenceIsImagePath` | stalenhag.py:18 | A slice where the pattern occurs has, on its own, the shape `bilderbig/<word>.jpg`. |
| `Catalog.FindAllImagePaths` | stalenhag.py:18 | Every match has the shape `bilderbig/` + `w` + `.jpg`, where `w` is made of ASCII letters, digits and `_` and may be empty. |
| `Catalog.Dedup` | stalenhag.py:19 | Rebuilding the list from a set keeps exactly the same elements and leaves no duplicates. |
| `Catalog.ImageList` | stalenhag.py:16-19 | The catalog has no duplicates, has the same elements as the raw match list, and each element is an image path. |
| `Catalog.NameRoundTrip` | stalenhag.py:39 | For an image path: `"bilderbig/" + img[10:] == img`. The name contains no `/`, ends in `.jpg`, and is neither empty nor `.` nor `..`, so `IMAGES_DIR + name` is a file directly inside the image directory, not the directory or its parent. The URL the name is downloaded from is the site base followed by the image path. |
| `Catalog.NameInjective` | stalenhag.py:39 | Two different image paths never get the same cache name. |
| `Catalog.CatalogNamesDistinct` | stalenhag.py:54-55 | Different catalog entries have different cache names, so the bulk download never writes the same file twice. |
| `Cache.PathOf` | stalenhag.py:14 | The local path `IMAGES_DIR + name`, which is also the value returned at lines 30 and 44. `RandomLocalImage`, `RandomImageCachedResult` and `ChooseBackground` state their results in terms of it. |
| `Cache.ValidChoice` | stalenhag.py:38 | The indices `random.choice` can pick: when the page was read and its catalog is non-empty, the choice is below the catalog's length. Otherwise any index is allowed, because no choice is made. `RandomImageSpec`, `RandomImage` and `ChooseBackground` require it. |
| `Cache.Retrieves` | stalenhag.py:22 | When `urlretrieve` succeeds: the server delivers the URL, and the target is a plain file name (not empty, not `.` or `..`, no `/`) that is absent from the directory or a regular file in it. Writing to the directory itself or to its parent fails. `RetrievesStable` shows earlier downloads do not change it. |
| `Cache.LocalPool` | stalenhag.py:25-27 | The two `filter` steps over the directory listing: regular files whose names end in `.jpg`. `RandomLocalImage` and `ChooseBackground` are stated in terms of it. |
| `Cache.RandomImageSpec` | stalenhag.py:34-44 | The result and new directory of `get_random_image` once the directory exists. `RandomImageEmptyCatalog`, `RandomImageHit`, `RandomImageCachedResult`, `RandomImageFresh` and `RandomImageIdempotent` characterise it. |
| `Cache.StoredAll` | stalenhag.py:53-64 | The directory after the bulk loop, one download per entry in order. `StoredAllClosedForm` gives its closed form. |
| `Cache.ImageDir.LocalExists` | stalenhag.py:13-14 | `os.path.isfile(IMAGES_DIR + filename)`: the name is an entry of the directory and a regular file. `RandomImageHit` states that a hit is not downloaded. |
| `Cache.RandomImageEmptyCatalog` | stalenhag.py:37-38 | A page with no match gives an empty catalog. The selection then fails with `EmptyCatalog` (where `random.choice` raises) and leaves the directory as it was. |
| `Cache.RandomImageHit` | stalenhag.py:41-44 | When the chosen name is already a regular file, nothing is downloaded and its path is returned, even if the server would not deliver it. |
| `Cache.RandomImageCachedResult` | stalenhag.py:37-44 | A successful selection returns `IMAGES_DIR + name`, where `name` is the name of a path found on the page. That file is now a regular `.jpg` file in the directory. The only change to the directory is that file. |
| `Cache.RandomImageFresh` | stalenhag.py:34-44 | In a fresh environment, with the image directory still empty, a successful selection has downloaded the chosen entry from the server, and the directory then holds exactly that one file. |
| `Cache.RandomImageIdempotent` | stalenhag.py:41-44 | Repeating a successful selection with the same choice returns the same path and changes nothing, so it performs no download. |
| `Cache.RetrievesStable` | stalenhag.py:58-60 | Whether a download in the bulk loop succeeds does not depend on the downloads before it. |
| `Cache.StoredAllClosedForm` | stalenhag.py:53-64 | After the bulk loop, the directory is the old one plus, as regular files, the catalog names whose download succeeded. Nothing else changes. |
| `Cache.AddedByInsert` | stalenhag.py:58-60 | One more attempted name adds exactly that name when its download succeeds, and nothing when it fails. |
| `Cache.NamesOfSnoc` | stalenhag.py:54-55 | The names of a catalog prefix that grows by one entry grow by that entry's name. |
| `Cache.ImageDir.CheckDirs` | stalenhag.py:9-11 | Afterwards the directory exists and its entries are unchanged. Calling it again changes nothing. |
| `Cache.ImageDir.Download` | stalenhag.py:21-22 | The download succeeds exactly when the server delivers `BASE + "bilderbig/" + name` and the target is absent or a regular file. It is called only with plain file names (not empty, not `.` or `..`, no `/`), which every name from the catalog is. On success the name becomes a regular file. On failure nothing changes. |
| `Cache.ImageDir.RandomImage` | stalenhag.py:34-44 | Creates the directory first. The result and the new directory are those of `RandomImageSpec`: failure when the page is unavailable or the catalog is empty; otherwise the chosen entry's name is downloaded only when it is not already a regular file. When the directory did not exist, a success leaves it holding exactly the chosen entry's file. |
| `Cache.ImageDir.RandomLocalImage` | stalenhag.py:24-32 | Returns `None` exactly when the directory has no regular file whose name ends in `.jpg`. Otherwise it returns `IMAGES_DIR + f` for such a file `f`. |
| `Cache.ImageDir.DownloadAll` | stalenhag.py:46-64 | Fails only when the page is unavailable. Otherwise it attempts each catalog entry exactly once, in list order, numbered 1..n. Each attempt's success is that of its download from the original directory, with no `local_exists` check. A failure does not stop the loop. The new directory is the old one plus the names that downloaded. |
| `Cache.ImageDir.DownloadEach` | stalenhag.py:53-64 | The loop attempts `images[k]` as attempt number `k + 1`, for every `k` in order. The attempt's outcome is that of its download from the directory before the loop. The directory afterwards is the old one plus exactly the names that downloaded. |
| `Cache.ImageDir.ChooseBackground` | stalenhag.py:74-84 | The remote result is used when it succeeds. Otherwise the local fallback's result is used, and it is `None` exactly when the local pool is empty. Whatever is returned is the path of a regular `.jpg` file in the image directory. |

## Left out

- `install_windows.py`: installer glue (pip, pyinstaller, removing build directories, Windows shortcuts).
- `set_background`: it runs `gsettings` through the shell. The model's `ChooseBackground` returns the path that would be passed to it.
- The argument dispatch of the entry point (`sys.argv[1] == 'all'`): it is command-line glue. The two branches are `DownloadAll` and `ChooseBackground`.
- HTTP: the page and the downloads are oracles. Failures are plain outcomes. `str(bytes)` escaping of the page is not modelled: the page is a given character sequence.
- `Cache.ImageDir.Download`: a download that fails part way may leave a partial file on disk. The model leaves the directory unchanged on failure. The server's answer is fixed for the whole run.
- `Catalog.Dedup`: `list(set(...))` has an unspecified order. The model keeps the last occurrence of each element, in list order. Every property proved about the catalog holds for any order.
- `Cache.ImageDir.Download`: permission failures are not modelled. A read-only file or directory makes `urlretrieve` fail, while the model treats every existing regular file as writable.
- `Cache.ImageDir.Download`: a name containing `/` is outside its precondition, and `Retrieves` counts it as failing. `urlretrieve` would write such a name into a subdirectory when one exists. Every name the program downloads is `img[10:]` of an image path, which has no `/`.
- `Cache.ImageDir.CheckDirs`: `os.mkdir` can fail, for example when `~/Pictures` does not exist. The model assumes it succeeds.
- `Cache.ImageDir.RandomLocalImage`: it requires the directory to exist, which `check_dirs` guarantees on every path of the program. `os.listdir` would raise on a missing directory.
- `os.path.expanduser`: the image directory is the constant `~/Pictures/Stålenhag/`, with the home directory not expanded.
- Console output: the "Found N images" line and the per-image progress lines are left out. The bulk download's `Attempt` log records what those lines report.
- The bare `except:` clauses: they also catch interrupts. The model treats every exception as a plain failure outcome.
- Randomness: the remote choice is an arbitrary valid index and the local choice an arbitrary pool member. Uniformity is not modelled.
- The program reads one page with one prefix, `bilderbig/`. The cache name is `img[10:]`, the image path without that prefix.
