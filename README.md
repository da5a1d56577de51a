# gtkcord3 image cache, modelled in Dafny

This project models the image cache in `gtkcord/cache/cache.go` of gtkcord3. The cache fetches an image by URL and keeps it on disk under a versioned directory in the temp directory. It decodes the image, scaling it to a requested bound, and hands it to a GTK image widget.

The project has one module per component:

- `Text` (`text.dfy`): the Go library string functions the cache relies on. These are `strings.HasPrefix`, `strings.Contains`, `strings.Replace(s, old, new, -1)` and `strconv.Itoa`.
  - `HasPrefix` is also characterised as "`s` is `p` followed by some string".
  - `Contains` is also characterised by the positions where the substring occurs.
  - `Replace` is also characterised position by position, for a pattern such as `gif` that cannot overlap itself.
  - `Itoa` has an inverse, `Atoi`.
- `CacheKey` (`cache_key.dfy`): `SanitizeString` and `TransformURL`. Also the cache root `Temp/gtkcord3-hackadoll3`, and `filepath.Join` for one path element at a time. Join drops `""` and `.`, and resolves `..` to the parent directory.
- `Sizing` (`sizing.dfy`):
  - `MaxSize`, using Go's division, which truncates toward zero.
  - The "size-prepared" hook that applies `MaxSize` while decoding.
  - `SizeToURL`, with a parser that reads its output back.
- `Sweep` (`sweep.dfy`): the start-up sweep of `cleanUpCache`, as a loop over the directory listing.
- `Fetch` (`fetch.dfy`):
  - The status gate and body handling of `download` and `SetImageAsync`.
  - The image loader, in two forms. `setImageStream` succeeds once the bytes are copied into the loader. The decoding in `getPixbufFromFile` also needs `l.Close()` and `l.GetPixbuf()` to succeed.
- `DiskCache` (`disk_cache.dfy`): a class `Cache` whose field `files` is the disk, a map from path to bytes. Its methods are `get`, `GetPixbufScaled`, `SetImageScaledContext` (including the gif→png rewrite) and `fetchImage`. A ghost field `requests` logs the URLs of the GET requests actually sent, oldest first. A GET counts as sent once the throttler is acquired and the request is built. This lets contracts say which URL is fetched, and that a cache hit sends nothing.

Several outside results are parameters of the model:
- How one GET goes (`Exchange`): the throttler refused, request construction failed, the transport failed, or a response arrived. A response carries its status, its body, whether the body was read to the end, and what each processor chain produced.
- How `ioutil.WriteFile` goes (`WriteOutcome`): written, not created, or cut short after some bytes.
- What `url.Parse` yields (`ParsedURL`: host name, escaped path, raw query; `None` on failure).
- The GDK loader (`Decoder`): which byte strings it takes in, which of those it can also close and turn into a pixbuf, and the native size it reports.

Behaviours of the code that the model states:
- **A host named `..` escapes the cache root.** `filepath.Join(Path, "..")` is the temp directory itself. A URL such as `http://../x` is therefore cached as `Temp/_x_`, outside the cache root.
  - `CacheKey.DotDotHostLeavesRoot` states this, and `CacheKey.KeyIsUnderRoot` holds for every other host.
  - Every key still starts with the temp directory's path (`CacheKey.TransformURL`).
- **`MaxSize` only fits square bounds.** It honours the bound of the larger native dimension only.
  - With a square bound the result fits and never enlarges the image (`Sizing.MaxSizeSquareBoundFits`).
  - With a non-square bound the result can leave the bound or enlarge the image (`Sizing.MaxSizeCanLeaveBound`).
  - A very flat image is scaled to height 0 (`Sizing.MaxSizeCanCollapse`).
- **`MaxSize` scales as soon as one side reaches the bound.** It keeps the native size only when both sides are below the bound.
- **The gif rewrite can leave "gif" in the URL.** The replacement is one left-to-right pass, so it can form a new `gif`: `gifif` becomes `pngif` (`DiskCache.RewriteMayLeaveGif`). The gif flag is computed once, before the rewrite, and set to false. So `SetImageScaledContext` never downloads or decodes as an animation.
- **The two readers of a cache file disagree on a file the loader takes in but cannot finish**, such as the prefix of an image that a short write leaves.
  - `setImageFromFile` ignores the error of `l.Close()`, so `SetImageScaledContext` shows such a file as a hit. It sends no GET, and the file stays for good.
  - `getPixbufFromFile` reports that error, so `GetPixbufScaled` downloads the URL again and overwrites the file.
  - `DiskCache.PartialFileReadersDisagree` and `DiskCache.PartialFileIsHitOnlyForImages` state this.
- **Only `SetImageScaledContext` removes an undecodable file.** It removes a downloaded file that does not decode. `GetPixbufScaled` leaves such a file on disk.
- **A failed write is not rolled back.** When `ioutil.WriteFile` fails, the old file stays, or the truncated new one does. Both methods return before any removal.
- **The key ignores the requested size.** The key is a function of the URL alone. `TransformURL` takes no size, and its `sizeSuffix` is always empty.
- **A first request, then a second.** `DiskCache.FirstFetchThenHit` is a client method with nothing cached, a 200x50 image and a 100x100 bound. The first request sends one GET and makes one write, and the image is shown at 100x25. The second request sends no GET.

## Model

| member | source | states |
|---|---|---|
| `Text.HasPrefix` | gtkcord/cache/cache.go:65 | `strings.HasPrefix(s, p)` holds if and only if `s` is `p` followed by some string. |
| `Text.Contains` | gtkcord/cache/cache.go:197 | The empty string is contained in every string. Nothing longer than `s` is contained in it. |
| `Text.ContainsIffOccurs` | gtkcord/cache/cache.go:197 | `strings.Contains` holds if and only if the substring occurs at some position. |
| `Text.ReplaceAll` | gtkcord/cache/cache.go:201 | A string without the pattern comes back unchanged. |
| `Text.ReplaceAllLength` | gtkcord/cache/cache.go:201 | Replacing by an equally long string preserves the length. |
| `Text.ReplaceAllIsIdentityIff` | gtkcord/cache/cache.go:201 | With a distinct, equally long replacement, the result equals the input if and only if the pattern does not occur. |
| `Text.ReplaceAllPositions` | gtkcord/cache/cache.go:201 | Take a pattern that cannot overlap itself and an equally long replacement. Every rune inside an occurrence becomes the matching rune of the replacement. Every rune outside all occurrences is kept. |
| `Text.Itoa` | gtkcord/cache/cache.go:272 | The result is non-empty, made of digits with an optional leading `-`, and starts with `-` exactly for negative numbers. |
| `Text.AtoiItoa` | gtkcord/cache/cache.go:272 | The decimal text `strconv.Itoa` produces parses back to the same integer. |
| `CacheKey.Sanitize` | gtkcord/cache/cache.go:92-100 | The length in runes is preserved. Every output rune is a letter, digit, `#`, `.` or `_`. Letters, digits, `#` and `.` stay in place, and every other rune becomes `_`. |
| `CacheKey.SanitizeIdempotent` | gtkcord/cache/cache.go:93-99 | Sanitizing an already sanitized string changes nothing. |
| `CacheKey.SanitizeHasNoSlash` | gtkcord/cache/cache.go:92-100 | A sanitized string never contains the path separator. |
| `CacheKey.SanitizeConcat` | gtkcord/cache/cache.go:92-100 | Sanitizing a concatenation sanitizes each part. |
| `CacheKey.SanitizeCollision` | gtkcord/cache/cache.go:92-100 | Two strings sanitize alike if and only if they have the same length and agree wherever either has a kept rune. This is the only collision class. |
| `CacheKey.Join` | gtkcord/cache/cache.go:81 | Joining a plain element (not empty, not `.` or `..`, no `/`) onto a directory other than `/` inserts one separator. |
| `CacheKey.CacheRoot` | gtkcord/cache/cache.go:38-41 | The cache root of a clean absolute temp directory is itself a clean absolute directory and not `/`. |
| `CacheKey.ParentOfCacheRoot` | gtkcord/cache/cache.go:39-41 | The parent of the cache root is the temp directory. |
| `CacheKey.TransformURL` | gtkcord/cache/cache.go:73-88 | The path of every cache file, for every URL and every parse outcome, starts with the temp directory's path. `KeyIsUnderRoot` and `DotDotHostLeavesRoot` give its exact shape. |
| `CacheKey.LeafShape` | gtkcord/cache/cache.go:87 | A parsed URL's file name is the sanitized path, `_` for the `?`, then the sanitized query. It is always a plain path element. |
| `CacheKey.KeyOfParsedURL` | gtkcord/cache/cache.go:81-87 | A parsed URL with an ordinary host is stored at `root/host/leaf`, with no size suffix. |
| `CacheKey.KeyOfHostlessURL` | gtkcord/cache/cache.go:81-87 | An empty (or `.`) host adds no host directory: `root/leaf`. |
| `CacheKey.KeyOfUnparsedURL` | gtkcord/cache/cache.go:76-79 | A URL that fails to parse is stored at `root/Sanitize(url)`, with no host directory. |
| `CacheKey.KeyIsUnderRoot` | gtkcord/cache/cache.go:73-88 | Every key lies strictly below the cache root, for every host without `/` other than `..`. |
| `CacheKey.DotDotHostLeavesRoot` | gtkcord/cache/cache.go:81-87 | With host `..` the key is `Temp/leaf`, which is not below the cache root. |
| `CacheKey.KeyCollision` | gtkcord/cache/cache.go:81-87 | Two parsed URLs with ordinary hosts get the same key if and only if their hosts are equal and their sanitized path-and-query are equal. |
| `Sizing.Quot` | gtkcord/cache/cache.go:281-284 | Go integer division truncates toward zero: bounds on `q * b` for non-negative and for negative dividends, and a non-negative quotient of non-negative by positive. |
| `Sizing.MaxSize` | gtkcord/cache/cache.go:275-289 | Either the size is kept or one side equals its bound. Positive inputs give no negative side. |
| `Sizing.MaxSizeUnscaled` | gtkcord/cache/cache.go:276-278 | An image below the bound in both dimensions keeps its size. |
| `Sizing.MaxSizeWide` | gtkcord/cache/cache.go:280-282 | For a wider-than-tall image that reaches the bound, the width is exactly `maxW`. The height `h'` satisfies `h'*w <= h*maxW < (h'+1)*w`, so the aspect ratio is off by less than one pixel, and `0 <= h' < maxW`. |
| `Sizing.MaxSizeTall` | gtkcord/cache/cache.go:283-286 | For a tall or square image that reaches the bound, the height is exactly `maxH`. The width `w'` satisfies `w'*h <= w*maxH < (w'+1)*h`, and `0 <= w' <= maxH`. |
| `Sizing.MaxSizeSquareBoundFits` | gtkcord/cache/cache.go:275-289 | With a square bound the result lies within the bound and is never larger than the native size. |
| `Sizing.MaxSizeCanLeaveBound` | gtkcord/cache/cache.go:280-286 | With a non-square bound, 200x150 in 100x10 gives 100x75, and 50x10 in 100x5 is enlarged to 100x20. |
| `Sizing.MaxSizeCanCollapse` | gtkcord/cache/cache.go:281 | A 1000x1 image in a 10x10 bound is scaled to height 0. |
| `Sizing.PreparedSize` | gtkcord/cache/cache.go:303-309 | Without a positive bound the native size is kept. With a positive square bound the decoded size lies within the bound and within the native size. |
| `Sizing.PreparedSizeExample` | gtkcord/cache/cache.go:355-363 | A 200x50 image with a 100x100 bound is decoded at 100x25. |
| `Sizing.SizeToURL` | gtkcord/cache/cache.go:271-273 | The result starts with the URL it was given. |
| `Sizing.ParseSizeToURL` | gtkcord/cache/cache.go:271-273 | Reading back the appended `?width=W&height=H` recovers the URL, `W` and `H`, even when the URL already has a query. |
| `Sweep.IsStale` | gtkcord/cache/cache.go:65 | A selected name starts with the cache prefix. The current cache directory is never selected. |
| `Sweep.CleanUpCache` | gtkcord/cache/cache.go:53-71 | An unreadable temp directory deletes nothing. Otherwise the loop deletes exactly the stale entries of the listing, in listing order. |
| `Sweep.StaleEntriesExact` | gtkcord/cache/cache.go:64-69 | A name is selected if and only if it is in the listing, starts with `gtkcord3-` and differs from `gtkcord3-hackadoll3`. |
| `Sweep.CurrentDirKept` | gtkcord/cache/cache.go:65 | The current cache directory is never selected. |
| `Sweep.PreviousVersionSwept` | gtkcord/cache/cache.go:33-39 | After the cache hash changes, the previous version's directory is selected at the next start-up. |
| `Fetch.Download` | gtkcord/cache/cache.go:104-142 | Bytes are returned only for a response with status 200..299. Any other status is `BadStatus(code)` and returns no bytes. Without processors the bytes are the complete body. |
| `Fetch.NotFoundIsBadStatus` | gtkcord/cache/cache.go:122-124 | A 404 response is the error `BadStatus(404)`. |
| `Fetch.LoadStream` | gtkcord/cache/cache.go:338-407 | The result is an image if and only if the copy into the loader succeeds; `l.Close()` is deferred and its error dropped. The image carries the bytes and the gif flag. With a square bound its size is within the bound. |
| `Fetch.LoadPixbuf` | gtkcord/cache/cache.go:296-325 | The result is a pixbuf if and only if the copy, `l.Close()` and `l.GetPixbuf()` all succeed. A failed copy is `StreamFailed`, and a failed close is `CloseFailed`. A pixbuf is the image `setImageStream` would show. |
| `Fetch.SetImageAsync` | gtkcord/cache/cache.go:226-246 | Same status gate as `download`. On success the whole body is shown, as an animation exactly when the URL contains `.gif`. |
| `DiskCache.AfterWrite` | gtkcord/cache/cache.go:151-153 | Only `dst` can change. It holds the bytes after a write, stays as it was when the file cannot be created, and holds a prefix of the bytes after a short write. |
| `DiskCache.ImageFromFile` | gtkcord/cache/cache.go:328-336 | Showing a cache file succeeds if and only if the file exists and the loader takes it in. A missing file is `OpenFailed`. The image comes from the file's bytes, at the size-prepared size. |
| `DiskCache.PixbufFromFile` | gtkcord/cache/cache.go:291-326 | Decoding a cache file succeeds if and only if it exists and the loader takes it in and closes it. A missing file is `OpenFailed`. A decoded pixbuf is the image `setImageFromFile` would show. |
| `DiskCache.PartialFileReadersDisagree` | gtkcord/cache/cache.go:316-318 | A file the loader takes in but cannot close is shown by `setImageFromFile` but is `CloseFailed` for `getPixbufFromFile`. |
| `DiskCache.RewriteGif` | gtkcord/cache/cache.go:197-203 | The gif flag ends false and the length is preserved. The URL is unchanged if and only if it does not contain `gif`. |
| `DiskCache.RewriteGifPositions` | gtkcord/cache/cache.go:197-203 | Every `gif` in the URL becomes `png` in the same place, and every rune outside them is kept. |
| `DiskCache.RewriteMayLeaveGif` | gtkcord/cache/cache.go:197-203 | `gifif` is rewritten to `pngif`, which still contains `gif`. |
| `DiskCache.Cache.Key` | gtkcord/cache/cache.go:164 | The path of a URL's cache file, for this cache's temp directory and parser, starts with the temp directory's path. |
| `DiskCache.Cache.Get` | gtkcord/cache/cache.go:145-156 | The URL is logged as requested unless the throttler or request construction failed. A failed download leaves the disk unchanged and returns its error. Otherwise the disk is as the write left it: the error is `WriteFailed` unless the file was written. |
| `DiskCache.Cache.GetPixbufScaled` | gtkcord/cache/cache.go:162-183 | A file `getPixbufFromFile` decodes is returned with no GET and no disk change. Otherwise the URL itself is requested, and a failed download changes nothing. After a successful download the disk is as the write left it: a failed write is `WriteFailed`, and a written file is decoded again and kept even if it fails. Success implies a hit afterwards. Only the URL's key can change. |
| `DiskCache.Cache.SetImageScaledContext` | gtkcord/cache/cache.go:193-223 | The whole outcome is stated in `ScaledOutcome`. After the gif rewrite, a file the loader takes in is shown, with no GET and no disk change. Otherwise the rewritten URL is requested. A failed download changes nothing. A failed write returns `WriteFailed` and leaves what it wrote. A written file the loader refuses is removed (`StreamFailed`). A written file it takes in is shown. Only the key changes. |
| `DiskCache.Cache.FetchImage` | gtkcord/cache/cache.go:258-269 | Without processors, `SetImageAsync` runs on the URL: its outcome, the URL logged when sent, and no disk change. With processors, exactly the outcome of `SetImageScaledContext`. |
| `DiskCache.RepeatIsServedFromDisk` | gtkcord/cache/cache.go:193-223 | After a successful request, a second request for the same URL succeeds whatever bound and processors it passes. It sends no GET and leaves the disk exactly as the first left it. The first sends at most one GET, for the rewritten URL. |
| `DiskCache.PartialFileIsHitOnlyForImages` | gtkcord/cache/cache.go:162-223 | Take a cache file the loader takes in but cannot close. `SetImageScaledContext` shows it without a GET, and `GetPixbufScaled` then requests the URL. |

## Left out

- The `throttler` weighted semaphore bounds concurrency, which a sequential model cannot show. Only its refusal (a done context) appears, as the `NotAcquired` outcome.
- Goroutines, `semaphore.IdleMust`/`semaphore.Async` marshalling onto the GTK thread, and the placeholder icon that `AsyncFetch` and `AsyncFetchUnsafe` set are not modelled. These are concurrency and widget plumbing.
- `http.Client`, request construction, the 15-second timeout and body reading are network I/O. They appear only as the `Exchange` outcome. A transport failure counts as a sent request; whether any bytes reached the network is not modelled.
- `ProcessStream` and `ProcessAnimationStream` are not part of this model. Their results are part of the `Exchange` outcome.
- The GDK pixbuf loader, its signal callbacks and `img.SetFrom*` are foreign GTK calls. The loader is the `Decoder` record. A stream the loader takes in is taken to produce the image; failures inside the `area-prepared` callback, which `cache.go` only logs, are not modelled. `gdk.PixbufLoaderNew` is taken never to fail.
- `DiskCache.Cache.SetImageScaledContext`: a refused stream can still show a partial image, which the model does not capture. `shown` is `None` on every error, but `setImageStream` defers `l.Close()`, and its `closed` handler shows whatever `area-prepared` already produced. A cache file with a readable header and a broken body is shown in part while the call goes on to download, and a downloaded file of that kind is shown in part before it is removed.
- `Fetch.SetImageAsync`: frames shown through `area-updated` before the body fails part-way are not modelled. The result is an error with nothing shown.
- The `stream` flag of `setImageStream` (progressive refresh on `area-updated` versus one refresh on `closed`) is not modelled. The model yields one final image.
- Adopting the negotiated size as the widget's size request is widget state and is left out.
- `url.Parse` internals are library code. Its outcome is a function from URL to `Option<ParsedURL>`.
- `os.MkdirAll` of the host directory, its logged failure, and logging in general are left out. Directories are not entries of the disk map.
- `os.Remove` in `SetImageScaledContext` is modelled as always succeeding, since `cache.go` ignores its error.
- `CacheKey.IsLetter` is restricted to ASCII letters, and `Text.IsDigit` to ASCII digits. Go's `unicode.IsLetter` and `unicode.IsDigit` accept all Unicode letters and decimal digits, so a non-ASCII letter is kept by `cache.go` but becomes `_` here.
- Strings are sequences of runes. Invalid UTF-8, which `strings.Map` reads as U+FFFD, is not modelled.
- `CacheKey.Join` cleans one path element at a time. It does not model the cleaning of elements that contain `/`; host names never do. The temp directory is assumed clean and absolute.
- `Sizing.MaxSize` uses unbounded integers. The 64-bit overflow of `h * maxW` for huge sizes is not modelled.
- `GetPixbuf`, `SetImage` and `SetImageScaled` only pass `w = h = 0` or a background context. They are covered by calling `GetPixbufScaled` and `SetImageScaledContext` with those arguments.
- `Sweep.CleanUpCache` returns the names whose directories are removed. The recursive removal of `Join(Temp, name)` is not modelled as a change of state, and neither is its error, which `cache.go` ignores.
