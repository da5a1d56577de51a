/** The cached fetch flow of gtkcord/cache/cache.go: get, GetPixbufScaled,
    SetImageScaledContext and fetchImage, over a disk held as a map from
    file paths to their contents. */
module DiskCache {
  import opened Text
  import opened CacheKey
  import opened Sizing
  import opened Fetch

  /** How ioutil.WriteFile goes: the file is written, cannot be created
      (nothing changes), or fails after the first `flushed` bytes (the
      file holds that truncated prefix). */
  datatype WriteOutcome = Written | CreateFailed | ShortWrite(flushed: nat)

  function Min(a: nat, b: nat): nat {
    if a < b then a else b
  }

  /** The disk after ioutil.WriteFile(dst, b) went as `write` says: only
      `dst` can change, and it then holds `b` or a prefix of it. */
  function AfterWrite(files: map<string, Bytes>, dst: string, b: Bytes, write: WriteOutcome): (r: map<string, Bytes>)
    ensures r - {dst} == files - {dst}
    ensures write.CreateFailed? ==> r == files
    ensures write.Written? ==> dst in r && r[dst] == b
    ensures write.ShortWrite? ==> dst in r && |r[dst]| <= |b| && r[dst] == b[..|r[dst]|]
  {
    match write
    case Written => files[dst := b]
    case CreateFailed => files
    case ShortWrite(n) => files[dst := b[..Min(n, |b|)]]
  }

  /** setImageFromFile(img, dst, gif, w, h): open the file (an error when
      it is absent) and stream it into the loader; errors of l.Close() are
      not seen. */
  function ImageFromFile(d: Decoder, files: map<string, Bytes>, dst: string, gif: bool, w: int, h: int): (r: Result<Image>)
    ensures r.Ok? <==> dst in files && d.accepts(files[dst])
    ensures dst !in files ==> r == Err(OpenFailed)
    ensures r.Ok? ==> r.value.source == files[dst] && r.value.animated == gif
    ensures r.Ok? ==> r.value.size == PreparedSize(d.native(files[dst]), w, h)
  {
    if dst !in files then Err(OpenFailed)
    else LoadStream(d, files[dst], gif, w, h)
  }

  /** getPixbufFromFile(dst, w, h): open the file and decode it; here a
      failing l.Close() or l.GetPixbuf() is an error. */
  function PixbufFromFile(d: Decoder, files: map<string, Bytes>, dst: string, w: int, h: int): (r: Result<Image>)
    ensures r.Ok? <==> dst in files && d.accepts(files[dst]) && d.closes(files[dst])
    ensures dst !in files ==> r == Err(OpenFailed)
    ensures r.Ok? ==> r == ImageFromFile(d, files, dst, false, w, h)
  {
    if dst !in files then Err(OpenFailed)
    else LoadPixbuf(d, files[dst], w, h)
  }

  /** A file setImageFromFile shows: the copy into the loader succeeds. */
  predicate ImageHit(d: Decoder, files: map<string, Bytes>, dst: string) {
    dst in files && d.accepts(files[dst])
  }

  /** A file getPixbufFromFile decodes: the copy, l.Close() and
      l.GetPixbuf() all succeed. */
  predicate PixbufHit(d: Decoder, files: map<string, Bytes>, dst: string) {
    ImageHit(d, files, dst) && d.closes(files[dst])
  }

  /** The two readers disagree on a file the loader takes in but cannot
      finish, such as the prefix of an image a short write leaves:
      setImageFromFile shows it, getPixbufFromFile reports an error. */
  lemma PartialFileReadersDisagree(d: Decoder, files: map<string, Bytes>, dst: string, w: int, h: int)
    requires dst in files && d.accepts(files[dst]) && !d.closes(files[dst])
    ensures ImageHit(d, files, dst) && !PixbufHit(d, files, dst)
    ensures ImageFromFile(d, files, dst, false, w, h).Ok?
    ensures PixbufFromFile(d, files, dst, w, h) == Err(CloseFailed)
  {
  }

  /** The start of SetImageScaledContext: a URL containing "gif" has every
      "gif" replaced by "png" and is not treated as an animation. Returns
      the URL to use and the gif flag. */
  function RewriteGif(url: string): (r: (string, bool))
    ensures !r.1
    ensures |r.0| == |url|
    ensures r.0 == url <==> !Contains(url, "gif")
  {
    ReplaceAllLength(url, "gif", "png");
    ReplaceAllIsIdentityIff(url, "gif", "png");
    var gif := Contains(url, "gif");
    if gif then (ReplaceAll(url, "gif", "png"), false) else (url, gif)
  }

  /** The rewrite works position by position: the three runes of every
      "gif" in the URL become "png", and every other rune is kept. */
  lemma RewriteGifPositions(url: string)
    ensures Positionwise(url, "gif", "png", RewriteGif(url).0)
  {
    assert "gif"[1..] == "if" && "gif"[2..] == "f";
    assert "gif"[0] != "if"[0] && "gif"[0] != "f"[0];
    assert NoSelfOverlap("gif");
    ReplaceAllPositions(url, "gif", "png");
    ContainsIffOccurs(url, "gif");
  }

  /** The rewrite is one left-to-right pass, so the URL it produces can
      still contain "gif": "gifif" becomes "pngif". The gif flag, computed
      once before the rewrite, is false all the same. */
  lemma RewriteMayLeaveGif()
    ensures RewriteGif("gifif").0 == "pngif"
    ensures Contains("pngif", "gif")
  {
    assert HasPrefix("gifif", "gif");
    assert !HasPrefix("if", "gif");
    assert !HasPrefix("f", "gif");
    assert ReplaceAll("gifif", "gif", "png") == "png" + ReplaceAll("if", "gif", "png");
    assert HasPrefix("pngif"[2..], "gif");
    assert Contains("pngif"[2..], "gif");
    assert "pngif"[1..][1..] == "pngif"[2..];
  }

  class Cache {
    /** os.TempDir() */
    const temp: string
    /** url.Parse, reduced to what TransformURL reads. */
    const parse: string -> Option<ParsedURL>
    /** The image loader. */
    const decoder: Decoder
    /** The files below the temp directory, by path. */
    var files: map<string, Bytes>
    /** The URLs of the GET requests sent so far, oldest first. */
    ghost var requests: seq<string>

    ghost predicate Valid() {
      AbsoluteDir(temp)
    }

    constructor (temp: string, parse: string -> Option<ParsedURL>, decoder: Decoder, files: map<string, Bytes>)
      requires AbsoluteDir(temp)
      ensures Valid()
      ensures this.temp == temp && this.parse == parse && this.decoder == decoder
      ensures this.files == files && requests == []
    {
      this.temp := temp;
      this.parse := parse;
      this.decoder := decoder;
      this.files := files;
      requests := [];
    }

    /** TransformURL(url): the cache file of a URL, whose path starts with
      the temp directory's path. */
    function Key(url: string): (r: string)
      requires AbsoluteDir(temp)
      ensures HasPrefix(r, temp)
    {
      TransformURL(temp, url, parse(url))
    }

    /** get(ctx, url, dst, pp, gif): downloads url (x is how its GET goes)
      and writes the bytes to dst. A GET is sent unless the throttler or
      the request construction fails; a failed download leaves the disk as
      it was; only dst is ever written. */
    method Get(x: Exchange, url: string, dst: string, processors: nat, gif: bool, write: WriteOutcome)
      returns (err: Option<Error>)
      modifies this
      ensures requests == old(requests) + (if Sent(x) then [url] else [])
      ensures Download(x, processors, gif).Err? ==>
        err == Some(Download(x, processors, gif).error) && files == old(files)
      ensures Download(x, processors, gif).Ok? ==>
        files == AfterWrite(old(files), dst, Download(x, processors, gif).value, write)
      ensures Download(x, processors, gif).Ok? && !write.Written? ==> err == Some(WriteFailed)
      ensures err.None? <==> Download(x, processors, gif).Ok? && write.Written?
    {
      var d := Download(x, processors, gif);
      if Sent(x) {
        requests := requests + [url];
      }
      if d.Err? {
        return Some(d.error);
      }
      files := AfterWrite(files, dst, d.value, write);
      err := if write.Written? then None else Some(WriteFailed);
    }

    /** GetPixbufScaled(url, w, h, pp...): decode the cache file with
      getPixbufFromFile when possible; otherwise download url into it and
      decode that. A file that still fails to decode is left on disk. */
    method GetPixbufScaled(url: string, w: int, h: int, processors: nat, x: Exchange, write: WriteOutcome)
      returns (r: Result<Image>)
      requires Valid()
      modifies this
      ensures var dst := Key(url);
        var d := Download(x, processors, false);
        && (PixbufHit(decoder, old(files), dst) ==>
              r == PixbufFromFile(decoder, old(files), dst, w, h)
              && files == old(files) && requests == old(requests))
        && (!PixbufHit(decoder, old(files), dst) ==>
              && requests == old(requests) + (if Sent(x) then [url] else [])
              && (d.Err? ==> r == Err(d.error) && files == old(files))
              && (d.Ok? ==> files == AfterWrite(old(files), dst, d.value, write))
              && (d.Ok? && write.Written? ==> r == PixbufFromFile(decoder, files, dst, w, h))
              && (d.Ok? && !write.Written? ==> r == Err(WriteFailed)))
        && (r.Ok? ==> PixbufHit(decoder, files, dst))
        && files - {dst} == old(files) - {dst}
    {
      var dst := Key(url);
      var p := PixbufFromFile(decoder, files, dst, w, h);
      if p.Ok? {
        return p;
      }
      var err := Get(x, url, dst, processors, false, write);
      if err.Some? {
        return Err(err.value);
      }
      r := PixbufFromFile(decoder, files, dst, w, h);
    }

    /** What SetImageScaledContext(url, w, h, pp...) does, relating the disk
      and the request log before the call (`files0`, `requests0`) to the
      current ones: after the gif rewrite, a cache file the loader takes
      in is shown with no GET; otherwise the rewritten URL is downloaded,
      and a downloaded file the loader refuses is removed. A failed write
      leaves whatever it wrote. */
    ghost predicate ScaledOutcome(url: string, w: int, h: int, processors: nat, x: Exchange, write: WriteOutcome,
                                  files0: map<string, Bytes>, requests0: seq<string>,
                                  err: Option<Error>, shown: Option<Image>)
      requires Valid()
      reads this
    {
      var u := RewriteGif(url).0;
      var dst := Key(u);
      var d := Download(x, processors, false);
      && (ImageHit(decoder, files0, dst) ==>
            && err == None && shown == Some(ImageFromFile(decoder, files0, dst, false, w, h).value)
            && files == files0 && requests == requests0)
      && (!ImageHit(decoder, files0, dst) ==>
            && requests == requests0 + (if Sent(x) then [u] else [])
            && (d.Err? ==> err == Some(d.error) && files == files0)
            && (d.Ok? && write.Written? && decoder.accepts(d.value) ==>
                  err == None && files == files0[dst := d.value])
            && (d.Ok? && write.Written? && !decoder.accepts(d.value) ==>
                  err == Some(StreamFailed) && files == files0 - {dst})
            && (d.Ok? && !write.Written? ==>
                  err == Some(WriteFailed) && files == AfterWrite(files0, dst, d.value, write)))
      && (err.None? <==> shown.Some?)
      && (err.None? ==> ImageHit(decoder, files, dst) && shown == Some(ImageFromFile(decoder, files, dst, false, w, h).value))
      && files - {dst} == files0 - {dst}
    }

    /** SetImageScaledContext(ctx, url, img, w, h, pp...): after the gif
      rewrite, show the cached file if it decodes; otherwise download it,
      and if the downloaded file does not decode either, remove it. Returns
      the error, if any, and the image handed to the widget. */
    method SetImageScaledContext(url: string, w: int, h: int, processors: nat, x: Exchange, write: WriteOutcome)
      returns (err: Option<Error>, shown: Option<Image>)
      requires Valid()
      modifies this
      ensures ScaledOutcome(url, w, h, processors, x, write, old(files), old(requests), err, shown)
    {
      var (u, gif) := RewriteGif(url);
      var dst := Key(u);
      var first := ImageFromFile(decoder, files, dst, gif, w, h);
      if first.Ok? {
        return None, Some(first.value);
      }
      var e := Get(x, u, dst, processors, gif, write);
      if e.Some? {
        return e, None;
      }
      var second := ImageFromFile(decoder, files, dst, gif, w, h);
      if second.Err? {
        files := files - {dst};
        return Some(second.error), None;
      }
      err, shown := None, Some(second.value);
    }

    /** fetchImage(url, img, w, h, pp...): without processors the uncached
      SetImageAsync, which never touches the disk; with processors the
      cached SetImageScaled. The error is only logged by the caller. */
    method FetchImage(url: string, w: int, h: int, processors: nat, x: Exchange, write: WriteOutcome)
      returns (err: Option<Error>, shown: Option<Image>)
      requires Valid()
      modifies this
      ensures processors == 0 ==>
        files == old(files) && requests == old(requests) + (if Sent(x) then [url] else [])
      ensures processors == 0 ==>
        var a := SetImageAsync(decoder, url, x, w, h);
        (err.None? <==> a.Ok?) && (a.Ok? ==> shown == Some(a.value)) && (a.Err? ==> err == Some(a.error))
      ensures processors > 0 ==>
        ScaledOutcome(url, w, h, processors, x, write, old(files), old(requests), err, shown)
      ensures err.None? <==> shown.Some?
    {
      if processors == 0 {
        if Sent(x) {
          requests := requests + [url];
        }
        var a := SetImageAsync(decoder, url, x, w, h);
        if a.Ok? {
          return None, Some(a.value);
        }
        return Some(a.error), None;
      }
      err, shown := SetImageScaledContext(url, w, h, processors, x, write);
    }
  }

  /** A second request for a URL whose first request succeeded is served
      from disk, whatever the bound or processors it asks for: it succeeds,
      sends no GET and leaves the disk as the first request left it. The
      two together send at most one GET, for the rewritten URL. */
  method RepeatIsServedFromDisk(c: Cache, url: string, w1: int, h1: int, processors1: nat, x1: Exchange,
                                w2: int, h2: int, processors2: nat, x2: Exchange, write: WriteOutcome)
    returns (e1: Option<Error>, e2: Option<Error>, ghost requests1: seq<string>, ghost files1: map<string, Bytes>)
    requires c.Valid()
    modifies c
    ensures e1.None? ==> e2.None? && c.requests == requests1 && c.files == files1
    ensures e1.None? ==>
      requests1 == old(c.requests) || requests1 == old(c.requests) + [RewriteGif(url).0]
  {
    var s1, s2;
    e1, s1 := c.SetImageScaledContext(url, w1, h1, processors1, x1, write);
    requests1, files1 := c.requests, c.files;
    e2, s2 := c.SetImageScaledContext(url, w2, h2, processors2, x2, write);
  }

  /** A cache file the loader takes in but cannot finish is a hit for
      SetImageScaledContext, which shows it and sends no GET, and a miss for
      GetPixbufScaled, which downloads the URL again and overwrites it. */
  method PartialFileIsHitOnlyForImages(c: Cache, url: string, w: int, h: int, processors: nat,
                                       x: Exchange, write: WriteOutcome)
    returns (e1: Option<Error>, r2: Result<Image>)
    requires c.Valid() && !Contains(url, "gif")
    requires c.Key(url) in c.files && c.decoder.accepts(c.files[c.Key(url)]) && !c.decoder.closes(c.files[c.Key(url)])
    requires Sent(x)
    modifies c
    ensures e1.None? && c.requests == old(c.requests) + [url]
  {
    var s1;
    e1, s1 := c.SetImageScaledContext(url, w, h, processors, x, write);
    assert c.requests == old(c.requests);
    r2 := c.GetPixbufScaled(url, w, h, processors, x, write);
  }

  /** A first request with nothing cached, a 200x50 image behind a working
      URL and a 100x100 bound: one GET, for that URL, and one write; the
      image is shown at 100x25; asking again sends no GET. */
  method FirstFetchThenHit(url: string, body: Bytes)
  {
    var parse := (s: string) => Some(ParsedURL("img.example", "/a.png", ""));
    var decoder := Decoder((b: Bytes) => true, (b: Bytes) => true, (b: Bytes) => Size(200, 50));
    var c := new Cache("/tmp", parse, decoder, map[]);
    var x := Responded(Response(200, body, true, Some(body), None));
    var u := RewriteGif(url).0;
    var dst := c.Key(u);
    var e1, s1 := c.SetImageScaledContext(url, 100, 100, 1, x, Written);
    assert c.requests == [u];
    assert e1.None? && c.files == map[dst := body];
    PreparedSizeExample();
    assert s1.value.size == Size(100, 25);
    var e2, s2 := c.SetImageScaledContext(url, 100, 100, 1, Unreachable, Written);
    assert e2.None? && c.requests == [u];
  }
}
