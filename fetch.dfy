/** The network side of the cache (gtkcord/cache/cache.go: download and
    SetImageAsync) and the image loader (setImageStream). What the network,
    the stream processors and the GDK loader do is not computed here: it is
    handed in as data describing their outcome. */
module Fetch {
  import opened Text
  import opened Sizing

  newtype byte = x: int | 0 <= x < 256
  type Bytes = seq<byte>

  /** The failures the cache functions return as Go errors. */
  datatype Error =
    | Cancelled          // the throttler could not be acquired: the context is done
    | RequestFailed      // http.NewRequestWithContext failed
    | TransportFailed    // the GET itself failed
    | BadStatus(code: int)
    | ProcessingFailed   // ProcessStream or ProcessAnimationStream failed
    | ReadFailed         // reading the whole body failed
    | WriteFailed        // writing the cache file failed
    | OpenFailed         // the cache file could not be opened
    | StreamFailed       // the loader refused the bytes copied into it
    | CloseFailed        // l.Close() or l.GetPixbuf() failed after the copy

  datatype Result<T> = Ok(value: T) | Err(error: Error)

  /** A response that arrived: its status, its body, whether the body could
      be read to the end, and what each stream processor chain makes of it
      (None when that chain fails). */
  datatype Response = Response(
    status: int,
    body: Bytes,
    bodyComplete: bool,
    processed: Option<Bytes>,
    processedFrames: Option<Bytes>)

  /** How one outbound GET goes. */
  datatype Exchange =
    | NotAcquired
    | RequestRejected
    | Unreachable
    | Responded(response: Response)

  /** A GET left the client: the throttler was acquired and the request
      could be built. The transport may still have failed. */
  predicate Sent(x: Exchange) {
    x.Unreachable? || x.Responded?
  }

  /** The status codes download accepts. */
  predicate StatusOK(code: int) {
    200 <= code <= 299
  }

  /** download(ctx, url, pp, gif): the throttled GET; a status outside
      200..299 is an error, otherwise the body is read whole (no
      processors) or piped through the processors (frame-wise for gif). */
  function Download(x: Exchange, processors: nat, gif: bool): (r: Result<Bytes>)
    ensures r.Ok? ==> x.Responded? && StatusOK(x.response.status)
    ensures x.Responded? && !StatusOK(x.response.status) ==> r == Err(BadStatus(x.response.status))
    ensures r.Ok? && processors == 0 ==> r.value == x.response.body && x.response.bodyComplete
  {
    match x
    case NotAcquired => Err(Cancelled)
    case RequestRejected => Err(RequestFailed)
    case Unreachable => Err(TransportFailed)
    case Responded(resp) =>
      if resp.status < 200 || resp.status > 299 then Err(BadStatus(resp.status))
      else if processors > 0 then
        var out := if gif then resp.processedFrames else resp.processed;
        match out
        case None => Err(ProcessingFailed)
        case Some(b) => Ok(b)
      else if resp.bodyComplete then Ok(resp.body)
      else Err(ReadFailed)
  }

  /** A 404 answer is the error BadStatus(404). */
  lemma NotFoundIsBadStatus(resp: Response, processors: nat, gif: bool)
    requires resp.status == 404
    ensures Download(Responded(resp), processors, gif) == Err(BadStatus(404))
  {
  }

  /** The GDK pixbuf loader, as data:
      - `accepts`: the bytes can be copied into it (io.Copy succeeds);
      - `closes`: after that, l.Close() and l.GetPixbuf() succeed too
        (a truncated image can pass the copy and fail here);
      - `native`: the native size it reports. */
  datatype Decoder = Decoder(accepts: Bytes -> bool, closes: Bytes -> bool, native: Bytes -> NativeSize)

  /** What is handed to the image widget: the bytes it was decoded from,
      whether it is shown as an animation, and its size. */
  datatype Image = Image(source: Bytes, animated: bool, size: Size)

  /** setImageStream(r, img, gif, w, h, stream): copies the bytes into a
      loader whose "size-prepared" hook applies MaxSize; the copy fails
      when the loader refuses the bytes. */
  function LoadStream(d: Decoder, b: Bytes, gif: bool, w: int, h: int): (r: Result<Image>)
    ensures r.Ok? <==> d.accepts(b)
    ensures r.Err? ==> r.error == StreamFailed
    ensures r.Ok? ==> r.value.source == b && r.value.animated == gif
    ensures r.Ok? && w > 0 && w == h ==> 0 <= r.value.size.width <= w && 0 <= r.value.size.height <= h
  {
    if d.accepts(b) then Ok(Image(b, gif, PreparedSize(d.native(b), w, h)))
    else Err(StreamFailed)
  }

  /** The decoding half of getPixbufFromFile: the copy into the loader,
      then l.Close() and l.GetPixbuf(), whose failures are errors here
      (setImageStream ignores them). A pixbuf that decodes is the image
      setImageStream would show. */
  function LoadPixbuf(d: Decoder, b: Bytes, w: int, h: int): (r: Result<Image>)
    ensures r.Ok? <==> d.accepts(b) && d.closes(b)
    ensures !d.accepts(b) ==> r == Err(StreamFailed)
    ensures d.accepts(b) && !d.closes(b) ==> r == Err(CloseFailed)
    ensures r.Ok? ==> r == LoadStream(d, b, false, w, h)
  {
    if !d.accepts(b) then Err(StreamFailed)
    else if !d.closes(b) then Err(CloseFailed)
    else Ok(Image(b, false, PreparedSize(d.native(b), w, h)))
  }

  /** SetImageAsync(url, img, w, h): the uncached path. The same status
      gate as download; the body is streamed into the loader, as an
      animation when the URL contains ".gif". */
  function SetImageAsync(d: Decoder, url: string, x: Exchange, w: int, h: int): (r: Result<Image>)
    ensures r.Ok? ==> x.Responded? && StatusOK(x.response.status) && x.response.bodyComplete
    ensures x.Responded? && !StatusOK(x.response.status) ==> r == Err(BadStatus(x.response.status))
    ensures r.Ok? ==> r.value.source == x.response.body && r.value.animated == Contains(url, ".gif")
  {
    match x
    case NotAcquired => Err(Cancelled)
    case RequestRejected => Err(TransportFailed)
    case Unreachable => Err(TransportFailed)
    case Responded(resp) =>
      if resp.status < 200 || resp.status > 299 then Err(BadStatus(resp.status))
      else if !resp.bodyComplete then Err(StreamFailed)
      else LoadStream(d, resp.body, Contains(url, ".gif"), w, h)
  }
}
