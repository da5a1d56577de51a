/** Size negotiation (MaxSize, and the "size-prepared" hook that applies it
    to a decoded image) and the sized-URL helper SizeToURL, from
    gtkcord/cache/cache.go. */
module Sizing {
  import opened Text

  /** Go's `/` on int: division truncating toward zero. */
  function Quot(a: int, b: int): (q: int)
    requires b != 0
    ensures a >= 0 && b > 0 ==> q * b <= a < q * b + b
    ensures a < 0 && b > 0 ==> q * b - b < a <= q * b
    ensures a >= 0 && b > 0 ==> q >= 0
  {
    var n, d := (if a < 0 then -a else a), (if b < 0 then -b else b);
    var m := n / d;
    assert m * d <= n < m * d + d;
    if (a < 0) != (b < 0) then -m else m
  }

  /** MaxSize divides by zero on no branch it takes (Go would panic). */
  predicate MaxSizeDefined(w: int, h: int, maxW: int, maxH: int) {
    (w < maxW && h < maxH) || (if w > h then w != 0 else h != 0)
  }

  /** MaxSize(w, h, maxW, maxH): an image smaller than the bound in both
      dimensions is kept; otherwise its larger dimension (the width when
      strictly larger) is set to its bound and the other scaled by the
      same factor, truncated. Either the size is kept or one side is its
      bound, and positive inputs give no negative side. */
  function MaxSize(w: int, h: int, maxW: int, maxH: int): (r: (int, int))
    requires MaxSizeDefined(w, h, maxW, maxH)
    ensures r == (w, h) || r.0 == maxW || r.1 == maxH
    ensures w > 0 && h > 0 && maxW > 0 && maxH > 0 ==> r.0 >= 0 && r.1 >= 0
  {
    if w < maxW && h < maxH then (w, h)
    else if w > h then (maxW, Quot(h * maxW, w))
    else (Quot(w * maxH, h), maxH)
  }

  /** An image already inside the bound keeps its size. */
  lemma MaxSizeUnscaled(w: int, h: int, maxW: int, maxH: int)
    requires w < maxW && h < maxH
    ensures MaxSize(w, h, maxW, maxH) == (w, h)
  {
  }

  /** Multiplying by a non-negative factor keeps order. */
  lemma MulMono(x: int, y: int, c: int)
    requires c >= 0 && x <= y
    ensures x * c <= y * c
  {
    assert y * c - x * c == (y - x) * c;
  }

  /** Dividing an inequality by a positive factor keeps it strict. */
  lemma MulCancel(x: int, y: int, c: int)
    requires c > 0 && x * c < y * c
    ensures x < y
  {
    if y <= x {
      MulMono(y, x, c);
    }
  }

  /** The proportional side: q = (a * bound) / n truncated, for a < n,
      satisfies q * n <= a * bound < (q + 1) * n and 0 <= q < bound. */
  lemma ScaledSide(a: int, n: int, bound: int)
    requires 0 < a <= n && bound > 0
    ensures var q := Quot(a * bound, n);
      q * n <= a * bound < (q + 1) * n && 0 <= q <= bound && (a < n ==> q < bound)
  {
    MulMono(0, a, bound);
    var q := Quot(a * bound, n);
    assert (q + 1) * n == q * n + n;
    MulCancel(-1, q, n);
    MulMono(a, n, bound);
    assert a * bound == bound * a && n * bound == bound * n;
    if a < n {
      assert bound * a < bound * n by { MulMono(a + 1, n, bound); }
      MulCancel(q, bound, n);
    } else {
      MulCancel(q, bound + 1, n);
    }
  }

  /** A wide image gets exactly the bound width; its height is the
      proportional height rounded down, so the aspect ratio is off by less
      than one pixel, and it is below the bound width. */
  lemma MaxSizeWide(w: int, h: int, maxW: int, maxH: int)
    requires w > 0 && h > 0 && maxW > 0 && maxH > 0
    requires !(w < maxW && h < maxH) && w > h
    ensures var (w', h') := MaxSize(w, h, maxW, maxH);
      w' == maxW && 0 <= h' < maxW && h' * w <= h * maxW < (h' + 1) * w
  {
    ScaledSide(h, w, maxW);
  }

  /** A tall or square image gets exactly the bound height; its width is
      the proportional width rounded down, at most the bound height. */
  lemma MaxSizeTall(w: int, h: int, maxW: int, maxH: int)
    requires w > 0 && h > 0 && maxW > 0 && maxH > 0
    requires !(w < maxW && h < maxH) && w <= h
    ensures var (w', h') := MaxSize(w, h, maxW, maxH);
      h' == maxH && 0 <= w' <= maxH && w' * h <= w * maxH < (w' + 1) * h
  {
    ScaledSide(w, h, maxH);
  }

  /** The proportional side never exceeds the side it was scaled from
      when the bound is at most the other native side. */
  lemma ScaledSideShrinks(a: int, n: int, bound: int)
    requires 0 < a <= n && 0 < bound <= n
    ensures Quot(a * bound, n) <= a
  {
    ScaledSide(a, n, bound);
    var q := Quot(a * bound, n);
    MulMono(bound, n, a);
    assert a * bound == bound * a && a * n == n * a;
    assert q * n < (a + 1) * n;
    MulCancel(q, a + 1, n);
  }

  /** With a square bound, the result fits the bound and never enlarges
      the image. */
  lemma MaxSizeSquareBoundFits(w: int, h: int, m: int)
    requires w > 0 && h > 0 && m > 0
    ensures var (w', h') := MaxSize(w, h, m, m);
      0 <= w' <= m && 0 <= h' <= m && w' <= w && h' <= h
  {
    if !(w < m && h < m) {
      if w > h {
        ScaledSide(h, w, m);
        ScaledSideShrinks(h, w, m);
      } else {
        ScaledSide(w, h, m);
        ScaledSideShrinks(w, h, m);
      }
    }
  }

  /** With a bound that is not square the result can leave the bound, and
      an image can even be enlarged: only the bound of the larger native
      dimension is honoured. */
  lemma MaxSizeCanLeaveBound()
    ensures MaxSize(200, 150, 100, 10) == (100, 75)
    ensures MaxSize(50, 10, 100, 5) == (100, 20)
  {
  }

  /** A very flat image is scaled to zero height. */
  lemma MaxSizeCanCollapse()
    ensures MaxSize(1000, 1, 10, 10) == (10, 0)
  {
  }

  /** Dimensions of an image. */
  datatype Size = Size(width: int, height: int)

  /** Native dimensions reported by the image loader: always positive. */
  type NativeSize = s: Size | s.width > 0 && s.height > 0 witness Size(1, 1)

  /** Size of the decoded image: the "size-prepared" hook of
      getPixbufFromFile and setImageStream runs MaxSize against the
      requested (w, h) only when both are positive, and asks the loader
      to rescale when the result differs from the native size. */
  function PreparedSize(native: NativeSize, w: int, h: int): (r: Size)
    ensures (w <= 0 || h <= 0) ==> r == native
    ensures w > 0 && w == h ==> 0 <= r.width <= w && 0 <= r.height <= h
    ensures w > 0 && w == h ==> r.width <= native.width && r.height <= native.height
  {
    if w > 0 && h > 0 then
      MaxSizeSquareBoundFits(native.width, native.height, w);
      var (w', h') := MaxSize(native.width, native.height, w, h);
      Size(w', h')
    else native
  }

  /** A 200x50 image bounded by 100x100 is decoded at 100x25. */
  lemma PreparedSizeExample()
    ensures PreparedSize(Size(200, 50), 100, 100) == Size(100, 25)
  {
  }

  // ---------------------------------------------------------------------
  // SizeToURL

  /** SizeToURL(url, w, h): the URL with "?width=W&height=H" appended. */
  function SizeToURL(url: string, w: int, h: int): (r: string)
    ensures HasPrefix(r, url)
  {
    url + "?width=" + Itoa(w) + "&height=" + Itoa(h)
  }

  datatype SizedURL = SizedURL(url: string, width: int, height: int)

  /** Splits `s` at its last `sep` and reads the text after it as
      `key` followed by a decimal number. */
  function ParseField(s: string, sep: char, key: string): Option<(string, int)> {
    match LastIndex(s, sep)
    case None => None
    case Some(i) =>
      var field := s[i + 1..];
      if !HasPrefix(field, key) then None
      else
        match Atoi(field[|key|..])
        case None => None
        case Some(n) => Some((s[..i], n))
  }

  /** Reads back what SizeToURL appended: "height=H" after the last '&',
      then "width=W" after the last '?' before it. */
  function ParseSizedURL(s: string): Option<SizedURL> {
    match ParseField(s, '&', "height=")
    case None => None
    case Some((head, h)) =>
      match ParseField(head, '?', "width=")
      case None => None
      case Some((url, w)) => Some(SizedURL(url, w, h))
  }

  /** A field made of a separator-free key and a number holds no '&' or
      '?'. */
  lemma FieldHasNoSeparator(sep: char, key: string, n: int)
    requires sep !in key && (sep == '&' || sep == '?')
    ensures sep !in key + Itoa(n)
  {
    ItoaHasNoDelimiters(n);
  }

  /** The two sides of a separator placed between `a` and `b`. */
  lemma SidesOfSeparator(a: string, sep: char, b: string)
    ensures (a + [sep] + b)[..|a|] == a && (a + [sep] + b)[|a| + 1..] == b
  {
  }

  /** ParseField undoes appending `sep`, `key` and Itoa(n). */
  lemma ParseFieldOf(prefix: string, sep: char, key: string, n: int)
    requires sep !in key && (sep == '&' || sep == '?')
    ensures ParseField(prefix + [sep] + (key + Itoa(n)), sep, key) == Some((prefix, n))
  {
    var field := key + Itoa(n);
    FieldHasNoSeparator(sep, key, n);
    LastIndexOfSeparator(prefix, sep, field);
    SidesOfSeparator(prefix, sep, field);
    assert field[|key|..] == Itoa(n);
    AtoiItoa(n);
  }

  /** SizeToURL loses nothing, even when the URL already has a query. */
  lemma ParseSizeToURL(url: string, w: int, h: int)
    ensures ParseSizedURL(SizeToURL(url, w, h)) == Some(SizedURL(url, w, h))
  {
    HeightField(url, w, h);
    WidthField(url, w);
    ParseSizedURLOf(SizeToURL(url, w, h), url + ['?'] + ("width=" + Itoa(w)), url, w, h);
  }

  /** The last field of SizeToURL reads back as the height. */
  lemma HeightField(url: string, w: int, h: int)
    ensures ParseField(SizeToURL(url, w, h), '&', "height=") == Some((url + ['?'] + ("width=" + Itoa(w)), h))
  {
    SizeToURLShape(url, w, h);
    ParseFieldOf(url + ['?'] + ("width=" + Itoa(w)), '&', "height=", h);
  }

  /** The field before it reads back as the width. */
  lemma WidthField(url: string, w: int)
    ensures ParseField(url + ['?'] + ("width=" + Itoa(w)), '?', "width=") == Some((url, w))
  {
    ParseFieldOf(url, '?', "width=", w);
  }

  /** ParseSizedURL from the two fields it reads. */
  lemma ParseSizedURLOf(s: string, head: string, url: string, w: int, h: int)
    requires ParseField(s, '&', "height=") == Some((head, h))
    requires ParseField(head, '?', "width=") == Some((url, w))
    ensures ParseSizedURL(s) == Some(SizedURL(url, w, h))
  {
  }

  /** SizeToURL as the two fields it appends, each after its separator. */
  lemma SizeToURLShape(url: string, w: int, h: int)
    ensures SizeToURL(url, w, h) == (url + ['?'] + ("width=" + Itoa(w))) + ['&'] + ("height=" + Itoa(h))
  {
    assert "?width=" == ['?'] + "width=";
    assert "&height=" == ['&'] + "height=";
  }
}
