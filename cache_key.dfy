/** Derivation of the on-disk cache path from a URL (gtkcord/cache/cache.go,
    TransformURL and SanitizeString), and the versioned cache root. */
module CacheKey {
  import opened Text

  /** Changing CacheHash invalidates every earlier cache directory. */
  const CacheHash: string := "hackadoll3"
  const CachePrefix: string := "gtkcord3"
  /** Name of the current cache directory inside the temp directory. */
  const DirName: string := CachePrefix + "-" + CacheHash

  // ---------------------------------------------------------------------
  // SanitizeString

  /** unicode.IsLetter, restricted to ASCII. */
  predicate IsLetter(c: char) {
    'a' <= c <= 'z' || 'A' <= c <= 'Z'
  }

  /** The runes SanitizeString lets through unchanged. */
  predicate Kept(c: char) {
    IsLetter(c) || IsDigit(c) || c == '#' || c == '.'
  }

  function SanitizeRune(c: char): char {
    if Kept(c) then c else '_'
  }

  /** SanitizeString: a rune-by-rune map that keeps letters, digits, '#'
      and '.' and turns every other rune into '_'. */
  function Sanitize(s: string): (r: string)
    ensures |r| == |s|
    ensures forall i :: 0 <= i < |r| ==> Kept(r[i]) || r[i] == '_'
    ensures forall i :: 0 <= i < |s| && Kept(s[i]) ==> r[i] == s[i]
    ensures forall i :: 0 <= i < |s| && !Kept(s[i]) ==> r[i] == '_'
  {
    seq(|s|, i requires 0 <= i < |s| => SanitizeRune(s[i]))
  }

  /** Sanitizing twice is sanitizing once, since '_' maps to itself. */
  lemma SanitizeIdempotent(s: string)
    ensures Sanitize(Sanitize(s)) == Sanitize(s)
  {
  }

  /** The output never holds a path separator. */
  lemma SanitizeHasNoSlash(s: string)
    ensures '/' !in Sanitize(s)
  {
    var r := Sanitize(s);
    assert forall i :: 0 <= i < |r| ==> r[i] != '/';
  }

  /** Sanitizing works piece by piece. */
  lemma SanitizeConcat(a: string, b: string)
    ensures Sanitize(a + b) == Sanitize(a) + Sanitize(b)
  {
    var l, r := Sanitize(a + b), Sanitize(a) + Sanitize(b);
    assert |l| == |r|;
    forall i | 0 <= i < |l| ensures l[i] == r[i] {
      if i < |a| {
        assert (a + b)[i] == a[i];
      } else {
        assert (a + b)[i] == b[i - |a|];
      }
    }
  }

  /** The accepted collision class: two strings sanitize alike exactly
      when they have the same length and agree wherever either of them
      has a kept rune. */
  lemma SanitizeCollision(s: string, t: string)
    ensures Sanitize(s) == Sanitize(t) <==>
      |s| == |t| && forall i :: 0 <= i < |s| && (Kept(s[i]) || Kept(t[i])) ==> s[i] == t[i]
  {
    var rs, rt := Sanitize(s), Sanitize(t);
    if rs == rt {
      forall i | 0 <= i < |s| && (Kept(s[i]) || Kept(t[i])) ensures s[i] == t[i] {
        assert rs[i] == rt[i];
      }
    }
    if |s| == |t| && forall i :: 0 <= i < |s| && (Kept(s[i]) || Kept(t[i])) ==> s[i] == t[i] {
      forall i | 0 <= i < |s| ensures rs[i] == rt[i] {
      }
    }
  }

  // ---------------------------------------------------------------------
  // filepath.Join, for one path element at a time

  /** A path element that filepath.Join appends as it is. */
  predicate PlainElement(e: string) {
    e != "" && e != "." && e != ".." && '/' !in e
  }

  /** An absolute path without a trailing '/' (other than "/" itself).
      The temp directory is assumed to be such a path, and clean: no "//",
      "." or ".." components. */
  predicate AbsoluteDir(d: string) {
    |d| > 0 && d[0] == '/' && (d == "/" || d[|d| - 1] != '/')
  }

  /** The lexical parent that filepath.Clean gives for `dir` + "/..". */
  function Parent(dir: string): string {
    match LastIndex(dir, '/')
    case None => "."
    case Some(i) => if i == 0 then "/" else dir[..i]
  }

  /** filepath.Join(dir, elem) for a clean `dir` and an element holding no
      '/': "" and "." add nothing, ".." steps to the parent. */
  function Join(dir: string, elem: string): (r: string)
    ensures PlainElement(elem) && dir != "/" ==> r == dir + "/" + elem
  {
    if elem == "" || elem == "." then dir
    else if elem == ".." then Parent(dir)
    else if dir == "/" then dir + elem
    else dir + "/" + elem
  }

  /** Path: the cache root, Join(Temp, DirName). */
  function CacheRoot(temp: string): (r: string)
    requires AbsoluteDir(temp)
    ensures AbsoluteDir(r) && r != "/"
  {
    Join(temp, DirName)
  }

  /** Stepping up from the cache root lands in the temp directory. */
  lemma ParentOfCacheRoot(temp: string)
    requires AbsoluteDir(temp)
    ensures Parent(CacheRoot(temp)) == temp
  {
    assert '/' !in DirName;
    if temp == "/" {
      assert CacheRoot(temp) == [] + ['/'] + DirName;
      LastIndexOfSeparator([], '/', DirName);
    } else {
      LastIndexOfSeparator(temp, '/', DirName);
      assert CacheRoot(temp)[..|temp|] == temp;
    }
  }

  // ---------------------------------------------------------------------
  // TransformURL

  /** What url.Parse yields that TransformURL uses: u.Hostname(),
      u.EscapedPath() and u.RawQuery. */
  datatype ParsedURL = ParsedURL(host: string, escapedPath: string, rawQuery: string)

  /** The file name given to a parsed URL. */
  function Leaf(u: ParsedURL): string {
    Sanitize(u.escapedPath + "?" + u.rawQuery)
  }

  /** Appending to a string keeps its prefixes. */
  lemma PrefixOfExtension(a: string, b: string, p: string)
    requires HasPrefix(a, p)
    ensures HasPrefix(a + b, p)
  {
    assert forall i :: 0 <= i < |a| ==> (a + b)[i] == a[i];
  }

  /** Joining an element other than ".." keeps the directory as a prefix. */
  lemma JoinKeepsPrefix(dir: string, elem: string, p: string)
    requires HasPrefix(dir, p) && elem != ".."
    ensures HasPrefix(Join(dir, elem), p)
  {
    if elem != "" && elem != "." {
      if dir == "/" {
        PrefixOfExtension(dir, elem, p);
      } else {
        PrefixOfExtension(dir, "/" + elem, p);
        assert dir + "/" + elem == dir + ("/" + elem);
      }
    }
  }

  /** Anything joined onto the cache root stays in the temp directory,
      even "..", which gives the temp directory itself. */
  lemma JoinRootInTemp(temp: string, elem: string)
    requires AbsoluteDir(temp)
    ensures HasPrefix(Join(CacheRoot(temp), elem), temp)
  {
    ParentOfCacheRoot(temp);
    JoinKeepsPrefix(temp, DirName, temp);
    if elem != ".." {
      JoinKeepsPrefix(CacheRoot(temp), elem, temp);
    }
  }

  /** TransformURL(s), given the outcome of url.Parse(s) (None when it
      fails) and the temp directory. The size suffix is always empty.
      Whatever the URL, its path starts with the temp directory's path. */
  function TransformURL(temp: string, s: string, parsed: Option<ParsedURL>): (r: string)
    requires AbsoluteDir(temp)
    ensures HasPrefix(r, temp)
  {
    var sizeSuffix := "";
    match parsed
    case None =>
      JoinRootInTemp(temp, Sanitize(s) + sizeSuffix);
      Join(CacheRoot(temp), Sanitize(s) + sizeSuffix)
    case Some(u) =>
      var path := Join(CacheRoot(temp), u.host);
      JoinRootInTemp(temp, u.host);
      LeafShape(u);
      JoinKeepsPrefix(path, Leaf(u) + sizeSuffix, temp);
      Join(path, Leaf(u) + sizeSuffix)
  }

  /** The file name of a parsed URL is the sanitized path, an '_' for the
      '?', and the sanitized query; it is always a plain element. */
  lemma LeafShape(u: ParsedURL)
    ensures Leaf(u) == Sanitize(u.escapedPath) + "_" + Sanitize(u.rawQuery)
    ensures PlainElement(Leaf(u))
  {
    SanitizeConcat(u.escapedPath + "?", u.rawQuery);
    SanitizeConcat(u.escapedPath, "?");
    SanitizeHasNoSlash(u.escapedPath + "?" + u.rawQuery);
    var l := Leaf(u);
    assert l[|u.escapedPath|] == '_';
  }

  /** A parsed URL with an ordinary host name is stored as
      root/host/leaf. */
  lemma KeyOfParsedURL(temp: string, s: string, u: ParsedURL)
    requires AbsoluteDir(temp) && PlainElement(u.host)
    ensures TransformURL(temp, s, Some(u)) == CacheRoot(temp) + "/" + u.host + "/" + Leaf(u)
  {
    LeafShape(u);
  }

  /** An empty host name (or ".") adds no host directory. */
  lemma KeyOfHostlessURL(temp: string, s: string, u: ParsedURL)
    requires AbsoluteDir(temp) && (u.host == "" || u.host == ".")
    ensures TransformURL(temp, s, Some(u)) == CacheRoot(temp) + "/" + Leaf(u)
  {
    LeafShape(u);
  }

  /** A URL that does not parse is stored directly under the root, with no
      host directory, as long as its sanitized form is a plain element
      (url.Parse never fails on "", "." or ".."). */
  lemma KeyOfUnparsedURL(temp: string, s: string)
    requires AbsoluteDir(temp) && s != "" && s != "." && s != ".."
    ensures TransformURL(temp, s, None) == CacheRoot(temp) + "/" + Sanitize(s)
  {
    SanitizeHasNoSlash(s);
  }

  /** Every key lies strictly inside the cache root, except when the host
      name is "..": filepath.Join then resolves the host directory to the
      temp directory itself. */
  lemma KeyIsUnderRoot(temp: string, s: string, parsed: Option<ParsedURL>)
    requires AbsoluteDir(temp)
    requires parsed.Some? ==> parsed.value.host != ".." && '/' !in parsed.value.host
    requires parsed.None? ==> s != "" && s != "." && s != ".."
    ensures HasPrefix(TransformURL(temp, s, parsed), CacheRoot(temp) + "/")
    ensures |TransformURL(temp, s, parsed)| > |CacheRoot(temp) + "/"|
  {
    var root := CacheRoot(temp);
    match parsed {
      case None =>
        KeyOfUnparsedURL(temp, s);
      case Some(u) =>
        LeafShape(u);
        if u.host == "" || u.host == "." {
          KeyOfHostlessURL(temp, s, u);
        } else {
          KeyOfParsedURL(temp, s, u);
          assert root + "/" + u.host + "/" + Leaf(u) == (root + "/") + (u.host + "/" + Leaf(u));
        }
    }
  }

  /** The escape: a URL whose host is ".." is stored in the temp
      directory, outside the cache root. */
  lemma DotDotHostLeavesRoot(temp: string, s: string, u: ParsedURL)
    requires AbsoluteDir(temp) && temp != "/" && u.host == ".."
    ensures TransformURL(temp, s, Some(u)) == temp + "/" + Leaf(u)
    ensures !HasPrefix(TransformURL(temp, s, Some(u)), CacheRoot(temp) + "/")
  {
    ParentOfCacheRoot(temp);
    LeafShape(u);
    var r := TransformURL(temp, s, Some(u));
    var p := CacheRoot(temp) + "/";
    assert r == temp + "/" + Leaf(u);
    assert p == temp + "/" + (DirName + "/");
    if |r| >= |p| {
      var k := |temp| + 1 + |DirName|;
      assert r[k] == Leaf(u)[|DirName|] != '/';
      assert r[..|p|][k] != p[k];
    }
  }

  /** a + "/" + b determines a and b when b holds no '/'. */
  lemma SplitAtLastSlash(a: string, b: string, c: string, d: string)
    requires '/' !in b && '/' !in d && a + "/" + b == c + "/" + d
    ensures a == c && b == d
  {
    LastIndexOfSeparator(a, '/', b);
    LastIndexOfSeparator(c, '/', d);
    assert (a + "/" + b)[..|a|] == a;
    assert (c + "/" + d)[..|c|] == c;
    assert (a + "/" + b)[|a| + 1..] == b;
    assert (c + "/" + d)[|c| + 1..] == d;
  }

  /** Two parsed URLs with ordinary host names share a cache file exactly
      when their hosts are equal and their paths and queries sanitize
      alike: the only collisions are those of SanitizeString. */
  lemma KeyCollision(temp: string, s1: string, u1: ParsedURL, s2: string, u2: ParsedURL)
    requires AbsoluteDir(temp) && PlainElement(u1.host) && PlainElement(u2.host)
    ensures TransformURL(temp, s1, Some(u1)) == TransformURL(temp, s2, Some(u2)) <==>
      u1.host == u2.host && Leaf(u1) == Leaf(u2)
  {
    KeyOfParsedURL(temp, s1, u1);
    KeyOfParsedURL(temp, s2, u2);
    LeafShape(u1);
    LeafShape(u2);
    var root := CacheRoot(temp);
    if TransformURL(temp, s1, Some(u1)) == TransformURL(temp, s2, Some(u2)) {
      SplitAtLastSlash(root + "/" + u1.host, Leaf(u1), root + "/" + u2.host, Leaf(u2));
      SplitAtLastSlash(root, u1.host, root, u2.host);
    }
  }
}
