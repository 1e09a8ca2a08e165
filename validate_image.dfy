/**
 * `isValidImageUrl`: may a URL be rendered as an image? The URL parser is
 * outside the model: its outcome is given as `None` (the constructor threw)
 * or the protocol, hostname and pathname it produced.
 */
module ValidateImage {
  import opened Wrappers

  datatype Url = Url(protocol: string, hostname: string, pathname: string)

  const ALLOWED_DOMAINS: seq<string> := ["yourcdn.com", "images.payhere.lk", "trustedcdn.com"]

  /** The alternatives of the extension pattern, in the order written. */
  const IMAGE_EXTENSIONS: seq<string> := ["jpg", "jpeg", "png", "webp", "avif", "gif"]

  /**
   * Case folding as the regular expression's `i` flag applies it here: the
   * flag canonicalizes every character, but it never maps a non-ASCII
   * character onto an ASCII one, the pattern's letters are ASCII and a
   * parsed pathname is ASCII (percent-encoded), so folding ASCII letters
   * decides every comparison this pattern makes.
   */
  function LowerChar(c: char): char {
    if 'A' <= c <= 'Z' then (c as int + 32) as char else c
  }

  function Lower(s: string): (r: string)
    ensures |r| == |s|
    ensures forall i :: 0 <= i < |s| ==> r[i] == LowerChar(s[i])
  {
    seq(|s|, i requires 0 <= i < |s| => LowerChar(s[i]))
  }

  /** `x` and `y` are one character, or the upper- and lower-case forms of one ASCII letter. */
  predicate SameIgnoringCase(x: char, y: char) {
    || x == y
    || ('A' <= x <= 'Z' && y as int == x as int + 32)
    || ('A' <= y <= 'Z' && x as int == y as int + 32)
  }

  lemma LowerCharAgrees(x: char, y: char)
    ensures LowerChar(x) == LowerChar(y) <==> SameIgnoringCase(x, y)
  {
  }

  /**
   * What the `i` flag promises on ASCII text: two texts fold to the same
   * text exactly when they have the same length and agree position by
   * position up to the case of ASCII letters.
   */
  lemma LowerIgnoresCase(a: string, b: string)
    ensures Lower(a) == Lower(b) <==>
      |a| == |b| && forall i :: 0 <= i < |a| ==> SameIgnoringCase(a[i], b[i])
  {
    if Lower(a) == Lower(b) {
      forall i | 0 <= i < |a| ensures SameIgnoringCase(a[i], b[i]) {
        assert Lower(a)[i] == Lower(b)[i];
        LowerCharAgrees(a[i], b[i]);
      }
    }
    if |a| == |b| && forall i :: 0 <= i < |a| ==> SameIgnoringCase(a[i], b[i]) {
      forall i | 0 <= i < |a| ensures Lower(a)[i] == Lower(b)[i] {
        LowerCharAgrees(a[i], b[i]);
      }
    }
  }

  /** `s` ends with `suffix` once case is ignored. */
  predicate EndsWithIgnoringCase(s: string, suffix: string) {
    |suffix| <= |s| && Lower(s[|s| - |suffix|..]) == Lower(suffix)
  }

  /** The pathname ends in a dot followed by one of the image extensions, in any case. */
  ghost predicate HasImageExtension(path: string) {
    exists i :: 0 <= i < |IMAGE_EXTENSIONS| && EndsWithIgnoringCase(path, "." + IMAGE_EXTENSIONS[i])
  }

  /**
   * The anchored alternation `\.(ext1|ext2|...)$`, tried one alternative at
   * a time: it matches exactly when some alternative, preceded by a dot,
   * ends the path.
   */
  function MatchesExtension(path: string, exts: seq<string>): (m: bool)
    ensures m <==> exists i :: 0 <= i < |exts| && EndsWithIgnoringCase(path, "." + exts[i])
  {
    if exts == [] then false
    else if EndsWithIgnoringCase(path, "." + exts[0]) then true
    else
      var rest := MatchesExtension(path, exts[1..]);
      assert forall i :: 1 <= i < |exts| ==> exts[i] == exts[1..][i - 1];
      rest
  }

  /**
   * The validator: a parse failure, a protocol other than `https:`, a host
   * outside the allow-list (compared for equality) or a path without an
   * image extension each reject; a URL passing all three checks is
   * accepted.
   */
  function IsValidImageUrl(url: Option<Url>): (ok: bool)
    ensures ok <==> url.Some? && url.value.protocol == "https:"
                    && url.value.hostname in ALLOWED_DOMAINS
                    && HasImageExtension(url.value.pathname)
  {
    match url
    case None => false
    case Some(u) =>
      if u.protocol != "https:" then false
      else if u.hostname !in ALLOWED_DOMAINS then false
      else if !MatchesExtension(u.pathname, IMAGE_EXTENSIONS) then false
      else true
  }

  /**
   * Host matching is exact: no allowed domain with anything added in front
   * (a subdomain such as `cdn.yourcdn.com`, or a look-alike such as
   * `evilyourcdn.com`) or behind it (`yourcdn.com.evil.net`) is allowed.
   */
  lemma AllowListIsExact(d: string, extra: string)
    requires d in ALLOWED_DOMAINS && extra != ""
    ensures extra + d !in ALLOWED_DOMAINS && d + extra !in ALLOWED_DOMAINS
  {
    forall e | e in ALLOWED_DOMAINS && |e| > |d|
      ensures e[|e| - |d|..] != d && e[..|d|] != d
    {
      if d == "yourcdn.com" {
        assert e[|e| - |d|..][0] != d[0];
        assert e[..|d|][0] != d[0];
      } else {
        assert d == "trustedcdn.com" && e == "images.payhere.lk";
        assert e[|e| - |d|..][0] != d[0];
        assert e[..|d|][0] != d[0];
      }
    }
    assert (extra + d)[|extra + d| - |d|..] == d;
    assert (d + extra)[..|d|] == d;
  }

  /** So such a host is rejected whatever the protocol and path. */
  lemma LookalikeHostRejected(d: string, extra: string, protocol: string, path: string)
    requires d in ALLOWED_DOMAINS && extra != ""
    ensures !IsValidImageUrl(Some(Url(protocol, extra + d, path)))
    ensures !IsValidImageUrl(Some(Url(protocol, d + extra, path)))
  {
    AllowListIsExact(d, extra);
  }

  /** Worked cases: an allowed host with an upper-case extension is accepted; plain `http:` is not. */
  lemma ValidatorAcceptsExample()
    ensures IsValidImageUrl(Some(Url("https:", "images.payhere.lk", "/gallery/photo.PNG")))
    ensures !IsValidImageUrl(Some(Url("http:", "images.payhere.lk", "/gallery/photo.PNG")))
    ensures !IsValidImageUrl(None)
  {
    assert Lower("PNG") == "png";
    ExtensionIgnoresCase("/gallery/photo", "PNG");
    assert "/gallery/photo" + "." + "PNG" == "/gallery/photo.PNG";
  }

  /** Worked cases: a subdomain of an allowed host, and a text file on an allowed host, are rejected. */
  lemma ValidatorRejectsExamples()
    ensures !IsValidImageUrl(Some(Url("https:", "cdn.yourcdn.com", "/photo.png")))
    ensures !IsValidImageUrl(Some(Url("https:", "trustedcdn.com", "/file.txt")))
  {
    LookalikeHostRejected("yourcdn.com", "cdn.", "https:", "/photo.png");
    assert "cdn." + "yourcdn.com" == "cdn.yourcdn.com";
    TextFileRejected();
  }

  lemma TextFileRejected()
    ensures !HasImageExtension("/file.txt")
  {
    assert Lower("txt") == "txt";
    OtherExtensionRejected("/file", "txt");
    assert "/file" + "." + "txt" == "/file.txt";
  }

  /** Folding is idempotent, so every listed extension is already in folded form. */
  lemma ExtensionsAreLowerCase(i: nat)
    requires i < |IMAGE_EXTENSIONS|
    ensures Lower(IMAGE_EXTENSIONS[i]) == IMAGE_EXTENSIONS[i]
  {
    var e := IMAGE_EXTENSIONS[i];
    assert forall k :: 0 <= k < |e| ==> 'a' <= e[k] <= 'z';
  }

  /**
   * The extension is compared without regard to case: a path made of any
   * stem, a dot and an extension whose folded form is listed (`.PNG`,
   * `.Jpeg`) passes the extension check.
   */
  lemma ExtensionIgnoresCase(stem: string, ext: string)
    requires Lower(ext) in IMAGE_EXTENSIONS
    ensures HasImageExtension(stem + "." + ext)
    ensures MatchesExtension(stem + "." + ext, IMAGE_EXTENSIONS)
  {
    var i :| 0 <= i < |IMAGE_EXTENSIONS| && IMAGE_EXTENSIONS[i] == Lower(ext);
    var x := IMAGE_EXTENSIONS[i];
    ExtensionsAreLowerCase(i);
    var path := stem + "." + ext;
    assert path[|path| - |"." + x|..] == "." + ext;
    LowerAfterDot(ext);
    LowerAfterDot(x);
    assert EndsWithIgnoringCase(path, "." + x);
  }

  /** Folding leaves a leading dot in place. */
  lemma LowerAfterDot(e: string)
    ensures Lower("." + e) == "." + Lower(e)
  {
    assert forall k :: 0 < k <= |e| ==> ("." + e)[k] == e[k - 1];
  }

  /** Every listed extension is a run of lower-case letters; none holds a dot. */
  lemma ExtensionsAreLetters(i: nat)
    requires i < |IMAGE_EXTENSIONS|
    ensures forall k :: 0 <= k < |IMAGE_EXTENSIONS[i]| ==> 'a' <= IMAGE_EXTENSIONS[i][k] <= 'z'
  {
  }

  /**
   * A path whose last dot is followed by something that is not an image
   * extension once folded (`.txt`, `.png.exe`, `.jpgx`) is rejected.
   */
  lemma OtherExtensionRejected(stem: string, ext: string)
    requires '.' !in ext && Lower(ext) !in IMAGE_EXTENSIONS
    ensures !HasImageExtension(stem + "." + ext)
  {
    var path := stem + "." + ext;
    if HasImageExtension(path) {
      var i :| 0 <= i < |IMAGE_EXTENSIONS| && EndsWithIgnoringCase(path, "." + IMAGE_EXTENSIONS[i]);
      NoImageSuffix(stem, ext, IMAGE_EXTENSIONS[i], i);
    }
  }

  /** What a case-blind match of `.x` at the end of `stem.ext` says about `x` and `ext`. */
  lemma FoldedSuffixShape(stem: string, ext: string, x: string)
    requires EndsWithIgnoringCase(stem + "." + ext, "." + x)
    ensures |x| == |ext| ==> Lower(ext) == Lower(x)
    ensures |x| < |ext| ==> '.' in ext
    ensures |x| > |ext| ==> LowerChar(x[|x| - |ext| - 1]) == '.'
  {
    var path := stem + "." + ext;
    var tail := path[|path| - |x| - 1..];
    LowerAfterDot(x);
    var folded := "." + Lower(x);
    assert Lower(tail) == folded;
    if |x| == |ext| {
      assert tail == "." + ext;
      LowerAfterDot(ext);
      assert Lower(ext) == folded[1..] == Lower(x);
    } else if |x| < |ext| {
      var j := |ext| - |x| - 1;
      assert tail[0] == ext[j];
      assert LowerChar(ext[j]) == folded[0];
    } else {
      var k := |x| - |ext|;
      assert tail[k] == '.';
      assert Lower(tail)[k] == '.';
      assert folded[k] == Lower(x)[k - 1];
    }
  }

  lemma NoImageSuffix(stem: string, ext: string, x: string, i: nat)
    requires '.' !in ext && Lower(ext) !in IMAGE_EXTENSIONS
    requires i < |IMAGE_EXTENSIONS| && x == IMAGE_EXTENSIONS[i]
    ensures !EndsWithIgnoringCase(stem + "." + ext, "." + x)
  {
    ExtensionsAreLowerCase(i);
    ExtensionsAreLetters(i);
    if EndsWithIgnoringCase(stem + "." + ext, "." + x) {
      FoldedSuffixShape(stem, ext, x);
      assert false;
    }
  }
}
