/**
 * `isValidMediaURL` (libs/unalib.js): the http(s) URL shape test, then three pattern
 * tables tried in order: file extensions, known media hosts, media-like path segments.
 * The tables are kept as data; each entry is one of the library's regular expressions.
 */
module MediaUrl {
  import opened Text

  /** After `http://` or `https://` (at `p`): `[^\s/$.?#]`, then `.`, then `[^\s]*` to the end. */
  predicate HostAndRest(s: string, p: nat)
  {
    p + 2 <= |s| && !IsWs(s[p]) && s[p] !in "/$.?#" && !IsLineTerminator(s[p + 1])
    && forall i :: p + 2 <= i < |s| ==> !IsWs(s[i])
  }

  /**
   * `/^https?:\/\/[^\s/$.?#].[^\s]*$/i`. The `.` after the first host character is any
   * character but a line terminator, so it may be a space or a tab.
   */
  predicate UrlShape(s: string)
  {
    (StartsWithCI(s, "http://") && HostAndRest(s, 7)) || (StartsWithCI(s, "https://") && HostAndRest(s, 8))
  }

  const ImageExtensions: seq<string> := ["jpg", "jpeg", "png", "gif", "bmp", "webp", "svg", "ico", "tiff", "tif"]
  const VideoExtensions: seq<string> := ["mp4", "webm", "ogg", "avi", "mov", "wmv", "flv", "mkv", "m4v"]

  /** `(\?.*)?$`: the end of the text, or `?` and a same-line rest. */
  predicate QueryTail(t: string)
  {
    t == [] || (t[0] == '?' && NoLineTerminator(t[1..]))
  }

  /** `\.ext(\?.*)?$` with the `i` flag, matched from position `i`. */
  predicate ExtensionAt(s: string, i: nat, ext: string)
  {
    i < |s| && s[i] == '.' && StartsWithCI(s[i + 1..], ext) && QueryTail(s[i + 1 + |ext|..])
  }

  /** `/\.(e1|e2|…)(\?.*)?$/i.test(s)` for the extensions `exts`. */
  predicate HasExtension(s: string, exts: seq<string>)
  {
    exists i, k :: 0 <= i < |s| && 0 <= k < |exts| && ExtensionAt(s, i, exts[k])
  }

  /** One entry of a host or path table. */
  datatype UrlPattern =
    | Contains(lit: string)                                  // `/lit/i`
    | ContainsThenExtension(lit: string, exts: seq<string>)  // `/lit.*\.(e1|e2|…)/i`

  /** `lit`, then a same-line run, then `.` and one of `exts`, from position `i`. */
  predicate LitThenExtensionAt(s: string, i: nat, lit: string, exts: seq<string>)
  {
    i <= |s| && StartsWithCI(s[i..], lit)
    && exists j, k :: i + |lit| <= j < |s| && 0 <= k < |exts| && NoLineTerminator(s[i + |lit|..j])
                      && s[j] == '.' && StartsWithCI(s[j + 1..], exts[k])
  }

  /** `pattern.test(s)`. */
  predicate Matches(p: UrlPattern, s: string)
  {
    match p
    case Contains(lit) => ContainsCI(s, lit)
    case ContainsThenExtension(lit, exts) => exists i :: 0 <= i <= |s| && LitThenExtensionAt(s, i, lit, exts)
  }

  /** `patterns.some(pattern => pattern.test(s))`. */
  predicate AnyMatches(patterns: seq<UrlPattern>, s: string)
  {
    exists k :: 0 <= k < |patterns| && Matches(patterns[k], s)
  }

  const ImageDomains: seq<UrlPattern> := [
    Contains("imgur.com"), Contains("i.imgur.com"), Contains("images."), Contains("photos."),
    Contains("cdn."), Contains("static."), Contains("wikia.nocookie.net"), Contains("media.tenor.com"),
    Contains("i.redd.it"), Contains("preview.redd.it"),
    ContainsThenExtension("github.com", ["jpg", "png", "gif"]),
    Contains("githubusercontent.com"), Contains("discordapp.com"), Contains("cdn.discord"),
    Contains("picsum.photos"), Contains("unsplash.com"), Contains("pexels.com"), Contains("pixabay.com")
  ]

  const VideoDomains: seq<UrlPattern> := [
    Contains("youtube.com"), Contains("youtu.be"), Contains("vimeo.com"),
    Contains("dailymotion.com"), Contains("twitch.tv"), Contains("streamable.com")
  ]

  /** `/\/images?\//i` and the other path patterns, each alternative written out. */
  const PathPatterns: seq<UrlPattern> := [
    Contains("/image/"), Contains("/images/"), Contains("/photo/"), Contains("/photos/"),
    Contains("/media/"), Contains("/gallery/"), Contains("/upload/"), Contains("/uploads/"),
    Contains("/asset/"), Contains("/assets/"), Contains("/attachment/"), Contains("/attachments/")
  ]

  /** `isValidMediaURL(url)`. */
  predicate IsValidMediaURL(url: string)
    ensures IsValidMediaURL(url) ==> UrlShape(url) && |url| >= 9 && StartsWithCI(url, "http")
  {
    if !UrlShape(url) then false
    else
      UrlShapeFacts(url);
      if HasExtension(url, ImageExtensions) || HasExtension(url, VideoExtensions) then true
      else if AnyMatches(ImageDomains, url) || AnyMatches(VideoDomains, url) then true
      else AnyMatches(PathPatterns, url)
  }

  /* ------------------------------- Properties ----------------------------- */

  /** The length of the scheme part, `http://` or `https://`. */
  function SchemeLen(s: string): nat
  {
    if StartsWithCI(s, "http://") then 7 else 8
  }

  /**
   * A shape-valid URL starts with `http` in any case, has at least 9 characters and holds
   * no whitespace except, possibly, the single character right after the first host
   * character (which is then not a line terminator).
   */
  lemma UrlShapeFacts(s: string)
    requires UrlShape(s)
    ensures |s| >= 9 && StartsWithCI(s, "http") && SchemeLen(s) + 2 <= |s|
    ensures forall i :: 0 <= i < |s| && i != SchemeLen(s) + 1 ==> !IsWs(s[i])
    ensures !IsLineTerminator(s[SchemeLen(s) + 1])
  {
    var p := SchemeLen(s);
    if StartsWithCI(s, "http://") {
      assert Lower(s[4]) == ':';
      assert !StartsWithCI(s, "https://");
    }
    assert HostAndRest(s, p);
    forall i | 0 <= i < p ensures !IsWs(s[i]) {
      assert Lower(s[i]) == (if p == 7 then "http://" else "https://")[i];
    }
  }

  /** `https://` and a text without whitespace whose first character may start a host. */
  lemma HttpsShape(rest: string)
    requires 2 <= |rest| && rest[0] !in "/$.?#" && forall i :: 0 <= i < |rest| ==> !IsWs(rest[i])
    ensures UrlShape("https://" + rest)
  {
    var s := "https://" + rest;
    assert forall i :: 0 <= i < 8 ==> Lower(s[i]) == "https://"[i];
    assert forall i :: 8 <= i < |s| ==> s[i] == rest[i - 8];
  }

  /** A shape-valid URL whose text ends in `.ext` or `.ext?query`, `ext` a listed extension, is media. */
  lemma ExtensionSuffixIsMedia(s: string, i: nat, ext: string)
    requires UrlShape(s)
    requires ext in ImageExtensions || ext in VideoExtensions
    requires ExtensionAt(s, i, ext)
    ensures IsValidMediaURL(s)
  {
    if ext in ImageExtensions {
      var k :| 0 <= k < |ImageExtensions| && ImageExtensions[k] == ext;
      assert ExtensionAt(s, i, ImageExtensions[k]);
    } else {
      var k :| 0 <= k < |VideoExtensions| && VideoExtensions[k] == ext;
      assert ExtensionAt(s, i, VideoExtensions[k]);
    }
  }

  /** A shape-valid URL holding, in any case, a listed host or path literal is media. */
  lemma ListedLiteralIsMedia(s: string, lit: string, i: nat)
    requires UrlShape(s)
    requires Contains(lit) in ImageDomains || Contains(lit) in VideoDomains || Contains(lit) in PathPatterns
    requires i <= |s| && StartsWithCI(s[i..], lit)
    ensures IsValidMediaURL(s)
  {
    var p := Contains(lit);
    assert Matches(p, s);
    if p in ImageDomains {
      var k :| 0 <= k < |ImageDomains| && ImageDomains[k] == p;
      assert Matches(ImageDomains[k], s);
    } else if p in VideoDomains {
      var k :| 0 <= k < |VideoDomains| && VideoDomains[k] == p;
      assert Matches(VideoDomains[k], s);
    } else {
      var k :| 0 <= k < |PathPatterns| && PathPatterns[k] == p;
      assert Matches(PathPatterns[k], s);
    }
  }

  /**
   * `/github\.com.*\.(jpg|png|gif)/i`: a shape-valid url holding `github.com`, later on the
   * same line a `.` and one of those extensions (anywhere, not only at the end), is accepted.
   */
  lemma GithubImageIsMedia(s: string, i: nat)
    requires UrlShape(s)
    requires LitThenExtensionAt(s, i, "github.com", ["jpg", "png", "gif"])
    ensures IsValidMediaURL(s)
  {
    assert Matches(ImageDomains[10], s);
  }
}
