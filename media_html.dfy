/**
 * `createMediaHTML` (libs/unalib.js): decide what a media URL is (image, video, YouTube
 * embed or plain link) with the function's own tables, and build the markup for it.
 */
module MediaHtml {
  import opened Text
  import opened MediaUrl
  import opened YouTube

  /** The image-host table of `createMediaHTML`, smaller than the one of `isValidMediaURL`. */
  const ImageHosts: seq<UrlPattern> := [
    Contains("imgur.com"), Contains("wikia.nocookie.net"), Contains("images."), Contains("photos."),
    Contains("cdn."), Contains("static."), Contains("media.tenor.com")
  ]

  /** `isImageUrl`: an image extension, an image host, or an `/image(s)/` or `/photo(s)/` segment. */
  predicate IsImageUrl(url: string)
  {
    HasExtension(url, ImageExtensions) || AnyMatches(ImageHosts, url)
    || ContainsCI(url, "/image/") || ContainsCI(url, "/images/")
    || ContainsCI(url, "/photo/") || ContainsCI(url, "/photos/")
  }

  /** What `createMediaHTML` renders. */
  datatype Kind = Image | Video | Embed(id: string) | Link

  /** The branch `createMediaHTML` takes, in its order: image before video before YouTube. */
  function Classify(url: string): (k: Kind)
    ensures k.Embed? ==> IsId(k.id)
  {
    if IsImageUrl(url) then Image
    else if HasExtension(url, VideoExtensions) then Video
    else if (Includes(url, "youtube.com") || Includes(url, "youtu.be")) && ExtractYouTubeId(url).Some? then
      Embed(ExtractYouTubeId(url).value)
    else Link
  }

  /** The `onerror` attribute shared by image and video markup. */
  const OnError := " onerror=\"this.style.display='none';" + " this.nextSibling.style.display='inline';\""
  /** The hidden fallback text that follows image and video markup. */
  const HiddenSpan := "<span style=\"display:none;" + " color:#888;\">"
  const ImgOpen := "<img src=\""
  const ImgMiddle := "\" alt=\"Imagen compartida\"" + " style=\"max-width: 300px;" + " max-height: 200px;"
    + " border-radius: 5px;" + " cursor: pointer;\"" + OnError + " onclick=\"window.open('"
  const ImgAfterClick := "', '_blank')\" />" + HiddenSpan + "[Imagen no disponible: "
  const VideoOpen := "<video" + " controls"
  const VideoAttributes := " style=\"max-width: 300px;" + " max-height: 200px;\"" + OnError + "><source src=\""
  const VideoMiddle := "\" type=\"video/mp4\">" + "Tu navegador " + "no soporta videos." + "</video>" + HiddenSpan
    + "[Video no disponible: "
  const SpanClose := "]</span>"
  const IframeLead := "<iframe" + " width=\"300\"" + " height=\"200\" src=\""
  const EmbedAddress := "https://www.youtube.com/embed/"
  const IframeClose := "\" frameborder=\"0\"" + " allowfullscreen>" + "</iframe>"
  const EmbedStart := |IframeLead| + |EmbedAddress|
  const LinkOpen := "<a href=\""
  const LinkMiddle := "\" target=\"_blank\"" + " rel=\"noopener noreferrer\"" + " style=\"color: #1976d2;"
    + " text-decoration: none;\">" + "\U{1F517} Ver contenido: "
  const LinkClose := "</a>"
  const LinkTextMax := 50

  /** The visible text of a link: the url, or its first 50 characters and `...`. */
  function LinkText(url: string): (r: string)
    ensures |url| <= LinkTextMax ==> r == url
    ensures |url| > LinkTextMax ==> |r| == LinkTextMax + 3 && r == url[..LinkTextMax] + "..."
  {
    if |url| > LinkTextMax then url[..LinkTextMax] + "..." else url
  }

  function ImageMarkup(url: string): string
  {
    ImgOpen + url + ImgMiddle + url + ImgAfterClick + url + SpanClose
  }

  function VideoMarkup(url: string): string
  {
    VideoOpen + VideoAttributes + url + VideoMiddle + url + SpanClose
  }

  function EmbedMarkup(id: string): string
  {
    IframeLead + (EmbedAddress + id) + IframeClose
  }

  function LinkMarkup(url: string): string
  {
    LinkOpen + url + LinkMiddle + LinkText(url) + LinkClose
  }

  /** `createMediaHTML(url)`. */
  function CreateMediaHTML(url: string): string
  {
    match Classify(url)
    case Image => ImageMarkup(url)
    case Video => VideoMarkup(url)
    case Embed(id) => EmbedMarkup(id)
    case Link => LinkMarkup(url)
  }

  /**
   * Reading the markup back: its opening element tells the branch, and for an embed the
   * eleven characters after the embed address are the video id.
   */
  function MarkupKind(html: string): Kind
  {
    if |html| >= 4 && html[..4] == "<img" then Image
    else if |html| >= 6 && html[..6] == "<video" then Video
    else if EmbedStart + 11 <= |html| && html[..7] == "<iframe" then
      Embed(html[EmbedStart..EmbedStart + 11])
    else Link
  }

  /* ------------------------------- Properties ----------------------------- */

  /** The markup says which branch produced it, and carries the embedded video's id. */
  lemma MarkupKindInverse(url: string)
    ensures MarkupKind(CreateMediaHTML(url)) == Classify(url)
  {
    match Classify(url)
    case Image => ImageMarkupKind(url);
    case Video => VideoMarkupKind(url);
    case Embed(id) => EmbedMarkupKind(id);
    case Link => LinkMarkupKind(url);
  }

  lemma ImageMarkupKind(url: string)
    ensures ImageMarkup(url)[..4] == "<img"
    ensures MarkupKind(ImageMarkup(url)) == Image
  {
    assert ImageMarkup(url)[..4] == "<img";
  }

  lemma VideoMarkupKind(url: string)
    ensures MarkupKind(VideoMarkup(url)) == Video
  {
    var html := VideoMarkup(url);
    assert html[..6] == "<video";
    assert html[..4] != "<img" by { assert html[1] == 'v'; }
  }

  lemma EmbedMarkupKind(id: string)
    requires IsId(id)
    ensures MarkupKind(EmbedMarkup(id)) == Embed(id)
  {
    var html := EmbedMarkup(id);
    assert html[..7] == "<iframe";
    assert html[..4] != "<img" by { assert html[2] == 'f'; }
    assert html[..6] != "<video" by { assert html[1] == 'i'; }
    assert html[EmbedStart..EmbedStart + 11] == id;
  }

  lemma LinkMarkupKind(url: string)
    ensures MarkupKind(LinkMarkup(url)) == Link
  {
    var html := LinkMarkup(url);
    assert html[1] == 'a';
    assert html[..4] != "<img" && html[..6] != "<video" && html[..7] != "<iframe";
  }

  /**
   * The image test comes first: a url it accepts is rendered as an image, whatever else
   * it matches (a video extension, a YouTube address).
   */
  lemma ImageBeforeVideo(url: string)
    requires IsImageUrl(url)
    ensures Classify(url) == Image && CreateMediaHTML(url) == ImageMarkup(url)
    ensures CreateMediaHTML(url)[..4] == "<img"
  {
    ImageMarkupKind(url);
  }

  /** `s` appears at the end of `a + s`. */
  lemma IncludesEnd(a: string, s: string)
    ensures Includes(a + s, s)
  {
    assert (a + s)[|a|..] == s;
  }

  /** What `x` contains, `x + y` contains. */
  lemma IncludesExtend(x: string, y: string, s: string)
    requires Includes(x, s)
    ensures Includes(x + y, s)
  {
    var i :| 0 <= i <= |x| && s <= x[i..];
    assert s <= (x + y)[i..];
  }

  /**
   * Every kind of markup carries what it shows: image and video markup hold the url, an
   * embed holds the YouTube embed address followed by the id, and a link holds the url
   * (as its target) and its visible text.
   */
  lemma MarkupCarriesUrl(url: string)
    ensures Classify(url).Embed? ==> Includes(CreateMediaHTML(url), EmbedAddress + Classify(url).id)
    ensures !Classify(url).Embed? ==> Includes(CreateMediaHTML(url), url)
    ensures Classify(url).Link? ==> Includes(CreateMediaHTML(url), LinkText(url))
  {
    match Classify(url)
    case Image => ImageMarkupHasUrl(url);
    case Video => VideoMarkupHasUrl(url);
    case Embed(id) => EmbedMarkupHasId(id);
    case Link => LinkMarkupHasUrl(url);
  }

  /** Every markup is longer than 50 characters, hence never a text `sanitizeInput` returns. */
  lemma MarkupLonger(url: string)
    ensures |CreateMediaHTML(url)| > LinkTextMax
  {
    match Classify(url)
    case Image => assert |ImageMarkup(url)| >= |ImgMiddle| > LinkTextMax;
    case Video => assert |VideoMarkup(url)| >= |VideoAttributes| > LinkTextMax;
    case Embed(id) => assert |EmbedMarkup(id)| >= |IframeLead| + |EmbedAddress| > LinkTextMax;
    case Link => assert |LinkMarkup(url)| >= |LinkMiddle| > LinkTextMax;
  }

  lemma ImageMarkupHasUrl(url: string)
    ensures Includes(ImageMarkup(url), url)
  {
    var x := ImgOpen + url;
    IncludesEnd(ImgOpen, url);
    IncludesExtend(x, ImgMiddle, url);
    IncludesExtend(x + ImgMiddle, url, url);
    IncludesExtend(x + ImgMiddle + url, ImgAfterClick, url);
    IncludesExtend(x + ImgMiddle + url + ImgAfterClick, url, url);
    IncludesExtend(x + ImgMiddle + url + ImgAfterClick + url, SpanClose, url);
  }

  lemma VideoMarkupHasUrl(url: string)
    ensures Includes(VideoMarkup(url), url)
  {
    var x := VideoOpen + VideoAttributes + url;
    IncludesEnd(VideoOpen + VideoAttributes, url);
    IncludesExtend(x, VideoMiddle, url);
    IncludesExtend(x + VideoMiddle, url, url);
    IncludesExtend(x + VideoMiddle + url, SpanClose, url);
  }

  lemma EmbedMarkupHasId(id: string)
    ensures Includes(EmbedMarkup(id), EmbedAddress + id)
  {
    IncludesEnd(IframeLead, EmbedAddress + id);
    IncludesExtend(IframeLead + (EmbedAddress + id), IframeClose, EmbedAddress + id);
  }

  lemma LinkMarkupHasUrl(url: string)
    ensures Includes(LinkMarkup(url), url) && Includes(LinkMarkup(url), LinkText(url))
  {
    var x := LinkOpen + url;
    IncludesEnd(LinkOpen, url);
    IncludesExtend(x, LinkMiddle, url);
    IncludesExtend(x + LinkMiddle, LinkText(url), url);
    IncludesExtend(x + LinkMiddle + LinkText(url), LinkClose, url);
    IncludesEnd(x + LinkMiddle, LinkText(url));
    IncludesExtend(x + LinkMiddle + LinkText(url), LinkClose, LinkText(url));
  }

  /** A literal written in lower case is found by the case-insensitive test wherever it occurs exactly. */
  lemma ExactIsCI(s: string, lit: string, i: nat)
    requires i <= |s| && lit <= s[i..]
    requires forall j :: 0 <= j < |lit| ==> Lower(lit[j]) == lit[j]
    ensures ContainsCI(s, lit)
  {
    assert StartsWithCI(s[i..], lit);
  }

  /** The `includes` tests of the YouTube branch add nothing to the extraction: it needs `youtube.com/` or `youtu.be/`. */
  lemma EmbedIffId(url: string)
    requires !IsImageUrl(url) && !HasExtension(url, VideoExtensions)
    ensures Classify(url).Embed? <==> ExtractYouTubeId(url).Some?
  {
    if ExtractYouTubeId(url).Some? {
      IdNeedsIncludes(url);
    }
  }

  /** A found id means the url passes one of the two `includes` tests. */
  lemma IdNeedsIncludes(url: string)
    requires ExtractYouTubeId(url).Some?
    ensures Includes(url, "youtube.com") || Includes(url, "youtu.be")
  {
    ExtractNeedsDomain(url);
    if Includes(url, Domain) {
      var i :| 0 <= i <= |url| && Domain <= url[i..];
      assert "youtube.com" <= url[i..];
    } else {
      var i :| 0 <= i <= |url| && Short <= url[i..];
      assert "youtu.be" <= url[i..];
    }
  }

  /**
   * What `createMediaHTML` renders as an image, video or embed, `isValidMediaURL` accepts
   * too, once the url has the http(s) shape: its tables cover those of `createMediaHTML`.
   */
  lemma ClassifiedIsValid(url: string)
    requires UrlShape(url) && !Classify(url).Link?
    ensures IsValidMediaURL(url)
  {
    if IsImageUrl(url) {
      ImageUrlIsValid(url);
    } else if !HasExtension(url, VideoExtensions) {
      EmbedIsValid(url);
    }
  }

  lemma ImageUrlIsValid(url: string)
    requires UrlShape(url) && IsImageUrl(url)
    ensures IsValidMediaURL(url)
  {
    if HasExtension(url, ImageExtensions) {
    } else if AnyMatches(ImageHosts, url) {
      var k :| 0 <= k < |ImageHosts| && Matches(ImageHosts[k], url);
      var i :| 0 <= i <= |url| && StartsWithCI(url[i..], ImageHosts[k].lit);
      ListedLiteralIsMedia(url, ImageHosts[k].lit, i);
    } else {
      var lit := if ContainsCI(url, "/image/") then "/image/"
                 else if ContainsCI(url, "/images/") then "/images/"
                 else if ContainsCI(url, "/photo/") then "/photo/"
                 else "/photos/";
      var i :| 0 <= i <= |url| && StartsWithCI(url[i..], lit);
      ListedLiteralIsMedia(url, lit, i);
    }
  }

  lemma EmbedIsValid(url: string)
    requires UrlShape(url) && ExtractYouTubeId(url).Some?
    ensures IsValidMediaURL(url)
  {
    ExtractNeedsDomain(url);
    if Includes(url, Domain) {
      var i :| 0 <= i <= |url| && Domain <= url[i..];
      LongDomainIsMedia(url, i);
    } else {
      var i :| 0 <= i <= |url| && Short <= url[i..];
      ShortDomainIsMedia(url, i);
    }
  }

  lemma LongDomainIsMedia(url: string, i: nat)
    requires UrlShape(url) && i <= |url| && Domain <= url[i..]
    ensures IsValidMediaURL(url)
  {
    assert VideoDomains[0] == Contains("youtube.com");
    assert "youtube.com" <= url[i..];
    ExactIsCI(url, "youtube.com", i);
    ListedLiteralIsMedia(url, "youtube.com", i);
  }

  lemma ShortDomainIsMedia(url: string, i: nat)
    requires UrlShape(url) && i <= |url| && Short <= url[i..]
    ensures IsValidMediaURL(url)
  {
    assert VideoDomains[1] == Contains("youtu.be");
    assert "youtu.be" <= url[i..];
    ExactIsCI(url, "youtu.be", i);
    ListedLiteralIsMedia(url, "youtu.be", i);
  }
}
