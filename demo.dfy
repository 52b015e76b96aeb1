/**
 * The cases of the demonstration script demo/xss-test.js, worked out on the model: the
 * four attack payloads, what `validateMessage` turns them into, the script's own
 * "blocked" test on the result, and the four media URLs it checks.
 */
module Demo {
  import opened Text
  import opened Json
  import opened Patterns
  import opened Sanitizer
  import opened MediaUrl
  import opened YouTube
  import opened MediaHtml
  import opened Color
  import opened Injection
  import opened Message

  /* ------------------------------- Payloads ------------------------------- */

  /** `<script>alert("Inyección de script")</script>` */
  const ScriptBody := "alert(\"Iny" + "ección de " + "script\")"
  const ScriptPayload := "<script>" + ScriptBody + ScriptClose

  /** `<img src="x" onerror="alert('XSS')">` */
  const ImgHead := "img src=\"x\" "
  const ImgHandler := "onerror="
  const AlertQuoted := "\"alert('XSS')\""
  const ImgPayload := "<" + (ImgHead + ImgHandler + AlertQuoted) + ">"

  /** `javascript:alert("XSS")` */
  const Alert := "alert(\"XSS\")"
  const UrlPayload := Protocol + Alert

  /** `<iframe src="javascript:alert('XSS')"></iframe>` */
  const FrameHead := "iframe src=\""
  const FrameTail := "alert('XSS')\""
  const FrameInner := FrameHead + Protocol + FrameTail
  const FrameClose := "/iframe"
  const FramePayload := "<" + FrameInner + ">" + ("<" + FrameClose + ">")

  /** The message of the demonstration: name "Hacker", the payload, colour red. */
  function DemoMessage(text: string): Value
  {
    Record("Hacker", text, "#FF0000")
  }

  /** The script's test: the text holds none of `<script>`, `javascript:`, `onerror=`. */
  predicate Blocked(m: string)
  {
    !Includes(m, "<script>") && !Includes(m, Protocol) && !Includes(m, ImgHandler)
  }

  /** A text lacking one character of `lit` does not include `lit`. */
  lemma MissingCharNotIncluded(s: string, lit: string, i: nat)
    requires i < |lit| && lit[i] !in s
    ensures !Includes(s, lit)
  {
    forall k | 0 <= k <= |s| ensures !(lit <= s[k..]) {
      assert |lit| <= |s[k..]| ==> s[k..][i] == s[k + i];
    }
  }

  /** Without `<`, `:` and `=` a text passes the script's test. */
  lemma PlainIsBlocked(m: string)
    requires '<' !in m && ':' !in m && '=' !in m
    ensures Blocked(m)
  {
    MissingCharNotIncluded(m, "<script>", 0);
    MissingCharNotIncluded(m, Protocol, 10);
    MissingCharNotIncluded(m, ImgHandler, 7);
  }

  /** "Hacker" goes through the sanitiser unchanged. */
  lemma HackerPlain(s: string)
    requires s == "Hacker"
    ensures Clean(s) == s
  {
    assert Avoids(s, '<') && Avoids(s, 'j') && Avoids(s, 'o');
    assert !IsWs(s[0]) && !IsWs(s[5]);
    CleanKeeps(s);
  }

  lemma AnonymousMarks(a: string)
    requires a == Anonymous
    ensures '<' !in a && ':' !in a && '=' !in a
  {
  }

  /** "Anónimo" passes the script's test. */
  lemma AnonymousBlocked()
    ensures Blocked(Anonymous)
  {
    AnonymousMarks(Anonymous);
    PlainIsBlocked(Anonymous);
  }

  /** A fully deleted message becomes "Anónimo", which is not a media URL. */
  lemma DeletedIsAnonymous(s: string)
    requires Strip(s) == []
    ensures ProcessMessage(Str(s)) == Anonymous
  {
    AnonymousNotUrl();
  }

  lemma RedIsColor(c: string)
    requires c == "#FF0000"
    ensures IsHexColor(c)
  {
  }

  /** The record `{nombre, mensaje, color}` of three strings. */
  function Record(name: string, text: string, color: string): Value
  {
    Obj(map[NameKey := Str(name), TextKey := Str(text), ColorKey := Str(color)])
  }

  /** Writing the three fields of a three-field record gives the record of the new values. */
  lemma RewriteRecord(a: Value, b: Value, c: Value, a': Value, b': Value, c': Value)
    ensures map[NameKey := a, TextKey := b, ColorKey := c][NameKey := a'][TextKey := b'][ColorKey := c']
            == map[NameKey := a', TextKey := b', ColorKey := c']
  {
    KeysDistinct();
  }

  lemma NameKept(m: map<string, Value>, name: string)
    requires NameKey in m && m[NameKey] == Str(name) && name != [] && Clean(name) == name
    ensures ValidName(m) == name
  {
  }

  lemma ColorKept(m: map<string, Value>, color: string)
    requires ColorKey in m && m[ColorKey] == Str(color) && IsHexColor(color)
    ensures ValidColor(m) == Str(color)
  {
  }

  lemma TextProcessed(m: map<string, Value>, text: string)
    requires TextKey in m && m[TextKey] == Str(text) && text != []
    ensures ValidText(m) == ProcessMessage(Str(text))
  {
  }

  /**
   * `validateMessage` keeps a clean name and a valid colour and replaces a non-empty
   * text by what `processMessage` makes of it.
   */
  lemma ValidatedRecord(name: string, text: string, color: string)
    requires name != [] && Clean(name) == name && text != [] && IsHexColor(color)
    ensures ValidateMessage(Some(Record(name, text, color))) == Record(name, ProcessMessage(Str(text)), color)
  {
    var m := Record(name, text, color).fields;
    KeysDistinct();
    ValidateRecord(m);
    NameKept(m, name);
    ColorKept(m, color);
    TextProcessed(m, text);
    RewriteRecord(Str(name), Str(text), Str(color), Str(name), Str(ProcessMessage(Str(text))), Str(color));
  }

  /** The message of the demonstration script: name "Hacker", the payload, colour red. */
  lemma DemoValidated(text: string)
    requires text != []
    ensures ValidateMessage(Some(DemoMessage(text))) == DemoMessage(ProcessMessage(Str(text)))
  {
    HackerPlain("Hacker");
    RedIsColor("#FF0000");
    ValidatedRecord("Hacker", text, "#FF0000");
  }

  /* ------------------------- Generic shapes of payloads ------------------ */

  /** A whole tag without `<s` in it leaves nothing after the four passes. */
  lemma WholeTagStrip(inner: string)
    requires ScriptFree("<" + inner + ">") && '>' !in inner
    ensures Strip("<" + inner + ">") == []
  {
    var p := "<" + inner + ">";
    ScriptFreeNoMatch(p);
    DeleteAllUnchanged(ScriptBlock, p);
    assert p == "<" + inner + ">" + [];
    TagThenRest(inner, []);
  }

  /** Two whole tags in a row without `<s` in them leave nothing after the four passes. */
  lemma TwoTagsStrip(a: string, b: string)
    requires ScriptFree("<" + a + ">" + ("<" + b + ">")) && '>' !in a && '>' !in b
    ensures Strip("<" + a + ">" + ("<" + b + ">")) == []
  {
    var p := "<" + a + ">" + ("<" + b + ">");
    ScriptFreeNoMatch(p);
    DeleteAllUnchanged(ScriptBlock, p);
    TagThenRest(a, "<" + b + ">");
    assert "<" + b + ">" == "<" + b + ">" + [];
    TagThenRest(b, []);
  }

  /** `javascript:` before a plain text: only the protocol is deleted. */
  lemma ProtocolStrip(a: string)
    requires Avoids(a, '<') && Avoids(a, 'j') && Avoids(a, 'o')
    requires |a| <= MaxLength && (a != [] ==> !IsWs(a[0]) && !IsWs(a[|a| - 1]))
    ensures Strip(Protocol + a) == a && Clean(Protocol + a) == a
  {
    var p := Protocol + a;
    ProtocolTagFree(Protocol);
    AvoidsConcat(Protocol, a, '<');
    AvoidsNoMatch(ScriptBlock, p);
    AvoidsNoMatch(AnyTag, p);
    DeleteAllUnchanged(ScriptBlock, p);
    DeleteAllUnchanged(AnyTag, p);
    ProtocolThenRest(a);
    AvoidsNoMatch(JsProtocol, a);
    AvoidsNoMatch(EventHandler, a);
    DeleteAllUnchanged(JsProtocol, a);
    DeleteAllUnchanged(EventHandler, a);
    assert Strip(p) == a;
    CleanKeeps(a);
  }

  lemma ProtocolTagFree(j: string)
    requires j == Protocol
    ensures Avoids(j, '<') && ScriptFree(j) && '>' !in j
  {
  }

  /** `(a + b)[|a|..]` is `b`. */
  lemma DropFront(a: string, b: string)
    ensures (a + b)[|a|..] == b
  {
  }

  /* ------------------------------ Case 1 ---------------------------------- */

  lemma ScriptBodyPlain(b: string)
    requires b == ScriptBody
    ensures '<' !in b && NoLineTerminator(b)
  {
  }

  lemma ScriptStrip(p: string)
    requires p == ScriptPayload
    ensures Strip(p) == [] && IsScriptInjection(p)
  {
    ScriptBodyPlain(ScriptBody);
    assert p == "<script>" + ScriptBody + ScriptClose + [];
    ScriptBlockThenRest(ScriptBody, []);
    PassChangeIsDetected(ScriptBlock, p);
  }

  /** Case 1: the script block is detected and deleted whole; the text becomes "Anónimo". */
  lemma ScriptCase(p: string)
    requires p == ScriptPayload
    ensures IsScriptInjection(p)
    ensures ValidateMessage(Some(DemoMessage(p))) == DemoMessage(Anonymous)
  {
    ScriptStrip(p);
    DeletedIsAnonymous(p);
    DemoValidated(p);
  }

  /* ------------------------------ Case 2 ---------------------------------- */

  lemma ImgHeadPlain(h: string)
    requires h == ImgHead
    ensures ScriptFree("<" + h) && '>' !in h
  {
  }

  lemma ImgHandlerPlain(e: string)
    requires e == ImgHandler
    ensures ScriptFree(e) && '>' !in e
    ensures 2 + 5 < |e| && StartsWithCI(e, "on") && e[7] == '=' && forall i :: 2 <= i < 7 ==> IsWordChar(e[i])
  {
  }

  lemma AlertQuotedPlain(q: string)
    requires q == AlertQuoted
    ensures ScriptFree(q + ">") && '>' !in q
  {
  }

  /** A tag holding an event handler: detected, and deleted whole. */
  lemma HandlerTag(h: string, e: string, q: string)
    requires ScriptFree("<" + h) && ScriptFree(e) && ScriptFree(q + ">")
    requires '>' !in h && '>' !in e && '>' !in q
    requires 2 + 5 < |e| && StartsWithCI(e, "on") && e[7] == '=' && forall i :: 2 <= i < 7 ==> IsWordChar(e[i])
    ensures Strip("<" + (h + e + q) + ">") == [] && IsScriptInjection("<" + (h + e + q) + ">")
  {
    HandlerTagStrip(h, e, q);
    HandlerTagDetected(h, e, q);
  }

  lemma HandlerTagStrip(h: string, e: string, q: string)
    requires ScriptFree("<" + h) && ScriptFree(e) && ScriptFree(q + ">")
    requires '>' !in h && '>' !in e && '>' !in q
    ensures Strip("<" + (h + e + q) + ">") == []
  {
    var p := "<" + (h + e + q) + ">";
    ScriptFreeConcat("<" + h, e);
    ScriptFreeConcat("<" + h + e, q + ">");
    assert p == "<" + h + e + (q + ">");
    WholeTagStrip(h + e + q);
  }

  lemma HandlerTagDetected(h: string, e: string, q: string)
    requires 2 + 5 < |e| && StartsWithCI(e, "on") && e[7] == '=' && forall i :: 2 <= i < 7 ==> IsWordChar(e[i])
    ensures IsScriptInjection("<" + (h + e + q) + ">")
  {
    var p := "<" + (h + e + q) + ">";
    assert p == ("<" + h) + (e + (q + ">"));
    DropFront("<" + h, e + (q + ">"));
    var t := e + (q + ">");
    assert forall i :: 0 <= i < |e| ==> t[i] == e[i];
    HandlerLenExact(t, 5);
    DetectedAt(Handler, p, |"<" + h|);
  }

  lemma ImgStrip(p: string)
    requires p == ImgPayload
    ensures Strip(p) == [] && IsScriptInjection(p)
  {
    ImgHeadPlain(ImgHead);
    ImgHandlerPlain(ImgHandler);
    AlertQuotedPlain(AlertQuoted);
    HandlerTag(ImgHead, ImgHandler, AlertQuoted);
  }

  /** Case 2: the event handler is detected; the tag pass deletes the whole `<img …>`. */
  lemma ImgCase(p: string)
    requires p == ImgPayload
    ensures IsScriptInjection(p)
    ensures ValidateMessage(Some(DemoMessage(p))) == DemoMessage(Anonymous)
  {
    ImgStrip(p);
    DeletedIsAnonymous(p);
    DemoValidated(p);
  }

  /* ------------------------------ Case 3 ---------------------------------- */

  lemma AlertPlain(a: string)
    requires a == Alert
    ensures Avoids(a, '<') && Avoids(a, 'j') && Avoids(a, 'o')
    ensures |a| <= MaxLength && !IsWs(a[0]) && !IsWs(a[|a| - 1])
  {
  }

  lemma AlertNotUrl(a: string)
    requires a == Alert
    ensures !IsValidMediaURL(a)
  {
    assert Lower(a[0]) == 'a';
  }

  lemma AlertMarks(a: string)
    requires a == Alert
    ensures '<' !in a && ':' !in a && '=' !in a
  {
  }

  lemma UrlStrip(p: string)
    requires p == UrlPayload
    ensures SanitizeInput(Str(p)) == Alert && IsScriptInjection(p)
  {
    AlertPlain(Alert);
    ProtocolStrip(Alert);
    DropProtocolChanges(Alert);
    PassChangeIsDetected(JsProtocol, p);
  }

  /** Deleting `javascript:` changes the text. */
  lemma DropProtocolChanges(a: string)
    ensures DeleteAll(JsProtocol, Protocol + a) != Protocol + a
  {
    ProtocolThenRest(a);
    assert |DeleteAll(JsProtocol, a)| <= |a| < |Protocol + a|;
  }

  /** Case 3: `javascript:` is detected and deleted; `alert("XSS")` is left and passes the test. */
  lemma UrlCase(p: string)
    requires p == UrlPayload
    ensures IsScriptInjection(p)
    ensures ValidateMessage(Some(DemoMessage(p))) == DemoMessage(Alert)
    ensures Blocked(Alert)
  {
    UrlStrip(p);
    AlertNotUrl(Alert);
    assert ProcessMessage(Str(p)) == Alert;
    DemoValidated(p);
    AlertMarks(Alert);
    PlainIsBlocked(Alert);
  }

  /* ------------------------------ Case 4 ---------------------------------- */

  lemma FrameHeadPlain(h: string)
    requires h == FrameHead
    ensures ScriptFree("<" + h) && '>' !in h && StartsWithCI("<" + h, "<" + "iframe")
  {
  }

  lemma FrameTailPlain(t: string)
    requires t == FrameTail
    ensures ScriptFree(t + ">") && '>' !in t
  {
  }

  lemma FrameClosePlain(c: string)
    requires c == FrameClose
    ensures ScriptFree("<" + c + ">") && '>' !in c
  {
  }

  /** An opening tag named `iframe` followed by a closing tag: detected, and both deleted. */
  lemma FrameTags(h: string, t: string, c: string)
    requires ScriptFree("<" + h) && ScriptFree(Protocol) && ScriptFree(t + ">") && ScriptFree("<" + c + ">")
    requires '>' !in h && '>' !in Protocol && '>' !in t && '>' !in c
    requires StartsWithCI("<" + h, "<" + "iframe")
    ensures var p := "<" + (h + Protocol + t) + ">" + ("<" + c + ">");
            Strip(p) == [] && IsScriptInjection(p)
  {
    FrameTagsStrip(h, t, c);
    FrameTagsDetected(h, t, c);
  }

  lemma FrameTagsStrip(h: string, t: string, c: string)
    requires ScriptFree("<" + h) && ScriptFree(Protocol) && ScriptFree(t + ">") && ScriptFree("<" + c + ">")
    requires '>' !in h && '>' !in Protocol && '>' !in t && '>' !in c
    ensures Strip("<" + (h + Protocol + t) + ">" + ("<" + c + ">")) == []
  {
    var inner := h + Protocol + t;
    var p := "<" + inner + ">" + ("<" + c + ">");
    ScriptFreeConcat("<" + h, Protocol);
    ScriptFreeConcat("<" + h + Protocol, t + ">");
    ScriptFreeConcat("<" + h + Protocol + (t + ">"), "<" + c + ">");
    assert p == "<" + h + Protocol + (t + ">") + ("<" + c + ">");
    TwoTagsStrip(inner, c);
  }

  lemma FrameTagsDetected(h: string, t: string, c: string)
    requires '>' !in h && '>' !in Protocol && '>' !in t
    requires StartsWithCI("<" + h, "<" + "iframe")
    ensures IsScriptInjection("<" + (h + Protocol + t) + ">" + ("<" + c + ">"))
  {
    var inner := h + Protocol + t;
    var p := "<" + inner + ">" + ("<" + c + ">");
    assert p[..7] == ("<" + h)[..7];
    assert p[7..][|inner| - 6] == '>';
    DetectedAt(IframeOpen, p, 0);
  }

  lemma FrameStrip(p: string)
    requires p == FramePayload
    ensures Strip(p) == [] && IsScriptInjection(p)
  {
    FrameHeadPlain(FrameHead);
    FrameTailPlain(FrameTail);
    FrameClosePlain(FrameClose);
    ProtocolTagFree(Protocol);
    FrameTags(FrameHead, FrameTail, FrameClose);
  }

  /** Case 4: the iframe is detected; the tag pass deletes both tags. */
  lemma FrameCase(p: string)
    requires p == FramePayload
    ensures IsScriptInjection(p)
    ensures ValidateMessage(Some(DemoMessage(p))) == DemoMessage(Anonymous)
  {
    FrameStrip(p);
    DeletedIsAnonymous(p);
    DemoValidated(p);
  }

  /* --------------------------------- Media -------------------------------- */

  lemma NoWsConcat(a: string, b: string)
    requires forall i :: 0 <= i < |a| ==> !IsWs(a[i])
    requires forall i :: 0 <= i < |b| ==> !IsWs(b[i])
    ensures forall i :: 0 <= i < |a + b| ==> !IsWs((a + b)[i])
  {
  }

  /** A listed extension at the very end makes a shape-valid URL media. */
  lemma EndsWithExtension(host: string, path: string, ext: string)
    requires DemoAddress(host, path, ext)
    requires ext in ImageExtensions || ext in VideoExtensions
    ensures IsValidMediaURL("https://" + (host + path))
    ensures var s := "https://" + (host + path); ExtensionAt(s, |s| - |ext| - 1, ext)
  {
    NoWsConcat(host, path);
    HttpsShape(host + path);
    var s := "https://" + (host + path);
    var i := |s| - |ext| - 1;
    assert s[i..] == [s[i]] + ext;
    assert s[i + 1 + |ext|..] == [];
    ExtensionSuffixIsMedia(s, i, ext);
  }

  /** A host and a path of the demonstration, with the extension the path ends in. */
  predicate DemoAddress(host: string, path: string, ext: string)
  {
    HostStart(host) && NoWs(path) && EndsIn(path, ext)
  }

  predicate NoWs(s: string)
  {
    forall i :: 0 <= i < |s| ==> !IsWs(s[i])
  }

  predicate HostStart(host: string)
  {
    2 <= |host| && host[0] !in "/$.?#" && NoWs(host)
  }

  predicate EndsIn(path: string, ext: string)
  {
    |path| > |ext| && path[|path| - |ext| - 1] == '.' && path[|path| - |ext|..] == ext
    && (forall i :: 0 <= i < |ext| ==> Lower(ext[i]) == ext[i])
  }

  lemma ExampleHost(h: string)
    requires h == "example.com"
    ensures HostStart(h)
  {
  }

  lemma ImgurHost(h: string)
    requires h == "i.imgur.com"
    ensures HostStart(h)
  {
  }

  lemma ImagePath(p: string, e: string)
    requires p == "/imagen.jpg" && e == "jpg"
    ensures NoWs(p) && EndsIn(p, e) && e in ImageExtensions
  {
  }

  lemma ImgurPath(p: string, e: string)
    requires p == "/ejemplo.png" && e == "png"
    ensures NoWs(p) && EndsIn(p, e) && e in ImageExtensions
  {
  }

  lemma VideoPath(p: string, e: string)
    requires p == "/video.mp4" && e == "mp4"
    ensures NoWs(p) && EndsIn(p, e) && e in VideoExtensions
  {
    assert VideoExtensions[0] == e;
  }

  const ImageUrl := "https://" + ("example.com" + "/imagen.jpg")
  const ImgurUrl := "https://" + ("i.imgur.com" + "/ejemplo.png")
  const VideoUrl := "https://" + ("example.com" + "/video.mp4")
  const VideoId := "dQw4w9WgXcQ"
  const WatchUrl := "https://" + ("www." + Domain) + "watch?v=" + VideoId

  lemma ImageUrlValid()
    ensures IsValidMediaURL(ImageUrl)
  {
    ExampleHost("example.com");
    ImagePath("/imagen.jpg", "jpg");
    EndsWithExtension("example.com", "/imagen.jpg", "jpg");
  }

  lemma ImgurUrlValid()
    ensures IsValidMediaURL(ImgurUrl)
  {
    ImgurHost("i.imgur.com");
    ImgurPath("/ejemplo.png", "png");
    EndsWithExtension("i.imgur.com", "/ejemplo.png", "png");
  }

  lemma VideoUrlValid()
    ensures IsValidMediaURL(VideoUrl)
  {
    ExampleHost("example.com");
    VideoPath("/video.mp4", "mp4");
    EndsWithExtension("example.com", "/video.mp4", "mp4");
  }

  lemma WatchPieces(w: string, t: string, id: string)
    requires w == "www." + Domain && t == "watch?v=" && id == VideoId
    ensures HostStart(w) && NoWs(t) && NoWs(id) && 4 <= |w| && w[4..] == Domain
    ensures IsId(id)
  {
    assert forall i :: 0 <= i < 11 ==> IsIdChar(id[i]);
  }

  /** A shape-valid address holding `youtube.com/` is media. */
  lemma WatchShape(w: string, t: string, id: string)
    requires HostStart(w) && NoWs(t) && NoWs(id) && 4 <= |w| && w[4..] == Domain
    ensures IsValidMediaURL("https://" + w + t + id)
  {
    NoWsConcat(t, id);
    NoWsConcat(w, t + id);
    HttpsShape(w + (t + id));
    var url := "https://" + w + t + id;
    assert url == "https://" + (w + (t + id));
    assert url[12..][..|Domain|] == w[4..];
    LongDomainIsMedia(url, 12);
  }

  /** The script's YouTube address is media. */
  lemma WatchMedia()
    ensures IsValidMediaURL(WatchUrl)
  {
    var w, t, id := "www." + Domain, "watch?v=", VideoId;
    WatchPieces(w, t, id);
    WatchShape(w, t, id);
    assert WatchUrl == "https://" + w + t + id;
  }

  /** The video id of the script's YouTube address is `dQw4w9WgXcQ`. */
  lemma WatchId()
    ensures ExtractYouTubeId(WatchUrl) == Some(VideoId)
  {
    WatchPieces("www." + Domain, "watch?v=", VideoId);
    WatchUrlId(VideoId);
  }

  /* ------------------------ Image before video --------------------------- */

  /** An image host (`cdn.`) serving a video file. */
  const CdnVideoUrl := "https://" + ("cdn.example.com" + "/clip.mp4")

  lemma CdnHost(h: string)
    requires h == "cdn.example.com"
    ensures HostStart(h) && StartsWithCI(h, "cdn.")
  {
  }

  lemma ClipPath(p: string, e: string)
    requires p == "/clip.mp4" && e == "mp4"
    ensures NoWs(p) && EndsIn(p, e) && e == VideoExtensions[0]
  {
  }

  /** The host text after `https://` makes the url an image of `createMediaHTML`. */
  lemma HostMakesImage(h: string, p: string)
    requires StartsWithCI(h, "cdn.")
    ensures IsImageUrl("https://" + (h + p))
  {
    var u := "https://" + (h + p);
    assert forall i :: 0 <= i < 4 ==> u[8..][i] == h[i];
    assert StartsWithCI(u[8..], "cdn.");
    assert ImageHosts[4] == Contains("cdn.");
    assert Matches(ImageHosts[4], u);
  }

  /**
   * `https://cdn.example.com/clip.mp4` is media and ends in a video extension, but the
   * image test comes first, so `createMediaHTML` renders it as an `<img>`.
   */
  lemma CdnVideoIsImage()
    ensures IsValidMediaURL(CdnVideoUrl) && HasExtension(CdnVideoUrl, VideoExtensions)
    ensures CreateMediaHTML(CdnVideoUrl)[..4] == "<img"
  {
    var h, p, e := "cdn.example.com", "/clip.mp4", "mp4";
    CdnHost(h);
    ClipPath(p, e);
    EndsWithExtension(h, p, e);
    var u := "https://" + (h + p);
    assert ExtensionAt(u, |u| - 4, VideoExtensions[0]);
    HostMakesImage(h, p);
    ImageBeforeVideo(u);
  }

  /** The four addresses of the script's media section are accepted. */
  lemma DemoMediaValid()
    ensures IsValidMediaURL(ImageUrl) && IsValidMediaURL(ImgurUrl) && IsValidMediaURL(VideoUrl)
    ensures IsValidMediaURL(WatchUrl)
  {
    ImageUrlValid();
    ImgurUrlValid();
    VideoUrlValid();
    WatchMedia();
  }
}
