/**
 * The pure parts of server.js: `formatUptime`, `approxBytesFromDataURL`, and what the
 * `Evento-Mensaje-Server` handler makes of one incoming message: the payload it builds, the
 * media it accepts, whether it raises the security warning, the record it broadcasts and
 * the error record it returns to the sender alone.
 */
module Server {
  import opened Text
  import opened Json
  import opened Sanitizer
  import opened MediaUrl
  import opened Injection
  import opened Color
  import opened Message
  import opened MediaHtml

  /* ------------------------------- Uptime --------------------------------- */

  /** Hours, minutes below 60 and seconds below 60 that add up to `seconds`. */
  function UptimeParts(seconds: nat): (p: (nat, nat, nat))
    ensures p.1 < 60 && p.2 < 60 && seconds == 3600 * p.0 + 60 * p.1 + p.2
  {
    (seconds / 3600, (seconds % 3600) / 60, seconds % 60)
  }

  /** `formatUptime(seconds)` for a whole number of seconds: `${hours}h ${minutes}m ${secs}s`. */
  function FormatUptime(seconds: nat): string
  {
    var p := UptimeParts(seconds);
    NatToDecimal(p.0) + "h " + NatToDecimal(p.1) + "m " + NatToDecimal(p.2) + "s"
  }

  /** There is only one such split: hours, minutes and seconds are determined. */
  lemma UptimePartsUnique(seconds: nat, h: nat, m: nat, s: nat)
    requires m < 60 && s < 60 && seconds == 3600 * h + 60 * m + s
    ensures UptimeParts(seconds) == (h, m, s)
  {
    var r := 60 * m + s;
    assert 0 <= r < 3600;
    assert seconds / 3600 == h && seconds % 3600 == r;
    assert r / 60 == m && r % 60 == s;
  }

  /** An uptime of `h` hours, `m` minutes and `s` seconds is written `${h}h ${m}m ${s}s`. */
  lemma FormatUptimeOf(seconds: nat, h: nat, m: nat, s: nat)
    requires m < 60 && s < 60 && seconds == 3600 * h + 60 * m + s
    ensures FormatUptime(seconds) == NatToDecimal(h) + "h " + NatToDecimal(m) + "m " + NatToDecimal(s) + "s"
  {
    UptimePartsUnique(seconds, h, m, s);
  }

  /** Two digit strings followed by the same non-digit split the same way. */
  lemma SplitAfterDigits(d1: string, d2: string, sep: string, r1: string, r2: string)
    requires forall i :: 0 <= i < |d1| ==> IsDigit(d1[i])
    requires forall i :: 0 <= i < |d2| ==> IsDigit(d2[i])
    requires sep != [] && !IsDigit(sep[0]) && d1 + sep + r1 == d2 + sep + r2
    ensures d1 == d2 && r1 == r2
  {
    var x := d1 + sep + r1;
    assert forall i :: 0 <= i < |d1| ==> x[i] == d1[i];
    assert forall i :: 0 <= i < |d2| ==> x[i] == d2[i];
    assert x[|d1|] == sep[0];
    assert x[|d2|] == sep[0];
    assert |d1| == |d2|;
    assert d1 == x[..|d1|] == d2;
    assert r1 == x[|d1| + |sep|..] == r2;
  }

  /** `NatToDecimal` is one-to-one. */
  lemma DecimalInjective(a: nat, b: nat)
    requires NatToDecimal(a) == NatToDecimal(b)
    ensures a == b
  {
    DecimalRoundTrip(a);
    DecimalRoundTrip(b);
  }

  /** Different uptimes are written differently. */
  lemma FormatUptimeInjective(a: nat, b: nat)
    requires FormatUptime(a) == FormatUptime(b)
    ensures a == b
  {
    var p, q := UptimeParts(a), UptimeParts(b);
    var ha, ma, sa := NatToDecimal(p.0), NatToDecimal(p.1), NatToDecimal(p.2);
    var hb, mb, sb := NatToDecimal(q.0), NatToDecimal(q.1), NatToDecimal(q.2);
    assert FormatUptime(a) == ha + "h " + (ma + "m " + (sa + "s"));
    assert FormatUptime(b) == hb + "h " + (mb + "m " + (sb + "s"));
    SplitAfterDigits(ha, hb, "h ", ma + "m " + (sa + "s"), mb + "m " + (sb + "s"));
    SplitAfterDigits(ma, mb, "m ", sa + "s", sb + "s");
    SplitAfterDigits(sa, sb, "s", [], []);
    DecimalInjective(p.0, q.0);
    DecimalInjective(p.1, q.1);
    DecimalInjective(p.2, q.2);
    UptimePartsUnique(a, q.0, q.1, q.2);
  }

  /* ---------------------------- DataURL size ------------------------------ */

  const Base64Marker := "base64,"

  /**
   * `approxBytesFromDataURL(dataUrl)`: three quarters, rounded down, of the number of
   * characters after the first `base64,`; 0 when there is none.
   */
  function ApproxBytesFromDataURL(dataUrl: string): (n: nat)
    ensures IndexOfSeq(dataUrl, Base64Marker).None? ==> n == 0
    ensures IndexOfSeq(dataUrl, Base64Marker).Some? ==>
              var len := |dataUrl| - IndexOfSeq(dataUrl, Base64Marker).value - |Base64Marker|;
              4 * n <= 3 * len < 4 * n + 4 && n <= len
    ensures 4 * n <= 3 * |dataUrl|
  {
    match IndexOfSeq(dataUrl, Base64Marker)
    case None => 0
    case Some(i) => (3 * (|dataUrl| - i - |Base64Marker|)) / 4
  }

  /** Base64 text of `4k` characters after the marker is counted as exactly `3k` bytes. */
  lemma ApproxBytesExact(dataUrl: string, k: nat)
    requires IndexOfSeq(dataUrl, Base64Marker).Some?
    requires |dataUrl| - IndexOfSeq(dataUrl, Base64Marker).value - |Base64Marker| == 4 * k
    ensures ApproxBytesFromDataURL(dataUrl) == 3 * k
  {
    var n := ApproxBytesFromDataURL(dataUrl);
    assert 4 * n <= 12 * k < 4 * n + 4;
  }

  /* ------------------------------ Numbers --------------------------------- */

  /** The outcome of `Number(v)`, restricted to integers. */
  datatype JsNumber = NaN | Finite(n: int)

  /**
   * `Number(v)` for a property value (`None`: undefined). Reading a number out of a text
   * is the parameter `parse`; an array is read through its text, as JavaScript does.
   */
  function ToNumber(v: Option<Value>, parse: string -> JsNumber): JsNumber
  {
    if v.None? then NaN
    else
      match v.value
      case Null => Finite(0)
      case Bool(b) => Finite(if b then 1 else 0)
      case Num(n) => Finite(n)
      case Str(s) => parse(s)
      case Arr(_) => parse(ToText(v.value))
      case Obj(_) => NaN
  }

  /**
   * `Number(x) || d`: the number when it is neither NaN nor 0, else `d`. The result is the
   * number read or the default, and it is 0 only when the default is.
   */
  function NumberOr(x: JsNumber, d: int): (r: int)
    ensures r == d || (x.Finite? && r == x.n)
    ensures r != 0 || r == d
  {
    if x.Finite? && x.n != 0 then x.n else d
  }

  /* ------------------------------- Media ---------------------------------- */

  const MaxBytes := 10 * 1024 * 1024
  const MaxMime := 100
  const MaxFileName := 120

  /** `/^data:image\//i` and `/^data:video\//i`. */
  predicate IsDataMedia(s: string)
  {
    StartsWithCI(s, "data:image/") || StartsWithCI(s, "data:video/")
  }

  /** The media type test `type === 'image' || type === 'video'`. */
  predicate IsMediaType(t: Option<Value>)
  {
    t == Some(Str("image")) || t == Some(Str("video"))
  }

  /**
   * The acceptance test of the DataURL branch: `dataUrl` a string, `type` "image" or
   * "video" (not necessarily agreeing with the DataURL's own type), the DataURL of an image
   * or a video, and between 1 byte and 10 MiB.
   */
  predicate DataAccepted(media: map<string, Value>)
  {
    "dataUrl" in media && media["dataUrl"].Str? && IsMediaType(Get(media, "type"))
    && IsDataMedia(media["dataUrl"].s)
    && 0 < ApproxBytesFromDataURL(media["dataUrl"].s) <= MaxBytes
  }

  /**
   * The DataURL branch. The accepted media record keeps the type and the DataURL, cuts
   * `mime` to 100 and `name` to 120 characters, and gives as size the declared one when
   * it reads as a nonzero number, else the estimate.
   */
  function DataMedia(media: map<string, Value>, parse: string -> JsNumber): (r: Option<Value>)
    ensures r.Some? <==> DataAccepted(media)
    ensures r.Some? ==> r.value.Obj? && r.value.fields.Keys == {"type", "dataUrl", "mime", "name", "size"}
                        && r.value.fields["type"] == media["type"]
                        && r.value.fields["dataUrl"] == media["dataUrl"]
                        && r.value.fields["mime"].Str? && |r.value.fields["mime"].s| <= MaxMime
                        && r.value.fields["name"].Str? && |r.value.fields["name"].s| <= MaxFileName
    ensures r.Some? ==> var bytes := ApproxBytesFromDataURL(media["dataUrl"].s);
                        var declared := ToNumber(Get(media, "size"), parse);
                        r.value.fields["size"].Num?
                        && (declared.Finite? && declared.n != 0 ==> r.value.fields["size"].n == declared.n)
                        && (!(declared.Finite? && declared.n != 0) ==> r.value.fields["size"].n == bytes)
  {
    if DataAccepted(media) then
      var bytes := ApproxBytesFromDataURL(media["dataUrl"].s);
      Some(Obj(map[
        "type" := media["type"],
        "dataUrl" := media["dataUrl"],
        "mime" := Str(Prefix(ToText(Or(Get(media, "mime"), Str(""))), MaxMime)),
        "name" := Str(Prefix(ToText(Or(Get(media, "name"), Str(""))), MaxFileName)),
        "size" := Num(NumberOr(ToNumber(Get(media, "size"), parse), bytes))]))
    else None
  }

  /** `url || original.media.link`. */
  function LinkValue(media: map<string, Value>): Value
  {
    Or(Get(media, "url"), if "link" in media then media["link"] else Null)
  }

  /** `String(url || original.media.link)`. */
  function MediaLink(media: map<string, Value>): string
  {
    ToText(LinkValue(media))
  }

  /** `url || original.media.link` is truthy. */
  predicate HasLink(media: map<string, Value>)
  {
    ("url" in media && Truthy(media["url"])) || ("link" in media && Truthy(media["link"]))
  }

  /**
   * The URL branch: a truthy `url` or `link` whose text `isValidMediaURL` accepts becomes
   * `{ type: type || 'url', url: link }`.
   */
  function UrlMedia(media: map<string, Value>): (r: Option<Value>)
    ensures r.Some? <==> HasLink(media) && IsValidMediaURL(MediaLink(media))
    ensures r.Some? ==> r.value.Obj? && r.value.fields.Keys == {"type", "url"}
                        && r.value.fields["url"] == Str(MediaLink(media))
  {
    if HasLink(media) && IsValidMediaURL(MediaLink(media)) then
      Some(Obj(map["type" := Or(Get(media, "type"), Str("url")), "url" := Str(MediaLink(media))]))
    else None
  }

  /**
   * The accepted record's `mime`: the given one's text cut to 100 characters when it is
   * truthy (a non-empty string cut as it is), empty when it is missing or falsy.
   */
  lemma DataMediaMime(media: map<string, Value>, parse: string -> JsNumber)
    requires DataAccepted(media)
    ensures var mime := DataMedia(media, parse).value.fields["mime"];
            ("mime" in media && Truthy(media["mime"]) ==> mime == Str(Prefix(ToText(media["mime"]), MaxMime)))
            && ("mime" in media && media["mime"].Str? && media["mime"].s != "" ==>
                  mime == Str(Prefix(media["mime"].s, MaxMime)))
            && (!("mime" in media && Truthy(media["mime"])) ==> mime == Str(""))
  {
    assert ToText(Str("")) == "";
  }

  /**
   * The accepted record's `name`: the given one's text cut to 120 characters when it is
   * truthy (a non-empty string cut as it is), empty when it is missing or falsy.
   */
  lemma DataMediaName(media: map<string, Value>, parse: string -> JsNumber)
    requires DataAccepted(media)
    ensures var name := DataMedia(media, parse).value.fields["name"];
            ("name" in media && Truthy(media["name"]) ==> name == Str(Prefix(ToText(media["name"]), MaxFileName)))
            && ("name" in media && media["name"].Str? && media["name"].s != "" ==>
                  name == Str(Prefix(media["name"].s, MaxFileName)))
            && (!("name" in media && Truthy(media["name"])) ==> name == Str(""))
  {
    assert ToText(Str("")) == "";
  }

  /** The URL record's `type`: the given type when it is truthy, else "url". */
  lemma UrlMediaType(media: map<string, Value>)
    requires UrlMedia(media).Some?
    ensures var t := UrlMedia(media).value.fields["type"];
            ("type" in media && Truthy(media["type"]) ==> t == media["type"])
            && (!("type" in media && Truthy(media["type"])) ==> t == Str("url"))
  {
  }

  /**
   * `payload.media`: only for a truthy object or array under `media`; the DataURL branch
   * first, the URL branch when it did not set the media. (An array has none of the
   * properties read, so it never yields media.)
   */
  function Media(props: map<string, Value>, parse: string -> JsNumber): (r: Option<Value>)
    ensures r.Some? ==> "media" in props && props["media"].Obj?
    ensures r.Some? ==> r == DataMedia(props["media"].fields, parse) || r == UrlMedia(props["media"].fields)
    ensures "media" in props && props["media"].Obj? ==>
              (DataMedia(props["media"].fields, parse).Some? ==> r == DataMedia(props["media"].fields, parse))
              && (DataMedia(props["media"].fields, parse).None? ==> r == UrlMedia(props["media"].fields))
  {
    var given := Get(props, "media");
    if given.Some? && (given.value.Obj? || given.value.Arr?) then
      var media := PropertiesOf(given.value);
      var data := DataMedia(media, parse);
      if data.Some? then data else UrlMedia(media)
    else None
  }

  /* ------------------------------- Handler -------------------------------- */

  const MaxName := 50
  const MaxText := 2000
  const TsKey := "ts"
  const MediaKey := "media"

  /* ----------------------------- Exceptions ------------------------------- */

  /**
   * A conversion of the media branches throws: `String(mime || '')`, `String(name || '')`
   * or `Number(size)` of an accepted DataURL, or, when the DataURL branch set no media,
   * `String(url || original.media.link)` of a truthy link.
   */
  predicate MediaThrows(props: map<string, Value>)
  {
    var given := Get(props, "media");
    if given.Some? && (given.value.Obj? || given.value.Arr?) then
      var media := PropertiesOf(given.value);
      if DataAccepted(media) then
        ToTextThrows(Or(Get(media, "mime"), Str(""))) || ToTextThrows(Or(Get(media, "name"), Str("")))
        || ("size" in media && ToTextThrows(media["size"]))
      else HasLink(media) && ToTextThrows(LinkValue(media))
    else false
  }

  /**
   * One of the first three conversions throws a `TypeError`: `String` of the name or of
   * the text, or `Number` of `ts`. These come before the injection test; the media
   * conversions come after it.
   */
  predicate FieldsThrow(original: Value)
  {
    var props := PropertiesOf(original);
    ToTextThrows(Or(Get(props, NameKey), Str(Anonymous)))
    || ToTextThrows(Or(Get(props, TextKey), Str("")))
    || (TsKey in props && ToTextThrows(props[TsKey]))
  }

  /**
   * Building the payload throws a `TypeError`: one of the field conversions or a media
   * conversion. (`isScriptInjection(original.mensaje)` converts the text too, but a text
   * that throws is truthy and has already thrown.)
   */
  predicate PayloadThrows(original: Value)
  {
    FieldsThrow(original) || MediaThrows(PropertiesOf(original))
  }

  /* ------------------------------- Payload -------------------------------- */

  /**
   * The payload `{ nombre, mensaje, ts }` (and `media`) built from the parsed message.
   * `sanitizeText` is not part of the library, so the handler's own `sanitize` is
   * `String(t ?? '')`. Where `PayloadThrows(original)` the source stops before the payload
   * is complete; `HandleMessage` then replies with the error record.
   */
  function BuildPayload(original: Value, parse: string -> JsNumber, now: int): (p: map<string, Value>)
    ensures NameKey in p && p[NameKey].Str? && |p[NameKey].s| <= MaxName
    ensures TextKey in p && p[TextKey].Str? && |p[TextKey].s| <= MaxText
    ensures TsKey in p && p[TsKey].Num?
    ensures p.Keys == {NameKey, TextKey, TsKey} + (if Media(PropertiesOf(original), parse).Some? then {MediaKey} else {})
    ensures Media(PropertiesOf(original), parse).Some? ==> p[MediaKey] == Media(PropertiesOf(original), parse).value
  {
    var props := PropertiesOf(original);
    var nombre := Prefix(ToText(Or(Get(props, NameKey), Str(Anonymous))), MaxName);
    var mensaje := Prefix(ToText(Or(Get(props, TextKey), Str(""))), MaxText);
    var ts := NumberOr(ToNumber(Get(props, TsKey), parse), now);
    var base := map[NameKey := Str(nombre), TextKey := Str(mensaje), TsKey := Num(ts)];
    KeysDistinct();
    assert TsKey != NameKey && TsKey != TextKey && MediaKey != NameKey && MediaKey != TextKey && MediaKey != TsKey;
    match Media(props, parse)
    case Some(m) => base[MediaKey := m]
    case None => base
  }

  /** What the handler does with one message. */
  datatype Outcome =
    | Broadcast(record: Value, warned: bool)  // emitted to every client; `warned`: security warning to the sender
    | ReplyToSender(record: Value, warned: bool)  // the error record, emitted to the sender only;
                                                // `warned`: the security warning went out before it

  const ErrorName := "Sistema UNA"
  const ErrorText := "\U{26A0}\U{FE0F} Error " + "procesando " + "mensaje. " + "Mensaje " + "bloqueado " + "por " + "seguridad."

  /**
   * The error record `{ nombre, mensaje, ts }` after `validateMessage`: the name is kept,
   * the text is processed, `ts` is the time given and the colour is black.
   */
  function ErrorReply(now: int): (r: Value)
    ensures r.Obj? && r.fields.Keys == {NameKey, TextKey, TsKey, ColorKey}
    ensures r.fields[NameKey] == Str(ErrorName) && r.fields[TsKey] == Num(now)
    ensures r.fields[ColorKey] == Str(DefaultColor)
    ensures r.fields[TextKey] == Str(ProcessMessage(Str(ErrorText)))
  {
    var e := map[NameKey := Str(ErrorName), TextKey := Str(ErrorText), TsKey := Num(now)];
    var r := ValidateMessage(Some(Obj(e)));
    StringRecord(e, ErrorName, ErrorText, Num(now), r);
    ErrorNameKept(ErrorName);
    r
  }

  /** `validateMessage` of a record `{ nombre, mensaje, ts }` with string name and text. */
  lemma StringRecord(e: map<string, Value>, n: string, t: string, ts: Value, r: Value)
    requires e == map[NameKey := Str(n), TextKey := Str(t), TsKey := ts]
    requires r == ValidateMessage(Some(Obj(e)))
    ensures r.Obj? && r.fields.Keys == {NameKey, TextKey, TsKey, ColorKey}
    ensures r.fields[NameKey] == Str(SanitizeInput(Str(n))) && r.fields[TsKey] == ts
    ensures r.fields[ColorKey] == Str(DefaultColor)
    ensures r.fields[TextKey] == Str(ProcessMessage(Str(t)))
  {
    StringPayloadShape(e, n, t, ts);
    ValidateRecord(e);
    ValidatedStrings(e, n, t, ts, Validated(e));
  }

  lemma StringPayloadShape(e: map<string, Value>, n: string, t: string, ts: Value)
    requires e == map[NameKey := Str(n), TextKey := Str(t), TsKey := ts]
    ensures e.Keys == {NameKey, TextKey, TsKey} && ColorKey !in e
    ensures e[NameKey] == Str(n) && e[TextKey] == Str(t) && e[TsKey] == ts
  {
    KeysDistinct();
    assert TsKey != NameKey && TsKey != TextKey && TsKey != ColorKey;
  }

  /** The three writes on a record `{ nombre, mensaje, ts }` with string name and text. */
  lemma ValidatedStrings(e: map<string, Value>, n: string, t: string, ts: Value, v: map<string, Value>)
    requires e.Keys == {NameKey, TextKey, TsKey} && ColorKey !in e
    requires e[NameKey] == Str(n) && e[TextKey] == Str(t) && e[TsKey] == ts
    requires v == Validated(e)
    ensures v.Keys == {NameKey, TextKey, TsKey, ColorKey}
    ensures v[NameKey] == Str(SanitizeInput(Str(n))) && v[TsKey] == ts
    ensures v[ColorKey] == Str(DefaultColor)
    ensures v[TextKey] == Str(ProcessMessage(Str(t)))
  {
    KeysDistinct();
    assert TsKey != NameKey && TsKey != TextKey;
    ValidatedKeepsOthers(e);
    ThreeKeysPlusColor(e.Keys, v.Keys);
    StringNameSanitized(e);
    StringTextProcessed(e);
  }

  lemma ThreeKeysPlusColor(a: set<string>, b: set<string>)
    requires a == {NameKey, TextKey, TsKey} && b == a + {NameKey, TextKey, ColorKey}
    ensures b == {NameKey, TextKey, TsKey, ColorKey}
  {
  }

  /** "Sistema UNA" passes `sanitizeInput` unchanged. */
  lemma ErrorNameKept(n: string)
    requires n == ErrorName
    ensures SanitizeInput(Str(n)) == n
  {
    ErrorNameChars(n);
    CleanKeeps(n);
  }

  lemma ErrorNameChars(n: string)
    requires n == ErrorName
    ensures Avoids(n, '<') && Avoids(n, 'j') && Avoids(n, 'o')
    ensures |n| <= MaxLength && !IsWs(n[0]) && !IsWs(n[|n| - 1])
  {
  }


  /**
   * The `Evento-Mensaje-Server` handler for one message, given the outcome of
   * `JSON.parse(msg || '{}')` (`None` when it threw), the text-to-number reading of
   * `Number`, and `Date.now()`. Parsing failure, `null` (whose property reads throw) and a
   * conversion that throws while the payload is built end in the error reply; everything
   * else is broadcast after `validateMessage`. The security warning is sent once the name,
   * text and `ts` conversions have passed and the original text shows a signature, also
   * when a media conversion then throws.
   */
  function HandleMessage(parsed: Option<Value>, parse: string -> JsNumber, now: int): (o: Outcome)
    ensures (parsed.None? || parsed == Some(Null) || PayloadThrows(parsed.value)) <==> o.ReplyToSender?
    ensures o.ReplyToSender? ==> o.record == ErrorReply(now)
    ensures o.Broadcast? ==> o.warned == IsScriptInjection(FieldText(Get(PropertiesOf(parsed.value), TextKey)))
    ensures o.ReplyToSender? ==>
              (o.warned <==> parsed.Some? && parsed != Some(Null) && !FieldsThrow(parsed.value)
                             && MediaThrows(PropertiesOf(parsed.value))
                             && IsScriptInjection(FieldText(Get(PropertiesOf(parsed.value), TextKey))))
  {
    if parsed.None? || parsed == Some(Null) || FieldsThrow(parsed.value) then ReplyToSender(ErrorReply(now), false)
    else
      var original := parsed.value;
      var warned := IsScriptInjection(FieldText(Get(PropertiesOf(original), TextKey)));
      if MediaThrows(PropertiesOf(original)) then ReplyToSender(ErrorReply(now), warned)
      else Broadcast(ValidateMessage(Some(Obj(BuildPayload(original, parse, now)))), warned)
  }

  /* ------------------------------- Properties ----------------------------- */

  /**
   * What `validateMessage` makes of a payload without a colour: the same fields plus
   * `color`, which is black; the name is the validated name (1 to 50 characters, no tag)
   * and the text the processed text.
   */
  lemma ValidatedPayload(p: map<string, Value>)
    requires ColorKey !in p
    ensures var r := ValidateMessage(Some(Obj(p)));
            r.Obj? && r.fields.Keys == p.Keys + {NameKey, TextKey, ColorKey}
            && r.fields[ColorKey] == Str(DefaultColor)
            && (forall k :: k in p && k != NameKey && k != TextKey ==> r.fields[k] == p[k])
            && r.fields[NameKey] == Str(ValidName(p)) && r.fields[TextKey] == Str(ValidText(p))
            && 0 < |ValidName(p)| <= MaxLength && NoTag(ValidName(p))
  {
    ValidateRecord(p);
    ValidatedKeepsOthers(p);
  }

  /**
   * The payload's name: the incoming name's text cut to 50 characters when it is truthy
   * (for a string, the string itself cut), "Anónimo" when it is missing or falsy.
   */
  lemma PayloadName(original: Value, parse: string -> JsNumber, now: int)
    ensures var props := PropertiesOf(original);
            var name := BuildPayload(original, parse, now)[NameKey];
            (NameKey in props && Truthy(props[NameKey]) ==> name == Str(Prefix(ToText(props[NameKey]), MaxName)))
            && (NameKey in props && props[NameKey].Str? && props[NameKey].s != "" ==>
                  name == Str(Prefix(props[NameKey].s, MaxName)))
            && (!(NameKey in props && Truthy(props[NameKey])) ==> name == Str(Anonymous))
  {
    AnonymousChars(Anonymous);
  }

  /**
   * The payload's text: the incoming text's text cut to 2000 characters when it is truthy
   * (for a string, the string itself cut), empty when it is missing or falsy.
   */
  lemma PayloadText(original: Value, parse: string -> JsNumber, now: int)
    ensures var props := PropertiesOf(original);
            var text := BuildPayload(original, parse, now)[TextKey];
            (TextKey in props && Truthy(props[TextKey]) ==> text == Str(Prefix(ToText(props[TextKey]), MaxText)))
            && (TextKey in props && props[TextKey].Str? && props[TextKey].s != "" ==>
                  text == Str(Prefix(props[TextKey].s, MaxText)))
            && (!(TextKey in props && Truthy(props[TextKey])) ==> text == Str(""))
  {
  }

  /** The payload's `ts`: the incoming `ts` read as a number when that is neither NaN nor 0, else `now`. */
  lemma PayloadTs(original: Value, parse: string -> JsNumber, now: int)
    ensures var props := PropertiesOf(original);
            var x := ToNumber(Get(props, TsKey), parse);
            var ts := BuildPayload(original, parse, now)[TsKey];
            (x.Finite? && x.n != 0 ==> ts == Num(x.n))
            && (!(x.Finite? && x.n != 0) ==> ts == Num(now))
            && (TsKey in props && props[TsKey].Num? && props[TsKey].n != 0 ==> ts == props[TsKey])
            && (TsKey !in props ==> ts == Num(now))
  {
  }

  /**
   * A broadcast record has exactly the fields `nombre`, `mensaje`, `ts`, `color` and, when
   * media was accepted, `media`; the name is the payload's name sanitised (1 to 50
   * characters, no tag), the text is the payload's text processed, the colour is always
   * black (the payload has none), and `ts` and `media` are those of the payload.
   */
  lemma BroadcastRecord(parsed: Option<Value>, parse: string -> JsNumber, now: int)
    requires parsed.Some? && parsed != Some(Null) && !PayloadThrows(parsed.value)
    ensures var o := HandleMessage(parsed, parse, now);
            var p := BuildPayload(parsed.value, parse, now);
            o.Broadcast? && o.record.Obj?
            && o.record.fields.Keys == p.Keys + {ColorKey}
            && o.record.fields[ColorKey] == Str(DefaultColor)
            && o.record.fields[TsKey] == p[TsKey]
            && (MediaKey in p ==> o.record.fields[MediaKey] == p[MediaKey])
            && o.record.fields[NameKey] == Str(SanitizeInput(p[NameKey]))
            && o.record.fields[TextKey] == Str(ProcessMessage(p[TextKey]))
            && 0 < |o.record.fields[NameKey].s| <= MaxLength && NoTag(o.record.fields[NameKey].s)
  {
    var p := BuildPayload(parsed.value, parse, now);
    var o := HandleMessage(parsed, parse, now);
    assert o.Broadcast? && o.record == ValidateMessage(Some(Obj(p)));
    PayloadHasNoColor(parsed.value, parse, now);
    ValidatedFields(p, o.record);
  }

  /** The payload carries no `color`. */
  lemma PayloadHasNoColor(original: Value, parse: string -> JsNumber, now: int)
    ensures ColorKey !in BuildPayload(original, parse, now)
  {
    assert |ColorKey| == 5 && |TsKey| == 2 && |MediaKey| == 5 && ColorKey[0] != MediaKey[0];
  }

  /** `validateMessage` on a record of two strings, a `ts` and no colour. */
  lemma ValidatedFields(p: map<string, Value>, r: Value)
    requires NameKey in p && p[NameKey].Str? && TextKey in p && p[TextKey].Str? && TsKey in p && ColorKey !in p
    requires r == ValidateMessage(Some(Obj(p)))
    ensures r.Obj? && r.fields.Keys == p.Keys + {ColorKey}
            && r.fields[ColorKey] == Str(DefaultColor)
            && r.fields[TsKey] == p[TsKey]
            && (MediaKey in p ==> r.fields[MediaKey] == p[MediaKey])
            && r.fields[NameKey] == Str(SanitizeInput(p[NameKey]))
            && r.fields[TextKey] == Str(ProcessMessage(p[TextKey]))
            && 0 < |r.fields[NameKey].s| <= MaxLength && NoTag(r.fields[NameKey].s)
  {
    ValidatedPayload(p);
    StringNameSanitized(p);
    StringTextProcessed(p);
    PayloadRecord(p, r);
  }

  /**
   * What reaches every client as `mensaje`: the sanitised payload text, which holds no tag,
   * unless that text is a media URL, in which case its markup.
   */
  lemma BroadcastText(parsed: Option<Value>, parse: string -> JsNumber, now: int)
    requires parsed.Some? && parsed != Some(Null) && !PayloadThrows(parsed.value)
    ensures var o := HandleMessage(parsed, parse, now);
            var u := SanitizeInput(BuildPayload(parsed.value, parse, now)[TextKey]);
            var t := o.record.fields[TextKey];
            o.Broadcast? && t.Str?
            && ((t.s == u && NoTag(u)) || (IsValidMediaURL(u) && t.s == CreateMediaHTML(u)))
  {
    var p := BuildPayload(parsed.value, parse, now);
    BroadcastRecord(parsed, parse, now);
    ProcessMessageShape(p[TextKey]);
  }

  /**
   * A text showing a signature, with an accepted DataURL whose `mime` is a record with its
   * own `toString`: the warning goes out, then the error reply.
   */
  lemma ThrowingMimeWarns(m: map<string, Value>, media: map<string, Value>, c: map<string, Value>,
                          t: string, parse: string -> JsNumber, now: int)
    requires m == map[TextKey := Str(t), MediaKey := Obj(media)]
    requires DataAccepted(media) && "mime" in media && media["mime"] == Obj(c) && "toString" in c
    requires IsScriptInjection(t)
    ensures HandleMessage(Some(Obj(m)), parse, now) == ReplyToSender(ErrorReply(now), true)
  {
    ThrowingMimeFacts(m, media, c, t);
    WarnedReply(Obj(m), parse, now);
  }

  /** Such a message passes the field conversions and throws in the media branch. */
  lemma ThrowingMimeFacts(m: map<string, Value>, media: map<string, Value>, c: map<string, Value>, t: string)
    requires m == map[TextKey := Str(t), MediaKey := Obj(media)]
    requires DataAccepted(media) && "mime" in media && media["mime"] == Obj(c) && "toString" in c
    ensures !FieldsThrow(Obj(m)) && MediaThrows(m) && FieldText(Get(m, TextKey)) == t
  {
    assert TextKey != MediaKey by { assert TextKey[2] != MediaKey[2]; }
    assert NameKey !in m && TsKey !in m by { assert |NameKey| == 6 && |TsKey| == 2 && |TextKey| == 7 && |MediaKey| == 5; }
  }

  /** Past the field conversions, a media conversion that throws after a signature was seen. */
  lemma WarnedReply(original: Value, parse: string -> JsNumber, now: int)
    requires original != Null && !FieldsThrow(original) && MediaThrows(PropertiesOf(original))
    requires IsScriptInjection(FieldText(Get(PropertiesOf(original), TextKey)))
    ensures HandleMessage(Some(original), parse, now) == ReplyToSender(ErrorReply(now), true)
  {
  }

  /** A name given as a record with its own `toString` makes the handler reply with the error record. */
  lemma ThrowingNameReplies(m: map<string, Value>, c: map<string, Value>, parse: string -> JsNumber, now: int)
    requires NameKey in m && m[NameKey] == Obj(c) && "toString" in c
    ensures HandleMessage(Some(Obj(m)), parse, now) == ReplyToSender(ErrorReply(now), false)
  {
    NameThrows(m, c);
    UnwarnedReply(Obj(m), parse, now);
  }

  /** Such a name's conversion throws. */
  lemma NameThrows(m: map<string, Value>, c: map<string, Value>)
    requires NameKey in m && m[NameKey] == Obj(c) && "toString" in c
    ensures FieldsThrow(Obj(m))
  {
    assert ToTextThrows(Or(Get(m, NameKey), Str(Anonymous)));
  }

  /** A field conversion that throws gives the error reply before any warning. */
  lemma UnwarnedReply(original: Value, parse: string -> JsNumber, now: int)
    requires FieldsThrow(original)
    ensures HandleMessage(Some(original), parse, now) == ReplyToSender(ErrorReply(now), false)
  {
  }

  /** A validated payload with a name, a text and a timestamp: only `color` is new. */
  lemma PayloadRecord(p: map<string, Value>, r: Value)
    requires NameKey in p && TextKey in p && TsKey in p
    requires r.Obj? && r.fields.Keys == p.Keys + {NameKey, TextKey, ColorKey}
    requires forall k :: k in p && k != NameKey && k != TextKey ==> r.fields[k] == p[k]
    ensures r.fields.Keys == p.Keys + {ColorKey}
    ensures r.fields[TsKey] == p[TsKey]
    ensures MediaKey in p ==> r.fields[MediaKey] == p[MediaKey]
  {
    KeysDistinct();
    assert TsKey != NameKey && TsKey != TextKey;
    assert MediaKey != NameKey && MediaKey != TextKey;
  }
}
