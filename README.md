# UNA chat message library, modelled in Dafny

This project models the message-safety core of the UNA chat server (Lab 5). That core is
the library `libs/unalib.js` and the pure parts of `server.js`.

- The library cleans what users send:
  - `sanitizeInput` runs four global deletions (script blocks, any tag, `javascript:`,
    `on…=` handlers), then trims, cuts to 50 characters and falls back to "Anónimo".
  - `processMessage` sanitises a text and replaces a media URL by its markup.
  - `isValidMediaURL` checks the http(s) shape, then tries three pattern tables:
    extensions, hosts, path segments.
  - `createMediaHTML` and `extractYouTubeId` build `<img>`, `<video>`, YouTube `<iframe>`
    or `<a>` markup.
  - `validateColor` keeps `#RRGGBB` and gives black otherwise.
  - `isScriptInjection` looks for six attack signatures.
  - `validateMessage` rewrites the three fields and has a fixed fallback record.
- From the server, the model covers:
  - `formatUptime` for whole seconds;
  - `approxBytesFromDataURL`;
  - what the `Evento-Mensaje-Server` handler makes of one message: the payload, the
    DataURL and URL media rules, the security warning, the broadcast record and the error
    reply.

All of it is pure, so every operation is a Dafny function.
- Regular expressions are hand-written scanners. Each one says how long the match at a
  position is.
- Global `replace` is `Sanitizer.DeleteAll`. It deletes the leftmost match, resumes right
  after it and never rescans what the deletion joined.
- The `i` flag is ASCII case folding, `.` excludes line terminators and `\w` is
  `[A-Za-z0-9_]`.
- Strings are sequences of Unicode scalar values. They stand for JavaScript texts made only
  of Basic Multilingual Plane characters, where code units and characters coincide. The one
  exception is the 🔗 sign of the link markup, which is a single character here.
- `String(v)` throws a `TypeError` on an object with its own `toString` key, and on an
  array holding such a value (`Json.ToTextThrows`). The model follows that exception to
  its `catch`: `validateMessage` gives the fallback record, the handler the error reply.

Files and modules:
- `text.dfy` (`Text`): character classes, `trim`, `substring`, `indexOf`, decimal numerals.
- `json.dfy` (`Json`): parsed values, truthiness, property reads, `String(v)` and when it throws.
- `patterns.dfy` (`Patterns`): the sanitiser's and detector's patterns.
- `sanitizer.dfy` (`Sanitizer`): `sanitizeInput`.
- `media_url.dfy` (`MediaUrl`): `isValidMediaURL`.
- `youtube.dfy` (`YouTube`): `extractYouTubeId`.
- `media_html.dfy` (`MediaHtml`): `createMediaHTML`.
- `color.dfy` (`Color`): `validateColor`.
- `injection.dfy` (`Injection`): `isScriptInjection`.
- `message.dfy` (`Message`): `processMessage` and `validateMessage`.
- `server.dfy` (`Server`): the server's pure parts.
- `demo.dfy` (`Demo`): the cases of `demo/xss-test.js`, worked out on the model.
- `findings.dfy` (`Findings`): the single-pass bypass and a corrected sanitiser.

Behaviour of the code worth knowing:
- **Message length.** Message text goes through `sanitizeInput` (libs/unalib.js:36).
  So it is cut to 50 characters, not 2000, and an empty text becomes "Anónimo".
- **Non-record JSON.** A number, string, boolean or array is returned unchanged by
  `validateMessage`, because writes to its properties are lost. Such a result has no
  colour field at all.
- **Array colours.** A colour is kept when its *text* is a hex colour. So a one-element
  array `["#ABCDEF"]` survives as an array.
- **Surviving signatures.** The sanitiser's output can still contain `javascript:`; see
  Findings.
- **Fallback record.** It is the Spanish one the code writes: "Sistema",
  "Mensaje inválido", "#FF0000".

## Model

| member | source | states |
|---|---|---|
| Text.Trim | libs/unalib.js:29 | the result is the slice of the input between its leading and trailing whitespace runs, and neither starts nor ends with whitespace |
| Text.TrimNoEdges | libs/unalib.js:29 | a text that neither starts nor ends with whitespace is its own trim |
| Text.Prefix | libs/unalib.js:30 | `substring(0, n)` has the length of s or n, whichever is smaller, and is a prefix of s |
| Text.IndexOf | libs/unalib.js:26 | the index found holds the character and no earlier position does; none exactly when the character is absent |
| Text.IndexOfFirst | libs/unalib.js:26 | the first occurrence of a character is the index `indexOf` returns |
| Text.IndexOfSeq | server.js:30 | `indexOf('base64,')` is the first position where the marker occurs; none when it occurs nowhere |
| Text.WordRun | libs/unalib.js:28 | the run of `\w` characters is maximal: every character in it is a word character and the next one is not |
| Text.LineEnd | libs/unalib.js:25 | `.*` can reach up to the first line terminator and no further |
| Text.NatToDecimal | server.js:24 | the numeral is non-empty, all digits, with no leading zero |
| Text.DecimalRoundTrip | server.js:24 | reading the numeral back gives the number |
| Text.IntToDecimal | libs/unalib.js:160 | `String(n)` is digits with a leading `-` exactly for negative n (JavaScript's form below 10^21; see Left out) |
| Json.Or | libs/unalib.js:6-8 | `a \|\| d` is one of its two operands, and it is truthy unless it is the default |
| Patterns.OpenTagLen | libs/unalib.js:166 | `<name[^>]*>` matches `<name` in any case up to the first `>`; no match means no opening or no `>` after it |
| Patterns.LazyClose | libs/unalib.js:25 | `.*?<\/script>` stops at the first `</script>` and only if no line break comes before it |
| Patterns.ScriptBlockLen | libs/unalib.js:25 | a script block is an opening tag followed by the lazy run to `</script>`; otherwise no match |
| Patterns.LazyCloseAfter | libs/unalib.js:25 | after a same-line body without `<`, the lazy run stops at the `</script>` right after the body |
| Patterns.TagLen | libs/unalib.js:26 | `<[^>]*>` is a `<` up to the first `>` after it; no match exactly when there is no `<` or no later `>` |
| Patterns.ProtocolLen | libs/unalib.js:27 | `javascript:` matches exactly when the text starts with it in any case, and the match is 11 long |
| Patterns.HandlerLen | libs/unalib.js:28 | `on\w+=` is `on`, a non-empty word run and `=`; no match otherwise |
| Patterns.HandlerLenExact | libs/unalib.js:28 | `on`, a run of word characters and `=` right after it is matched with exactly that length |
| Sanitizer.Strip | libs/unalib.js:24-28 | the four deletions never lengthen the text |
| Sanitizer.Clean | libs/unalib.js:24-30 | the chain gives at most 50 characters and never lengthens the text |
| Sanitizer.CleanSubseq | libs/unalib.js:24-30 | the four deletions, and the whole chain, only remove characters: their outputs are subsequences of the input |
| Sanitizer.MatchLen | libs/unalib.js:25-28 | the match the pass finds at a position lies within the text |
| Sanitizer.DeleteAll | libs/unalib.js:25-28 | a global deletion never lengthens the text |
| Sanitizer.SanitizeInput | libs/unalib.js:21-31 | a non-string gives "Anónimo"; for a string, the cleaned text or "Anónimo" when empty; always 1 to 50 characters |
| Sanitizer.DeleteAllSubseq | libs/unalib.js:25-28 | a deletion pass only removes characters: its output is a subsequence of its input |
| Sanitizer.DeleteAllSkip | libs/unalib.js:25-28 | a stretch where no match starts is copied to the output unchanged |
| Sanitizer.DeleteAllKeep | libs/unalib.js:25-28 | proof helper: with no match at the start, the first character is kept and scanning goes on after it |
| Sanitizer.DeleteAllAtMatch | libs/unalib.js:25-28 | proof helper: a match at the start is deleted and scanning resumes right after it |
| Sanitizer.DeleteAllShrinks | libs/unalib.js:25-28 | a match anywhere makes the output strictly shorter |
| Sanitizer.DeleteAllUnchanged | libs/unalib.js:25-28 | a pass leaves the text unchanged if and only if its pattern matches nowhere in it |
| Sanitizer.NoTagIndices | libs/unalib.js:26 | "no tag" means: no `<` at one position and `>` at a later one |
| Sanitizer.SubseqNoTag | libs/unalib.js:27-30 | deleting characters cannot create a tag |
| Sanitizer.AnyTagLeavesNoTag | libs/unalib.js:26 | after the generic-tag pass no `<` is followed, anywhere later, by `>` |
| Sanitizer.CleanAfterTags | libs/unalib.js:27-30 | the rest of the chain (two deletions, trim, cut) keeps a subsequence of the tag pass's output |
| Sanitizer.SanitizeInputNoTag | libs/unalib.js:21-31 | the output has no tag, and it is "Anónimo" or a subsequence of the input string |
| Sanitizer.AnonymousNoMatch | libs/unalib.js:30 | no pass finds anything in "Anónimo" |
| Sanitizer.AnonymousIsClean | libs/unalib.js:30 | the fallback label passes through the chain unchanged |
| Sanitizer.MatchStartsWithLead | libs/unalib.js:25-28 | every match of a pass starts with that pass's leading character (`<`, `j` or `o`, in any case) |
| Sanitizer.AvoidsNoMatch | libs/unalib.js:25-28 | a text that never contains a pass's leading character holds no match of it |
| Sanitizer.ScriptFreeNoMatch | libs/unalib.js:25 | a text where no `<` is followed by `s` holds no script block |
| Sanitizer.TagThenRest | libs/unalib.js:26 | `<inner>` with no `>` inside is deleted whole and the pass continues after it |
| Sanitizer.ProtocolThenRest | libs/unalib.js:27 | a leading `javascript:` is deleted and the pass continues after it |
| Sanitizer.ScriptBlockThenRest | libs/unalib.js:25 | a same-line `<script>` block whose body has no `<` is deleted whole |
| Sanitizer.CleanKeeps | libs/unalib.js:25-30 | a text of at most 50 characters with no `<`, `j` or `o` and no edge space is left unchanged |
| MediaUrl.IsValidMediaURL | libs/unalib.js:46-111 | an accepted url has the http(s) shape, so it starts with `http` and has at least 9 characters; which urls the three tables accept is stated by `ListedLiteralIsMedia` (the plain-literal entries), `GithubImageIsMedia` (the `github.com` entry) and `ExtensionSuffixIsMedia` (the extension table) |
| MediaUrl.UrlShapeFacts | libs/unalib.js:48 | a shape-valid URL starts with `http`, has at least 9 characters and no whitespace except possibly the character after the first host character (never a line break) |
| MediaUrl.HttpsShape | libs/unalib.js:48 | `https://` plus a whitespace-free text of two or more characters whose first one may start a host is shape-valid |
| MediaUrl.ExtensionSuffixIsMedia | libs/unalib.js:52-53 | a shape-valid URL ending in a listed extension, optionally followed by `?query`, is accepted |
| MediaUrl.GithubImageIsMedia | libs/unalib.js:67 | a shape-valid url holding `github.com` followed, on the same line, by `.jpg`, `.png` or `.gif` anywhere later is accepted |
| MediaUrl.ListedLiteralIsMedia | libs/unalib.js:56-110 | a shape-valid URL containing a listed host or path literal (every entry but the `github.com` one), in any case, is accepted |
| YouTube.LastFormAt | libs/unalib.js:154 | the greedy run stops at the last position where the alternative succeeds, and none later; none when it succeeds nowhere |
| YouTube.PathForm | libs/unalib.js:154 | a capture found through `[^\/]+\/.+\/` is a valid 11-character id |
| YouTube.PrefixForm | libs/unalib.js:154 | a capture found through `v/`, `embed/` or `e/` is a valid id |
| YouTube.QueryForm | libs/unalib.js:154 | a capture found through `.*[?&]v=` is a valid id |
| YouTube.MatchAt | libs/unalib.js:154 | a match starting here begins with `youtube.com/` or `youtu.be/` and captures a valid id |
| YouTube.ExtractYouTubeId | libs/unalib.js:153-157 | the result is the capture at the leftmost position where a match starts; it is 11 characters, none of them `"`, `&`, `?`, `/` or whitespace; none when no match starts anywhere |
| YouTube.ExtractNeedsDomain | libs/unalib.js:154 | a found id means the url contains `youtube.com/` or `youtu.be/` |
| YouTube.NoMatchWithoutY | libs/unalib.js:154 | no match starts in a text without `y` |
| YouTube.WatchUrlId | libs/unalib.js:154 | `https://www.youtube.com/watch?v=ID` yields `ID` for every valid id |
| YouTube.WatchTextId | libs/unalib.js:154 | after `youtube.com/`, `watch?v=ID` is matched by the query alternative only |
| YouTube.LeftmostFrom | libs/unalib.js:155 | when no match starts before k and one starts at k, that one is the result |
| MediaHtml.MarkupLonger | libs/unalib.js:113-151 | every markup `createMediaHTML` returns is longer than 50 characters, so it never equals a sanitised text |
| MediaHtml.Classify | libs/unalib.js:128-147 | an embed carries a valid video id |
| MediaHtml.LinkText | libs/unalib.js:150 | the link text is the url when it has at most 50 characters, else its first 50 characters and `...` |
| MediaHtml.MarkupKindInverse | libs/unalib.js:133-150 | the markup's opening element tells which branch produced it, and an embed's markup gives back the video id |
| MediaHtml.ImageMarkupKind | libs/unalib.js:134 | image markup opens with `<img` |
| MediaHtml.VideoMarkupKind | libs/unalib.js:138 | video markup opens with `<video` |
| MediaHtml.EmbedMarkupKind | libs/unalib.js:145 | embed markup opens with `<iframe` and holds the id after the embed address |
| MediaHtml.LinkMarkupKind | libs/unalib.js:150 | link markup opens with none of the other elements |
| MediaHtml.MarkupCarriesUrl | libs/unalib.js:133-150 | image, video and link markup contain the url, link markup also its visible text, and an embed contains the embed address followed by the id |
| MediaHtml.ImageBeforeVideo | libs/unalib.js:133-139 | a url the image test accepts is rendered as `<img`, even if it also has a video extension |
| MediaHtml.EmbedIffId | libs/unalib.js:142-146 | past the image and video tests a url is embedded exactly when an id is extracted: the `includes` tests add nothing |
| MediaHtml.ClassifiedIsValid | libs/unalib.js:113-147 | every shape-valid url rendered as image, video or embed is also accepted by `isValidMediaURL` |
| MediaHtml.ImageUrlIsValid | libs/unalib.js:128-131 | the image test of `createMediaHTML` implies `isValidMediaURL` on shape-valid urls |
| MediaHtml.EmbedIsValid | libs/unalib.js:153-157 | a shape-valid url with an extractable id is accepted by `isValidMediaURL` |
| MediaHtml.LongDomainIsMedia | libs/unalib.js:78 | a shape-valid url containing `youtube.com/` is accepted |
| MediaHtml.ShortDomainIsMedia | libs/unalib.js:79 | a shape-valid url containing `youtu.be/` is accepted |
| Color.ValidateColor | libs/unalib.js:159-162 | the value is kept if and only if its text is `#` and six hex digits; otherwise `#000000`; the result's text always is a hex colour |
| Color.ValidateColorIdempotent | libs/unalib.js:159-162 | validating a validated colour changes nothing |
| Color.ScalarColorIsDefault | libs/unalib.js:160-161 | `null`, booleans, numbers and objects always give `#000000` (an object whose text cannot be taken never reaches this point: see `Message.ThrowingColorFallsBack`) |
| Color.ArrayColorKept | libs/unalib.js:160-161 | a one-element array holding a colour string is returned as the array |
| Injection.SignatureLen | libs/unalib.js:165-172 | a signature's match lies within the text |
| Injection.DetectedAt | libs/unalib.js:164-175 | a signature found at any position makes the detector fire |
| Injection.PassChangeIsDetected | libs/unalib.js:164-175 | whatever the script-block, protocol or handler pass would delete, the detector reports |
| Injection.UndetectedKeepsScriptPass | libs/unalib.js:164-175 | when the detector is silent, the script-block pass changes nothing |
| Injection.NoLtNoTag | libs/unalib.js:26 | a text without `<` holds no tag |
| Injection.UndetectedPlainText | libs/unalib.js:164-175 | a text without `<` that the detector passes is only trimmed and cut by the sanitiser |
| Message.ProcessMessage | libs/unalib.js:33-44 | a non-string gives ""; for a string, the result is the markup of the sanitised text if and only if that text is a media URL, and the sanitised text itself if and only if it is not |
| Message.ValidName | libs/unalib.js:6 | the name is 1 to 50 characters with no tag, and "Anónimo" when missing or falsy |
| Message.ValidText | libs/unalib.js:7 | a missing or falsy text gives "Anónimo", a truthy non-string gives "", a non-empty string is processed |
| Message.ValidColor | libs/unalib.js:8 | the colour's text is a hex colour, and `#000000` when missing or falsy |
| Message.AnonymousNotUrl | libs/unalib.js:30 | "Anónimo" is not a media URL |
| Message.Validated | libs/unalib.js:6-8 | the three fields hold the validated name, text and colour |
| Message.ValidatedKeepsOthers | libs/unalib.js:6-8 | the three writes add exactly the three keys and leave every other field as it was |
| Message.ThreeWrites | libs/unalib.js:6-8 | proof helper: writing three fields keeps every other field |
| Message.ValidateMessage | libs/unalib.js:2-19 | parse failure, `null` and a record whose colour test throws give the fallback record; other non-objects come back unchanged; any other record gets the three fields written and every other field kept |
| Message.ValidateRecord | libs/unalib.js:6-10 | proof helper: on a record whose colour test does not throw, `validateMessage` performs the three writes |
| Message.ValidatedRecordSafe | libs/unalib.js:6-10 | such a record comes back with a 1-to-50-character tag-free name, a string text and a colour whose text is a hex colour |
| Message.ValidateThrowingRecord | libs/unalib.js:8-17 | a record whose colour test throws gives the fallback record |
| Message.ThrowingColorFallsBack | libs/unalib.js:8-17 | a colour given as an object with its own `toString` makes the whole message the fallback record |
| Message.StringNameSanitized | libs/unalib.js:6 | a string name, even the empty one, is only sanitised: the `\|\| "Anónimo"` changes nothing |
| Message.StringTextProcessed | libs/unalib.js:7 | a string text, even the empty one, is only processed |
| Message.ProcessMessageShape | libs/unalib.js:33-44 | for a string: plain sanitised text of 1 to 50 characters with no tag, or the markup of a media URL short enough to be shown in full as a link |
| Message.EmptyMessageIsAnonymous | libs/unalib.js:33-44 | the empty message becomes "Anónimo" |
| Server.UptimeParts | server.js:21-23 | minutes and seconds are below 60 and 3600·h + 60·m + s is the number of seconds |
| Server.UptimePartsUnique | server.js:21-23 | that split is the only one |
| Server.SplitAfterDigits | server.js:24 | two digit strings followed by the same non-digit separator split the text the same way |
| Server.DecimalInjective | server.js:24 | different numbers have different numerals |
| Server.FormatUptimeOf | server.js:20-25 | an uptime of h hours, m < 60 minutes and s < 60 seconds is written `${h}h ${m}m ${s}s` |
| Server.FormatUptimeInjective | server.js:20-25 | different uptimes are formatted differently |
| Server.ApproxBytesFromDataURL | server.js:28-34 | 0 without `base64,`; otherwise the floor of three quarters of the length after the first marker, never more than that length |
| Server.ApproxBytesExact | server.js:33 | 4k base64 characters count as exactly 3k bytes |
| Server.NumberOr | server.js:108 | `Number(x) \|\| d` is the default or the number read, and it is nonzero unless it is the default |
| Server.DataMedia | server.js:130-148 | a DataURL item is accepted iff it is a string, the type is image or video, the prefix is `data:image/` or `data:video/` and the estimate is 1 byte to 10 MiB; the record then keeps type and DataURL and has exactly the five fields; `mime` and `name` are strings of at most 100 and 120 characters (their values: `Server.DataMediaMime`, `Server.DataMediaName`), and the size is the declared number when nonzero, else the estimate |
| Server.DataMediaMime | server.js:140 | the accepted record's `mime` is the given one's text cut to 100 characters when it is truthy (a non-empty string cut as it is), else empty |
| Server.DataMediaName | server.js:141 | the accepted record's `name` is the given one's text cut to 120 characters when it is truthy (a non-empty string cut as it is), else empty |
| Server.UrlMedia | server.js:151-159 | a link is accepted iff `url` or `link` is truthy and `isValidMediaURL` accepts its text; the record is `{type, url}` with `url` the link's text |
| Server.UrlMediaType | server.js:154 | the URL record's `type` is the given type when it is truthy, else "url" |
| Server.Media | server.js:126-160 | media comes only from an object under `media`: the DataURL item when accepted, otherwise the URL branch's result |
| Server.BuildPayload | server.js:98-110 | the payload has name ≤ 50 and text ≤ 2000 characters, a numeric `ts`, and `media` exactly when media was accepted |
| Server.PayloadName | server.js:106 | the name is the incoming name's text cut to 50 characters when it is truthy (a non-empty string cut as it is), else "Anónimo" |
| Server.PayloadText | server.js:107 | the text is the incoming text's text cut to 2000 characters when it is truthy (a non-empty string cut as it is), else empty |
| Server.PayloadTs | server.js:108 | `ts` is the number read when it is neither NaN nor 0 (a nonzero number as given), else `now`, also when `ts` is missing |
| Server.ErrorReply | server.js:182-195 | the error reply has exactly the fields name, text, `ts` and colour: "Sistema UNA", the processed error text, the time given and black |
| Server.HandleMessage | server.js:93-198 | the sender gets the error reply if and only if parsing fails, the message is `null` or building the payload throws; otherwise the record is broadcast, with a warning exactly when the original text shows a signature; an error reply comes after the warning exactly when the name, text and `ts` conversions passed, a media conversion threw and the original text shows a signature |
| Server.ThrowingMimeWarns | server.js:113-197 | a signature in the text and a `mime` object with its own `toString` on an accepted DataURL: the warning, then the error reply |
| Server.ThrowingNameReplies | server.js:106 | a name given as an object with its own `toString` makes the handler reply with the error record |
| Server.ValidatedPayload | server.js:164-173 | validating a colourless payload adds `color` = `#000000`, keeps the other fields and gives a 1-to-50-character tag-free name |
| Server.BroadcastRecord | server.js:164-176 | the broadcast record has the payload's keys plus `color`, which is black; `ts` and `media` are the payload's; its name is the payload name sanitised (1 to 50 characters, no tag), its text the payload text processed |
| Server.BroadcastText | server.js:164-176 | the text every client receives is the sanitised payload text, which holds no tag, or, when that is a media URL, its markup |
| Demo.PlainIsBlocked | demo/xss-test.js:45-47 | a text without `<`, `:` and `=` passes the script's "blocked" test |
| Demo.AnonymousBlocked | demo/xss-test.js:45-47 | "Anónimo" passes the "blocked" test |
| Demo.ValidatedRecord | demo/xss-test.js:34-40 | a record with a clean name, non-empty text and valid colour keeps name and colour and gets its text processed |
| Demo.DemoValidated | demo/xss-test.js:34-40 | the "Hacker" red message keeps its name and colour and gets its text processed |
| Demo.ScriptCase | demo/xss-test.js:11-12 | the script payload is detected and its text becomes "Anónimo" |
| Demo.ImgCase | demo/xss-test.js:15-16 | the `<img onerror>` payload is detected and its text becomes "Anónimo" |
| Demo.UrlCase | demo/xss-test.js:19-20 | the `javascript:` payload is detected, its text becomes `alert("XSS")`, and that text passes the "blocked" test |
| Demo.FrameCase | demo/xss-test.js:23-24 | the iframe payload is detected and its text becomes "Anónimo" |
| Demo.EndsWithExtension | libs/unalib.js:52-53 | an https address whose path ends in a listed extension is accepted |
| Demo.WatchMedia | demo/xss-test.js:60 | the YouTube watch address is accepted |
| Demo.WatchId | demo/xss-test.js:60 | its video id is `dQw4w9WgXcQ` |
| Demo.DemoMediaValid | demo/xss-test.js:56-61 | all four media addresses of the script are accepted |
| Demo.CdnVideoIsImage | libs/unalib.js:128-139 | `https://cdn.example.com/clip.mp4` is media with a video extension but is rendered as `<img` |
| Findings.BypassStrip | libs/unalib.js:27 | the nested text `javajavascript:script:` loses only its inner `javascript:` and becomes `javascript:` |
| Findings.SanitizeLeavesProtocol | libs/unalib.js:21-31 | as written, sanitising `javajavascript:script:` returns `javascript:`, in which the protocol pass still finds a match |
| Findings.SanitizeNotIdempotent | libs/unalib.js:21-31 | as written, sanitising that output again changes it |
| Findings.DeleteAllSameLength | libs/unalib.js:25-28 | a pass that keeps the length changes nothing |
| Findings.CleanShrinksOrFixes | libs/unalib.js:25-30 | the chain either leaves a text unchanged or makes it strictly shorter |
| Findings.CleanToFixpoint | libs/unalib.js:25-30 | repeating the chain ends in a text the chain leaves unchanged |
| Findings.FixpointNoMatch | libs/unalib.js:25-28 | a fixpoint of the chain holds no match of any of the four patterns |
| Findings.SanitizeInputFixed | libs/unalib.js:21-31 | corrected: 1 to 50 characters, no tag, no match of any of the four patterns, "Anónimo" for a non-string |
| Findings.FixedAgreesWhenStable | libs/unalib.js:21-31 | where one run of the chain is already stable, the corrected and original sanitisers agree |
| Findings.FixedIdempotent | libs/unalib.js:21-31 | the corrected sanitiser is idempotent |
| Findings.FixedStopsBypass | libs/unalib.js:27 | the corrected sanitiser turns the nested text into "Anónimo" |

## Left out

- JSON parsing and writing. `JSON.parse` becomes its outcome, an `Option<Value>` where `None` means it threw. `JSON.stringify` and the re-parse in the handler are the identity on values.
- Text.IntToDecimal: writes every integer in plain digits. JavaScript writes a number of magnitude 10^21 or more in exponent form (`String(1e21)` is `1e+21`), and integers above 2^53 are already rounded when the JSON is parsed; the model has neither, so names, texts and links given as such numbers differ from the source's.
- Numbers are integers only. Floats, `Infinity` and `-0` are not modelled, which includes `Infinity` turning into `null` when written as JSON.
- `Number(text)`: reading a number from a string is the parameter `parse` of `Server.ToNumber`.
- The clock: `Date.now()` is the parameter `now`.
- `Server.FormatUptime`: only whole seconds are modelled. `process.uptime()` is a float and the route that formats it is HTTP plumbing.
- `Server.ApproxBytesFromDataURL`: computes `floor(3·L/4)` exactly in integers rather than the float product `L * 0.75`. The two agree for every length below 3·10^15, far above the longest string a JavaScript engine builds.
- Express routes, socket.io events, `emit`, logging, the `stats` counters and the shutdown handler are I/O or counters and are not modelled. `Server.Outcome` only records who gets the record and whether the warning is sent before it.
- `validation?.…` guards: every library function is treated as present, and `sanitizeText` as absent, since the library exports none.
- Exceptions are modelled as predicates on the input (`Json.ToTextThrows`, `Message.ColorThrows`, `Server.PayloadThrows`) decided before the computation, not as a value flowing out of it. `String` and `Number` of the other parsed values cannot throw.
- Color.ValidateColor: on a value that makes `String` throw it returns black where the source throws; `Message.ValidateMessage` (fallback record) models what happens then.
- Server.BuildPayload: on an input where `Server.PayloadThrows` holds it still returns a payload, with `[object Object]` standing for the text that cannot be taken; `Server.HandleMessage` never uses it then and replies with the error record.
- Server.DataMedia and Server.UrlMedia: likewise, their values on a throwing conversion are placeholders that `Server.HandleMessage` does not use.
- Browser rendering of the produced markup is not modelled.
- Characters outside the Basic Multilingual Plane: JavaScript sees two code units where the model has one character, and `substring`/`slice` can cut a pair in half, leaving a lone surrogate that a Dafny `char` cannot hold. Cuts and lengths are exact only for BMP-only texts. `\s` and `trim` use the fixed whitespace table of `Text.IsWs`.
- `Json.ToText`, `Json.Get`, `Json.PropertiesOf` and `Server.ToNumber` are definitions (`String(v)`, a property read, the readable properties, `Number(v)`); what they give is stated through the lemmas about their callers.
- The console output of `demo/xss-test.js` is not modelled. Its cases are the lemmas in `Demo`.
- `Findings.SanitizeInputFixed` is not used by `Message` and `Server`. These model the code as written, so the rest of the model shows the original behaviour and the corrected sanitiser stands beside it.

## Findings

| source | as written | input that shows it | evidently intended | confidence | as-written member | corrected member |
|---|---|---|---|---|---|---|
| libs/unalib.js:27 | `replace(/javascript:/gi, '')` deletes each match once and does not rescan the text the deletion joins | `javajavascript:script:` sanitises to `javascript:` | no `javascript:` (or other deleted pattern) left in the output | high (proved on the model; not executed) | Findings.SanitizeLeavesProtocol | Findings.SanitizeInputFixed |
