/**
 * `processMessage` and `validateMessage` (libs/unalib.js). The JSON text that
 * `validateMessage` parses and produces is replaced by the parsed value: its argument is
 * the outcome of `JSON.parse` (`None` when parsing throws) and its result the value that
 * `JSON.stringify` then writes.
 */
module Message {
  import opened Text
  import opened Json
  import opened Sanitizer
  import opened MediaUrl
  import opened MediaHtml
  import opened Color

  /**
   * `processMessage(message)`: a non-string gives the empty text; a string is sanitised,
   * and the result is the markup of the sanitised text exactly when that text is a media
   * URL, and the sanitised text itself exactly when it is not (markup is longer than any
   * sanitised text).
   */
  function ProcessMessage(message: Value): (r: string)
    ensures !message.Str? ==> r == ""
    ensures message.Str? ==> (r == CreateMediaHTML(SanitizeInput(message)) <==> IsValidMediaURL(SanitizeInput(message)))
    ensures message.Str? ==> (r == SanitizeInput(message) <==> !IsValidMediaURL(SanitizeInput(message)))
  {
    if !message.Str? then ""
    else
      var sanitized := SanitizeInput(message);
      MarkupLonger(sanitized);
      if IsValidMediaURL(sanitized) then CreateMediaHTML(sanitized) else sanitized
  }

  const NameKey := "nombre"
  const TextKey := "mensaje"
  const ColorKey := "color"

  /** The record `validateMessage` answers with when the message cannot be handled. */
  const Fallback: Value := Obj(map[NameKey := Str("Sistema"), TextKey := Str("Mensaje inválido"), ColorKey := Str("#FF0000")])

  lemma KeysDistinct()
    ensures NameKey != TextKey && NameKey != ColorKey && TextKey != ColorKey
  {
    assert |NameKey| == 6 && |TextKey| == 7 && |ColorKey| == 5;
  }

  /** `sanitizeInput(msgObj.nombre || "Anónimo")`: 1 to 50 characters, no tag. */
  function ValidName(m: map<string, Value>): (r: string)
    ensures 0 < |r| <= MaxLength && NoTag(r)
    ensures (NameKey !in m || !Truthy(m[NameKey])) ==> r == Anonymous
  {
    var name := Or(Get(m, NameKey), Str(Anonymous));
    SanitizeInputNoTag(name);
    AnonymousIsClean();
    SanitizeInput(name)
  }

  /**
   * `processMessage(msgObj.mensaje || "")`. A missing or falsy text becomes the empty
   * string, which sanitising turns into "Anónimo"; a non-string text becomes empty.
   */
  function ValidText(m: map<string, Value>): (r: string)
    ensures (TextKey !in m || !Truthy(m[TextKey])) ==> r == Anonymous
    ensures TextKey in m && Truthy(m[TextKey]) && !m[TextKey].Str? ==> r == ""
    ensures TextKey in m && m[TextKey].Str? && m[TextKey].s != "" ==> r == ProcessMessage(m[TextKey])
  {
    AnonymousIsClean();
    AnonymousNotUrl();
    ProcessMessage(Or(Get(m, TextKey), Str("")))
  }

  /** `validateColor(msgObj.color || "#000000")`: a value whose text is a hex colour. */
  function ValidColor(m: map<string, Value>): (r: Value)
    ensures IsHexColor(ToText(r))
    ensures (ColorKey !in m || !Truthy(m[ColorKey])) ==> r == Str(DefaultColor)
  {
    ValidateColor(Or(Get(m, ColorKey), Str(DefaultColor)))
  }

  lemma AnonymousNotUrl()
    ensures !IsValidMediaURL(Anonymous)
  {
    assert Lower(Anonymous[0]) == 'a';
  }

  /** The record after the three writes of `validateMessage`; every other field is kept. */
  function Validated(m: map<string, Value>): (v: map<string, Value>)
    ensures NameKey in v && TextKey in v && ColorKey in v
    ensures v[NameKey] == Str(ValidName(m)) && v[TextKey] == Str(ValidText(m)) && v[ColorKey] == ValidColor(m)
  {
    KeysDistinct();
    m[NameKey := Str(ValidName(m))][TextKey := Str(ValidText(m))][ColorKey := ValidColor(m)]
  }

  /** The writes add the three fields and touch no other. */
  lemma ValidatedKeepsOthers(m: map<string, Value>)
    ensures Validated(m).Keys == m.Keys + {NameKey, TextKey, ColorKey}
    ensures forall k :: k in m && k != NameKey && k != TextKey && k != ColorKey ==> Validated(m)[k] == m[k]
  {
    ThreeWrites(m, Str(ValidName(m)), Str(ValidText(m)), ValidColor(m));
  }

  /** Writing the three fields of a record. */
  lemma ThreeWrites(m: map<string, Value>, name: Value, text: Value, color: Value)
    ensures var v := m[NameKey := name][TextKey := text][ColorKey := color];
            v.Keys == m.Keys + {NameKey, TextKey, ColorKey}
            && forall k :: k in m && k != NameKey && k != TextKey && k != ColorKey ==> v[k] == m[k]
  {
  }

  /**
   * The colour test of `validateMessage` throws: the record's `color` is a value whose
   * text cannot be taken (such a value is an object or an array, hence truthy, so `||`
   * passes it on to `validateColor`). Name and text never throw: both test `typeof` first.
   */
  predicate ColorThrows(m: map<string, Value>)
  {
    ColorKey in m && ToTextThrows(m[ColorKey])
  }

  /**
   * `validateMessage(jsonMsg)`, given the value `JSON.parse(jsonMsg)` returned (`None` when
   * it threw). A parse failure, `null` (whose property write throws) or a record whose
   * colour test throws gives the fallback record; any other object gets its name
   * sanitised, its text processed and its colour validated, every other field kept (the
   * name then has 1 to 50 characters and no tag, the colour's text is a hex colour, as
   * `ValidatedRecordSafe` states); any
   * other value (number, string, boolean, array) is written back unchanged, because
   * property writes on it are lost.
   */
  function ValidateMessage(parsed: Option<Value>): (r: Value)
    ensures parsed.None? || parsed == Some(Null) ==> r == Fallback
    ensures parsed.Some? && parsed.value.Obj? && ColorThrows(parsed.value.fields) ==> r == Fallback
    ensures parsed.Some? && !parsed.value.Obj? && !parsed.value.Null? ==> r == parsed.value
    ensures parsed.Some? && parsed.value.Obj? && !ColorThrows(parsed.value.fields) ==>
              r.Obj? && r.fields.Keys == parsed.value.fields.Keys + {NameKey, TextKey, ColorKey}
              && (forall k :: k in parsed.value.fields && k != NameKey && k != TextKey && k != ColorKey
                              ==> r.fields[k] == parsed.value.fields[k])
  {
    if parsed.None? then Fallback
    else
      match parsed.value
      case Null => Fallback
      case Obj(m) => ValidatedKeepsOthers(m); ValidateObject(m)
      case _ => parsed.value
  }

  /** `validateMessage` on a parsed object: the fallback when its colour test throws, else the three writes. */
  function ValidateObject(m: map<string, Value>): Value
  {
    if ColorThrows(m) then Fallback else Obj(Validated(m))
  }

  /* ------------------------------- Properties ----------------------------- */

  /** On a record whose colour test does not throw, `validateMessage` performs the three writes. */
  lemma ValidateRecord(m: map<string, Value>)
    requires !ColorThrows(m)
    ensures ValidateMessage(Some(Obj(m))) == Obj(Validated(m))
  {
    assert ValidateMessage(Some(Obj(m))) == ValidateObject(m);
  }

  /**
   * A validated record's name has 1 to 50 characters and no tag, its text is a string and
   * its colour's text is a hex colour.
   */
  lemma ValidatedRecordSafe(m: map<string, Value>)
    requires !ColorThrows(m)
    ensures var r := ValidateMessage(Some(Obj(m)));
            r.fields[NameKey].Str? && 0 < |r.fields[NameKey].s| <= MaxLength && NoTag(r.fields[NameKey].s)
            && r.fields[TextKey].Str? && IsHexColor(ToText(r.fields[ColorKey]))
  {
    ValidateRecord(m);
  }

  /** On a record whose colour test throws, `validateMessage` gives the fallback record. */
  lemma ValidateThrowingRecord(m: map<string, Value>)
    requires ColorThrows(m)
    ensures ValidateMessage(Some(Obj(m))) == Fallback
  {
  }

  /** A colour given as a record with its own `toString` makes the whole message the fallback. */
  lemma ThrowingColorFallsBack(m: map<string, Value>, c: map<string, Value>)
    requires ColorKey in m && m[ColorKey] == Obj(c) && "toString" in c
    ensures ValidateMessage(Some(Obj(m))) == Fallback
  {
  }

  /**
   * The text `processMessage` gives for a string is either sanitised plain text (1 to 50
   * characters, no tag) or the markup of a media URL of at most 50 characters, which a
   * link therefore shows in full.
   */
  lemma ProcessMessageShape(message: Value)
    requires message.Str?
    ensures var u := SanitizeInput(message);
            var r := ProcessMessage(message);
            0 < |u| <= MaxLength
            && ((r == u && NoTag(r)) || (IsValidMediaURL(u) && r == CreateMediaHTML(u)))
            && LinkText(u) == u
  {
    SanitizeInputNoTag(message);
  }

  /** A string name, even the empty one, is simply sanitised: `|| "Anónimo"` changes nothing then. */
  lemma StringNameSanitized(m: map<string, Value>)
    requires NameKey in m && m[NameKey].Str?
    ensures ValidName(m) == SanitizeInput(m[NameKey])
  {
    AnonymousIsClean();
    assert Clean("") == "" by { TrimNoEdges(""); }
  }

  /** A string text, even the empty one, is simply processed. */
  lemma StringTextProcessed(m: map<string, Value>)
    requires TextKey in m && m[TextKey].Str?
    ensures ValidText(m) == ProcessMessage(m[TextKey])
  {
  }

  /** The empty message sanitises to "Anónimo", which is not a media URL. */
  lemma EmptyMessageIsAnonymous()
    ensures ProcessMessage(Str("")) == Anonymous
  {
    AnonymousNotUrl();
  }
}
