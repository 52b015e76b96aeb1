/**
 * `isScriptInjection` (libs/unalib.js): six signatures searched anywhere in the text. The
 * signatures are `RegExp.prototype.test` calls on freshly built global expressions, so each
 * search starts at position 0.
 */
module Injection {
  import opened Text
  import opened Patterns
  import opened Sanitizer

  datatype Signature = ScriptOpen | JavascriptUrl | Handler | IframeOpen | ObjectOpen | EmbedOpen

  const Signatures: seq<Signature> := [ScriptOpen, JavascriptUrl, Handler, IframeOpen, ObjectOpen, EmbedOpen]

  /** The length of the match of `sig` that starts `s` (0: none). */
  function SignatureLen(sig: Signature, s: string): (n: nat)
    ensures n <= |s|
  {
    match sig
    case ScriptOpen => OpenTagLen(s, "script")
    case JavascriptUrl => ProtocolLen(s)
    case Handler => HandlerLen(s)
    case IframeOpen => OpenTagLen(s, "iframe")
    case ObjectOpen => OpenTagLen(s, "object")
    case EmbedOpen => OpenTagLen(s, "embed")
  }

  /** `pattern.test(s)`: a match starts somewhere in `s`. */
  predicate Occurs(sig: Signature, s: string)
  {
    exists k :: 0 <= k <= |s| && SignatureLen(sig, s[k..]) > 0
  }

  /** `isScriptInjection(input)` on the text of the input. */
  predicate IsScriptInjection(s: string)
  {
    exists i :: 0 <= i < |Signatures| && Occurs(Signatures[i], s)
  }

  /* ------------------------------- Properties ----------------------------- */

  /** A signature found at one position makes the detector fire. */
  lemma DetectedAt(sig: Signature, s: string, k: nat)
    requires k <= |s| && SignatureLen(sig, s[k..]) > 0
    ensures IsScriptInjection(s)
  {
    var i := match sig
      case ScriptOpen => 0 case JavascriptUrl => 1 case Handler => 2
      case IframeOpen => 3 case ObjectOpen => 4 case EmbedOpen => 5;
    assert Signatures[i] == sig;
    assert Occurs(Signatures[i], s);
  }

  /**
   * Whatever the script-block, protocol or handler pass of the sanitiser would delete from
   * a text, the detector reports for that same text.
   */
  lemma PassChangeIsDetected(rule: Rule, s: string)
    requires rule != AnyTag && DeleteAll(rule, s) != s
    ensures IsScriptInjection(s)
  {
    DeleteAllUnchanged(rule, s);
    var k :| 0 <= k < |s| && MatchLen(rule, s[k..]) > 0;
    match rule
    case ScriptBlock => DetectedAt(ScriptOpen, s, k);
    case JsProtocol => DetectedAt(JavascriptUrl, s, k);
    case EventHandler => DetectedAt(Handler, s, k);
  }

  /** No signature at all: the script-block pass has nothing to delete. */
  lemma UndetectedKeepsScriptPass(s: string)
    requires !IsScriptInjection(s)
    ensures DeleteAll(ScriptBlock, s) == s
  {
    if DeleteAll(ScriptBlock, s) != s {
      PassChangeIsDetected(ScriptBlock, s);
    }
  }

  /** A text without `<` contains no tag for the generic-tag pass. */
  lemma NoLtNoTag(s: string)
    requires '<' !in s
    ensures NoMatch(AnyTag, s)
  {
    forall k | 0 <= k < |s| ensures MatchLen(AnyTag, s[k..]) == 0 {
      assert s[k..][0] == s[k];
    }
  }

  /**
   * A text without `<` that the detector passes leaves all four deletion passes with
   * nothing to do: `sanitizeInput` then only trims and cuts it.
   */
  lemma UndetectedPlainText(s: string)
    requires !IsScriptInjection(s) && '<' !in s
    ensures Strip(s) == s
    ensures Clean(s) == Prefix(Trim(s), MaxLength)
  {
    UndetectedKeepsScriptPass(s);
    NoLtNoTag(s);
    DeleteAllUnchanged(AnyTag, s);
    if DeleteAll(JsProtocol, s) != s { PassChangeIsDetected(JsProtocol, s); }
    if DeleteAll(EventHandler, s) != s { PassChangeIsDetected(EventHandler, s); }
  }
}
