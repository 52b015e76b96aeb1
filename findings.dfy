/**
 * A consequence of the single-pass deletions in `sanitizeInput` (libs/unalib.js), and a
 * sanitiser that repeats its chain until nothing changes.
 *
 * Each `replace` deletes the matches it finds and does not look again at what the
 * deletion brings together, so a signature split by a copy of itself survives:
 * "javajavascript:script:" loses its inner `javascript:` and leaves `javascript:`.
 */
module Findings {
  import opened Text
  import opened Json
  import opened Patterns
  import opened Sanitizer

  /** A `javascript:` with a second one nested inside it. */
  const BypassText := "java" + Protocol + "script:"

  /* ------------------------------ As written ------------------------------ */

  lemma BypassPieces(a: string, b: string)
    requires a == "java" && b == "script:"
    ensures Avoids(a, '<') && Avoids(b, '<') && Avoids(b, 'j')
    ensures Avoids(a[1..], 'j') && a[0] == 'j' && |a| == 4
    ensures a + b == Protocol
  {
  }

  /** Only the protocol pass finds anything in the nested text, and it deletes the inner copy. */
  lemma BypassStrip(a: string, b: string)
    requires a == "java" && b == "script:"
    ensures Strip(a + Protocol + b) == Protocol
  {
    BypassNoTag(a, b);
    BypassProtocolPass(a, b);
    ProtocolPlain(Protocol);
    AvoidsNoMatch(EventHandler, Protocol);
    DeleteAllUnchanged(EventHandler, Protocol);
  }

  /** No `<` in the nested text: the first two passes keep it. */
  lemma BypassNoTag(a: string, b: string)
    requires a == "java" && b == "script:"
    ensures DeleteAll(AnyTag, DeleteAll(ScriptBlock, a + Protocol + b)) == a + Protocol + b
  {
    BypassPieces(a, b);
    var s := a + Protocol + b;
    ProtocolPlain(Protocol);
    AvoidsConcat(a, Protocol, '<');
    AvoidsConcat(a + Protocol, b, '<');
    AvoidsNoMatch(ScriptBlock, s);
    AvoidsNoMatch(AnyTag, s);
    DeleteAllUnchanged(ScriptBlock, s);
    DeleteAllUnchanged(AnyTag, s);
  }

  /** The protocol pass copies `java`, deletes the inner `javascript:` and copies `script:`. */
  lemma BypassProtocolPass(a: string, b: string)
    requires a == "java" && b == "script:"
    ensures DeleteAll(JsProtocol, a + Protocol + b) == Protocol
  {
    BypassPieces(a, b);
    BypassNoEarlyMatch(a, b);
    NestedProtocolPass(a, b);
  }

  /**
   * A `javascript:` preceded by four characters where no match starts, and followed by a
   * text without `j`: the protocol pass deletes it and keeps the rest.
   */
  lemma NestedProtocolPass(a: string, b: string)
    requires |a| == 4 && Avoids(b, 'j')
    requires forall j :: 0 <= j < 4 ==> MatchLen(JsProtocol, (a + Protocol + b)[j..]) == 0
    ensures DeleteAll(JsProtocol, a + Protocol + b) == a + b
  {
    assert a + Protocol + b == a + (Protocol + b);
    CopyFront(JsProtocol, a, Protocol + b);
    ProtocolThenRest(b);
    AvoidsNoMatch(JsProtocol, b);
    DeleteAllUnchanged(JsProtocol, b);
  }

  /** A front where no match starts is copied, and the pass goes on with the rest. */
  lemma CopyFront(rule: Rule, a: string, rest: string)
    requires forall j :: 0 <= j < |a| ==> MatchLen(rule, (a + rest)[j..]) == 0
    ensures DeleteAll(rule, a + rest) == a + DeleteAll(rule, rest)
  {
    var s := a + rest;
    DeleteAllSkip(rule, s, |a|);
    assert s[..|a|] == a && s[|a|..] == rest;
  }

  /** No `javascript:` starts in the first four characters of the nested text. */
  lemma BypassNoEarlyMatch(a: string, b: string)
    requires a == "java" && b == "script:"
    ensures forall j :: 0 <= j < 4 ==> MatchLen(JsProtocol, (a + Protocol + b)[j..]) == 0
  {
    BypassPieces(a, b);
    var s := a + Protocol + b;
    forall j | 0 <= j < 4 ensures MatchLen(JsProtocol, s[j..]) == 0 {
      MatchStartsWithLead(JsProtocol, s[j..]);
      if j == 0 {
        assert s[0..] == s;
        assert Lower(s[4]) != Protocol[4];
      } else {
        assert s[j..][0] == a[1..][j - 1];
      }
    }
  }

  /** `javascript:` itself: nothing for the protocol's neighbours to delete, no edge space. */
  lemma ProtocolPlain(p: string)
    requires p == Protocol
    ensures Avoids(p, '<') && Avoids(p, 'o') && |p| == 11 && !IsWs(p[0]) && !IsWs(p[10])
  {
  }

  /** The protocol deletion leaves the protocol in place. */
  lemma ProtocolStillMatches(p: string)
    requires p == Protocol
    ensures !NoMatch(JsProtocol, p)
  {
    assert forall i :: 0 <= i < |Protocol| ==> Lower(p[i]) == Protocol[i];
    assert p[0..] == p;
    assert MatchLen(JsProtocol, p[0..]) > 0;
  }

  /**
   * The code as written: sanitising the nested text returns exactly `javascript:`, a
   * text in which the protocol pass would still find something to delete.
   */
  lemma SanitizeLeavesProtocol(s: string)
    requires s == BypassText
    ensures SanitizeInput(Str(s)) == Protocol
    ensures !NoMatch(JsProtocol, SanitizeInput(Str(s)))
  {
    BypassClean(s);
    ProtocolStillMatches(Protocol);
  }

  /** Hence `sanitizeInput` is not idempotent: sanitising its own output changes it. */
  lemma SanitizeNotIdempotent(s: string)
    requires s == BypassText
    ensures SanitizeInput(Str(SanitizeInput(Str(s)))) != SanitizeInput(Str(s))
  {
    SanitizeLeavesProtocol(s);
    ProtocolThenRest([]);
    assert Protocol + [] == Protocol;
    ProtocolPlain(Protocol);
    ProtocolStripsToNothing(Protocol);
  }

  /** Every remaining pass on `javascript:` gives the empty text once the protocol goes. */
  lemma ProtocolStripsToNothing(p: string)
    requires p == Protocol
    ensures Strip(p) == [] && Clean(p) == []
  {
    ProtocolPlain(p);
    AvoidsNoMatch(ScriptBlock, p);
    AvoidsNoMatch(AnyTag, p);
    DeleteAllUnchanged(ScriptBlock, p);
    DeleteAllUnchanged(AnyTag, p);
    ProtocolThenRest([]);
    assert p + [] == p;
  }

  /* ------------------------------ Corrected ------------------------------- */

  /** A pass that keeps the length changes nothing. */
  lemma DeleteAllSameLength(rule: Rule, s: string)
    requires |DeleteAll(rule, s)| == |s|
    ensures DeleteAll(rule, s) == s
  {
    DeleteAllUnchanged(rule, s);
    if !NoMatch(rule, s) {
      var k :| 0 <= k < |s| && MatchLen(rule, s[k..]) > 0;
      DeleteAllShrinks(rule, s, k);
    }
  }

  /** The chain either leaves a text as it is or makes it strictly shorter. */
  lemma CleanShrinksOrFixes(s: string)
    ensures Clean(s) == s || |Clean(s)| < |s|
  {
    var a := DeleteAll(ScriptBlock, s);
    var b := DeleteAll(AnyTag, a);
    var c := DeleteAll(JsProtocol, b);
    var d := DeleteAll(EventHandler, c);
    if |Clean(s)| >= |s| {
      DeleteAllSameLength(ScriptBlock, s);
      DeleteAllSameLength(AnyTag, a);
      DeleteAllSameLength(JsProtocol, b);
      DeleteAllSameLength(EventHandler, c);
      assert d == s;
      var t := Trim(s);
      assert t == s[LeadingWs(s)..LeadingWs(s) + |t|];
      assert t == s;
    }
  }

  /** The chain applied again and again until it changes nothing. */
  function CleanToFixpoint(s: string): (r: string)
    ensures Clean(r) == r && |r| <= |s|
    decreases |s|
  {
    var c := Clean(s);
    CleanShrinksOrFixes(s);
    if c == s then s else CleanToFixpoint(c)
  }

  /** A fixpoint of the chain holds no match of any pass. */
  lemma FixpointNoMatch(r: string, rule: Rule)
    requires Clean(r) == r
    ensures NoMatch(rule, r) && Strip(r) == r
  {
    var a := DeleteAll(ScriptBlock, r);
    var b := DeleteAll(AnyTag, a);
    var c := DeleteAll(JsProtocol, b);
    assert |Strip(r)| >= |r|;
    DeleteAllSameLength(ScriptBlock, r);
    DeleteAllSameLength(AnyTag, a);
    DeleteAllSameLength(JsProtocol, b);
    DeleteAllSameLength(EventHandler, c);
    DeleteAllUnchanged(rule, r);
  }

  /**
   * The sanitiser as intended: the chain repeated to a fixpoint, then the fallback. The
   * result has 1 to 50 characters, no tag, and no match of any of the four patterns.
   */
  function SanitizeInputFixed(input: Value): (r: string)
    ensures 0 < |r| <= MaxLength && NoTag(r)
    ensures forall rule: Rule :: NoMatch(rule, r)
    ensures !input.Str? ==> r == Anonymous
  {
    var c := if input.Str? then CleanToFixpoint(input.s) else "";
    var r := if c == "" then Anonymous else c;
    AnonymousIsClean();
    assert Clean(r) == r;
    assert |r| <= MaxLength by { assert |Clean(r)| <= MaxLength; }
    forall rule: Rule ensures NoMatch(rule, r) { FixpointNoMatch(r, rule); }
    DeleteAllUnchanged(ScriptBlock, r);
    DeleteAllUnchanged(AnyTag, r);
    AnyTagLeavesNoTag(r);
    r
  }

  /** Where one run of the chain already reaches a fixpoint, the two sanitisers agree. */
  lemma FixedAgreesWhenStable(s: string)
    requires Clean(Clean(s)) == Clean(s)
    ensures SanitizeInputFixed(Str(s)) == SanitizeInput(Str(s))
  {
    FixpointAfterOne(s);
  }

  /** One further run of the chain that changes nothing ends the iteration. */
  lemma FixpointAfterOne(s: string)
    requires Clean(Clean(s)) == Clean(s)
    ensures CleanToFixpoint(s) == Clean(s)
  {
    if Clean(s) != s {
      assert CleanToFixpoint(s) == CleanToFixpoint(Clean(s));
    }
  }

  /** The corrected sanitiser is idempotent. */
  lemma FixedIdempotent(input: Value)
    ensures SanitizeInputFixed(Str(SanitizeInputFixed(input))) == SanitizeInputFixed(input)
  {
    var r := SanitizeInputFixed(input);
    AnonymousIsClean();
    if r == Anonymous {
    } else {
      assert Clean(r) == r by {
        assert input.Str?;
      }
    }
  }

  /** The nested text no longer gets through: it sanitises to the fallback label. */
  lemma FixedStopsBypass(s: string)
    requires s == BypassText
    ensures SanitizeInputFixed(Str(s)) == Anonymous
  {
    BypassClean(s);
    ProtocolStripsToNothing(Protocol);
    assert CleanToFixpoint(s) == CleanToFixpoint(Protocol);
    assert CleanToFixpoint(Protocol) == CleanToFixpoint([]);
  }

  /** One run of the chain takes the nested text to `javascript:`. */
  lemma BypassClean(s: string)
    requires s == BypassText
    ensures Clean(s) == Protocol
  {
    BypassStrip("java", "script:");
    ProtocolPlain(Protocol);
    TrimNoEdges(Protocol);
  }
}
