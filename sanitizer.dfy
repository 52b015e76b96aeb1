/**
 * `sanitizeInput` (libs/unalib.js): four ordered global deletions, `trim`, a cut to 50
 * characters and the "Anónimo" fallback. Each deletion has the semantics of
 * `String.prototype.replace` with a global regular expression and an empty replacement:
 * the leftmost match is deleted, scanning resumes right after it, and what the deletion
 * brings together is not scanned again.
 */
module Sanitizer {
  import opened Text
  import opened Json
  import opened Patterns

  /** The four deletion passes, in the order `sanitizeInput` applies them. */
  datatype Rule = ScriptBlock | AnyTag | JsProtocol | EventHandler

  /** The length of the match of `rule` that starts `s` (0: none). */
  function MatchLen(rule: Rule, s: string): (n: nat)
    ensures n <= |s|
    ensures s == [] ==> n == 0
  {
    match rule
    case ScriptBlock => ScriptBlockLen(s)
    case AnyTag => TagLen(s)
    case JsProtocol => ProtocolLen(s)
    case EventHandler => HandlerLen(s)
  }

  /** `s.replace(/…/g, '')` for the pattern of `rule`. */
  function DeleteAll(rule: Rule, s: string): (r: string)
    ensures |r| <= |s|
    decreases |s|
  {
    if s == [] then []
    else
      var n := MatchLen(rule, s);
      if n > 0 then DeleteAll(rule, s[n..]) else [s[0]] + DeleteAll(rule, s[1..])
  }

  const Anonymous := "Anónimo"
  const MaxLength := 50

  /** The four deletions in order. */
  function Strip(s: string): (r: string)
    ensures |r| <= |s|
  {
    DeleteAll(EventHandler, DeleteAll(JsProtocol, DeleteAll(AnyTag, DeleteAll(ScriptBlock, s))))
  }

  /** The chain of `sanitizeInput` before the fallback: the deletions, `trim`, `substring(0, 50)`. */
  function Clean(s: string): (r: string)
    ensures |r| <= MaxLength && |r| <= |s|
  {
    Prefix(Trim(Strip(s)), MaxLength)
  }

  /**
   * `sanitizeInput(input)`: a non-string gives "Anónimo"; a string is cleaned, and an
   * empty result is replaced by "Anónimo". The result is never empty and has at most
   * 50 characters.
   */
  function SanitizeInput(input: Value): (r: string)
    ensures 0 < |r| <= MaxLength
    ensures !input.Str? ==> r == Anonymous
    ensures input.Str? ==> r == (if Clean(input.s) == "" then Anonymous else Clean(input.s))
  {
    match input
    case Str(s) => var c := Clean(s); if c == "" then Anonymous else c
    case _ => Anonymous
  }

  /* ------------------------- Deletion passes ------------------------------ */

  /** A deletion pass only removes characters: its output is a subsequence of its input. */
  lemma {:induction false} DeleteAllSubseq(rule: Rule, s: string)
    ensures SubseqOf(DeleteAll(rule, s), s)
    decreases |s|
  {
    if s != [] {
      var n := MatchLen(rule, s);
      if n > 0 {
        DeleteAllSubseq(rule, s[n..]);
        SubseqOfSuffix(DeleteAll(rule, s[n..]), s, n);
      } else {
        DeleteAllSubseq(rule, s[1..]);
        SubseqOfCons(s[0], DeleteAll(rule, s[1..]), s[1..]);
        assert [s[0]] + s[1..] == s;
      }
    }
  }

  /** The pattern of `rule` matches nowhere in `s`. */
  predicate NoMatch(rule: Rule, s: string)
  {
    forall k :: 0 <= k < |s| ==> MatchLen(rule, s[k..]) == 0
  }

  /** A stretch where no match starts is copied to the output unchanged. */
  lemma {:induction false} DeleteAllSkip(rule: Rule, s: string, k: nat)
    requires k <= |s|
    requires forall j :: 0 <= j < k ==> MatchLen(rule, s[j..]) == 0
    ensures DeleteAll(rule, s) == s[..k] + DeleteAll(rule, s[k..])
    decreases k
  {
    if k == 0 {
      assert s[..0] == [] && s[0..] == s;
    } else {
      NoMatchShift(rule, s, k);
      DeleteAllKeep(rule, s);
      DeleteAllSkip(rule, s[1..], k - 1);
      ConsSplit(s, k, DeleteAll(rule, s[k..]));
    }
  }

  /** No match in `s[..k]` means none at `s[0]` and none in `s[1..][..k - 1]`. */
  lemma NoMatchShift(rule: Rule, s: string, k: nat)
    requires 0 < k <= |s|
    requires forall j :: 0 <= j < k ==> MatchLen(rule, s[j..]) == 0
    ensures MatchLen(rule, s) == 0
    ensures forall j :: 0 <= j < k - 1 ==> MatchLen(rule, s[1..][j..]) == 0
  {
    assert s[0..] == s;
    forall j | 0 <= j < k - 1 ensures MatchLen(rule, s[1..][j..]) == 0 {
      assert s[1..][j..] == s[j + 1..];
    }
  }

  /** `[s[0]] + (s[1..][..k - 1] + y) == s[..k] + y`, with `s[1..][k - 1..] == s[k..]`. */
  lemma ConsSplit(s: string, k: nat, y: string)
    requires 0 < k <= |s|
    ensures s[1..][k - 1..] == s[k..]
    ensures [s[0]] + (s[1..][..k - 1] + y) == s[..k] + y
  {
    assert s[..k] == [s[0]] + s[1..][..k - 1];
  }

  /** With no match at the start, the first character is kept. */
  lemma DeleteAllKeep(rule: Rule, s: string)
    requires s != [] && MatchLen(rule, s) == 0
    ensures DeleteAll(rule, s) == [s[0]] + DeleteAll(rule, s[1..])
  {
  }

  /** A match at the start is deleted and scanning resumes right after it. */
  lemma DeleteAllAtMatch(rule: Rule, s: string)
    requires MatchLen(rule, s) > 0
    ensures DeleteAll(rule, s) == DeleteAll(rule, s[MatchLen(rule, s)..])
  {
  }

  /** A match anywhere makes the output strictly shorter. */
  lemma {:induction false} DeleteAllShrinks(rule: Rule, s: string, k: nat)
    requires k < |s| && MatchLen(rule, s[k..]) > 0
    ensures |DeleteAll(rule, s)| < |s|
    decreases k
  {
    if MatchLen(rule, s) == 0 {
      assert k > 0 by { assert s[0..] == s; }
      assert s[1..][k - 1..] == s[k..];
      DeleteAllShrinks(rule, s[1..], k - 1);
    }
  }

  /** A pass leaves `s` unchanged exactly when its pattern matches nowhere in `s`. */
  lemma DeleteAllUnchanged(rule: Rule, s: string)
    ensures DeleteAll(rule, s) == s <==> NoMatch(rule, s)
  {
    if NoMatch(rule, s) {
      DeleteAllSkip(rule, s, |s|);
      assert s[..|s|] == s && s[|s|..] == [];
    } else {
      var k :| 0 <= k < |s| && MatchLen(rule, s[k..]) > 0;
      DeleteAllShrinks(rule, s, k);
    }
  }

  /* ------------------------------ No tag survives ------------------------- */

  /** No `<` in `s` is followed, anywhere later, by a `>`. */
  predicate NoTag(s: string)
    decreases |s|
  {
    s == [] || ((s[0] == '<' ==> '>' !in s[1..]) && NoTag(s[1..]))
  }

  /** `NoTag` read position by position. */
  lemma {:induction false} NoTagIndices(s: string)
    ensures NoTag(s) <==> forall i, j :: 0 <= i < j < |s| && s[i] == '<' ==> s[j] != '>'
    decreases |s|
  {
    if s != [] {
      NoTagIndices(s[1..]);
      if NoTag(s) {
        forall i, j | 0 <= i < j < |s| && s[i] == '<' ensures s[j] != '>' {
          if i == 0 { assert s[j] == s[1..][j - 1]; }
          else { assert s[i] == s[1..][i - 1] && s[j] == s[1..][j - 1]; }
        }
      } else if s[0] == '<' && '>' in s[1..] {
        var j :| 0 <= j < |s[1..]| && s[1..][j] == '>';
        assert s[j + 1] == '>';
      } else {
        var i, j :| 0 <= i < j < |s[1..]| && s[1..][i] == '<' && s[1..][j] == '>';
        assert s[i + 1] == '<' && s[j + 1] == '>';
      }
    }
  }

  /** Deleting characters cannot create a tag. */
  lemma {:induction false} SubseqNoTag(r: string, s: string)
    requires SubseqOf(r, s) && NoTag(s)
    ensures NoTag(r)
    decreases |s|
  {
    if r != [] {
      if r[0] == s[0] && SubseqOf(r[1..], s[1..]) {
        SubseqNoTag(r[1..], s[1..]);
        if r[0] == '<' && '>' in r[1..] { SubseqChars(r[1..], s[1..], '>'); }
      } else {
        SubseqNoTag(r, s[1..]);
      }
    }
  }

  /** After the generic-tag pass no `<` is followed by a `>`. */
  lemma {:induction false} AnyTagLeavesNoTag(s: string)
    ensures NoTag(DeleteAll(AnyTag, s))
    decreases |s|
  {
    if s != [] {
      var n := MatchLen(AnyTag, s);
      if n > 0 {
        AnyTagLeavesNoTag(s[n..]);
      } else {
        var rest := DeleteAll(AnyTag, s[1..]);
        AnyTagLeavesNoTag(s[1..]);
        var r := [s[0]] + rest;
        assert r[1..] == rest;
        if s[0] == '<' && '>' in rest {
          DeleteAllSubseq(AnyTag, s[1..]);
          SubseqChars(rest, s[1..], '>');
        }
      }
    }
  }

  /** Every step of `sanitizeInput` after the generic-tag pass keeps a subsequence. */
  lemma CleanAfterTags(s: string)
    ensures var t := DeleteAll(AnyTag, DeleteAll(ScriptBlock, s));
            SubseqOf(Clean(s), t)
  {
    var t := DeleteAll(AnyTag, DeleteAll(ScriptBlock, s));
    var u := DeleteAll(JsProtocol, t);
    var v := DeleteAll(EventHandler, u);
    DeleteAllSubseq(JsProtocol, t);
    DeleteAllSubseq(EventHandler, u);
    SubseqTrans(v, u, t);
    TrimSubseq(v);
    SubseqTrans(Trim(v), v, t);
    PrefixSubseq(Trim(v), MaxLength);
    SubseqTrans(Clean(s), Trim(v), t);
  }

  /** The four deletions, and the whole chain after them, only remove characters. */
  lemma CleanSubseq(s: string)
    ensures SubseqOf(Strip(s), s) && SubseqOf(Clean(s), s)
  {
    var a := DeleteAll(ScriptBlock, s);
    var t := DeleteAll(AnyTag, a);
    var u := DeleteAll(JsProtocol, t);
    DeleteAllSubseq(ScriptBlock, s);
    DeleteAllSubseq(AnyTag, a);
    SubseqTrans(t, a, s);
    DeleteAllSubseq(JsProtocol, t);
    SubseqTrans(u, t, s);
    DeleteAllSubseq(EventHandler, u);
    SubseqTrans(Strip(s), u, s);
    CleanAfterTags(s);
    SubseqTrans(Clean(s), t, s);
  }

  /**
   * The output of `sanitizeInput` holds no tag: no `<` in it is followed by a `>`,
   * so in particular no `<script…>`, `<img…>` or `<iframe…>` survives whole. Apart from
   * the fallback label it is a subsequence of the input string.
   */
  lemma SanitizeInputNoTag(input: Value)
    ensures NoTag(SanitizeInput(input))
    ensures forall i, j :: 0 <= i < j < |SanitizeInput(input)| && SanitizeInput(input)[i] == '<'
                           ==> SanitizeInput(input)[j] != '>'
    ensures SanitizeInput(input) == Anonymous || (input.Str? && SubseqOf(SanitizeInput(input), input.s))
  {
    var r := SanitizeInput(input);
    if input.Str? && Clean(input.s) != "" {
      var s := input.s;
      var t := DeleteAll(AnyTag, DeleteAll(ScriptBlock, s));
      AnyTagLeavesNoTag(DeleteAll(ScriptBlock, s));
      CleanAfterTags(s);
      SubseqNoTag(r, t);
      DeleteAllSubseq(ScriptBlock, s);
      DeleteAllSubseq(AnyTag, DeleteAll(ScriptBlock, s));
      SubseqTrans(t, DeleteAll(ScriptBlock, s), s);
      SubseqTrans(r, t, s);
    } else {
      assert r == Anonymous;
      assert '<' !in r;
    }
    NoTagIndices(r);
  }

  /* ------------------------------ The fallback label ---------------------- */

  /** The characters of "Anónimo" that matter to the passes. */
  lemma AnonymousChars(a: string)
    requires a == Anonymous
    ensures |a| == 7 && Avoids(a, '<') && Avoids(a, 'j') && Avoids(a[..6], 'o')
    ensures !IsWs(a[0]) && !IsWs(a[6])
  {
  }

  /** No pass finds anything to delete in "Anónimo". */
  lemma AnonymousNoMatch(rule: Rule)
    ensures NoMatch(rule, Anonymous)
  {
    var a := Anonymous;
    AnonymousChars(a);
    if rule != EventHandler {
      AvoidsNoMatch(rule, a);
    } else {
      forall k | 0 <= k < |a| ensures MatchLen(EventHandler, a[k..]) == 0 {
        MatchStartsWithLead(EventHandler, a[k..]);
        if k < 6 {
          assert a[k..][0] == a[..6][k];
        }
      }
    }
  }

  /** A text in which no pass finds anything is kept by all four. */
  lemma StripKeeps(s: string)
    requires forall rule: Rule :: NoMatch(rule, s)
    ensures Strip(s) == s
  {
    DeleteAllUnchanged(ScriptBlock, s);
    DeleteAllUnchanged(AnyTag, s);
    DeleteAllUnchanged(JsProtocol, s);
    DeleteAllUnchanged(EventHandler, s);
  }

  /** The fallback label passes through the cleaning chain unchanged. */
  lemma AnonymousIsClean()
    ensures Clean(Anonymous) == Anonymous
  {
    forall rule: Rule ensures NoMatch(rule, Anonymous) {
      AnonymousNoMatch(rule);
    }
    StripKeeps(Anonymous);
    AnonymousChars(Anonymous);
    TrimNoEdges(Anonymous);
  }

  /* ----------------------- Passes on texts of known shape ----------------- */

  /** The character every match of `rule` starts with, once lower-cased. */
  function Lead(rule: Rule): char
  {
    match rule
    case ScriptBlock => '<'
    case AnyTag => '<'
    case JsProtocol => 'j'
    case EventHandler => 'o'
  }

  lemma MatchStartsWithLead(rule: Rule, s: string)
    ensures MatchLen(rule, s) > 0 ==> Lower(s[0]) == Lead(rule)
  {
    if MatchLen(rule, s) > 0 {
      match rule
      case ScriptBlock => assert StartsWithCI(s, "<" + "script");
      case AnyTag =>
      case JsProtocol => assert StartsWithCI(s, Protocol);
      case EventHandler => assert StartsWithCI(s, "on");
    }
  }

  /** No character of `s` lower-cases to `c`. */
  predicate Avoids(s: string, c: char)
  {
    forall i :: 0 <= i < |s| ==> Lower(s[i]) != c
  }

  lemma AvoidsConcat(a: string, b: string, c: char)
    requires Avoids(a, c) && Avoids(b, c)
    ensures Avoids(a + b, c)
  {
  }

  /** A text in which the leading character of a pattern never occurs holds no match of it. */
  lemma AvoidsNoMatch(rule: Rule, s: string)
    requires Avoids(s, Lead(rule))
    ensures NoMatch(rule, s)
  {
    forall k | 0 <= k < |s| ensures MatchLen(rule, s[k..]) == 0 {
      MatchStartsWithLead(rule, s[k..]);
    }
  }

  /** No `<` in `s` is followed by an `s` or `S`: no script block can start. */
  predicate ScriptFree(s: string)
  {
    forall k :: 0 <= k < |s| && s[k] == '<' ==> k + 1 < |s| && Lower(s[k + 1]) != 's'
  }

  lemma ScriptFreeConcat(a: string, b: string)
    requires ScriptFree(a) && ScriptFree(b)
    ensures ScriptFree(a + b)
  {
    forall k | 0 <= k < |a + b| && (a + b)[k] == '<'
      ensures k + 1 < |a + b| && Lower((a + b)[k + 1]) != 's'
    {
      if k < |a| {
        assert a[k] == '<';
      } else {
        assert b[k - |a|] == '<';
      }
    }
  }

  /** A script block starts with `<` and an `s` in either case. */
  lemma ScriptBlockStart(t: string)
    ensures ScriptBlockLen(t) > 0 ==> 2 <= |t| && t[0] == '<' && Lower(t[1]) == 's'
  {
    if ScriptBlockLen(t) > 0 {
      assert StartsWithCI(t, "<" + "script");
    }
  }

  lemma ScriptFreeNoMatch(s: string)
    requires ScriptFree(s)
    ensures NoMatch(ScriptBlock, s)
  {
    forall k | 0 <= k < |s| ensures MatchLen(ScriptBlock, s[k..]) == 0 {
      ScriptBlockStart(s[k..]);
      assert |s[k..]| >= 2 ==> s[k..][1] == s[k + 1];
    }
  }

  /** With no `>` inside, `<inner>` is one whole tag: the tag pass deletes it and goes on after it. */
  lemma TagThenRest(inner: string, rest: string)
    requires '>' !in inner
    ensures DeleteAll(AnyTag, "<" + inner + ">" + rest) == DeleteAll(AnyTag, rest)
  {
    var s := "<" + inner + ">" + rest;
    var t := s[1..];
    assert t == inner + ">" + rest;
    assert t[..|inner|] == inner;
    IndexOfFirst(t, '>', |inner|);
    assert s[|inner| + 2..] == rest;
  }

  /** `javascript:` at the start is deleted and the pass goes on after it. */
  lemma ProtocolThenRest(rest: string)
    ensures DeleteAll(JsProtocol, Protocol + rest) == DeleteAll(JsProtocol, rest)
  {
    var s := Protocol + rest;
    assert forall i :: 0 <= i < |Protocol| ==> Lower(s[i]) == Protocol[i];
    assert s[|Protocol|..] == rest;
  }

  /** A same-line script block whose body holds no `<` is deleted whole. */
  lemma ScriptBlockThenRest(body: string, rest: string)
    requires '<' !in body && NoLineTerminator(body)
    ensures DeleteAll(ScriptBlock, "<script>" + body + ScriptClose + rest) == DeleteAll(ScriptBlock, rest)
  {
    var s := "<script>" + body + ScriptClose + rest;
    assert forall i :: 0 <= i < 7 ==> Lower(s[i]) == ("<" + "script")[i];
    assert s[7..][0] == '>';
    assert OpenTagLen(s, "script") == 8;
    assert s[8..] == body + ScriptClose + rest;
    LazyCloseAfter(body, rest);
    assert s[8 + |body| + 9..] == rest;
  }

  /** A text in which no pass finds anything, without edge spaces and within 50 characters, is kept. */
  lemma CleanKeeps(s: string)
    requires Avoids(s, '<') && Avoids(s, 'j') && Avoids(s, 'o')
    requires |s| <= MaxLength && (s != [] ==> !IsWs(s[0]) && !IsWs(s[|s| - 1]))
    ensures Strip(s) == s && Clean(s) == s
  {
    AvoidsNoMatch(ScriptBlock, s);
    AvoidsNoMatch(AnyTag, s);
    AvoidsNoMatch(JsProtocol, s);
    AvoidsNoMatch(EventHandler, s);
    DeleteAllUnchanged(ScriptBlock, s);
    DeleteAllUnchanged(AnyTag, s);
    DeleteAllUnchanged(JsProtocol, s);
    DeleteAllUnchanged(EventHandler, s);
    TrimNoEdges(s);
  }
}
