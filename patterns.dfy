/**
 * The fixed regular expressions of the sanitiser and of the injection detector, each
 * hand-coded as a scanner that answers "how long is the match that starts here" (0 when
 * there is none). All of them are literal or anchored at their first character, so the
 * answer is the one JavaScript's backtracking engine gives.
 */
module Patterns {
  import opened Text

  /**
   * `<name[^>]*>` with the `i` flag: `<` and the tag name in any case, then everything up
   * to the first `>`, which ends the match (`[^>]*` may cross lines).
   */
  function OpenTagLen(s: string, name: string): (n: nat)
    ensures n <= |s|
    ensures n > 0 ==> StartsWithCI(s, "<" + name) && |name| + 2 <= n && s[n - 1] == '>'
                      && '>' !in s[|name| + 1..n - 1]
    ensures n == 0 ==> !StartsWithCI(s, "<" + name) || '>' !in s[|name| + 1..]
  {
    if StartsWithCI(s, "<" + name) then
      match IndexOf(s[|name| + 1..], '>')
      case None => 0
      case Some(k) =>
        assert s[|name| + 1..][..k] == s[|name| + 1..|name| + 1 + k];
        |name| + 2 + k
    else 0
  }

  const ScriptClose := "</script>"

  /**
   * The lazy tail `.*?<\/script>` with the `i` flag: the first position `k` where
   * `</script>` begins, provided no line terminator comes before it.
   */
  function LazyClose(t: string): (r: Option<nat>)
    ensures r.Some? ==> r.value + |ScriptClose| <= |t| && StartsWithCI(t[r.value..], ScriptClose)
                        && NoLineTerminator(t[..r.value])
                        && forall j :: 0 <= j < r.value ==> !StartsWithCI(t[j..], ScriptClose)
    ensures r.None? ==> forall k :: 0 <= k <= |t| && NoLineTerminator(t[..k])
                                    ==> !StartsWithCI(t[k..], ScriptClose)
    decreases |t|
  {
    if StartsWithCI(t, ScriptClose) then Some(0)
    else if t == [] then None
    else if IsLineTerminator(t[0]) then
      assert forall k :: 1 <= k <= |t| ==> t[..k][0] == t[0];
      None
    else
      ShiftOne(t);
      match LazyClose(t[1..])
      case None => None
      case Some(k) => Some(k + 1)
  }

  /** How the suffixes and prefixes of `t` relate to those of `t[1..]`. */
  lemma ShiftOne(t: string)
    requires t != [] && !IsLineTerminator(t[0])
    ensures forall k :: 1 <= k <= |t| ==> t[k..] == t[1..][k - 1..]
    ensures forall k :: 1 <= k <= |t| ==> (NoLineTerminator(t[..k]) <==> NoLineTerminator(t[1..][..k - 1]))
  {
    forall k | 1 <= k <= |t|
      ensures NoLineTerminator(t[..k]) <==> NoLineTerminator(t[1..][..k - 1])
    {
      assert t[..k] == [t[0]] + t[1..][..k - 1];
    }
  }

  /**
   * `<script[^>]*>.*?<\/script>` with the `i` flag: an opening script tag, then the
   * shortest same-line run that reaches `</script>`.
   */
  function ScriptBlockLen(s: string): (n: nat)
    ensures n <= |s|
    ensures n > 0 ==> OpenTagLen(s, "script") > 0
                      && LazyClose(s[OpenTagLen(s, "script")..]).Some?
                      && n == OpenTagLen(s, "script") + LazyClose(s[OpenTagLen(s, "script")..]).value + 9
    ensures n == 0 ==> OpenTagLen(s, "script") == 0 || LazyClose(s[OpenTagLen(s, "script")..]).None?
  {
    var open := OpenTagLen(s, "script");
    if open == 0 then 0
    else
      match LazyClose(s[open..])
      case None => 0
      case Some(k) => open + k + 9
  }

  /** `<[^>]*>`: a `<` and everything up to the first `>` after it. */
  function TagLen(s: string): (n: nat)
    ensures n <= |s|
    ensures n > 0 ==> s[0] == '<' && 2 <= n && s[n - 1] == '>' && '>' !in s[1..n - 1]
    ensures n == 0 ==> s == [] || s[0] != '<' || '>' !in s[1..]
  {
    if s != [] && s[0] == '<' then
      match IndexOf(s[1..], '>')
      case None => 0
      case Some(k) => assert s[1..][..k] == s[1..1 + k]; k + 2
    else 0
  }

  const Protocol := "javascript:"

  /** `javascript:` with the `i` flag. */
  function ProtocolLen(s: string): (n: nat)
    ensures n <= |s|
    ensures n > 0 <==> StartsWithCI(s, Protocol)
    ensures n > 0 ==> n == |Protocol|
  {
    if StartsWithCI(s, Protocol) then |Protocol| else 0
  }

  /**
   * `on\w+=` with the `i` flag: `on`, the whole run of word characters after it
   * (at least one), and `=` right after that run.
   */
  function HandlerLen(s: string): (n: nat)
    ensures n <= |s|
    ensures n > 0 ==> 4 <= n && StartsWithCI(s, "on") && s[n - 1] == '='
                      && forall i :: 2 <= i < n - 1 ==> IsWordChar(s[i])
    ensures n == 0 ==> !StartsWithCI(s, "on") || WordRun(s[2..]) == 0
                       || 2 + WordRun(s[2..]) == |s| || s[2 + WordRun(s[2..])] != '='
  {
    if StartsWithCI(s, "on") then
      var w := WordRun(s[2..]);
      if w > 0 && 2 + w < |s| && s[2 + w] == '=' then 3 + w else 0
    else 0
  }

  /** A handler match is exactly `on`, a word run and `=`: no shorter or longer span matches. */
  lemma HandlerLenExact(s: string, w: nat)
    requires 2 + w < |s| && StartsWithCI(s, "on") && w > 0 && s[2 + w] == '='
    requires forall i :: 2 <= i < 2 + w ==> IsWordChar(s[i])
    ensures HandlerLen(s) == 3 + w
  {
    assert s[2..][w] == '=';
  }

  /**
   * After an opening tag, `.*?<\/script>` over a same-line text without `<` stops at the
   * `</script>` that follows it.
   */
  lemma {:induction false} LazyCloseAfter(body: string, rest: string)
    requires '<' !in body && NoLineTerminator(body)
    ensures LazyClose(body + ScriptClose + rest) == Some(|body|)
    decreases |body|
  {
    var t := body + ScriptClose + rest;
    if body == [] {
      assert t == ScriptClose + rest;
      assert forall i :: 0 <= i < |ScriptClose| ==> Lower(ScriptClose[i]) == ScriptClose[i];
    } else {
      assert t[0] == body[0] && Lower(t[0]) != '<';
      assert t[1..] == body[1..] + ScriptClose + rest;
      LazyCloseAfter(body[1..], rest);
    }
  }
}
