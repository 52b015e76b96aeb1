/**
 * `extractYouTubeId` (libs/unalib.js): the first match of
 *   (?:youtube\.com\/(?:[^\/]+\/.+\/|(?:v|e(?:mbed)?)\/|.*[?&]v=)|youtu\.be\/)([^"&?\/\s]{11})
 * (case-sensitive, not anchored), and its eleven-character capture. The backtracking
 * order is written out: at a start position the three `youtube.com/` alternatives are
 * tried in order, each greedy run from its longest length down, then `youtu.be/`.
 */
module YouTube {
  import opened Text

  const Domain := "youtube.com/"
  const Short := "youtu.be/"

  /** `[^"&?\/\s]`. */
  predicate IsIdChar(c: char)
  {
    c != '"' && c != '&' && c != '?' && c != '/' && !IsWs(c)
  }

  /** The capture `([^"&?\/\s]{11})` can start `t`. */
  predicate IdAt(t: string)
  {
    11 <= |t| && forall i :: 0 <= i < 11 ==> IsIdChar(t[i])
  }

  /** An eleven-character video id. */
  predicate IsId(id: string)
  {
    |id| == 11 && forall i :: 0 <= i < 11 ==> IsIdChar(id[i])
  }

  /** The two alternatives that end in a backtracked greedy run. */
  datatype Form =
    | Segment  // `.+\/` then the id: the run ends at a `/` at position c >= 1
    | Query    // `.*[?&]v=` then the id: the run ends at position c

  /** The alternative `f` succeeds when its greedy run stops at `c`. */
  predicate FormAt(f: Form, t: string, c: nat)
  {
    match f
    case Segment => 1 <= c < |t| && t[c] == '/' && IdAt(t[c + 1..])
    case Query => c + 3 <= |t| && (t[c] == '?' || t[c] == '&') && t[c + 1] == 'v' && t[c + 2] == '='
                  && IdAt(t[c + 3..])
  }

  /** The longest run below `n` at which `f` succeeds: the greedy engine's choice. */
  function LastFormAt(f: Form, t: string, n: nat): (r: Option<nat>)
    ensures r.Some? ==> r.value < n && FormAt(f, t, r.value)
                        && forall c :: r.value < c < n ==> !FormAt(f, t, c)
    ensures r.None? ==> forall c :: 0 <= c < n ==> !FormAt(f, t, c)
    decreases n
  {
    if n == 0 then None
    else if FormAt(f, t, n - 1) then Some(n - 1)
    else LastFormAt(f, t, n - 1)
  }

  /** `[^\/]+\/.+\/` then the id, on the text `t` after `youtube.com/`. */
  function PathForm(t: string): (r: Option<string>)
    ensures r.Some? ==> IsId(r.value)
  {
    match IndexOf(t, '/')
    case None => None
    case Some(b) =>
      if b == 0 then None
      else
        var u := t[b + 1..];
        match LastFormAt(Segment, u, LineEnd(u))
        case None => None
        case Some(c) => Some(u[c + 1..c + 12])
  }

  /** `(?:v|e(?:mbed)?)\/` then the id. */
  function PrefixForm(t: string): (r: Option<string>)
    ensures r.Some? ==> IsId(r.value)
  {
    if "v/" <= t && IdAt(t[2..]) then Some(t[2..13])
    else if "embed/" <= t && IdAt(t[6..]) then Some(t[6..17])
    else if "e/" <= t && IdAt(t[2..]) then Some(t[2..13])
    else None
  }

  /** `.*[?&]v=` then the id. */
  function QueryForm(t: string): (r: Option<string>)
    ensures r.Some? ==> IsId(r.value)
  {
    match LastFormAt(Query, t, LineEnd(t))
    case None => None
    case Some(d) => Some(t[d + 3..d + 14])
  }

  /** The capture of a match that starts exactly at the beginning of `s`, if one does. */
  function MatchAt(s: string): (r: Option<string>)
    ensures r.Some? ==> IsId(r.value)
    ensures r.Some? ==> Domain <= s || Short <= s
  {
    var viaDomain :=
      if Domain <= s then
        var t := s[|Domain|..];
        if PathForm(t).Some? then PathForm(t)
        else if PrefixForm(t).Some? then PrefixForm(t)
        else QueryForm(t)
      else None;
    if viaDomain.Some? then viaDomain
    else if Short <= s && IdAt(s[|Short|..]) then Some(s[|Short|..|Short| + 11])
    else None
  }

  /**
   * `url.match(regex)` and its capture: the match at the leftmost position where one
   * starts. A found id has 11 characters, none of them `"`, `&`, `?`, `/` or whitespace,
   * and the url then contains `youtube.com/` or `youtu.be/`.
   */
  function ExtractYouTubeId(url: string): (r: Option<string>)
    ensures r.Some? ==> IsId(r.value)
    ensures r.Some? ==> exists k :: 0 <= k <= |url| && MatchAt(url[k..]) == r
                                    && forall j :: 0 <= j < k ==> MatchAt(url[j..]).None?
    ensures r.None? ==> forall k :: 0 <= k <= |url| ==> MatchAt(url[k..]).None?
    decreases |url|
  {
    if MatchAt(url).Some? then
      assert url[0..] == url;
      MatchAt(url)
    else if url == [] then
      assert forall k :: 0 <= k <= |url| ==> url[k..] == url;
      None
    else
      Shift(url);
      ExtractYouTubeId(url[1..])
  }

  /** The suffixes of `url[1..]` are those of `url` from position 1 on. */
  lemma Shift(url: string)
    requires url != []
    ensures forall k :: 1 <= k <= |url| ==> url[k..] == url[1..][k - 1..]
  {
  }

  /* ------------------------------- Properties ----------------------------- */

  /** A found id comes with `youtube.com/` or `youtu.be/` somewhere in the url. */
  lemma ExtractNeedsDomain(url: string)
    requires ExtractYouTubeId(url).Some?
    ensures Includes(url, Domain) || Includes(url, Short)
  {
    var k :| 0 <= k <= |url| && MatchAt(url[k..]) == ExtractYouTubeId(url);
    assert Domain <= url[k..] || Short <= url[k..];
  }

  /** No match can start inside a text without a `y`. */
  lemma NoMatchWithoutY(s: string)
    requires 'y' !in s
    ensures forall k :: 0 <= k <= |s| ==> MatchAt(s[k..]).None?
  {
    forall k | 0 <= k <= |s| ensures MatchAt(s[k..]).None? {
      if k < |s| {
        assert s[k..][0] == s[k];
      }
    }
  }

  /** The canonical watch url `https://www.youtube.com/watch?v=ID` yields `ID`. */
  lemma WatchUrlId(id: string)
    requires IsId(id)
    ensures ExtractYouTubeId("https://" + ("www." + Domain) + "watch?v=" + id) == Some(id)
  {
    var lead := "https://" + "www.";
    var url := lead + Domain + "watch?v=" + id;
    assert url == "https://" + ("www." + Domain) + "watch?v=" + id;
    var t := "watch?v=" + id;
    assert url[12..] == Domain + t;
    NoMatchWithoutY(lead);
    forall k | 0 <= k < 12 ensures MatchAt(url[k..]).None? {
      assert url[k..][0] == lead[k];
    }
    WatchTextId(t, id);
    assert MatchAt(url[12..]) == Some(id) by {
      assert Domain <= url[12..];
      assert url[12..][|Domain|..] == t;
    }
    LeftmostFrom(url, 12);
  }

  /** After `youtube.com/`, the text `watch?v=ID` is matched by the query alternative only. */
  lemma WatchTextId(t: string, id: string)
    requires IsId(id) && t == "watch?v=" + id
    ensures PathForm(t).None? && PrefixForm(t).None? && QueryForm(t) == Some(id)
  {
    assert '/' !in t by {
      forall i | 0 <= i < |t| ensures t[i] != '/' {
        if i >= 8 { assert t[i] == id[i - 8]; }
      }
    }
    assert LineEnd(t) == |t|;
    forall c | 5 < c < |t| ensures !FormAt(Query, t, c) {
      if c >= 8 { assert t[c] == id[c - 8]; }
    }
    assert t[8..] == id && t[8..19] == id;
    assert FormAt(Query, t, 5);
  }

  /** When no match starts before `k` and one starts at `k`, that one is the result. */
  lemma {:induction false} LeftmostFrom(url: string, k: nat)
    requires k <= |url| && MatchAt(url[k..]).Some?
    requires forall j :: 0 <= j < k ==> MatchAt(url[j..]).None?
    ensures ExtractYouTubeId(url) == MatchAt(url[k..])
    decreases k
  {
    if k == 0 {
      assert url[0..] == url;
    } else {
      assert url[0..] == url;
      Shift(url);
      forall j | 0 <= j < k - 1 ensures MatchAt(url[1..][j..]).None? {
        assert url[1..][j..] == url[j + 1..];
      }
      LeftmostFrom(url[1..], k - 1);
    }
  }
}
