/**
 * JavaScript string primitives used by the chat library: the character classes of
 * its regular expressions (`\s`, `.`, `\w`), ASCII case folding as the `i` flag does it,
 * `indexOf`, `includes`, `trim`, `substring(0, n)`, and the number-to-text conversion
 * of template literals. A character is a Unicode scalar value; the texts modelled are
 * made of Basic Multilingual Plane characters, where one character is one UTF-16 code unit.
 */
module Text {

  datatype Option<T> = None | Some(value: T)

  /** The line terminators: the characters `.` does not match. */
  predicate IsLineTerminator(c: char)
  {
    c == '\n' || c == '\r' || c == '\U{2028}' || c == '\U{2029}'
  }

  /** The class `\s`: WhiteSpace and LineTerminator; also what `trim` removes. */
  predicate IsWs(c: char)
  {
    c == '\t' || c == '\U{B}' || c == '\U{C}' || c == ' ' || c == '\U{A0}' || c == '\U{FEFF}'
    || c == '\U{1680}' || ('\U{2000}' <= c <= '\U{200A}') || c == '\U{202F}' || c == '\U{205F}'
    || c == '\U{3000}' || IsLineTerminator(c)
  }

  /** The class `\w` without the `u` flag: `[A-Za-z0-9_]`. */
  predicate IsWordChar(c: char)
  {
    ('A' <= c <= 'Z') || ('a' <= c <= 'z') || ('0' <= c <= '9') || c == '_'
  }

  /** ASCII lower-casing; without the `u` flag the `i` flag never folds other characters onto ASCII. */
  function Lower(c: char): (r: char)
    ensures 'A' <= c <= 'Z' ==> 'a' <= r <= 'z'
    ensures !('A' <= c <= 'Z') ==> r == c
  {
    if 'A' <= c <= 'Z' then (c as int + 32) as char else c
  }

  /** No line terminator occurs in `s`: `.*` can span all of `s`. */
  predicate NoLineTerminator(s: string)
  {
    forall i :: 0 <= i < |s| ==> !IsLineTerminator(s[i])
  }

  /**
   * `s` begins with the pattern literal `lit` under the `i` flag. `lit` is written in lower
   * case, so a character matches when its ASCII lower-case form equals the literal's.
   */
  predicate StartsWithCI(s: string, lit: string)
  {
    |lit| <= |s| && forall i :: 0 <= i < |lit| ==> Lower(s[i]) == lit[i]
  }

  /** Some suffix of `s` begins with `lit` under the `i` flag: `/lit/i.test(s)`. */
  predicate ContainsCI(s: string, lit: string)
  {
    exists i :: 0 <= i <= |s| && StartsWithCI(s[i..], lit)
  }

  /** `s.includes(lit)`: case-sensitive substring test. */
  predicate Includes(s: string, lit: string)
  {
    exists i :: 0 <= i <= |s| && lit <= s[i..]
  }

  /** `s.indexOf(c)` for one character. */
  function IndexOf(s: string, c: char): (r: Option<nat>)
    ensures r.Some? ==> r.value < |s| && s[r.value] == c && c !in s[..r.value]
    ensures r.None? <==> c !in s
  {
    if s == [] then None
    else if s[0] == c then Some(0)
    else match IndexOf(s[1..], c)
      case None => None
      case Some(k) => assert s[..k + 1] == [s[0]] + s[1..][..k]; Some(k + 1)
  }

  /** `indexOf` finds the first occurrence. */
  lemma {:induction false} IndexOfFirst(s: string, c: char, k: nat)
    requires k < |s| && s[k] == c && c !in s[..k]
    ensures IndexOf(s, c) == Some(k)
    decreases k
  {
    if k > 0 {
      assert s[0] == s[..k][0];
      assert s[1..][..k - 1] == s[1..k];
      assert forall i :: 0 <= i < k - 1 ==> s[1..k][i] == s[..k][i + 1];
      IndexOfFirst(s[1..], c, k - 1);
    }
  }

  /** `s.indexOf(lit)`: the first position where `lit` occurs, case-sensitively. */
  function IndexOfSeq(s: string, lit: string): (r: Option<nat>)
    ensures r.Some? ==> r.value + |lit| <= |s| && lit <= s[r.value..]
                        && forall j :: 0 <= j < r.value ==> !(lit <= s[j..])
    ensures r.None? ==> forall j :: 0 <= j <= |s| ==> !(lit <= s[j..])
    decreases |s|
  {
    if lit <= s then Some(0)
    else if s == [] then None
    else match IndexOfSeq(s[1..], lit)
      case None =>
        ShiftAbsent(s, lit, |s|);
        None
      case Some(k) =>
        ShiftAbsent(s, lit, k);
        assert s[k + 1..] == s[1..][k..];
        Some(k + 1)
  }

  /** `lit` starting nowhere in `s[1..][..n]` nor at the front of `s` starts nowhere in `s[..n + 1]`. */
  lemma ShiftAbsent(s: string, lit: string, n: nat)
    requires s != [] && n <= |s| && !(lit <= s)
    requires forall j :: 0 <= j < n ==> !(lit <= s[1..][j..])
    ensures forall j :: 0 <= j < n + 1 ==> !(lit <= s[j..])
  {
    forall j | 0 <= j < n + 1 ensures !(lit <= s[j..]) {
      if j == 0 {
        assert s[0..] == s;
      } else {
        assert s[j..] == s[1..][j - 1..];
      }
    }
  }

  /** The length of the longest run of `\w` characters that starts `s`. */
  function WordRun(s: string): (n: nat)
    ensures n <= |s|
    ensures forall i :: 0 <= i < n ==> IsWordChar(s[i])
    ensures n < |s| ==> !IsWordChar(s[n])
  {
    if s != [] && IsWordChar(s[0]) then 1 + WordRun(s[1..]) else 0
  }

  /** The index of the first line terminator of `s`, or `|s|`: how far `.*` can reach. */
  function LineEnd(s: string): (n: nat)
    ensures n <= |s| && NoLineTerminator(s[..n])
    ensures n < |s| ==> IsLineTerminator(s[n])
  {
    if s == [] || IsLineTerminator(s[0]) then 0
    else
      var n := 1 + LineEnd(s[1..]);
      assert s[..n] == [s[0]] + s[1..][..n - 1];
      n
  }

  /** The leading-whitespace half of `trim`. */
  function TrimStart(s: string): (r: string)
    ensures |r| <= |s| && r == s[|s| - |r|..]
    ensures forall i :: 0 <= i < |s| - |r| ==> IsWs(s[i])
    ensures r != [] ==> !IsWs(r[0])
  {
    if s != [] && IsWs(s[0]) then
      var r := TrimStart(s[1..]);
      WsFront(s, |s| - 1 - |r|);
      assert s[|s| - |r|..] == s[1..][|s| - 1 - |r|..];
      r
    else s
  }

  /** A whitespace character in front of `n` more keeps the front all whitespace. */
  lemma WsFront(s: string, n: nat)
    requires n < |s| && IsWs(s[0]) && forall i :: 0 <= i < n ==> IsWs(s[1..][i])
    ensures forall i :: 0 <= i < n + 1 ==> IsWs(s[i])
  {
    forall i | 1 <= i < n + 1 ensures IsWs(s[i]) { assert s[i] == s[1..][i - 1]; }
  }

  /** The trailing-whitespace half of `trim`. */
  function TrimEnd(s: string): (r: string)
    ensures |r| <= |s| && r == s[..|r|]
    ensures forall i :: |r| <= i < |s| ==> IsWs(s[i])
    ensures r != [] ==> !IsWs(r[|r| - 1])
  {
    if s != [] && IsWs(s[|s| - 1]) then TrimEnd(s[..|s| - 1]) else s
  }

  /**
   * `s.trim()`: the slice of `s` left once every leading and trailing whitespace
   * character is removed; it neither begins nor ends with whitespace.
   */
  function Trim(s: string): (r: string)
    ensures var a := LeadingWs(s);
            a + |r| <= |s| && r == s[a..a + |r|]
            && (forall i :: 0 <= i < a ==> IsWs(s[i]))
            && (forall i :: a + |r| <= i < |s| ==> IsWs(s[i]))
    ensures r != [] ==> !IsWs(r[0]) && !IsWs(r[|r| - 1])
  {
    var t := TrimStart(s);
    var r := TrimEnd(t);
    TrimShape(s, t, r, LeadingWs(s));
    r
  }

  /** A slice of `s` with whitespace on both sides and at neither of its own edges. */
  lemma TrimShape(s: string, t: string, r: string, a: nat)
    requires a <= |s| && t == s[a..] && (forall i :: 0 <= i < a ==> IsWs(s[i])) && (t != [] ==> !IsWs(t[0]))
    requires |r| <= |t| && r == t[..|r|] && (forall i :: |r| <= i < |t| ==> IsWs(t[i]))
    requires r != [] ==> !IsWs(r[|r| - 1])
    ensures a + |r| <= |s| && r == s[a..a + |r|]
            && (forall i :: 0 <= i < a ==> IsWs(s[i]))
            && (forall i :: a + |r| <= i < |s| ==> IsWs(s[i]))
    ensures r != [] ==> !IsWs(r[0]) && !IsWs(r[|r| - 1])
  {
    TrimSlice(s, t, a, r);
    if r != [] {
      assert r[0] == t[0];
    }
  }

  /** A prefix `r` of the suffix `t == s[a..]`, all of whose remainder is whitespace. */
  lemma TrimSlice(s: string, t: string, a: nat, r: string)
    requires a <= |s| && t == s[a..] && |r| <= |t| && r == t[..|r|]
    requires forall i :: |r| <= i < |t| ==> IsWs(t[i])
    ensures a + |r| <= |s| && r == s[a..a + |r|]
    ensures forall i :: a + |r| <= i < |s| ==> IsWs(s[i])
  {
    forall i | a + |r| <= i < |s| ensures IsWs(s[i]) { assert s[i] == t[i - a]; }
  }

  /** A text that neither begins nor ends with whitespace is its own trim. */
  lemma TrimNoEdges(s: string)
    requires s != [] ==> !IsWs(s[0]) && !IsWs(s[|s| - 1])
    ensures Trim(s) == s
  {
    assert TrimStart(s) == s;
    assert TrimEnd(s) == s;
  }

  /** How many whitespace characters `trim` removes from the front of `s`. */
  function LeadingWs(s: string): (a: nat)
    ensures a <= |s|
  {
    |s| - |TrimStart(s)|
  }

  /** `s.substring(0, n)` (equally `s.slice(0, n)`) for a non-negative `n`. */
  function Prefix(s: string, n: nat): (r: string)
    ensures |r| == if |s| <= n then |s| else n
    ensures r <= s
  {
    if |s| <= n then s else s[..n]
  }

  /* ----------------------------- Subsequences ----------------------------- */

  /** `r` is obtained from `s` by deleting characters, keeping the order of the rest. */
  predicate SubseqOf(r: string, s: string)
    decreases |s|
  {
    if r == [] then true
    else if s == [] then false
    else (r[0] == s[0] && SubseqOf(r[1..], s[1..])) || SubseqOf(r, s[1..])
  }

  lemma {:induction false} SubseqOfSelf(s: string)
    ensures SubseqOf(s, s)
    decreases |s|
  {
    if s != [] { SubseqOfSelf(s[1..]); }
  }

  /** A subsequence of a suffix of `s` is a subsequence of `s`. */
  lemma {:induction false} SubseqOfSuffix(r: string, s: string, k: nat)
    requires k <= |s| && SubseqOf(r, s[k..])
    ensures SubseqOf(r, s)
    decreases k
  {
    if k > 0 {
      assert s[k..] == s[1..][k - 1..];
      SubseqOfSuffix(r, s[1..], k - 1);
    }
  }

  /** Every prefix of `s` is a subsequence of `s`. */
  lemma {:induction false} SubseqOfPrefix(s: string, n: nat)
    requires n <= |s|
    ensures SubseqOf(s[..n], s)
    decreases n
  {
    if n > 0 {
      assert s[..n][1..] == s[1..][..n - 1];
      SubseqOfPrefix(s[1..], n - 1);
    }
  }

  /** Every slice of `s` is a subsequence of `s`. */
  lemma SubseqOfSlice(s: string, a: nat, b: nat)
    requires a <= b <= |s|
    ensures SubseqOf(s[a..b], s)
  {
    SubseqOfPrefix(s[a..], b - a);
    assert s[a..][..b - a] == s[a..b];
    SubseqOfSuffix(s[a..b], s, a);
  }

  /** `trim` keeps a slice, hence a subsequence. */
  lemma TrimSubseq(s: string)
    ensures SubseqOf(Trim(s), s)
  {
    var a := LeadingWs(s);
    SubseqOfSlice(s, a, a + |Trim(s)|);
  }

  /** `substring(0, n)` keeps a prefix, hence a subsequence. */
  lemma PrefixSubseq(s: string, n: nat)
    ensures SubseqOf(Prefix(s, n), s)
  {
    var r := Prefix(s, n);
    SubseqOfPrefix(s, |r|);
    assert s[..|r|] == r;
  }

  /** Keeping a character in front of a subsequence gives a subsequence. */
  lemma SubseqOfCons(c: char, r: string, s: string)
    requires SubseqOf(r, s)
    ensures SubseqOf([c] + r, [c] + s)
  {
    assert ([c] + r)[1..] == r;
    assert ([c] + s)[1..] == s;
  }

  /** A subsequence holds no character its source does not hold. */
  lemma {:induction false} SubseqChars(r: string, s: string, c: char)
    requires SubseqOf(r, s) && c in r
    ensures c in s
    decreases |s|
  {
    if r[0] == s[0] && SubseqOf(r[1..], s[1..]) {
      if c != r[0] { SubseqChars(r[1..], s[1..], c); }
    } else {
      SubseqChars(r, s[1..], c);
    }
  }

  /** A subsequence is never longer than its source. */
  lemma {:induction false} SubseqLength(r: string, s: string)
    requires SubseqOf(r, s)
    ensures |r| <= |s|
    decreases |s|
  {
    if r != [] {
      if r[0] == s[0] && SubseqOf(r[1..], s[1..]) { SubseqLength(r[1..], s[1..]); }
      else { SubseqLength(r, s[1..]); }
    }
  }

  /** Subsequences compose. */
  lemma {:induction false} SubseqTrans(a: string, b: string, c: string)
    requires SubseqOf(a, b) && SubseqOf(b, c)
    ensures SubseqOf(a, c)
    decreases |c|
  {
    if a == [] {
    } else if b[0] == c[0] && SubseqOf(b[1..], c[1..]) {
      if a[0] == b[0] && SubseqOf(a[1..], b[1..]) {
        SubseqTrans(a[1..], b[1..], c[1..]);
      } else {
        SubseqTrans(a, b[1..], c[1..]);
        SubseqOfSuffix(a, c, 1);
      }
    } else {
      SubseqTrans(a, b, c[1..]);
      SubseqOfSuffix(a, c, 1);
    }
  }

  /* ------------------------------ Numerals -------------------------------- */

  predicate IsDigit(c: char) { '0' <= c <= '9' }

  function DigitValue(c: char): (d: nat)
    requires IsDigit(c)
    ensures d < 10
  {
    c as int - '0' as int
  }

  /** The decimal numeral of `n`, as `String(n)` and template literals write a non-negative integer. */
  function NatToDecimal(n: nat): (r: string)
    ensures |r| > 0 && forall i :: 0 <= i < |r| ==> IsDigit(r[i])
    ensures |r| > 1 ==> r[0] != '0'
  {
    if n < 10 then [('0' as int + n) as char]
    else NatToDecimal(n / 10) + [('0' as int + n % 10) as char]
  }

  /** The value a string of decimal digits denotes. */
  function DecimalValue(s: string): nat
    requires forall i :: 0 <= i < |s| ==> IsDigit(s[i])
  {
    if s == [] then 0 else 10 * DecimalValue(s[..|s| - 1]) + DigitValue(s[|s| - 1])
  }

  /** Reading back the numeral `NatToDecimal(n)` gives `n`. */
  lemma {:induction false} DecimalRoundTrip(n: nat)
    ensures DecimalValue(NatToDecimal(n)) == n
  {
    if n >= 10 {
      var r := NatToDecimal(n);
      assert r[..|r| - 1] == NatToDecimal(n / 10);
      DecimalRoundTrip(n / 10);
    }
  }

  /** `String(n)` for an integer `n`. */
  function IntToDecimal(n: int): (r: string)
    ensures |r| > 0 && forall i :: 0 <= i < |r| ==> IsDigit(r[i]) || (i == 0 && r[i] == '-')
    ensures (r[0] == '-') <==> n < 0
  {
    if n < 0 then "-" + NatToDecimal(-n) else NatToDecimal(n)
  }
}
