/** `validateColor` (libs/unalib.js): keep a six-digit hex colour, replace anything else by black. */
module Color {
  import opened Text
  import opened Json

  const DefaultColor := "#000000"

  predicate IsHexDigit(c: char)
  {
    '0' <= c <= '9' || 'a' <= c <= 'f' || 'A' <= c <= 'F'
  }

  /** `/^#[0-9A-F]{6}$/i` matches the whole text. */
  predicate IsHexColor(s: string)
  {
    |s| == 7 && s[0] == '#' && forall i :: 1 <= i < 7 ==> IsHexDigit(s[i])
  }

  /**
   * `validateColor(color)`: the regular expression tests `String(color)`; on success the
   * value itself is returned (so a one-element array holding a colour survives as an
   * array), otherwise "#000000". The value is kept exactly when its text is a colour, and
   * the result's text always is one. Where `String(color)` throws (`ToTextThrows`) the
   * test throws instead; that case is decided by the caller, `Message.ValidateMessage`.
   */
  function ValidateColor(color: Value): (r: Value)
    ensures r == color <==> IsHexColor(ToText(color))
    ensures r != color ==> r == Str(DefaultColor)
    ensures IsHexColor(ToText(r))
  {
    if IsHexColor(ToText(color)) then color else Str(DefaultColor)
  }

  /** Validating a validated colour changes nothing. */
  lemma ValidateColorIdempotent(color: Value)
    ensures ValidateColor(ValidateColor(color)) == ValidateColor(color)
  {
  }

  /**
   * Only strings and arrays can pass: `null`, booleans, numbers and objects always give
   * black, since their texts never start with `#`.
   */
  lemma ScalarColorIsDefault(color: Value)
    requires color.Null? || color.Bool? || color.Num? || color.Obj?
    ensures ValidateColor(color) == Str(DefaultColor)
  {
    var t := ToText(color);
    if color.Num? {
      assert t[0] == '-' || IsDigit(t[0]);
    } else if color.Null? {
      assert t[0] == 'n';
    } else if color.Obj? {
      assert t[0] == '[';
    } else {
      assert t[0] == 't' || t[0] == 'f';
    }
  }

  /** A one-element array whose element is a colour string is returned as the array. */
  lemma ArrayColorKept(s: string)
    requires IsHexColor(s)
    ensures ValidateColor(Arr([Str(s)])) == Arr([Str(s)])
  {
    var a := Arr([Str(s)]);
    assert ToText(Str(s)) == s;
    assert JoinTexts([Str(s)], a) == s;
    assert ToText(a) == s;
  }
}
