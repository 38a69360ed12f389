/**
 * The terminal styles of `class Color` and `color_me`, which wraps a text
 * in a style's escape code and the reset code.
 */
module Colors {

  /** The attributes of `class Color`, by the name `color_me` looks up. */
  datatype Style =
    | Purple | Cyan | DarkCyan | Blue | Green | Yellow | Red | Bold | Underline | End

  /** An ANSI "select graphic rendition" sequence: ESC, `[`, decimal digits, `m`. */
  predicate IsSgr(code: string)
  {
    && |code| >= 4
    && code[0] == '\U{1B}' && code[1] == '['
    && code[|code| - 1] == 'm'
    && forall k :: 2 <= k < |code| - 1 ==> '0' <= code[k] <= '9'
  }

  /** The value of each attribute of `class Color`. */
  function Code(style: Style): (code: string)
    ensures IsSgr(code)
  {
    match style
    case Purple => "\U{1B}[95m"
    case Cyan => "\U{1B}[36m"
    case DarkCyan => "\U{1B}[36m"
    case Blue => "\U{1B}[34m"
    case Green => "\U{1B}[32m"
    case Yellow => "\U{1B}[33m"
    case Red => "\U{1B}[31m"
    case Bold => "\U{1B}[1m"
    case Underline => "\U{1B}[4m"
    case End => "\U{1B}[0m"
  }

  /**
   * `color_me(text, style)`: the style's code, then the text, then the
   * reset code; the style defaults to red.
   */
  function ColorMe(text: string, style: Style := Red): (r: string)
    ensures |r| == |Code(style)| + |text| + |Code(End)|
    ensures r[..|Code(style)|] == Code(style)
    ensures r[|Code(style)|..|r| - |Code(End)|] == text
    ensures r[|r| - |Code(End)|..] == Code(End)
  {
    Code(style) + text + Code(End)
  }

  /**
   * A text that starts with an SGR sequence determines that sequence: it
   * ends at the first `m`, which no sequence holds earlier.
   */
  lemma SgrPrefixUnique(c1: string, t1: string, c2: string, t2: string)
    requires IsSgr(c1) && IsSgr(c2)
    requires c1 + t1 == c2 + t2
    ensures c1 == c2 && t1 == t2
  {
    var r := c1 + t1;
    FirstM(c1, t1);
    FirstM(c2, t2);
    assert |c1| == |c2| by {
      assert r[|c1| - 1] == 'm' && r[|c2| - 1] == 'm';
    }
    assert c1 == r[..|c1|];
    assert c2 == r[..|c2|];
    assert t1 == r[|c1|..] == t2;
  }

  /** The first `m` of a text that starts with an SGR sequence is the sequence's last character. */
  lemma FirstM(c: string, t: string)
    requires IsSgr(c)
    ensures (c + t)[|c| - 1] == 'm'
    ensures forall k :: 0 <= k < |c| - 1 ==> (c + t)[k] != 'm'
  {
  }

  /** A coloured text determines both the escape code and the text. */
  lemma ColorMeInjective(t1: string, s1: Style, t2: string, s2: Style)
    requires ColorMe(t1, s1) == ColorMe(t2, s2)
    ensures Code(s1) == Code(s2) && t1 == t2
  {
    assert Code(s1) + (t1 + Code(End)) == Code(s2) + (t2 + Code(End));
    SgrPrefixUnique(Code(s1), t1 + Code(End), Code(s2), t2 + Code(End));
    assert t1 == (t1 + Code(End))[..|t1|];
  }

  /** Cyan and DarkCyan share a code; every other pair of styles is told apart. */
  lemma SameCodeOnlyForCyans(s1: Style, s2: Style)
    ensures Code(s1) == Code(s2) <==> s1 == s2 || (s1 in {Cyan, DarkCyan} && s2 in {Cyan, DarkCyan})
  {
  }
}
