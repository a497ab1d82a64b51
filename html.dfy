/**
 * Python's `html.escape(s)` (with its default `quote=True`): `&`, `<`, `>`, `"`
 * and `'` become `&amp;`, `&lt;`, `&gt;`, `&quot;` and `&#x27;`. The library
 * applies five `str.replace` calls in turn, `&` first, so no inserted `&` is
 * escaped again; that is the same as replacing each character on its own,
 * which is how it is written here.
 */
module Html {

  predicate IsSpecial(c: char)
  {
    c == '&' || c == '<' || c == '>' || c == '"' || c == '\''
  }

  function EscapeChar(c: char): (r: string)
    ensures |r| >= 1
    ensures IsSpecial(c) <==> |r| > 1
    ensures !IsSpecial(c) ==> r == [c]
    ensures '<' !in r && '>' !in r && '"' !in r && '\'' !in r
  {
    match c
    case '&' => "&amp;"
    case '<' => "&lt;"
    case '>' => "&gt;"
    case '"' => "&quot;"
    case '\'' => "&#x27;"
    case _ => [c]
  }

  /** `html.escape(s)`. */
  function Escape(s: string): string
    decreases |s|
  {
    if s == [] then [] else EscapeChar(s[0]) + Escape(s[1..])
  }

  /**
   * Escaped text holds no `<`, `>`, `"` or `'`, is never shorter than the
   * input, and is empty only for empty input.
   */
  lemma {:induction false} EscapeSpec(s: string)
    ensures var r := Escape(s);
      '<' !in r && '>' !in r && '"' !in r && '\'' !in r
      && |r| >= |s|
      && (r == [] <==> s == [])
    decreases |s|
  {
    if s != [] {
      EscapeSpec(s[1..]);
      var e := EscapeChar(s[0]);
      assert Escape(s) == e + Escape(s[1..]);
    }
  }

  /** Escaping changes a text exactly when it holds one of the five special characters. */
  lemma {:induction false} EscapeUnchanged(s: string)
    ensures Escape(s) == s <==> forall i :: 0 <= i < |s| ==> !IsSpecial(s[i])
    decreases |s|
  {
    if s != [] {
      EscapeUnchanged(s[1..]);
      EscapeSpec(s[1..]);
      assert s == [s[0]] + s[1..];
      if IsSpecial(s[0]) {
        assert |Escape(s)| > |s|;
      } else if Escape(s) == s {
        assert Escape(s[1..]) == s[1..];
      }
    }
  }

  /** Reference decoder for the five entities `Escape` writes; any other text is kept. */
  function Unescape(s: string): string
    decreases |s|
  {
    if s == [] then []
    else if "&amp;" <= s then "&" + Unescape(s[5..])
    else if "&lt;" <= s then "<" + Unescape(s[4..])
    else if "&gt;" <= s then ">" + Unescape(s[4..])
    else if "&quot;" <= s then "\"" + Unescape(s[6..])
    else if "&#x27;" <= s then "'" + Unescape(s[6..])
    else [s[0]] + Unescape(s[1..])
  }

  /** Decoding an escaped character followed by any text gives the character back first. */
  lemma UnescapeChar(c: char, t: string)
    ensures Unescape(EscapeChar(c) + t) == [c] + Unescape(t)
  {
    var e := EscapeChar(c);
    var u := e + t;
    assert u[|e|..] == t;
    assert e <= u;
    if !IsSpecial(c) {
      assert u[0] == c && c != '&';
      assert u[1..] == t;
    } else if c == '<' {
      assert u[1] == 'l' && !("&amp;" <= u);
    } else if c == '>' {
      assert u[1] == 'g' && !("&amp;" <= u) && !("&lt;" <= u);
    } else if c == '"' {
      assert u[1] == 'q' && !("&amp;" <= u) && !("&lt;" <= u) && !("&gt;" <= u);
    } else if c == '\'' {
      assert u[1] == '#' && !("&amp;" <= u) && !("&lt;" <= u) && !("&gt;" <= u) && !("&quot;" <= u);
    }
  }

  /** Escaping loses nothing: the escaped text decodes back to the original. */
  lemma {:induction false} UnescapeEscape(s: string)
    ensures Unescape(Escape(s)) == s
    decreases |s|
  {
    if s != [] {
      UnescapeEscape(s[1..]);
      UnescapeChar(s[0], Escape(s[1..]));
      assert s == [s[0]] + s[1..];
    }
  }
}
