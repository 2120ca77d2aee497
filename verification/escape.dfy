/** `escapeHtml` (blog.js:213-217) sets the `textContent` of a fresh element
    and reads back its `innerHTML`. The HTML Standard's fragment serialisation
    ("escaping a string", outside attribute mode) turns the text into markup by
    replacing `&` with `&amp;`, U+00A0 with `&nbsp;`, `<` with `&lt;` and `>`
    with `&gt;`; every other character is kept. This module states that
    escape as a function on strings and proves it can be undone. */
module HtmlEscape {
  import opened Text

  const Nbsp: char := '\U{00A0}'

  function EscapeChar(c: char): string {
    if c == '&' then "&amp;"
    else if c == '<' then "&lt;"
    else if c == '>' then "&gt;"
    else if c == Nbsp then "&nbsp;"
    else [c]
  }

  /** The escaped text carries no raw `<` or `>`, so it cannot open or close
      a tag, and it is never shorter than the input. */
  function EscapeHtml(s: string): (r: string)
    ensures '<' !in r && '>' !in r
    ensures |r| >= |s|
  {
    if s == [] then [] else EscapeChar(s[0]) + EscapeHtml(s[1..])
  }

  /** The character reference `r` begins with, with its length, when it is
      one of the four the escape produces. */
  function DecodeRef(r: string): Option<(char, nat)> {
    if r == [] || r[0] != '&' then None
    else if StartsWith(r, "&amp;") then Some(('&', 5))
    else if StartsWith(r, "&lt;") then Some(('<', 4))
    else if StartsWith(r, "&gt;") then Some(('>', 4))
    else if StartsWith(r, "&nbsp;") then Some((Nbsp, 6))
    else None
  }

  /** Decoding of those four character references. */
  function UnescapeHtml(r: string): string
    decreases |r|
  {
    if r == [] then []
    else match DecodeRef(r)
      case Some((c, n)) => if 0 < n <= |r| then [c] + UnescapeHtml(r[n..]) else r
      case None => [r[0]] + UnescapeHtml(r[1..])
  }

  /** Escaping loses nothing: decoding the references gives the text back. */
  lemma {:induction false} UnescapeEscape(s: string)
    ensures UnescapeHtml(EscapeHtml(s)) == s
  {
    if s != [] {
      UnescapeChar(s[0], EscapeHtml(s[1..]));
      UnescapeEscape(s[1..]);
    }
  }

  lemma UnescapeChar(c: char, rest: string)
    ensures UnescapeHtml(EscapeChar(c) + rest) == [c] + UnescapeHtml(rest)
  {
    var e := EscapeChar(c);
    var r := e + rest;
    assert r[|e|..] == rest;
    if c == '&' || c == '<' || c == '>' || c == Nbsp {
      RefDecoded(c, rest);
      UnescapeStep(r, c, |e|);
    } else {
      assert r[0] == c && DecodeRef(r).None?;
    }
  }

  /** The reference the escape writes for a special character is read back
      as that character. */
  lemma RefDecoded(c: char, rest: string)
    requires c == '&' || c == '<' || c == '>' || c == Nbsp
    ensures DecodeRef(EscapeChar(c) + rest) == Some((c, |EscapeChar(c)|))
  {
    var e := EscapeChar(c);
    var r := e + rest;
    assert r[..|e|] == e;
    if c == '&' {
      assert StartsWith(r, "&amp;");
    } else if c == '<' {
      assert r[1] == 'l' && StartsWith(r, "&lt;");
    } else if c == '>' {
      assert r[1] == 'g' && StartsWith(r, "&gt;");
    } else {
      assert r[1] == 'n' && StartsWith(r, "&nbsp;");
    }
  }

  lemma UnescapeStep(r: string, c: char, n: nat)
    requires DecodeRef(r) == Some((c, n)) && 0 < n <= |r|
    ensures UnescapeHtml(r) == [c] + UnescapeHtml(r[n..])
  {
  }

  /** Text without `&`, `<`, `>` or U+00A0 is its own escape. */
  lemma {:induction false} EscapePlain(s: string)
    requires '&' !in s && '<' !in s && '>' !in s && Nbsp !in s
    ensures EscapeHtml(s) == s
  {
    if s != [] {
      assert s == [s[0]] + s[1..];
      EscapePlain(s[1..]);
    }
  }
}
