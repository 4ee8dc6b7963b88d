/**
 * `xml.sax.saxutils.escape`, which `create_xml` applies to the key code and the
 * command before writing them into attribute values, together with its inverse
 * (the entity decoding an XML reader performs on attribute values).
 */
module Escape {

  /** `s.replace(target, replacement)` for a one-character `target`. */
  function ReplaceChar(s: string, target: char, replacement: string): string {
    if s == [] then [] else (if s[0] == target then replacement else [s[0]]) + ReplaceChar(s[1..], target, replacement)
  }

  /** `saxutils.escape(s)` as written: `&` first, then `>`, then `<`; quotes are left alone. */
  function Escape(s: string): string {
    ReplaceChar(ReplaceChar(ReplaceChar(s, '&', "&amp;"), '>', "&gt;"), '<', "&lt;")
  }

  /** What one character becomes under `Escape`. */
  function EntityOf(c: char): string {
    if c == '&' then "&amp;" else if c == '<' then "&lt;" else if c == '>' then "&gt;" else [c]
  }

  /** Character-by-character escaping, the reference the sequential replaces are measured against. */
  function EscapeChars(s: string): (r: string)
    ensures |r| >= |s|
  {
    if s == [] then [] else EntityOf(s[0]) + EscapeChars(s[1..])
  }

  /**
   * Decoding of the five predefined XML entities; every other character,
   * including a `&` that starts no entity, is kept.
   */
  function Unescape(s: string): string
    decreases |s|
  {
    if s == [] then []
    else if |s| >= 5 && s[..5] == "&amp;" then "&" + Unescape(s[5..])
    else if |s| >= 4 && s[..4] == "&lt;" then "<" + Unescape(s[4..])
    else if |s| >= 4 && s[..4] == "&gt;" then ">" + Unescape(s[4..])
    else if |s| >= 6 && s[..6] == "&quot;" then "\"" + Unescape(s[6..])
    else if |s| >= 6 && s[..6] == "&apos;" then "'" + Unescape(s[6..])
    else [s[0]] + Unescape(s[1..])
  }

  // ---------------------------------------------------------------------

  lemma {:induction false} ReplaceCharConcat(a: string, b: string, target: char, replacement: string)
    ensures ReplaceChar(a + b, target, replacement) == ReplaceChar(a, target, replacement) + ReplaceChar(b, target, replacement)
  {
    if a == [] {
      assert a + b == b;
    } else {
      assert (a + b)[1..] == a[1..] + b;
      ReplaceCharConcat(a[1..], b, target, replacement);
    }
  }

  lemma {:induction false} ReplaceCharAbsent(s: string, target: char, replacement: string)
    requires target !in s
    ensures ReplaceChar(s, target, replacement) == s
  {
    if s != [] {
      assert target !in s[1..] by {
        forall i | 0 <= i < |s[1..]| ensures s[1..][i] != target {
          assert s[1..][i] == s[i + 1];
        }
      }
      ReplaceCharAbsent(s[1..], target, replacement);
    }
  }

  lemma {:induction false} ReplaceOne(c: char, target: char, replacement: string)
    ensures ReplaceChar([c], target, replacement) == if c == target then replacement else [c]
  {
    assert [c][1..] == [];
  }

  /** The three sequential replaces act on each character independently, as `EntityOf` says. */
  lemma {:induction false} EscapeOneChar(c: char)
    ensures Escape([c]) == EntityOf(c)
  {
    ReplaceOne(c, '&', "&amp;");
    if c == '&' {
      ReplaceCharAbsent("&amp;", '>', "&gt;");
      ReplaceCharAbsent("&amp;", '<', "&lt;");
    } else {
      ReplaceOne(c, '>', "&gt;");
      if c == '>' {
        ReplaceCharAbsent("&gt;", '<', "&lt;");
      } else {
        ReplaceOne(c, '<', "&lt;");
      }
    }
  }

  /**
   * Replacing `&` first makes the sequential replaces equal to escaping each
   * character on its own: no entity written by a later replace is re-escaped.
   */
  lemma {:induction false} EscapeIsCharwise(s: string)
    ensures Escape(s) == EscapeChars(s)
  {
    if s != [] {
      assert s == [s[0]] + s[1..];
      ReplaceCharConcat([s[0]], s[1..], '&', "&amp;");
      var a := ReplaceChar([s[0]], '&', "&amp;");
      var b := ReplaceChar(s[1..], '&', "&amp;");
      ReplaceCharConcat(a, b, '>', "&gt;");
      ReplaceCharConcat(ReplaceChar(a, '>', "&gt;"), ReplaceChar(b, '>', "&gt;"), '<', "&lt;");
      EscapeOneChar(s[0]);
      EscapeIsCharwise(s[1..]);
    }
  }

  /** The order matters: replacing `<` before `&` would escape the new entity a second time. */
  lemma WrongOrderDoubleEscapes()
    ensures ReplaceChar(ReplaceChar("<", '<', "&lt;"), '&', "&amp;") == "&amp;lt;"
    ensures Escape("<") == "&lt;"
  {
    assert "<" == ['<'];
    ReplaceOne('<', '<', "&lt;");
    assert "&lt;" == "&" + "lt;";
    AmpEscapedAgain("lt;");
    assert "&amp;" + "lt;" == "&amp;lt;";
    EscapeOneChar('<');
  }

  /** Replacing `&` in text that starts with the `&` of an entity escapes that `&` again. */
  lemma {:induction false} AmpEscapedAgain(rest: string)
    requires '&' !in rest
    ensures ReplaceChar("&" + rest, '&', "&amp;") == "&amp;" + rest
  {
    assert "&" == ['&'];
    ReplaceCharConcat("&", rest, '&', "&amp;");
    ReplaceOne('&', '&', "&amp;");
    ReplaceCharAbsent(rest, '&', "&amp;");
  }

  /** Escaping distributes over concatenation. */
  lemma {:induction false} EscapeConcat(a: string, b: string)
    ensures Escape(a + b) == Escape(a) + Escape(b)
  {
    ReplaceCharConcat(a, b, '&', "&amp;");
    var a1, b1 := ReplaceChar(a, '&', "&amp;"), ReplaceChar(b, '&', "&amp;");
    ReplaceCharConcat(a1, b1, '>', "&gt;");
    ReplaceCharConcat(ReplaceChar(a1, '>', "&gt;"), ReplaceChar(b1, '>', "&gt;"), '<', "&lt;");
  }

  /** Text without `&`, `<` and `>` is left as it is. */
  lemma {:induction false} EscapeInert(s: string)
    requires '&' !in s && '<' !in s && '>' !in s
    ensures Escape(s) == s
  {
    ReplaceCharAbsent(s, '&', "&amp;");
    ReplaceCharAbsent(s, '>', "&gt;");
    ReplaceCharAbsent(s, '<', "&lt;");
  }

  /** Escaped text has no raw `<` or `>`, and quotes pass through unchanged. */
  lemma {:induction false} EscapeProperties(s: string)
    ensures forall i :: 0 <= i < |Escape(s)| ==> Escape(s)[i] != '<' && Escape(s)[i] != '>'
    ensures '"' in Escape(s) <==> '"' in s
    ensures '\n' in Escape(s) <==> '\n' in s
  {
    EscapeIsCharwise(s);
    EscapeCharsProperties(s);
  }

  /** Character-by-character escaping writes no `<` or `>`, and keeps quotes and line breaks exactly where the input has them. */
  lemma {:induction false} EscapeCharsProperties(s: string)
    ensures forall i :: 0 <= i < |EscapeChars(s)| ==> EscapeChars(s)[i] != '<' && EscapeChars(s)[i] != '>'
    ensures '"' in EscapeChars(s) <==> '"' in s
    ensures '\n' in EscapeChars(s) <==> '\n' in s
  {
    if s != [] {
      EscapeCharsProperties(s[1..]);
      var e, rest := EntityOf(s[0]), EscapeChars(s[1..]);
      assert EscapeChars(s) == e + rest;
      assert s == [s[0]] + s[1..];
      EntityOfProperties(s[0]);
      forall i | 0 <= i < |e + rest| ensures (e + rest)[i] != '<' && (e + rest)[i] != '>' {
        if i >= |e| {
          assert (e + rest)[i] == rest[i - |e|];
        }
      }
    }
  }

  /** The replacement of one character holds no `<` or `>`, and a quote or line break only for itself. */
  lemma EntityOfProperties(c: char)
    ensures forall i :: 0 <= i < |EntityOf(c)| ==> EntityOf(c)[i] != '<' && EntityOf(c)[i] != '>'
    ensures '"' in EntityOf(c) <==> c == '"'
    ensures '\n' in EntityOf(c) <==> c == '\n'
  {
  }

  lemma {:induction false} UnescapeAmp(rest: string)
    ensures Unescape("&amp;" + rest) == "&" + Unescape(rest)
  {
    var t := "&amp;" + rest;
    assert t[..5] == "&amp;" && t[5..] == rest;
  }

  lemma {:induction false} UnescapeLt(rest: string)
    ensures Unescape("&lt;" + rest) == "<" + Unescape(rest)
  {
    var t := "&lt;" + rest;
    assert t[..4] == "&lt;" && t[4..] == rest;
    assert !(|t| >= 5 && t[..5] == "&amp;") by {
      assert t[1] == 'l';
    }
  }

  lemma {:induction false} UnescapeGt(rest: string)
    ensures Unescape("&gt;" + rest) == ">" + Unescape(rest)
  {
    var t := "&gt;" + rest;
    assert t[..4] == "&gt;" && t[4..] == rest;
    assert !(|t| >= 5 && t[..5] == "&amp;") && t[..4] != "&lt;" by {
      assert t[1] == 'g';
    }
  }

  lemma {:induction false} UnescapePlain(c: char, rest: string)
    requires c != '&'
    ensures Unescape([c] + rest) == [c] + Unescape(rest)
  {
    var t := [c] + rest;
    assert t[0] == c && t[1..] == rest;
    NoEntityAt(t);
  }

  /** Text that does not start with `&` starts with none of the five entities. */
  lemma {:induction false} NoEntityAt(t: string)
    requires t != [] && t[0] != '&'
    ensures |t| < 5 || t[..5] != "&amp;"
    ensures |t| < 4 || (t[..4] != "&lt;" && t[..4] != "&gt;")
    ensures |t| < 6 || (t[..6] != "&quot;" && t[..6] != "&apos;")
  {
    if |t| >= 4 {
      assert t[..4][0] == t[0];
    }
    if |t| >= 5 {
      assert t[..5][0] == t[0];
    }
    if |t| >= 6 {
      assert t[..6][0] == t[0];
    }
  }

  /** Decoding undoes escaping. */
  lemma {:induction false} UnescapeEscapeChars(s: string)
    ensures Unescape(EscapeChars(s)) == s
  {
    if s != [] {
      var rest := EscapeChars(s[1..]);
      UnescapeEscapeChars(s[1..]);
      if s[0] == '&' {
        UnescapeAmp(rest);
      } else if s[0] == '<' {
        UnescapeLt(rest);
      } else if s[0] == '>' {
        UnescapeGt(rest);
      } else {
        UnescapePlain(s[0], rest);
      }
      assert s == [s[0]] + s[1..];
    }
  }

  /** Round trip: decoding what `saxutils.escape` wrote gives the original text. */
  lemma {:induction false} EscapeRoundTrip(s: string)
    ensures Unescape(Escape(s)) == s
  {
    EscapeIsCharwise(s);
    UnescapeEscapeChars(s);
  }

  /**
   * Attribute-safe escaping: `saxutils.escape` followed by replacing `"` with
   * `&quot;`, so that the text can sit inside a double-quoted attribute value.
   */
  function EscapeAttribute(s: string): string {
    ReplaceChar(Escape(s), '"', "&quot;")
  }

  /** What one character becomes under `EscapeAttribute`. */
  function AttributeEntityOf(c: char): string {
    if c == '"' then "&quot;" else EntityOf(c)
  }

  /** Character-by-character attribute escaping. */
  function EscapeAttributeChars(s: string): (r: string)
    ensures '"' !in r
  {
    if s == [] then [] else AttributeEntityOf(s[0]) + EscapeAttributeChars(s[1..])
  }

  /** On text without `"`, attribute escaping writes what `saxutils.escape` writes. */
  lemma {:induction false} AttributeAgrees(s: string)
    requires '"' !in s
    ensures EscapeAttribute(s) == Escape(s)
  {
    EscapeProperties(s);
    ReplaceCharAbsent(Escape(s), '"', "&quot;");
  }

  lemma {:induction false} QuoteAfterEscapeChars(s: string)
    ensures ReplaceChar(EscapeChars(s), '"', "&quot;") == EscapeAttributeChars(s)
  {
    if s != [] {
      ReplaceCharConcat(EntityOf(s[0]), EscapeChars(s[1..]), '"', "&quot;");
      if s[0] == '"' {
        ReplaceOne(s[0], '"', "&quot;");
      } else {
        ReplaceCharAbsent(EntityOf(s[0]), '"', "&quot;");
      }
      QuoteAfterEscapeChars(s[1..]);
    }
  }

  lemma {:induction false} UnescapeQuot(rest: string)
    ensures Unescape("&quot;" + rest) == "\"" + Unescape(rest)
  {
    var t := "&quot;" + rest;
    assert t[..6] == "&quot;" && t[6..] == rest;
    assert !(|t| >= 5 && t[..5] == "&amp;") && t[..4] != "&lt;" && t[..4] != "&gt;" by {
      assert t[1] == 'q';
    }
  }

  lemma {:induction false} UnescapeAttributeChars(s: string)
    ensures Unescape(EscapeAttributeChars(s)) == s
  {
    if s != [] {
      var rest := EscapeAttributeChars(s[1..]);
      UnescapeAttributeChars(s[1..]);
      if s[0] == '&' {
        UnescapeAmp(rest);
      } else if s[0] == '<' {
        UnescapeLt(rest);
      } else if s[0] == '>' {
        UnescapeGt(rest);
      } else if s[0] == '"' {
        UnescapeQuot(rest);
      } else {
        UnescapePlain(s[0], rest);
      }
      assert s == [s[0]] + s[1..];
    }
  }

  lemma {:induction false} NewlineKept(s: string)
    ensures '\n' in EscapeAttributeChars(s) <==> '\n' in s
  {
    if s != [] {
      NewlineKept(s[1..]);
      assert s == [s[0]] + s[1..];
    }
  }

  /**
   * Attribute escaping leaves no `"` that could close the attribute value,
   * and decoding gives back the original text for every input.
   */
  lemma {:induction false} EscapeAttributeRoundTrip(s: string)
    ensures '"' !in EscapeAttribute(s)
    ensures Unescape(EscapeAttribute(s)) == s
    ensures '\n' in EscapeAttribute(s) <==> '\n' in s
  {
    EscapeIsCharwise(s);
    QuoteAfterEscapeChars(s);
    UnescapeAttributeChars(s);
    NewlineKept(s);
  }
}
