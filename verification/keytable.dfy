/**
 * The key symbol table of `src/generate_config.py` (`KEY_MAP`): upper-case key
 * names and aliases mapped to `KEY_*` codes. It is built once, from a literal
 * table of named keys, then one entry per letter and digit, then the function
 * keys F1 to F12, exactly as the module-level loops populate it.
 */
module KeyTable {
  import opened Wrappers
  import opened Strings

  /** Prefix every key code carries. */
  const CodePrefix := "KEY_"

  /** Code of the `+` key; the parser also falls back to it for a lone `+`. */
  const PlusCode := "KEY_ADD"

  /**
   * The literal part of the table (named keys, then punctuation with
   * spelled-out aliases), each name mapped to the part of its code after
   * `KEY_`: "ENTER" := "RETURN" stands for the entry "ENTER": "KEY_RETURN".
   */
  const NamedKeySuffixes: map<string, string> := map[
    "SPACE" := "SPACE",
    "ENTER" := "RETURN",
    "RETURN" := "RETURN",
    "ESC" := "ESCAPE",
    "ESCAPE" := "ESCAPE",
    "BACKSPACE" := "BACKSPACE",
    "DELETE" := "DELETE",
    "UP" := "UP",
    "DOWN" := "DOWN",
    "LEFT" := "LEFT",
    "RIGHT" := "RIGHT",
    "HOME" := "HOME",
    "END" := "END",
    "PAGEUP" := "PAGEUP",
    "PAGEDOWN" := "PAGEDOWN",
    "TAB" := "TAB",
    "INSERT" := "INSERT",
    "+" := "ADD",
    "PLUS" := "ADD",
    "-" := "SUBTRACT",
    "MINUS" := "SUBTRACT",
    "=" := "EQUAL",
    "EQUAL" := "EQUAL",
    "." := "POINT",
    "POINT" := "POINT",
    "," := "COMMA",
    "COMMA" := "COMMA",
    ";" := "SEMICOLON",
    "SEMICOLON" := "SEMICOLON",
    ":" := "SEMICOLON",
    "[" := "BRACKETLEFT",
    "]" := "BRACKETRIGHT",
    "BRACKETLEFT" := "BRACKETLEFT",
    "BRACKETRIGHT" := "BRACKETRIGHT",
    "'" := "QUOTELEFT",
    "QUOTE" := "QUOTELEFT",
    "<" := "LESS",
    ">" := "GREATER"
  ]

  /** The characters the first population loop adds, each as its own key name. */
  const StandardKeys := "ABCDEFGHIJKLMNOPQRSTUVWXYZ0123456789"

  function DigitChar(d: nat): char
    requires d < 10
  {
    ('0' as int + d) as char
  }

  /** Decimal rendering of a natural number, as an f-string prints it. */
  function Decimal(n: nat): string
    decreases n
  {
    if n < 10 then [DigitChar(n)] else Decimal(n / 10) + [DigitChar(n % 10)]
  }

  /** `f"F{i}"`. */
  function FunctionKeyName(n: nat): (name: string)
    ensures |name| >= 2 && name[0] == 'F'
  {
    "F" + Decimal(n)
  }

  /** The names the second population loop adds: F1 to F12. */
  predicate IsFunctionKeyName(name: string) {
    exists n :: 1 <= n <= 12 && FunctionKeyName(n) == name
  }

  /** The first population loop covers exactly the upper-case ASCII letters and the digits. */
  lemma StandardKeysRange()
    ensures forall c :: c in StandardKeys <==> 'A' <= c <= 'Z' || '0' <= c <= '9'
  {
  }

  /** The names the first population loop adds: one letter or digit. */
  predicate IsStandardKeyName(name: string) {
    |name| == 1 && name[0] in StandardKeys
  }

  /** The key code with the given suffix. */
  function Code(suffix: string): (code: string)
    ensures StartsWith(code, CodePrefix)
    ensures code[|CodePrefix|..] == suffix
  {
    CodePrefix + suffix
  }

  /**
   * `KEY_MAP.get(name)`. The population loops run after the literal table, so
   * their entries take precedence; each of them maps a name to `KEY_<name>`.
   */
  function Lookup(name: string): Option<string> {
    if IsFunctionKeyName(name) || IsStandardKeyName(name) then Some(Code(name))
    else if name in NamedKeySuffixes then Some(Code(NamedKeySuffixes[name]))
    else None
  }

  /**
   * Resolution of one key candidate: the table entry when the name is known,
   * otherwise the synthesised `KEY_<name>`.
   */
  function Resolve(token: string): (code: string)
    ensures StartsWith(code, CodePrefix)
    ensures Lookup(token).None? ==> code == CodePrefix + token
  {
    match Lookup(token)
    case Some(c) => c
    case None => Code(token)
  }


  /** No name in the table has a lower-case letter, so upper-casing before lookup loses nothing. */
  predicate IsUpperName(name: string) {
    forall i :: 0 <= i < |name| ==> !('a' <= name[i] <= 'z')
  }

  /** A literal-table name that neither population loop touches keeps its literal code. */
  lemma {:induction false} LiteralEntry(name: string)
    requires name in NamedKeySuffixes
    requires !IsStandardKeyName(name)
    requires name[0] != 'F'
    ensures Resolve(name) == Code(NamedKeySuffixes[name])
  {
  }

  /** `ENTER` and `RETURN` are one key. */
  lemma EnterAliases()
    ensures Resolve("ENTER") == Resolve("RETURN") == "KEY_RETURN"
  {
    LiteralEntry("ENTER");
    LiteralEntry("RETURN");
  }

  /** `ESC` and `ESCAPE` are one key. */
  lemma EscapeAliases()
    ensures Resolve("ESC") == Resolve("ESCAPE") == "KEY_ESCAPE"
  {
    LiteralEntry("ESC");
    LiteralEntry("ESCAPE");
  }

  /** `:` deliberately shares the code of `;`. */
  lemma ColonSharesSemicolon()
    ensures Resolve(":") == Resolve(";") == Resolve("SEMICOLON") == "KEY_SEMICOLON"
  {
    StandardKeysRange();
    LiteralEntry(":");
    LiteralEntry(";");
    LiteralEntry("SEMICOLON");
  }

  /** `+` is the `KEY_ADD` key. */
  lemma PlusKey()
    ensures Resolve("+") == PlusCode
  {
    StandardKeysRange();
    LiteralEntry("+");
  }

  /** The glyph and the spelled-out alias of `+` and `-` agree. */
  lemma PlusMinusAliases()
    ensures Resolve("+") == Resolve("PLUS") == PlusCode
    ensures Resolve("-") == Resolve("MINUS") == "KEY_SUBTRACT"
  {
    StandardKeysRange();
    LiteralEntry("+");
    LiteralEntry("PLUS");
    LiteralEntry("-");
    LiteralEntry("MINUS");
  }

  /** Every letter and digit resolves to `KEY_` followed by itself. */
  lemma {:induction false} StandardKeyCode(c: char)
    requires c in StandardKeys
    ensures Resolve([c]) == CodePrefix + [c]
  {
  }

  /** F1 to F12 resolve to `KEY_F1` to `KEY_F12`. */
  lemma {:induction false} FunctionKeyCode(n: nat)
    requires 1 <= n <= 12
    ensures Resolve(FunctionKeyName(n)) == CodePrefix + FunctionKeyName(n)
  {
  }

  /** F11 is spelled as the f-string prints it. */
  lemma F11Code()
    ensures Resolve("F11") == "KEY_F11"
  {
    assert Decimal(11) == "11";
    FunctionKeyCode(11);
  }

  /** A name outside the table falls back to `KEY_<name>`. */
  lemma UnknownNameFallsBack()
    ensures Resolve("NUMLOCK") == "KEY_NUMLOCK"
  {
  }

  /** Every name of the literal table is already upper-case. */
  lemma {:induction false} NamedKeysUpper(name: string)
    requires name in NamedKeySuffixes
    ensures IsUpperName(name)
  {
    if |name| <= 3 {
      ShortNamesUpper(name);
    } else if |name| <= 5 {
      MediumNamesUpper(name);
    } else {
      LongNamesUpper(name);
    }
  }

  /** The literal names of up to three characters: the glyphs and the short words. */
  lemma ShortNamesUpper(name: string)
    requires name in NamedKeySuffixes && |name| <= 3
    ensures IsUpperName(name)
  {
  }

  /** The literal names of four or five characters. */
  lemma MediumNamesUpper(name: string)
    requires name in NamedKeySuffixes && 3 < |name| <= 5
    ensures IsUpperName(name)
  {
  }

  /** The literal names of six characters or more. */
  lemma LongNamesUpper(name: string)
    requires name in NamedKeySuffixes && |name| > 5
    ensures IsUpperName(name)
  {
  }

  /** Every name the table knows is already upper-case. */
  lemma {:induction false} KeyNamesUpper(name: string)
    requires Lookup(name).Some?
    ensures IsUpperName(name)
  {
    if IsFunctionKeyName(name) {
      var n :| 1 <= n <= 12 && FunctionKeyName(n) == name;
      DecimalIsDigits(n);
    } else if !IsStandardKeyName(name) {
      NamedKeysUpper(name);
    }
  }

  lemma {:induction false} DecimalIsDigits(n: nat)
    ensures forall i :: 0 <= i < |Decimal(n)| ==> '0' <= Decimal(n)[i] <= '9'
    decreases n
  {
    if n >= 10 {
      DecimalIsDigits(n / 10);
    }
  }
}
