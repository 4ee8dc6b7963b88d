/**
 * The shortcut parser of `src/generate_config.py` (`parse_shortcut`): a
 * `+`-joined, case-insensitive notation such as `Ctrl+Shift+D` or `Ctrl++`
 * becomes a key code (or none) and three modifier flags.
 */
module Shortcut {
  import opened Wrappers
  import opened Strings
  import KeyTable

  /**
   * What `parse_shortcut` returns: the key code, absent when nothing could be
   * resolved, and the flags `shift`, `mod1` (Ctrl) and `mod2` (Alt). The source
   * keeps the flags as the strings "true"/"false"; here they are booleans.
   */
  datatype Parsed = Parsed(code: Option<string>, shift: bool, mod1: bool, mod2: bool)

  /** The raw tokens: `shortcut_str.upper().split("+")`. */
  function Parts(s: string): seq<string> {
    Split(Upper(s), '+')
  }

  /**
   * The cleaning loop, from index `i` on: an empty token becomes the literal
   * key name "+" and the token after it is skipped; any other token is kept.
   */
  function CleanFrom(parts: seq<string>, i: nat): (cleaned: seq<string>)
    ensures forall t :: t in cleaned ==> t != [] && (t == "+" || t in parts)
    ensures |cleaned| <= |parts| - i || i > |parts|
    decreases |parts| - i
  {
    if i >= |parts| then []
    else if parts[i] == [] then ["+"] + CleanFrom(parts, i + 2)
    else [parts[i]] + CleanFrom(parts, i + 1)
  }

  function Clean(parts: seq<string>): seq<string> {
    CleanFrom(parts, 0)
  }

  /** The `while i < len(parts)` loop itself, with its two index steps. */
  method CleanParts(parts: seq<string>) returns (cleaned: seq<string>)
    ensures cleaned == Clean(parts)
  {
    cleaned := [];
    var i := 0;
    while i < |parts|
      invariant i <= |parts| + 1
      invariant cleaned + CleanFrom(parts, i) == Clean(parts)
      decreases |parts| + 1 - i
    {
      var part := parts[i];
      if part == [] {
        cleaned := cleaned + ["+"];
        i := i + 1;
      } else {
        cleaned := cleaned + [part];
      }
      i := i + 1;
    }
  }

  predicate IsModifier(t: string) {
    t == "CTRL" || t == "ALT" || t == "SHIFT"
  }

  /** The key candidates (in order) and the modifier flags found among cleaned tokens. */
  datatype Scan = Scan(candidates: seq<string>, shift: bool, mod1: bool, mod2: bool)

  /** The second loop: modifiers set their flag, empty tokens are ignored, the rest are candidates. */
  function ScanTokens(tokens: seq<string>): (r: Scan)
    ensures r.shift <==> "SHIFT" in tokens
    ensures r.mod1 <==> "CTRL" in tokens
    ensures r.mod2 <==> "ALT" in tokens
    ensures forall t :: t in r.candidates <==> t in tokens && t != [] && !IsModifier(t)
    ensures |r.candidates| <= |tokens|
  {
    if tokens == [] then Scan([], false, false, false)
    else
      var rest := ScanTokens(tokens[1..]);
      var t := tokens[0];
      if t == "CTRL" then rest.(mod1 := true)
      else if t == "ALT" then rest.(mod2 := true)
      else if t == "SHIFT" then rest.(shift := true)
      else if t == [] then rest
      else rest.(candidates := [t] + rest.candidates)
  }

  /** The cleaned tokens of a shortcut. */
  function Tokens(s: string): seq<string> {
    Clean(Parts(s))
  }

  /** The key candidates of a shortcut, in order. */
  function Candidates(s: string): seq<string> {
    ScanTokens(Tokens(s)).candidates
  }

  /**
   * `parse_shortcut`. With no candidate the shortcut means the `+` key when
   * the input holds a `+` and its upper-case form does not contain "CTRL";
   * otherwise the last candidate is resolved through the key table (the
   * source's one-candidate and many-candidate branches do the same thing).
   */
  function Parse(s: string): (p: Parsed)
    ensures p.code.Some? ==> StartsWith(p.code.value, KeyTable.CodePrefix)
  {
    var sc := ScanTokens(Tokens(s));
    var code :=
      if |sc.candidates| == 0 then
        if '+' in s && !Contains(Upper(s), "CTRL") then Some(KeyTable.Resolve("+")) else None
      else Some(KeyTable.Resolve(sc.candidates[|sc.candidates| - 1]));
    Parsed(code, sc.shift, sc.mod1, sc.mod2)
  }

  // ---------------------------------------------------------------------
  // Cleaning

  /** Cleaning from an index depends only on the tokens from that index on. */
  lemma {:induction false} CleanFromShift(pre: seq<string>, rest: seq<string>, i: nat)
    ensures CleanFrom(pre + rest, |pre| + i) == CleanFrom(rest, i)
    decreases |rest| - i
  {
    var all := pre + rest;
    if i < |rest| {
      assert all[|pre| + i] == rest[i];
      if rest[i] == [] {
        CleanFromShift(pre, rest, i + 2);
      } else {
        CleanFromShift(pre, rest, i + 1);
      }
    }
  }

  /** Without empty tokens, cleaning changes nothing. */
  lemma {:induction false} CleanWithoutEmpty(parts: seq<string>, i: nat)
    requires i <= |parts|
    requires [] !in parts[i..]
    ensures CleanFrom(parts, i) == parts[i..]
    decreases |parts| - i
  {
    if i < |parts| {
      assert parts[i] in parts[i..];
      assert parts[i + 1..] == parts[i..][1..];
      CleanWithoutEmpty(parts, i + 1);
    }
  }

  /**
   * Among `+`-free tokens, a literal "+" survives cleaning exactly when some
   * token was empty: the first empty token is always reached and rewritten.
   */
  lemma {:induction false} PlusIffEmpty(parts: seq<string>, i: nat)
    requires i <= |parts|
    requires forall j :: 0 <= j < |parts| ==> '+' !in parts[j]
    ensures "+" in CleanFrom(parts, i) <==> [] in parts[i..]
    decreases |parts| - i
  {
    if i < |parts| {
      assert parts[i] in parts[i..];
      if parts[i] == [] {
      } else {
        assert parts[i] != "+" by {
          assert '+' !in parts[i];
        }
        assert parts[i + 1..] == parts[i..][1..];
        PlusIffEmpty(parts, i + 1);
      }
    }
  }

  // ---------------------------------------------------------------------
  // Composition: a leading token joined by `+`

  /** A leading plain token contributes exactly one cleaned token, its upper-case form. */
  lemma {:induction false} TokensCons(a: string, b: string)
    requires a != [] && '+' !in a
    ensures Tokens(a + "+" + b) == [Upper(a)] + Tokens(b)
  {
    UpperConcat(a + "+", b);
    UpperConcat(a, "+");
    assert Upper("+") == "+";
    var ua := Upper(a);
    assert Upper(a + "+" + b) == ua + ['+'] + Upper(b);
    UpperKeepsNonLetter(a, '+');
    SplitConcat(ua, Upper(b), '+');
    SplitNoSeparator(ua, '+');
    assert Parts(a + "+" + b) == [ua] + Parts(b);
    assert ua != [] by {
      assert |ua| == |a|;
    }
    CleanFromShift([ua], Parts(b), 0);
  }

  /** A leading modifier only sets its flag when a key candidate follows. */
  lemma {:induction false} ModifierPrefix(m: string, b: string)
    requires m != [] && '+' !in m && IsModifier(Upper(m))
    requires Candidates(b) != []
    ensures Parse(m + "+" + b) == Parse(b).(shift := Parse(b).shift || Upper(m) == "SHIFT",
                                            mod1 := Parse(b).mod1 || Upper(m) == "CTRL",
                                            mod2 := Parse(b).mod2 || Upper(m) == "ALT")
  {
    TokensCons(m, b);
    var u := Upper(m);
    ScanModifier(u, Tokens(b));
    CandidateParse(b);
    CandidateParse(m + "+" + b);
  }

  /** A leading modifier token sets its flag and leaves the candidates alone. */
  lemma {:induction false} ScanModifier(u: string, tokens: seq<string>)
    requires IsModifier(u)
    ensures var sc := ScanTokens(tokens);
      ScanTokens([u] + tokens) == sc.(shift := sc.shift || u == "SHIFT", mod1 := sc.mod1 || u == "CTRL",
                                      mod2 := sc.mod2 || u == "ALT")
  {
    assert ([u] + tokens)[1..] == tokens;
  }

  /** With a candidate, the parse is the last candidate's code and the scanned flags. */
  lemma {:induction false} CandidateParse(s: string)
    requires Candidates(s) != []
    ensures var sc := ScanTokens(Tokens(s));
      Parse(s) == Parsed(Some(KeyTable.Resolve(sc.candidates[|sc.candidates| - 1])), sc.shift, sc.mod1, sc.mod2)
  {
  }

  /**
   * The last candidate wins: a leading non-modifier token is discarded when
   * another candidate follows it, so `A+B` means `B`.
   */
  lemma {:induction false} LastCandidateWins(a: string, b: string)
    requires a != [] && '+' !in a && !IsModifier(Upper(a))
    requires Candidates(b) != []
    ensures Parse(a + "+" + b) == Parse(b)
  {
    TokensCons(a, b);
    var ua := Upper(a);
    assert |ua| == |a|;
    ScanCandidate(ua, Tokens(b));
    CandidateParse(b);
    CandidateParse(a + "+" + b);
  }

  /** A leading non-modifier token becomes the first candidate and sets no flag. */
  lemma {:induction false} ScanCandidate(u: string, tokens: seq<string>)
    requires u != [] && !IsModifier(u)
    ensures var sc := ScanTokens(tokens);
      ScanTokens([u] + tokens) == sc.(candidates := [u] + sc.candidates)
  {
    assert ([u] + tokens)[1..] == tokens;
  }

  /** Repeating a modifier token changes nothing. */
  lemma {:induction false} RepeatedModifier(m: string, b: string)
    requires m != [] && '+' !in m && IsModifier(Upper(m))
    ensures Parse(m + "+" + m + "+" + b) == Parse(m + "+" + b)
  {
    var once := m + "+" + b;
    var twice := m + "+" + once;
    assert m + "+" + m + "+" + b == twice;
    TokensCons(m, once);
    TokensCons(m, b);
    ScanModifier(Upper(m), Tokens(once));
    ScanModifier(Upper(m), Tokens(b));
    RepeatPlusTest(m, b);
    SameScanSameParse(twice, once);
  }

  /** Repeating a modifier changes neither the `+` test nor the "CTRL" test. */
  lemma {:induction false} RepeatPlusTest(m: string, b: string)
    requires IsModifier(Upper(m))
    ensures '+' in m + "+" + (m + "+" + b) && '+' in m + "+" + b
    ensures Contains(Upper(m + "+" + (m + "+" + b)), "CTRL") == Contains(Upper(m + "+" + b), "CTRL")
  {
    var u := Upper(m);
    var once := m + "+" + b;
    assert once[|m|] == '+';
    assert (m + "+" + once)[|m|] == '+';
    UpperAroundPlus(m, once);
    UpperAroundPlus(m, b);
    ContainsAcrossSeparator(u, Upper(once), '+', "CTRL");
    ContainsAcrossSeparator(u, Upper(b), '+', "CTRL");
  }

  /** Two inputs with the same scan, the same `+` test and the same "CTRL" test parse alike. */
  lemma {:induction false} SameScanSameParse(s: string, t: string)
    requires ScanTokens(Tokens(s)) == ScanTokens(Tokens(t))
    requires ('+' in s) == ('+' in t)
    requires Contains(Upper(s), "CTRL") == Contains(Upper(t), "CTRL")
    ensures Parse(s) == Parse(t)
  {
  }

  // ---------------------------------------------------------------------
  // Properties of whole shortcuts

  /** Case does not matter: inputs with the same upper-case form parse alike. */
  lemma {:induction false} CaseInsensitive(s: string, t: string)
    requires Upper(s) == Upper(t)
    ensures Parse(s) == Parse(t)
  {
    UpperKeepsNonLetter(s, '+');
    UpperKeepsNonLetter(t, '+');
    assert Parts(s) == Parts(t);
    assert ('+' in s) == ('+' in t);
  }

  /** Each flag is set exactly when its token survives cleaning. */
  lemma {:induction false} FlagsFromTokens(s: string)
    ensures Parse(s).shift <==> "SHIFT" in Tokens(s)
    ensures Parse(s).mod1 <==> "CTRL" in Tokens(s)
    ensures Parse(s).mod2 <==> "ALT" in Tokens(s)
  {
  }

  /** Without empty split tokens, each flag is set exactly when its token is present. */
  lemma {:induction false} FlagsWithoutEmptyTokens(s: string)
    requires [] !in Parts(s)
    ensures Parse(s).shift <==> "SHIFT" in Parts(s)
    ensures Parse(s).mod1 <==> "CTRL" in Parts(s)
    ensures Parse(s).mod2 <==> "ALT" in Parts(s)
  {
    assert Parts(s)[0..] == Parts(s);
    CleanWithoutEmpty(Parts(s), 0);
  }

  /** A literal "+" token appears after cleaning exactly when the split produced an empty token. */
  lemma {:induction false} LiteralPlusIffEmptyPart(s: string)
    ensures "+" in Tokens(s) <==> [] in Parts(s)
  {
    assert Parts(s)[0..] == Parts(s);
    PlusIffEmpty(Parts(s), 0);
  }

  /** "CTRL" occurs in a `+`-join of modifier names exactly when one of them is "CTRL". */
  lemma {:induction false} ModifierJoinMentionsCtrl(ps: seq<string>)
    requires |ps| >= 1
    requires forall j :: 0 <= j < |ps| ==> IsModifier(ps[j])
    ensures Contains(Join(ps, '+'), "CTRL") <==> "CTRL" in ps
  {
    ModifierMentionsCtrl(ps[0]);
    if |ps| > 1 {
      ModifierJoinMentionsCtrl(ps[1..]);
      ContainsAcrossSeparator(ps[0], Join(ps[1..], '+'), '+', "CTRL");
      assert ps == [ps[0]] + ps[1..];
    }
  }

  lemma {:induction false} ModifierMentionsCtrl(m: string)
    requires IsModifier(m)
    ensures Contains(m, "CTRL") <==> m == "CTRL"
  {
    if m == "CTRL" {
      assert OccursAt(m, "CTRL", 0);
    } else if m == "SHIFT" {
      assert m[0..4][0] == 'S' && m[1..5][0] == 'H';
      assert !OccursAt(m, "CTRL", 0) && !OccursAt(m, "CTRL", 1);
    }
  }

  /**
   * With no key candidate, every token is a modifier, so the substring test
   * on "CTRL" is the Ctrl flag: the code is the `+` key exactly when the input
   * holds a `+` and Ctrl is not among the modifiers, and absent otherwise.
   */
  lemma {:induction false} NoCandidateCode(s: string)
    requires Candidates(s) == []
    ensures Parse(s).code == Some(KeyTable.PlusCode) <==> '+' in s && !Parse(s).mod1
    ensures Parse(s).code.None? <==> '+' !in s || Parse(s).mod1
  {
    var parts := Parts(s);
    KeyTable.PlusKey();
    LiteralPlusIffEmptyPart(s);
    assert "+" !in Tokens(s);
    assert parts[0..] == parts;
    CleanWithoutEmpty(parts, 0);
    assert Tokens(s) == parts;
    forall j | 0 <= j < |parts|
      ensures IsModifier(parts[j])
    {
      assert parts[j] in Tokens(s);
    }
    ModifierJoinMentionsCtrl(parts);
    JoinSplit(Upper(s), '+');
  }

  /** A shortcut has no code exactly when it has no candidate and fails the lone-`+` test. */
  lemma {:induction false} NoCodeIff(s: string)
    ensures Parse(s).code.None? <==> Candidates(s) == [] && ('+' !in s || Parse(s).mod1)
  {
    if Candidates(s) == [] {
      NoCandidateCode(s);
    }
  }

  // ---------------------------------------------------------------------
  // Worked shortcuts

  /** A single `+`-free token is its own upper-case form. */
  lemma {:induction false} SingleToken(a: string)
    requires a != [] && '+' !in a
    ensures Tokens(a) == [Upper(a)]
  {
    UpperKeepsNonLetter(a, '+');
    SplitNoSeparator(Upper(a), '+');
    assert |Upper(a)| == |a|;
  }

  /** A single letter or digit parses to its own code with no modifiers. */
  lemma {:induction false} StandardKeyAlone(c: char)
    requires c in KeyTable.StandardKeys
    ensures Parse([c]) == Parsed(Some(KeyTable.CodePrefix + [c]), false, false, false)
  {
    KeyTable.StandardKeysRange();
    assert Upper([c]) == [c];
    SingleKey([c]);
    KeyTable.StandardKeyCode(c);
  }

  /** `Ctrl+S` is Ctrl with `KEY_S`. */
  lemma CtrlS()
    ensures Parse("Ctrl+S") == Parsed(Some("KEY_S"), false, true, false)
  {
    KeyTable.StandardKeyCode('S');
    assert KeyTable.CodePrefix + ['S'] == "KEY_S";
    assert Upper("Ctrl") == "CTRL" && Upper("S") == "S";
    assert "Ctrl+S" == "Ctrl" + "+" + "S";
    ModifierThenKey("Ctrl", "S");
  }

  lemma CtrlA()
    ensures Parse("Ctrl+A") == Parsed(Some("KEY_A"), false, true, false)
  {
    assert Upper("Ctrl") == "CTRL" && Upper("A") == "A";
    assert "Ctrl+A" == "Ctrl" + "+" + "A";
    ModifierThenKey("Ctrl", "A");
    assert KeyTable.Resolve("A") == "KEY_A" by {
      KeyTable.StandardKeyCode('A');
      assert KeyTable.CodePrefix + ['A'] == "KEY_A";
    }
  }

  /** A modifier followed by a single key token: that key, with the modifier's flag. */
  lemma {:induction false} ModifierThenKey(m: string, a: string)
    requires m != [] && '+' !in m && IsModifier(Upper(m))
    requires a != [] && '+' !in a && !IsModifier(Upper(a))
    ensures Parse(m + "+" + a)
         == Parsed(Some(KeyTable.Resolve(Upper(a))), Upper(m) == "SHIFT", Upper(m) == "CTRL", Upper(m) == "ALT")
  {
    SingleToken(a);
    assert |Upper(a)| == |a|;
    ScanCandidate(Upper(a), []);
    assert [Upper(a)] + [] == [Upper(a)];
    TokensCons(m, a);
    ScanModifier(Upper(m), Tokens(a));
    CandidateParse(m + "+" + a);
  }

  /** A single key token followed by a modifier: modifier order does not matter. */
  lemma {:induction false} KeyThenModifier(a: string, m: string)
    requires a != [] && '+' !in a && !IsModifier(Upper(a))
    requires m != [] && '+' !in m && IsModifier(Upper(m))
    ensures Parse(a + "+" + m)
         == Parsed(Some(KeyTable.Resolve(Upper(a))), Upper(m) == "SHIFT", Upper(m) == "CTRL", Upper(m) == "ALT")
  {
    SingleToken(m);
    TokensCons(a, m);
    assert |Upper(a)| == |a|;
    ScanModifier(Upper(m), []);
    assert [Upper(m)] + [] == [Upper(m)];
    ScanCandidate(Upper(a), [Upper(m)]);
    CandidateParse(a + "+" + m);
  }

  /** A single key token parses to its resolution, with no modifier. */
  lemma {:induction false} SingleKey(a: string)
    requires a != [] && '+' !in a && !IsModifier(Upper(a))
    ensures Parse(a) == Parsed(Some(KeyTable.Resolve(Upper(a))), false, false, false)
  {
    SingleToken(a);
    assert |Upper(a)| == |a|;
    ScanCandidate(Upper(a), []);
    assert [Upper(a)] + [] == [Upper(a)];
    CandidateParse(a);
  }

  /** `S+Ctrl` is Ctrl with `KEY_S`, the same as `Ctrl+S`. */
  lemma SThenCtrl()
    ensures Parse("S+Ctrl") == Parsed(Some("KEY_S"), false, true, false)
  {
    KeyTable.StandardKeyCode('S');
    assert KeyTable.CodePrefix + ['S'] == "KEY_S";
    assert Upper("Ctrl") == "CTRL" && Upper("S") == "S";
    assert "S+Ctrl" == "S" + "+" + "Ctrl";
    KeyThenModifier("S", "Ctrl");
  }

  /** A lone `+` means the `+` key. */
  lemma LonePlus()
    ensures Parse("+") == Parsed(Some(KeyTable.PlusCode), false, false, false)
  {
    KeyTable.PlusKey();
    PlusTokens();
    ScanCandidate("+", []);
    assert ["+"] + [] == ["+"];
    CandidateParse("+");
  }

  /** The empty shortcut splits into one empty token, which cleans to the `+` key. */
  lemma EmptyShortcut()
    ensures Parse("") == Parsed(Some(KeyTable.PlusCode), false, false, false)
  {
    KeyTable.PlusKey();
    assert Upper("") == "";
    assert Tokens("") == ["+"];
    ScanCandidate("+", []);
    assert ["+"] + [] == ["+"];
    CandidateParse("");
  }

  lemma PlusTokens()
    ensures Tokens("+") == ["+"]
  {
    assert Upper("+") == "+";
    assert Split("+", '+') == [[], []];
  }

  /** A modifier followed by `++` is that modifier with the `+` key. */
  lemma {:induction false} ModifierThenPlus(m: string)
    requires m != [] && '+' !in m && IsModifier(Upper(m))
    ensures Parse(m + "+" + "+") == Parsed(Some(KeyTable.PlusCode), Upper(m) == "SHIFT", Upper(m) == "CTRL", Upper(m) == "ALT")
  {
    KeyTable.PlusKey();
    PlusTokens();
    TokensCons(m, "+");
    ScanCandidate("+", []);
    assert ["+"] + [] == ["+"];
    ScanModifier(Upper(m), ["+"]);
    CandidateParse(m + "+" + "+");
  }

  /** `Ctrl++` is Ctrl with the `+` key. */
  lemma CtrlPlus()
    ensures Parse("Ctrl++") == Parsed(Some(KeyTable.PlusCode), false, true, false)
  {
    assert Upper("Ctrl") == "CTRL";
    assert "Ctrl++" == "Ctrl" + "+" + "+";
    ModifierThenPlus("Ctrl");
  }

  /** Three pluses split into four empty tokens and clean to two literal "+" candidates. */
  lemma TriplePlusTokens()
    ensures Tokens("+++") == ["+", "+"]
  {
    assert Upper("+++") == "+++";
    assert Split("+", '+') == [[], []];
    assert Split("++", '+') == [[], [], []];
    assert Split("+++", '+') == [[], [], [], []];
  }

  /** `+++` is the `+` key: the last of its two literal candidates. */
  lemma TriplePlus()
    ensures Parse("+++") == Parsed(Some(KeyTable.PlusCode), false, false, false)
  {
    KeyTable.PlusKey();
    TriplePlusTokens();
    ScanCandidate("+", []);
    assert ["+"] + [] == ["+"];
    ScanCandidate("+", ["+"]);
    CandidateParse("+++");
  }

  /**
   * A leading `+` splits off an empty part, which cleans to "+" and makes the
   * loop skip the part after it: whatever single token follows is lost, a
   * modifier included.
   */
  lemma {:induction false} LeadingPlusSwallows(b: string)
    requires b != [] && '+' !in b
    ensures Tokens("+" + b) == ["+"]
    ensures Parse("+" + b) == Parsed(Some(KeyTable.PlusCode), false, false, false)
  {
    var ub := Upper(b);
    UpperConcat("+", b);
    assert Upper("+") == "+";
    UpperKeepsNonLetter(b, '+');
    assert "+" + b == [] + ['+'] + b && Upper("+" + b) == [] + ['+'] + ub;
    SplitConcat([], ub, '+');
    SplitNoSeparator(ub, '+');
    assert Split([], '+') == [[]];
    assert |ub| == |b|;
    var parts := [[], ub];
    assert Parts("+" + b) == parts;
    assert CleanFrom(parts, 2) == [];
    assert Clean(parts) == ["+"] + CleanFrom(parts, 2);
    KeyTable.PlusKey();
    ScanCandidate("+", []);
    assert ["+"] + [] == ["+"];
    CandidateParse("+" + b);
  }

  /** `+Ctrl` is the `+` key without Ctrl: the cleaning loop skips the modifier. */
  lemma PlusCtrl()
    ensures Parse("+Ctrl") == Parsed(Some(KeyTable.PlusCode), false, false, false)
  {
    assert "+Ctrl" == "+" + "Ctrl";
    LeadingPlusSwallows("Ctrl");
  }

  /** `A++B` is the `+` key: "+" is its last candidate and `B` is skipped. */
  lemma APlusPlusB()
    ensures Parse("A++B") == Parsed(Some(KeyTable.PlusCode), false, false, false)
  {
    assert "A++B" == "A" + "+" + ("+" + "B");
    assert Upper("A") == "A";
    TokensCons("A", "+" + "B");
    LeadingPlusSwallows("B");
    assert Tokens("A++B") == ["A", "+"];
    KeyTable.PlusKey();
    ScanCandidate("+", []);
    assert ["+"] + [] == ["+"];
    ScanCandidate("A", ["+"]);
    assert ["A"] + ["+"] == ["A", "+"];
    CandidateParse("A++B");
  }

  /** Two single key tokens: the second is the key, the first is dropped. */
  lemma {:induction false} KeyThenKey(a: string, b: string)
    requires a != [] && '+' !in a && !IsModifier(Upper(a))
    requires b != [] && '+' !in b && !IsModifier(Upper(b))
    ensures Parse(a + "+" + b) == Parsed(Some(KeyTable.Resolve(Upper(b))), false, false, false)
  {
    SingleToken(b);
    TokensCons(a, b);
    assert |Upper(a)| == |a| && |Upper(b)| == |b|;
    ScanCandidate(Upper(b), []);
    assert [Upper(b)] + [] == [Upper(b)];
    ScanCandidate(Upper(a), [Upper(b)]);
    CandidateParse(a + "+" + b);
  }

  /** `A+B` resolves to `KEY_B`; `A` is dropped. */
  lemma AThenB()
    ensures Parse("A+B") == Parsed(Some("KEY_B"), false, false, false)
  {
    assert "A+B" == ['A'] + "+" + ['B'];
    LetterThenLetter('A', 'B');
    assert KeyKnown('B');
    assert KeyTable.CodePrefix + ['B'] == "KEY_B";
  }

  /** A letter or digit that the population loop puts in the table. */
  predicate KeyKnown(c: char) {
    'A' <= c <= 'Z' || '0' <= c <= '9'
  }

  /** Two single-character keys: the second one is the key, the first is dropped. */
  lemma {:induction false} LetterThenLetter(x: char, y: char)
    requires KeyKnown(x) && KeyKnown(y)
    ensures Parse([x] + "+" + [y]) == Parsed(Some(KeyTable.CodePrefix + [y]), false, false, false)
  {
    assert Upper([x]) == [x] && Upper([y]) == [y];
    assert !IsModifier([x]) && !IsModifier([y]);
    KeyThenKey([x], [y]);
    KeyTable.StandardKeysRange();
    KeyTable.StandardKeyCode(y);
  }

  /** `Ctrl` alone has no code: no candidate and no `+`. */
  lemma CtrlAlone()
    ensures Parse("Ctrl").code == None
  {
    assert Upper("Ctrl") == "CTRL";
    SingleToken("Ctrl");
    assert ScanTokens(["CTRL"]).candidates == [];
  }

  /**
   * Two modifiers and no key: there is no candidate, so the code is the `+`
   * key unless one of them is Ctrl, in which case there is none.
   */
  lemma {:induction false} ModifierPair(m1: string, m2: string)
    requires m1 != [] && '+' !in m1 && IsModifier(Upper(m1))
    requires m2 != [] && '+' !in m2 && IsModifier(Upper(m2))
    ensures var u1, u2 := Upper(m1), Upper(m2);
      Parse(m1 + "+" + m2)
      == Parsed(if u1 == "CTRL" || u2 == "CTRL" then None else Some(KeyTable.PlusCode),
                u1 == "SHIFT" || u2 == "SHIFT", u1 == "CTRL" || u2 == "CTRL", u1 == "ALT" || u2 == "ALT")
  {
    var s := m1 + "+" + m2;
    var u1, u2 := Upper(m1), Upper(m2);
    KeyTable.PlusKey();
    SingleToken(m2);
    TokensCons(m1, m2);
    ScanModifier(u2, []);
    assert [u2] + [] == [u2];
    ScanModifier(u1, [u2]);
    PairPlusTest(m1, m2);
    NoCandidateParse(s);
  }

  /** The lone-`+` test on two modifiers joined by `+`: the `+` is there, and "CTRL" is there iff Ctrl is. */
  lemma {:induction false} PairPlusTest(m1: string, m2: string)
    requires IsModifier(Upper(m1)) && IsModifier(Upper(m2))
    ensures '+' in m1 + "+" + m2
    ensures Contains(Upper(m1 + "+" + m2), "CTRL") <==> Upper(m1) == "CTRL" || Upper(m2) == "CTRL"
  {
    assert (m1 + "+" + m2)[|m1|] == '+';
    UpperAroundPlus(m1, m2);
    PairMentionsCtrl(Upper(m1), Upper(m2));
  }

  /** Upper-casing keeps the `+` between two texts. */
  lemma {:induction false} UpperAroundPlus(a: string, b: string)
    ensures Upper(a + "+" + b) == Upper(a) + ['+'] + Upper(b)
  {
    UpperConcat(a + "+", b);
    UpperConcat(a, "+");
    assert Upper("+") == "+";
  }

  /** "CTRL" occurs in `u1+u2` for two modifier names exactly when one of them is "CTRL". */
  lemma {:induction false} PairMentionsCtrl(u1: string, u2: string)
    requires IsModifier(u1) && IsModifier(u2)
    ensures Contains(u1 + ['+'] + u2, "CTRL") <==> u1 == "CTRL" || u2 == "CTRL"
  {
    ContainsAcrossSeparator(u1, u2, '+', "CTRL");
    ModifierMentionsCtrl(u1);
    ModifierMentionsCtrl(u2);
  }

  /** Without a candidate, the code is the `+` key exactly when the `+` test passes and "CTRL" is absent. */
  lemma {:induction false} NoCandidateParse(s: string)
    requires Candidates(s) == []
    ensures var sc := ScanTokens(Tokens(s));
      Parse(s) == Parsed(if '+' in s && !Contains(Upper(s), "CTRL") then Some(KeyTable.Resolve("+")) else None,
                         sc.shift, sc.mod1, sc.mod2)
  {
  }

  /** `Ctrl+Shift` has no code: no candidate, and Ctrl rules out the lone-`+` reading. */
  lemma CtrlShiftAlone()
    ensures Parse("Ctrl+Shift").code == None
  {
    assert Upper("Ctrl") == "CTRL" && Upper("Shift") == "SHIFT";
    assert "Ctrl+Shift" == "Ctrl" + "+" + "Shift";
    ModifierPair("Ctrl", "Shift");
  }

  /** `Shift+Alt` has no candidate yet holds a `+` and no Ctrl, so it means the `+` key. */
  lemma ShiftAltIsPlus()
    ensures Parse("Shift+Alt") == Parsed(Some(KeyTable.PlusCode), true, false, true)
  {
    assert Upper("Shift") == "SHIFT" && Upper("Alt") == "ALT";
    assert "Shift+Alt" == "Shift" + "+" + "Alt";
    ModifierPair("Shift", "Alt");
  }

  /** `Enter` means the Return key. */
  lemma EnterIsReturn()
    ensures Parse("Enter") == Parsed(Some("KEY_RETURN"), false, false, false)
  {
    assert Upper("Enter") == "ENTER";
    SingleKey("Enter");
    KeyTable.EnterAliases();
  }

  /** `Shift+F11` is Shift with `KEY_F11`. */
  lemma ShiftF11()
    ensures Parse("Shift+F11") == Parsed(Some("KEY_F11"), true, false, false)
  {
    assert Upper("F11") == "F11" && Upper("Shift") == "SHIFT";
    KeyTable.F11Code();
    assert "Shift+F11" == "Shift" + "+" + "F11";
    ModifierThenKey("Shift", "F11");
  }
}
