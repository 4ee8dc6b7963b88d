/**
 * The accelerator document of `src/generate_config.py` (`create_xml`): a fixed
 * three-line header, one `accel:item` line per mapping whose shortcut parses,
 * and the closing tag, joined with newlines. A reader for exactly this layout
 * gives back what an XML parser reports for each item, which links the
 * generator to the validator.
 */
module AccelXml {
  import opened Wrappers
  import opened Strings
  import Escape
  import KeyTable
  import Shortcut
  import Merge
  import Validator

  const XmlDeclaration := "<?xml version=\"1.0\" encoding=\"UTF-8\"?>"
  const DocType := "<!DOCTYPE accel:acceleratorlist PUBLIC \"-//OpenOffice.org//DTD OfficeDocument 1.0//EN\" \"accelerator.dtd\">"
  const ListOpen := "<accel:acceleratorlist xmlns:accel=\"http://openoffice.org/2001/accel\" xmlns:xlink=\"http://www.w3.org/1999/xlink\">"
  const ListClose := "</accel:acceleratorlist>"

  /** The three lines every document starts with. */
  const Header: seq<string> := [XmlDeclaration, DocType, ListOpen]

  /** The header as text, with the line break that ends it. */
  const Prologue := XmlDeclaration + "\n" + DocType + "\n" + ListOpen + "\n"

  /** The fixed text of an item line before the code, between code and command, and at its end. */
  const ItemOpen := " <accel:item accel:code=\""
  const HrefOpen := "\" xlink:href=\""
  const ItemClose := "/>"

  /** The optional flag attributes, written in this order and only when the flag holds. */
  const ShiftAttribute := " accel:shift=\"true\""
  const Mod1Attribute := " accel:mod1=\"true\""
  const Mod2Attribute := " accel:mod2=\"true\""

  /** One accelerator the document will carry: a parsed mapping. */
  datatype Binding = Binding(code: string, command: string, shift: bool, mod1: bool, mod2: bool)

  /**
   * The mappings whose shortcut yields a key code, in order; a mapping whose
   * shortcut does not parse is skipped with a warning.
   */
  function Bindings(ms: seq<Merge.Mapping>): seq<Binding> {
    Collect(BindingOf, ms)
  }

  /** `f` applied to each element in turn, the results joined in order. */
  function Collect<A, B>(f: A -> seq<B>, xs: seq<A>): seq<B> {
    if xs == [] then [] else f(xs[0]) + Collect(f, xs[1..])
  }

  /** The binding of one mapping: none when its shortcut yields no key code. */
  function BindingOf(m: Merge.Mapping): seq<Binding> {
    var p := Shortcut.Parse(m.msShortcut);
    match p.code
    case None => []
    case Some(code) => [Binding(code, m.unoCommand, p.shift, p.mod1, p.mod2)]
  }

  /** A flag attribute when its flag holds, nothing otherwise. */
  function FlagAttribute(attribute: string, on: bool): string {
    if on then attribute else ""
  }

  /** Everything after the command's closing quote. */
  function FlagsTail(shift: bool, mod1: bool, mod2: bool): string {
    FlagAttribute(ShiftAttribute, shift) + FlagAttribute(Mod1Attribute, mod1) + FlagAttribute(Mod2Attribute, mod2) + ItemClose
  }

  /** The line written for one binding, with `escape` applied to both attribute values. */
  function ItemLineWith(escape: string -> string, b: Binding): string {
    ItemOpen + escape(b.code) + HrefOpen + escape(b.command) + "\"" + FlagsTail(b.shift, b.mod1, b.mod2)
  }

  /** The line `create_xml` writes: values escaped with `saxutils.escape`. */
  function ItemLine(b: Binding): string {
    ItemLineWith(Escape.Escape, b)
  }

  /** The line with attribute-safe escaping, which also writes `"` as `&quot;`. */
  function SafeItemLine(b: Binding): string {
    ItemLineWith(Escape.EscapeAttribute, b)
  }

  /** All lines of the document: header, one line per binding, closing tag. */
  function DocumentLines(bs: seq<Binding>): (lines: seq<string>)
    ensures |lines| == |bs| + 4
    ensures lines[..3] == Header && lines[|lines| - 1] == ListClose
    ensures forall i | 0 <= i < |bs| :: lines[i + 3] == ItemLine(bs[i])
  {
    Header + ItemLines(bs) + [ListClose]
  }

  /** One line per binding, in order. */
  function ItemLines(bs: seq<Binding>): (lines: seq<string>)
    ensures |lines| == |bs|
    ensures forall i | 0 <= i < |bs| :: lines[i] == ItemLine(bs[i])
  {
    if bs == [] then [] else [ItemLine(bs[0])] + ItemLines(bs[1..])
  }

  /** `create_xml`: the document text for a list of mappings. */
  function CreateXml(ms: seq<Merge.Mapping>): string {
    Join(DocumentLines(Bindings(ms)), '\n')
  }

  /** Corrected item lines: one per binding, written with attribute-safe escaping. */
  function SafeItemLines(bs: seq<Binding>): (lines: seq<string>)
    ensures |lines| == |bs|
    ensures forall i | 0 <= i < |bs| :: lines[i] == SafeItemLine(bs[i])
  {
    if bs == [] then [] else [SafeItemLine(bs[0])] + SafeItemLines(bs[1..])
  }

  /** `create_xml` with `"` escaped as well: the document the generator evidently means to write. */
  function SafeCreateXml(ms: seq<Merge.Mapping>): string {
    Join(Header + SafeItemLines(Bindings(ms)) + [ListClose], '\n')
  }

  // ---------------------------------------------------------------------
  // Reading the document back

  /** An optional flag attribute at the head of `t`: whether it is there, and what follows. */
  function ReadFlag(t: string, attribute: string): (bool, string) {
    if StartsWith(t, attribute) then (true, t[|attribute|..]) else (false, t)
  }

  /** The flag attributes in the order the generator writes them, then the end of the element. */
  function ReadFlags(t: string): Option<(bool, bool, bool)> {
    var (shift, t1) := ReadFlag(t, ShiftAttribute);
    var (mod1, t2) := ReadFlag(t1, Mod1Attribute);
    var (mod2, t3) := ReadFlag(t2, Mod2Attribute);
    if t3 == ItemClose then Some((shift, mod1, mod2)) else None
  }

  /** How a parser reports a boolean attribute the generator writes only when it holds. */
  function FlagValue(on: bool): Option<string> {
    if on then Some("true") else None
  }

  /**
   * The item the reader reports for one line in the generator's layout: each
   * attribute value runs to the next `"` and has its entities decoded. On
   * values of plain text this is what an XML parser reports.
   */
  function ReadItem(line: string): Option<Validator.Item> {
    if !StartsWith(line, ItemOpen) then None
    else
      var rest := line[|ItemOpen|..];
      var code := TakeUntil(rest, '"');
      var rest := rest[|code|..];
      if !StartsWith(rest, HrefOpen) then None
      else
        var rest := rest[|HrefOpen|..];
        var command := TakeUntil(rest, '"');
        var rest := rest[|command|..];
        if !StartsWith(rest, "\"") then None
        else
          match ReadFlags(rest[1..])
          case None => None
          case Some((shift, mod1, mod2)) =>
            Some(Validator.Item(Some(Escape.Unescape(code)), FlagValue(shift), FlagValue(mod1), FlagValue(mod2),
                                Some(Escape.Unescape(command))))
  }

  /** Every line read as an item, or nothing if one is not in the layout. */
  function ReadItems(lines: seq<string>): (r: Option<seq<Validator.Item>>)
    ensures r.Some? ==> |r.value| == |lines|
  {
    if lines == [] then Some([])
    else
      match (ReadItem(lines[0]), ReadItems(lines[1..]))
      case (Some(it), Some(rest)) => Some([it] + rest)
      case _ => None
  }

  /**
   * The items of a document in the generator's layout: the fixed header, then
   * one item per line, then the closing tag on the last line.
   */
  function ReadDocument(doc: string): Option<seq<Validator.Item>> {
    if !StartsWith(doc, Prologue) then None
    else
      var lines := Split(doc[|Prologue|..], '\n');
      if lines[|lines| - 1] != ListClose then None
      else ReadItems(lines[..|lines| - 1])
  }

  /** What the parser reports for the element written for `b`. */
  function ItemOf(b: Binding): Validator.Item {
    Validator.Item(Some(b.code), FlagValue(b.shift), FlagValue(b.mod1), FlagValue(b.mod2), Some(b.command))
  }

  /**
   * The items written for a list of bindings, one per binding in order: what a
   * parser reports when the values are plain text without `"`.
   */
  function ItemsOf(bs: seq<Binding>): (items: seq<Validator.Item>)
    ensures |items| == |bs|
    ensures forall i | 0 <= i < |bs| :: items[i] == ItemOf(bs[i])
  {
    if bs == [] then [] else [ItemOf(bs[0])] + ItemsOf(bs[1..])
  }

  /**
   * A character an XML parser keeps as written in an attribute value: no
   * control character (a parser turns tab, carriage return and line feed into
   * a space and rejects the others) and neither of the non-characters U+FFFE
   * and U+FFFF, which XML 1.0 does not allow.
   */
  predicate PlainChar(c: char) {
    0x20 <= c as int && c as int != 0xFFFE && c as int != 0xFFFF
  }

  predicate PlainText(s: string) {
    forall i | 0 <= i < |s| :: PlainChar(s[i])
  }

  /** Text that can stand in an attribute value as `create_xml` writes it: plain and without `"`. */
  predicate SafeText(s: string) {
    '"' !in s && PlainText(s)
  }

  predicate SafeBinding(b: Binding) {
    SafeText(b.code) && SafeText(b.command)
  }

  /** Both values of the binding are plain text; quotes are allowed. */
  predicate PlainBinding(b: Binding) {
    PlainText(b.code) && PlainText(b.command)
  }

  /** Plain text holds no line break. */
  lemma PlainUnbroken(s: string)
    requires PlainText(s)
    ensures '\n' !in s
  {
  }

  // ---------------------------------------------------------------------

  /** A mapping contributes a line exactly when its shortcut yields a key code. */
  lemma {:induction false} SkippedIffUnparsed(m: Merge.Mapping)
    ensures Bindings([m]) == [] <==> Shortcut.Parse(m.msShortcut).code.None?
    ensures Bindings([m]) != [] ==> Bindings([m]) == [Binding(Shortcut.Parse(m.msShortcut).code.value, m.unoCommand,
      Shortcut.Parse(m.msShortcut).shift, Shortcut.Parse(m.msShortcut).mod1, Shortcut.Parse(m.msShortcut).mod2)]
  {
    BindingsOne(m);
  }

  /** A single mapping contributes its own binding, if any. */
  lemma {:induction false} BindingsOne(m: Merge.Mapping)
    ensures Bindings([m]) == BindingOf(m)
  {
    CollectOne(BindingOf, m);
  }

  lemma {:induction false} CollectOne<A, B>(f: A -> seq<B>, x: A)
    ensures Collect(f, [x]) == f(x)
  {
    assert [x][0] == x && [x][1..] == [];
  }

  /** Every written key code is a `KEY_` name. */
  lemma {:induction false} BindingCodes(ms: seq<Merge.Mapping>)
    ensures forall b | b in Bindings(ms) :: StartsWith(b.code, KeyTable.CodePrefix)
  {
    if ms != [] {
      BindingCodes(ms[1..]);
    }
  }

  /** A mapping whose shortcut yields a key code is written with that code and the parsed modifiers. */
  lemma {:induction false} BindingOfParsed(m: Merge.Mapping)
    requires Shortcut.Parse(m.msShortcut).code.Some?
    ensures var p := Shortcut.Parse(m.msShortcut);
      && BindingOf(m) == [Binding(p.code.value, m.unoCommand, p.shift, p.mod1, p.mod2)]
      && StartsWith(p.code.value, KeyTable.CodePrefix)
  {
    assert BindingOf(m)[0] in BindingOf(m);
  }

  lemma {:induction false} CollectConcat<A, B>(f: A -> seq<B>, a: seq<A>, b: seq<A>)
    ensures Collect(f, a + b) == Collect(f, a) + Collect(f, b)
  {
    if a == [] {
      assert a + b == b;
    } else {
      assert (a + b)[0] == a[0];
      assert (a + b)[1..] == a[1..] + b;
      CollectConcat(f, a[1..], b);
    }
  }

  /** Mappings are processed one at a time, in order. */
  lemma {:induction false} BindingsConcat(a: seq<Merge.Mapping>, b: seq<Merge.Mapping>)
    ensures Bindings(a + b) == Bindings(a) + Bindings(b)
  {
    CollectConcat(BindingOf, a, b);
  }


  /** A string that differs from `attribute` at position `k` does not start with it. */
  lemma {:induction false} DiffersAt(attribute: string, head: string, t: string, k: nat)
    requires k < |attribute| && k < |head| && attribute[k] != head[k]
    ensures ReadFlag(head + t, attribute) == (false, head + t)
  {
    assert (head + t)[k] == head[k];
  }

  lemma {:induction false} ReadFlagPresent(attribute: string, t: string)
    ensures ReadFlag(attribute + t, attribute) == (true, t)
  {
    assert (attribute + t)[..|attribute|] == attribute;
    assert (attribute + t)[|attribute|..] == t;
  }

  /** The last flag attribute is read off in front of the element's end. */
  lemma {:induction false} ReadMod2(mod2: bool)
    ensures ReadFlag(FlagAttribute(Mod2Attribute, mod2) + ItemClose, Mod2Attribute) == (mod2, ItemClose)
  {
    if mod2 {
      ReadFlagPresent(Mod2Attribute, ItemClose);
    } else {
      assert FlagAttribute(Mod2Attribute, mod2) + ItemClose == ItemClose + [] == ItemClose;
      DiffersAt(Mod2Attribute, ItemClose, [], 0);
    }
  }

  /** The Ctrl attribute is read off in front of whatever the Alt attribute left. */
  lemma {:induction false} ReadMod1(mod1: bool, mod2: bool)
    ensures var t2 := FlagAttribute(Mod2Attribute, mod2) + ItemClose;
      ReadFlag(FlagAttribute(Mod1Attribute, mod1) + t2, Mod1Attribute) == (mod1, t2)
  {
    var t2 := FlagAttribute(Mod2Attribute, mod2) + ItemClose;
    if mod1 {
      ReadFlagPresent(Mod1Attribute, t2);
    } else if mod2 {
      assert FlagAttribute(Mod1Attribute, mod1) + t2 == t2 == Mod2Attribute + ItemClose;
      DiffersAt(Mod1Attribute, Mod2Attribute, ItemClose, 10);
    } else {
      assert FlagAttribute(Mod1Attribute, mod1) + t2 == ItemClose + [] == ItemClose == t2;
      DiffersAt(Mod1Attribute, ItemClose, [], 0);
    }
  }

  /** The Shift attribute is read off in front of whatever the other two left. */
  lemma {:induction false} ReadShift(shift: bool, mod1: bool, mod2: bool)
    ensures var t1 := FlagAttribute(Mod1Attribute, mod1) + FlagAttribute(Mod2Attribute, mod2) + ItemClose;
      ReadFlag(FlagAttribute(ShiftAttribute, shift) + t1, ShiftAttribute) == (shift, t1)
  {
    var t2 := FlagAttribute(Mod2Attribute, mod2) + ItemClose;
    var t1 := FlagAttribute(Mod1Attribute, mod1) + t2;
    ConcatAssoc(FlagAttribute(Mod1Attribute, mod1), FlagAttribute(Mod2Attribute, mod2), ItemClose);
    if shift {
      ReadFlagPresent(ShiftAttribute, t1);
    } else if mod1 {
      assert FlagAttribute(ShiftAttribute, shift) + t1 == t1 == Mod1Attribute + t2;
      DiffersAt(ShiftAttribute, Mod1Attribute, t2, 7);
    } else if mod2 {
      assert FlagAttribute(ShiftAttribute, shift) + t1 == t1 == Mod2Attribute + ItemClose;
      DiffersAt(ShiftAttribute, Mod2Attribute, ItemClose, 7);
    } else {
      assert FlagAttribute(ShiftAttribute, shift) + t1 == ItemClose + [] == ItemClose == t1;
      DiffersAt(ShiftAttribute, ItemClose, [], 0);
    }
  }

  /** The flags read back from the tail of an item line are the flags written. */
  lemma {:induction false} ReadFlagsWritten(shift: bool, mod1: bool, mod2: bool)
    ensures ReadFlags(FlagsTail(shift, mod1, mod2)) == Some((shift, mod1, mod2))
  {
    var a, b, c := FlagAttribute(ShiftAttribute, shift), FlagAttribute(Mod1Attribute, mod1), FlagAttribute(Mod2Attribute, mod2);
    ConcatAssoc(a, b, c + ItemClose);
    ConcatAssoc(a + b, c, ItemClose);
    ConcatAssoc(b, c, ItemClose);
    ReadShift(shift, mod1, mod2);
    ReadMod1(mod1, mod2);
    ReadMod2(mod2);
  }

  /** An attribute value that holds no `"` is read up to the quote that closes it. */
  lemma {:induction false} ReadValue(open: string, value: string, rest: string)
    requires '"' !in value && |rest| > 0 && rest[0] == '"'
    ensures StartsWith(open + value + rest, open)
    ensures TakeUntil((open + value + rest)[|open|..], '"') == value
    ensures (open + value + rest)[|open|..][|value|..] == rest
  {
    var line := open + (value + rest);
    assert open + value + rest == line;
    assert line[..|open|] == open && line[|open|..] == value + rest;
    TakeUntilDelimited(value, rest, '"');
    assert (value + rest)[|value|..] == rest;
  }

  /** Reading a line in the layout, for attribute texts without `"`. */
  lemma {:induction false} ReadItemParts(code: string, command: string, flags: string)
    requires '"' !in code && '"' !in command
    ensures ReadItem(ItemOpen + code + HrefOpen + command + "\"" + flags)
        == match ReadFlags(flags)
           case None => None
           case Some((shift, mod1, mod2)) =>
             Some(Validator.Item(Some(Escape.Unescape(code)), FlagValue(shift), FlagValue(mod1), FlagValue(mod2),
                                 Some(Escape.Unescape(command))))
  {
    var tail := "\"" + flags;
    var afterCommand := command + tail;
    var afterCode := HrefOpen + afterCommand;
    ConcatAssoc(HrefOpen, command, tail);
    ConcatAssoc(ItemOpen, code, afterCode);
    assert ItemOpen + code + HrefOpen + command + "\"" + flags == ItemOpen + code + afterCode;
    ReadValue(ItemOpen, code, afterCode);
    ReadValue(HrefOpen, command, tail);
    assert tail[..1] == "\"" && tail[1..] == flags;
  }

  /**
   * An item line reads back with the decoded values of what was written,
   * provided the written values contain no `"`.
   */
  lemma {:induction false} ReadItemLineWith(escape: string -> string, b: Binding)
    requires '"' !in escape(b.code) && '"' !in escape(b.command)
    ensures ReadItem(ItemLineWith(escape, b)) == Some(Validator.Item(
      Some(Escape.Unescape(escape(b.code))), FlagValue(b.shift), FlagValue(b.mod1), FlagValue(b.mod2),
      Some(Escape.Unescape(escape(b.command)))))
  {
    ReadItemParts(escape(b.code), escape(b.command), FlagsTail(b.shift, b.mod1, b.mod2));
    ReadFlagsWritten(b.shift, b.mod1, b.mod2);
  }

  /** With `saxutils.escape`, a binding whose code and command are plain and hold no `"` reads back unchanged. */
  lemma {:induction false} ItemLineRoundTrip(b: Binding)
    requires SafeBinding(b)
    ensures ReadItem(ItemLine(b)) == Some(ItemOf(b))
  {
    Escape.EscapeProperties(b.code);
    Escape.EscapeProperties(b.command);
    Escape.EscapeRoundTrip(b.code);
    Escape.EscapeRoundTrip(b.command);
    ReadItemLineWith(Escape.Escape, b);
  }

  /** With attribute-safe escaping every binding of plain values reads back unchanged, quotes included. */
  lemma {:induction false} SafeItemLineRoundTrip(b: Binding)
    requires PlainBinding(b)
    ensures ReadItem(SafeItemLine(b)) == Some(ItemOf(b))
  {
    Escape.EscapeAttributeRoundTrip(b.code);
    Escape.EscapeAttributeRoundTrip(b.command);
    ReadItemLineWith(Escape.EscapeAttribute, b);
  }

  /** A command suffix that closes the `xlink:href` value early and adds a Shift flag. */
  const InjectedShift := "\" accel:shift=\"true"

  lemma InjectedShiftInert()
    ensures Escape.Escape(InjectedShift) == InjectedShift
  {
    Escape.EscapeInert(InjectedShift);
  }

  lemma InjectedShiftCloses()
    ensures InjectedShift + "\"" == "\"" + ShiftAttribute
  {
  }

  /** Any suffix that escaping leaves alone and that reads as a closing quote plus the Shift flag. */
  lemma {:induction false} InjectedLine(code: string, command: string, extra: string, mod1: bool, mod2: bool)
    requires Escape.Escape(extra) == extra
    requires extra + "\"" == "\"" + ShiftAttribute
    ensures ItemLine(Binding(code, command + extra, false, mod1, mod2))
         == ItemLine(Binding(code, command, true, mod1, mod2))
  {
    Escape.EscapeConcat(command, extra);
    var head := ItemOpen + Escape.Escape(code) + HrefOpen + Escape.Escape(command);
    var quote, shift, tail := "\"", ShiftAttribute, FlagsTail(false, mod1, mod2);
    assert FlagsTail(true, mod1, mod2) == shift + tail;
    ConcatAssoc(ItemOpen + Escape.Escape(code) + HrefOpen, Escape.Escape(command), extra);
    assert ItemLine(Binding(code, command + extra, false, mod1, mod2))
        == head + extra + quote + tail;
    ConcatAssoc(head, extra, quote);
    ConcatAssoc(head, quote, shift);
    ConcatAssoc(head + quote, shift, tail);
    assert ItemLine(Binding(code, command, true, mod1, mod2)) == head + quote + (shift + tail);
  }

  /**
   * `saxutils.escape` leaves `"` alone, so a command ending in `InjectedShift`
   * writes the very line of a different binding: the same key and Ctrl and Alt
   * flags with Shift added, and the command cut at the quote. A parser reads
   * that other binding back.
   */
  lemma {:induction false} QuoteInjection(code: string, command: string, mod1: bool, mod2: bool)
    requires SafeText(code) && SafeText(command)
    ensures ItemLine(Binding(code, command + InjectedShift, false, mod1, mod2))
         == ItemLine(Binding(code, command, true, mod1, mod2))
    ensures ReadItem(ItemLine(Binding(code, command + InjectedShift, false, mod1, mod2)))
         == Some(ItemOf(Binding(code, command, true, mod1, mod2)))
    ensures ItemOf(Binding(code, command, true, mod1, mod2))
         != ItemOf(Binding(code, command + InjectedShift, false, mod1, mod2))
  {
    InjectedShiftInert();
    InjectedShiftCloses();
    InjectedLine(code, command, InjectedShift, mod1, mod2);
    ItemLineRoundTrip(Binding(code, command, true, mod1, mod2));
    assert |command + InjectedShift| != |command|;
  }

  /**
   * The mapping `Ctrl+A` to a command ending in `InjectedShift`, such as
   * `.uno:X" accel:shift="true`, is written as one line that a parser reads as
   * Ctrl+Shift+A bound to the command cut at the quote.
   */
  lemma {:induction false} CtrlAInjection(name: string, command: string)
    requires SafeText(command)
    ensures var m := Merge.Mapping(name, command + InjectedShift, "Ctrl+A");
      var b := Binding("KEY_A", command + InjectedShift, false, true, false);
      && Bindings([m]) == [b]
      && ReadItem(ItemLine(b)) == Some(ItemOf(Binding("KEY_A", command, true, true, false)))
  {
    var m := Merge.Mapping(name, command + InjectedShift, "Ctrl+A");
    CtrlABinding(m);
    KeyASafe();
    QuoteInjection("KEY_A", command, true, false);
  }

  lemma KeyASafe()
    ensures SafeText("KEY_A")
  {
    assert forall i | 0 <= i < 5 :: "KEY_A"[i] in "AEKY_";
  }

  /** A mapping with shortcut `Ctrl+A` is written as `KEY_A` with Ctrl alone. */
  lemma CtrlABinding(m: Merge.Mapping)
    requires m.msShortcut == "Ctrl+A"
    ensures Bindings([m]) == [Binding("KEY_A", m.unoCommand, false, true, false)]
  {
    Shortcut.CtrlA();
    assert BindingOf(m) == [Binding("KEY_A", m.unoCommand, false, true, false)];
    BindingsOne(m);
  }

  lemma {:induction false} ItemLineUnbroken(b: Binding)
    requires SafeBinding(b)
    ensures '\n' !in ItemLine(b)
  {
    PlainUnbroken(b.code);
    PlainUnbroken(b.command);
    Escape.EscapeProperties(b.code);
    Escape.EscapeProperties(b.command);
    assert '\n' !in ItemOpen && '\n' !in HrefOpen && '\n' !in FlagsTail(b.shift, b.mod1, b.mod2);
  }

  /** Item lines hold no line break. */
  lemma {:induction false} NoLineBreaks(bs: seq<Binding>)
    requires forall b | b in bs :: SafeBinding(b)
    ensures forall i | 0 <= i < |ItemLines(bs)| :: '\n' !in ItemLines(bs)[i]
  {
    forall i | 0 <= i < |ItemLines(bs)| ensures '\n' !in ItemLines(bs)[i] {
      assert bs[i] in bs;
      ItemLineUnbroken(bs[i]);
    }
  }

  lemma ListCloseUnbroken()
    ensures '\n' !in ListClose
  {
    assert forall i | 0 <= i < |ListClose| :: ListClose[i] != '\n';
  }

  lemma {:induction false} JoinAfterThree(x: string, y: string, z: string, rest: seq<string>, sep: char)
    requires rest != []
    ensures Join([x, y, z] + rest, sep) == x + [sep] + y + [sep] + z + [sep] + Join(rest, sep)
  {
    assert [x, y, z] + rest == [x] + ([y] + ([z] + rest));
    JoinCons(z, rest, sep);
    JoinCons(y, [z] + rest, sep);
    JoinCons(x, [y] + ([z] + rest), sep);
  }

  /**
   * A document made of the fixed header, some lines and the closing tag reads
   * as those lines read, when none of them holds a line break.
   */
  lemma {:induction false} ReadFramed(lines: seq<string>)
    requires forall i | 0 <= i < |lines| :: '\n' !in lines[i]
    ensures ReadDocument(Join(Header + lines + [ListClose], '\n')) == ReadItems(lines)
  {
    var rest := lines + [ListClose];
    var doc := Join(Header + lines + [ListClose], '\n');
    assert Header + lines + [ListClose] == [XmlDeclaration, DocType, ListOpen] + rest;
    JoinAfterThree(XmlDeclaration, DocType, ListOpen, rest, '\n');
    assert doc[..|Prologue|] == Prologue && doc[|Prologue|..] == Join(rest, '\n');
    ListCloseUnbroken();
    forall i | 0 <= i < |rest| ensures '\n' !in rest[i] {
      if i == |lines| {
        assert rest[i] == ListClose;
      } else {
        assert rest[i] == lines[i];
      }
    }
    SplitJoin(rest, '\n');
    assert rest[..|rest| - 1] == lines;
  }

  /** Reading the item lines of a list of bindings gives their items. */
  lemma {:induction false} ReadItemLines(bs: seq<Binding>)
    requires forall b | b in bs :: SafeBinding(b)
    ensures ReadItems(ItemLines(bs)) == Some(ItemsOf(bs))
  {
    if bs != [] {
      assert bs[0] in bs;
      ItemLineRoundTrip(bs[0]);
      assert forall b | b in bs[1..] :: b in bs;
      ReadItemLines(bs[1..]);
      var lines := ItemLines(bs);
      assert lines[0] == ItemLine(bs[0]) && lines[1..] == ItemLines(bs[1..]);
    }
  }

  /**
   * Round trip of the whole document: when every code and command is plain
   * text without `"`, the parser reports exactly one item per binding, in
   * order, with the written code, command and flags.
   */
  lemma {:induction false} DocumentRoundTrip(bs: seq<Binding>)
    requires forall b | b in bs :: SafeBinding(b)
    ensures ReadDocument(Join(DocumentLines(bs), '\n')) == Some(ItemsOf(bs))
  {
    NoLineBreaks(bs);
    ReadFramed(ItemLines(bs));
    ReadItemLines(bs);
  }

  /** `create_xml` round trip: the items reported are those of the mappings that parse. */
  lemma {:induction false} CreateXmlRoundTrip(ms: seq<Merge.Mapping>)
    requires forall b | b in Bindings(ms) :: SafeBinding(b)
    ensures ReadDocument(CreateXml(ms)) == Some(ItemsOf(Bindings(ms)))
  {
    DocumentRoundTrip(Bindings(ms));
  }

  // ---------------------------------------------------------------------
  // The corrected document

  /** With attribute-safe escaping, a line break can only come from the values themselves. */
  lemma {:induction false} SafeItemLineUnbroken(b: Binding)
    requires PlainBinding(b)
    ensures '\n' !in SafeItemLine(b)
  {
    PlainUnbroken(b.code);
    PlainUnbroken(b.command);
    Escape.EscapeAttributeRoundTrip(b.code);
    Escape.EscapeAttributeRoundTrip(b.command);
    assert '\n' !in ItemOpen && '\n' !in HrefOpen && '\n' !in FlagsTail(b.shift, b.mod1, b.mod2);
  }

  lemma {:induction false} SafeLinesUnbroken(bs: seq<Binding>)
    requires forall b | b in bs :: PlainBinding(b)
    ensures forall i | 0 <= i < |SafeItemLines(bs)| :: '\n' !in SafeItemLines(bs)[i]
  {
    forall i | 0 <= i < |SafeItemLines(bs)| ensures '\n' !in SafeItemLines(bs)[i] {
      assert bs[i] in bs;
      SafeItemLineUnbroken(bs[i]);
    }
  }

  /** Reading the corrected item lines gives the items of the bindings, whatever quotes they hold. */
  lemma {:induction false} SafeReadItemLines(bs: seq<Binding>)
    requires forall b | b in bs :: PlainBinding(b)
    ensures ReadItems(SafeItemLines(bs)) == Some(ItemsOf(bs))
  {
    if bs != [] {
      assert bs[0] in bs;
      assert forall b | b in bs[1..] :: b in bs;
      SafeItemLineRoundTrip(bs[0]);
      SafeReadItemLines(bs[1..]);
      var lines := SafeItemLines(bs);
      assert lines[0] == SafeItemLine(bs[0]) && lines[1..] == SafeItemLines(bs[1..]);
    }
  }

  /**
   * Round trip of the corrected document: every mapping that parses is read
   * back with its own code, command and flags, quotes included; only values
   * that are not plain text are excluded.
   */
  lemma {:induction false} SafeCreateXmlRoundTrip(ms: seq<Merge.Mapping>)
    requires forall b | b in Bindings(ms) :: PlainBinding(b)
    ensures ReadDocument(SafeCreateXml(ms)) == Some(ItemsOf(Bindings(ms)))
  {
    var bs := Bindings(ms);
    SafeLinesUnbroken(bs);
    ReadFramed(SafeItemLines(bs));
    SafeReadItemLines(bs);
  }

  /** Where no value holds `"`, the corrected document is exactly the one `create_xml` writes. */
  lemma {:induction false} SafeCreateXmlAgrees(ms: seq<Merge.Mapping>)
    requires forall b | b in Bindings(ms) :: '"' !in b.code && '"' !in b.command
    ensures SafeCreateXml(ms) == CreateXml(ms)
  {
    var bs := Bindings(ms);
    forall i | 0 <= i < |bs| ensures SafeItemLines(bs)[i] == ItemLines(bs)[i] {
      assert bs[i] in bs;
      Escape.AttributeAgrees(bs[i].code);
      Escape.AttributeAgrees(bs[i].command);
    }
    assert SafeItemLines(bs) == ItemLines(bs);
  }
}
