/**
 * The package validator of `src/verify_config.py` (`verify_cfg`). Opening the
 * archive and parsing the XML are abstracted into an `Archive` outcome; the
 * model computes the list of diagnostics from it, in the order the source
 * appends them.
 */
module Validator {
  import opened Wrappers
  import opened Strings

  /**
   * One `accel:item` element as ElementTree hands it over: each attribute is
   * absent or a string, exactly as written in the document.
   */
  datatype Item = Item(code: Option<string>, shift: Option<string>, mod1: Option<string>,
                       mod2: Option<string>, href: Option<string>)

  /**
   * The outcome of opening a package: not a zip archive, no
   * `Configurations2/accelerator/current.xml` entry, an XML parse error, or
   * the `accel:item` elements of the document in document order.
   */
  datatype Archive = BadZip | MissingEntry | ParseError | Ok(items: seq<Item>)

  /** One entry of the `errors` list. */
  datatype Diagnostic =
    | InvalidZip
    | MissingXml
    | XmlParseError
    | MissingCode(item: Item)
    | MissingCommand(item: Item)
    | InvalidCommand(command: string)
    | DuplicateKey(code: string, shift: Option<string>, mod1: Option<string>, mod2: Option<string>, command: string)
    | CriticalMissing(code: string, name: string)
    | ComboMissing(code: string, name: string)

  /** Every command must start with this namespace prefix. */
  const CommandPrefix := ".uno:"

  /** Keys that must be bound without modifiers, in the order of `CRITICAL_KEYS`. */
  const CriticalKeys: seq<(string, string)> := [
    ("KEY_BACKSPACE", "Backspace"),
    ("KEY_DELETE", "Delete"),
    ("KEY_RETURN", "Enter"),
    ("KEY_ESCAPE", "Escape"),
    ("KEY_TAB", "Tab"),
    ("KEY_UP", "Up Arrow"),
    ("KEY_DOWN", "Down Arrow"),
    ("KEY_LEFT", "Left Arrow"),
    ("KEY_RIGHT", "Right Arrow"),
    ("KEY_HOME", "Home"),
    ("KEY_END", "End"),
    ("KEY_PAGEUP", "Page Up"),
    ("KEY_PAGEDOWN", "Page Down")
  ]

  /** Keys that must be bound with Ctrl alone, in the order of `CTRL_SHORTCUTS`. */
  const CtrlShortcuts: seq<(string, string)> := [
    ("KEY_C", "Ctrl+C (Copy)"),
    ("KEY_X", "Ctrl+X (Cut)"),
    ("KEY_V", "Ctrl+V (Paste)"),
    ("KEY_Z", "Ctrl+Z (Undo)"),
    ("KEY_Y", "Ctrl+Y (Redo)"),
    ("KEY_S", "Ctrl+S (Save)"),
    ("KEY_A", "Ctrl+A (Select All)")
  ]

  /** Python truthiness of an attribute: absent and empty are both false. */
  predicate Truthy(o: Option<string>) {
    o.Some? && o.value != []
  }

  /** How an f-string prints an attribute: an absent one prints as "None". */
  function Show(o: Option<string>): string {
    match o
    case None => "None"
    case Some(v) => v
  }

  /** The duplicate-tracking key `f"{code}_{shift}_{mod1}_{mod2}"` of raw attribute values. */
  function Signature(it: Item): string {
    Show(it.code) + "_" + Show(it.shift) + "_" + Show(it.mod1) + "_" + Show(it.mod2)
  }

  /** Items that pass the code and command checks and so take part in the later checks. */
  predicate Checked(it: Item) {
    Truthy(it.code) && Truthy(it.href)
  }

  /** The signature an item adds to `seen_keys`. */
  function Added(it: Item): set<string> {
    if Checked(it) then {Signature(it)} else {}
  }

  /** `seen_keys` after visiting `items`. */
  function Seen(items: seq<Item>): set<string> {
    if items == [] then {} else Added(items[0]) + Seen(items[1..])
  }

  /** The diagnostics the loop body appends for one item, given the signatures seen before it. */
  function ItemReport(it: Item, seen: set<string>): seq<Diagnostic> {
    if !Truthy(it.code) then [MissingCode(it)]
    else if !Truthy(it.href) then [MissingCommand(it)]
    else
      (if StartsWith(it.href.value, CommandPrefix) then [] else [InvalidCommand(it.href.value)])
      + (if Signature(it) in seen
         then [DuplicateKey(it.code.value, it.shift, it.mod1, it.mod2, it.href.value)]
         else [])
  }

  /** The first loop over the items, starting from the signatures in `seen`. */
  function Walk(items: seq<Item>, seen: set<string>): (r: seq<Diagnostic>)
    ensures |r| <= 2 * |items|
    ensures forall d | d in r :: ItemLevel(d)
  {
    if items == [] then []
    else ItemReport(items[0], seen) + Walk(items[1..], seen + Added(items[0]))
  }

  /** `present_shortcuts`: the boolean view, in which a flag holds only for the string "true". */
  function BoundKeys(items: seq<Item>): set<(string, bool, bool, bool)> {
    set it | it in items && Truthy(it.code)
      :: (it.code.value, it.shift == Some("true"), it.mod1 == Some("true"), it.mod2 == Some("true"))
  }

  /** The diagnostic for a required shortcut that is not bound; `ctrl` selects the Ctrl table's wording. */
  function Lacking(code: string, name: string, ctrl: bool): Diagnostic {
    if ctrl then ComboMissing(code, name) else CriticalMissing(code, name)
  }

  /**
   * One diagnostic per table entry, in table order, whose shortcut is not
   * bound: the key alone, or the key with Ctrl alone when `ctrl` holds.
   */
  function Uncovered(table: seq<(string, string)>, bound: set<(string, bool, bool, bool)>, ctrl: bool): (r: seq<Diagnostic>)
    ensures |r| <= |table|
    ensures forall d | d in r :: if ctrl then d.ComboMissing? else d.CriticalMissing?
  {
    if table == [] then [] else Check(table[0], bound, ctrl) + Uncovered(table[1..], bound, ctrl)
  }

  /** Every report names an entry of the table whose shortcut is not bound. */
  lemma {:induction false} UncoveredSound(table: seq<(string, string)>, bound: set<(string, bool, bool, bool)>, ctrl: bool)
    ensures forall d | d in Uncovered(table, bound, ctrl) :: (d.code, d.name) in table && (d.code, false, ctrl, false) !in bound
  {
    if table != [] {
      UncoveredSound(table[1..], bound, ctrl);
      assert forall e | e in table[1..] :: e in table;
    }
  }

  /** The report for one table entry: none when its shortcut is bound. */
  function Check(entry: (string, string), bound: set<(string, bool, bool, bool)>, ctrl: bool): seq<Diagnostic> {
    if (entry.0, false, ctrl, false) in bound then [] else [Lacking(entry.0, entry.1, ctrl)]
  }

  /** The per-item diagnostics of the first loop. */
  predicate ItemLevel(d: Diagnostic) {
    d.MissingCode? || d.MissingCommand? || d.InvalidCommand? || d.DuplicateKey?
  }

  /** Where a diagnostic sits in the list: fatal, per item, critical key, Ctrl shortcut. */
  function Rank(d: Diagnostic): nat {
    if d.InvalidZip? || d.MissingXml? || d.XmlParseError? then 0
    else if ItemLevel(d) then 1
    else if d.CriticalMissing? then 2
    else 3
  }

  /** `verify_cfg`: the whole diagnostics list for one package. */
  function Verify(archive: Archive): (r: seq<Diagnostic>)
    ensures !archive.Ok? ==> |r| == 1 && Rank(r[0]) == 0
    ensures archive.Ok? ==> |r| <= 2 * |archive.items| + |CriticalKeys| + |CtrlShortcuts|
    ensures forall i, j | 0 <= i <= j < |r| :: Rank(r[i]) <= Rank(r[j])
  {
    match archive
    case BadZip => [InvalidZip]
    case MissingEntry => [MissingXml]
    case ParseError => [XmlParseError]
    case Ok(items) => Diagnose(items, CriticalKeys, CtrlShortcuts)
  }

  /** The diagnostics for a parsed document, against the given critical-key and Ctrl-shortcut tables. */
  function Diagnose(items: seq<Item>, critical: seq<(string, string)>, combos: seq<(string, string)>): (r: seq<Diagnostic>)
    ensures |r| <= 2 * |items| + |critical| + |combos|
    ensures forall i, j | 0 <= i <= j < |r| :: Rank(r[i]) <= Rank(r[j])
  {
    var bound := BoundKeys(items);
    var walked := Walk(items, {});
    var missing := Uncovered(critical, bound, false);
    var missingCombos := Uncovered(combos, bound, true);
    RanksConcatenate(walked, missing, missingCombos);
    walked + missing + missingCombos
  }

  /** Item diagnostics, then critical keys, then Ctrl shortcuts: ranks never decrease. */
  lemma {:induction false} RanksConcatenate(walked: seq<Diagnostic>, critical: seq<Diagnostic>, combos: seq<Diagnostic>)
    requires forall d | d in walked :: Rank(d) == 1
    requires forall d | d in critical :: Rank(d) == 2
    requires forall d | d in combos :: Rank(d) == 3
    ensures var r := walked + critical + combos;
      forall i, j | 0 <= i <= j < |r| :: Rank(r[i]) <= Rank(r[j])
  {
    var r := walked + critical + combos;
    forall i, j | 0 <= i <= j < |r|
      ensures Rank(r[i]) <= Rank(r[j])
    {
      assert r[i] in walked || r[i] in critical || r[i] in combos;
      assert r[j] in walked || r[j] in critical || r[j] in combos;
      assert i >= |walked| ==> r[i] !in walked;
    }
  }

  /** The text of a diagnostic, for the kinds whose text the source fixes completely. */
  function Message(d: Diagnostic): (r: string)
    ensures d.CriticalMissing? || d.ComboMissing? ==> StartsWith(r, MissingPrefix) && Contains(r, d.name)
    ensures d.CriticalMissing? ==> Contains(r, d.code)
  {
    match d
    case InvalidZip => "Invalid Zip File"
    case MissingXml => "Missing Configurations2/accelerator/current.xml"
    case XmlParseError => "XML Parse Error: "
    case MissingCode(_) => "Item missing code: "
    case MissingCommand(_) => "Item missing command: "
    case InvalidCommand(c) => "Invalid command format (must start with .uno:): " + c
    case DuplicateKey(c, s, m1, m2, cmd) =>
      "Duplicate key assignment: " + c + " (shift=" + Show(s) + ", mod1=" + Show(m1)
      + ", mod2=" + Show(m2) + ") assigned to " + cmd
    case CriticalMissing(c, n) => CriticalText(c, n)
    case ComboMissing(_, n) => ComboText(n)
  }

  const MissingPrefix := "CRITICAL MISSING: "

  /** The line for an unbound critical key names the action and the key code. */
  function CriticalText(code: string, name: string): (r: string)
    ensures StartsWith(r, MissingPrefix) && Contains(r, name) && Contains(r, code)
  {
    var r := MissingPrefix + name + " (" + code + ") is not bound!";
    ContainsSpliced(MissingPrefix, name, " (" + code + ") is not bound!");
    ContainsSpliced(MissingPrefix + name + " (", code, ") is not bound!");
    assert r == MissingPrefix + name + (" (" + code + ") is not bound!");
    r
  }

  /** The line for an unbound Ctrl shortcut names the action. */
  function ComboText(name: string): (r: string)
    ensures StartsWith(r, MissingPrefix) && Contains(r, name)
  {
    ContainsSpliced(MissingPrefix, name, " is not bound!");
    MissingPrefix + name + " is not bound!"
  }

  /** The diagnostics the first loop appends for item `i`. */
  function ReportOf(items: seq<Item>, i: nat): seq<Diagnostic>
    requires i < |items|
  {
    ItemReport(items[i], Seen(items[..i]))
  }

  /** Number of duplicate-key diagnostics in a list. */
  function CountDuplicates(ds: seq<Diagnostic>): nat {
    if ds == [] then 0 else (if ds[0].DuplicateKey? then 1 else 0) + CountDuplicates(ds[1..])
  }

  /** Number of items that reach the duplicate check. */
  function CheckedCount(items: seq<Item>): nat {
    if items == [] then 0 else (if Checked(items[0]) then 1 else 0) + CheckedCount(items[1..])
  }

  lemma {:induction false} SeenConcat(a: seq<Item>, b: seq<Item>)
    ensures Seen(a + b) == Seen(a) + Seen(b)
  {
    if a == [] {
      assert a + b == b;
    } else {
      assert (a + b)[1..] == a[1..] + b;
      SeenConcat(a[1..], b);
    }
  }

  /** `seen_keys` holds exactly the signatures of the checked items visited. */
  lemma {:induction false} SeenMembers(items: seq<Item>, sig: string)
    ensures sig in Seen(items) <==> exists j :: 0 <= j < |items| && Checked(items[j]) && Signature(items[j]) == sig
  {
    if items != [] {
      SeenMembers(items[1..], sig);
      if sig in Seen(items[1..]) {
        var j :| 0 <= j < |items[1..]| && Checked(items[1..][j]) && Signature(items[1..][j]) == sig;
        assert items[j + 1] == items[1..][j];
      }
      if exists j :: 0 <= j < |items| && Checked(items[j]) && Signature(items[j]) == sig {
        var j :| 0 <= j < |items| && Checked(items[j]) && Signature(items[j]) == sig;
        if j > 0 {
          assert items[1..][j - 1] == items[j];
        }
      }
    }
  }

  /** Walking two runs of items is walking the first, then the second with its signatures seen. */
  lemma {:induction false} WalkConcat(a: seq<Item>, b: seq<Item>, seen: set<string>)
    ensures Walk(a + b, seen) == Walk(a, seen) + Walk(b, seen + Seen(a))
  {
    if a == [] {
      assert a + b == b;
      assert seen + Seen(a) == seen;
    } else {
      assert (a + b)[1..] == a[1..] + b;
      WalkConcat(a[1..], b, seen + Added(a[0]));
      assert seen + Added(a[0]) + Seen(a[1..]) == seen + Seen(a);
    }
  }

  lemma {:induction false} WalkCons(x: Item, rest: seq<Item>, seen: set<string>)
    ensures Walk([x] + rest, seen) == ItemReport(x, seen) + Walk(rest, seen + Added(x))
  {
    assert ([x] + rest)[1..] == rest;
  }

  lemma {:induction false} SeenSnoc(pre: seq<Item>, x: Item)
    ensures Seen(pre + [x]) == Seen(pre) + Added(x)
  {
    SeenConcat(pre, [x]);
    assert [x][1..] == [];
  }

  /** The item loop's output splits at every item: before it, its own report, after it. */
  lemma {:induction false} ReportAt(items: seq<Item>, i: nat)
    requires i < |items|
    ensures Walk(items, {}) == Walk(items[..i], {}) + ReportOf(items, i) + Walk(items[i + 1..], Seen(items[..i + 1]))
  {
    var pre, x, rest := items[..i], items[i], items[i + 1..];
    assert items == pre + ([x] + rest);
    WalkConcat(pre, [x] + rest, {});
    assert {} + Seen(pre) == Seen(pre);
    WalkCons(x, rest, Seen(pre));
    assert items[..i + 1] == pre + [x];
    SeenSnoc(pre, x);
    assert Walk(items, {}) == Walk(pre, {}) + Walk([x] + rest, Seen(pre));
    assert Walk([x] + rest, Seen(pre)) == ReportOf(items, i) + Walk(rest, Seen(items[..i + 1]));
  }

  /** One item's report holds a duplicate exactly when it is checked and its signature was seen. */
  lemma {:induction false} ReportDuplicateIff(it: Item, seen: set<string>)
    ensures (exists d :: d in ItemReport(it, seen) && d.DuplicateKey?) <==> Checked(it) && Signature(it) in seen
  {
    var r := ItemReport(it, seen);
    if Checked(it) && Signature(it) in seen {
      assert r[|r| - 1].DuplicateKey?;
    }
  }

  /**
   * Item `i` is reported as a duplicate exactly when it is checked and an
   * earlier checked item has the same signature; so the first occurrence of a
   * signature is never reported and every later one is, whatever its command.
   */
  lemma {:induction false} DuplicateReportedIff(items: seq<Item>, i: nat)
    requires i < |items|
    ensures (exists d :: d in ReportOf(items, i) && d.DuplicateKey?)
        <==> Checked(items[i]) && exists j :: 0 <= j < i && Checked(items[j]) && Signature(items[j]) == Signature(items[i])
  {
    var pre, sig := items[..i], Signature(items[i]);
    ReportDuplicateIff(items[i], Seen(pre));
    SeenMembers(pre, sig);
    assert forall j | 0 <= j < i :: pre[j] == items[j];
  }

  lemma {:induction false} CountDuplicatesConcat(a: seq<Diagnostic>, b: seq<Diagnostic>)
    ensures CountDuplicates(a + b) == CountDuplicates(a) + CountDuplicates(b)
  {
    if a != [] {
      assert (a + b)[1..] == a[1..] + b;
      CountDuplicatesConcat(a[1..], b);
    } else {
      assert a + b == b;
    }
  }

  lemma {:induction false} CheckedCountConcat(a: seq<Item>, b: seq<Item>)
    ensures CheckedCount(a + b) == CheckedCount(a) + CheckedCount(b)
  {
    if a != [] {
      assert (a + b)[1..] == a[1..] + b;
      CheckedCountConcat(a[1..], b);
    } else {
      assert a + b == b;
    }
  }

  /**
   * Every checked item either adds a new signature or is reported as a
   * duplicate: duplicates reported plus distinct signatures equals checked items.
   */
  lemma {:induction false} DuplicateCount(items: seq<Item>)
    ensures CountDuplicates(Walk(items, {})) + |Seen(items)| == CheckedCount(items)
  {
    if items != [] {
      var n := |items| - 1;
      var a, x := items[..n], items[n];
      assert items == a + [x];
      DuplicateCount(a);
      WalkConcat(a, [x], {});
      assert {} + Seen(a) == Seen(a);
      var rx := ItemReport(x, Seen(a));
      assert Walk([x], Seen(a)) == rx;
      CountDuplicatesConcat(Walk(a, {}), rx);
      SeenGrows(a, x);
      CheckedCountConcat(a, [x]);
      assert CheckedCount([x]) == if Checked(x) then 1 else 0;
      ItemReportDuplicates(x, Seen(a));
    }
  }

  /** One more item adds its signature to those seen, when it is checked. */
  lemma {:induction false} SeenGrows(a: seq<Item>, x: Item)
    ensures |Seen(a + [x])| == |Seen(a)| + if Checked(x) && Signature(x) !in Seen(a) then 1 else 0
  {
    SeenSnoc(a, x);
  }

  /** The report for one item holds one duplicate exactly when it is checked and its signature was seen. */
  lemma {:induction false} ItemReportDuplicates(x: Item, seen: set<string>)
    ensures CountDuplicates(ItemReport(x, seen)) == if Checked(x) && Signature(x) in seen then 1 else 0
  {
    if Checked(x) {
      var head := if StartsWith(x.href.value, CommandPrefix) then [] else [InvalidCommand(x.href.value)];
      var tail := if Signature(x) in seen
        then [DuplicateKey(x.code.value, x.shift, x.mod1, x.mod2, x.href.value)] else [];
      assert ItemReport(x, seen) == head + tail;
      CountDuplicatesConcat(head, tail);
    }
  }

  /** A required shortcut is reported exactly when its table entry is not bound. */
  lemma {:induction false} UncoveredIff(table: seq<(string, string)>, bound: set<(string, bool, bool, bool)>,
                                        ctrl: bool, code: string, name: string)
    ensures Lacking(code, name, ctrl) in Uncovered(table, bound, ctrl)
        <==> (code, name) in table && (code, false, ctrl, false) !in bound
  {
    if table != [] {
      UncoveredIff(table[1..], bound, ctrl, code, name);
      assert (code, name) in table <==> (code, name) == table[0] || (code, name) in table[1..];
    }
  }

  /** Distinct key codes: every table entry names a different key. */
  predicate DistinctCodes(table: seq<(string, string)>) {
    forall i, j | 0 <= i < j < |table| :: table[i].0 != table[j].0
  }

  /** With distinct codes, each unbound entry is reported exactly once and a bound one never. */
  lemma {:induction false} UncoveredOnce(table: seq<(string, string)>, bound: set<(string, bool, bool, bool)>,
                                         ctrl: bool, k: nat)
    requires DistinctCodes(table)
    requires k < |table|
    ensures multiset(Uncovered(table, bound, ctrl))[Lacking(table[k].0, table[k].1, ctrl)]
        == if (table[k].0, false, ctrl, false) in bound then 0 else 1
  {
    var e, pre, post := table[k], table[..k], table[k + 1..];
    var d := Lacking(e.0, e.1, ctrl);
    assert table == pre + ([e] + post);
    UncoveredConcat(pre, [e] + post, bound, ctrl);
    assert ([e] + post)[0] == e && ([e] + post)[1..] == post;
    OnlyEntryWithCode(table, k);
    CodeNotReported(pre, e.0, e.1, bound, ctrl);
    CodeNotReported(post, e.0, e.1, bound, ctrl);
    CountInThree(Uncovered(pre, bound, ctrl), Check(e, bound, ctrl), Uncovered(post, bound, ctrl), d);
  }

  /** The reports for a split table are the reports for each part, in order. */
  lemma {:induction false} UncoveredConcat(a: seq<(string, string)>, b: seq<(string, string)>,
                                           bound: set<(string, bool, bool, bool)>, ctrl: bool)
    ensures Uncovered(a + b, bound, ctrl) == Uncovered(a, bound, ctrl) + Uncovered(b, bound, ctrl)
  {
    if a == [] {
      assert a + b == b;
    } else {
      assert (a + b)[0] == a[0] && (a + b)[1..] == a[1..] + b;
      UncoveredConcat(a[1..], b, bound, ctrl);
    }
  }

  /** With distinct codes, no entry but the `k`-th carries its code. */
  lemma {:induction false} OnlyEntryWithCode(table: seq<(string, string)>, k: nat)
    requires DistinctCodes(table) && k < |table|
    ensures forall e | e in table[..k] :: e.0 != table[k].0
    ensures forall e | e in table[k + 1..] :: e.0 != table[k].0
  {
    forall e | e in table[..k] ensures e.0 != table[k].0 {
      var i :| 0 <= i < k && table[..k][i] == e;
      assert table[i] == e;
    }
    forall e | e in table[k + 1..] ensures e.0 != table[k].0 {
      var i :| 0 <= i < |table| - k - 1 && table[k + 1..][i] == e;
      assert table[k + 1 + i] == e;
    }
  }

  /** A code no entry carries is never reported. */
  lemma {:induction false} CodeNotReported(table: seq<(string, string)>, code: string, name: string,
                                           bound: set<(string, bool, bool, bool)>, ctrl: bool)
    requires forall e | e in table :: e.0 != code
    ensures Lacking(code, name, ctrl) !in Uncovered(table, bound, ctrl)
  {
    UncoveredIff(table, bound, ctrl, code, name);
  }

  /** Occurrences of `d` in three joined reports, when only the middle one can hold it. */
  lemma {:induction false} CountInThree(a: seq<Diagnostic>, b: seq<Diagnostic>, c: seq<Diagnostic>, d: Diagnostic)
    requires d !in a && d !in c
    ensures multiset(a + (b + c))[d] == multiset(b)[d]
  {
    assert multiset(a + (b + c)) == multiset(a) + multiset(b) + multiset(c);
  }

  /** When no entry is bound, every entry of the table is reported. */
  lemma {:induction false} UncoveredAll(table: seq<(string, string)>, bound: set<(string, bool, bool, bool)>, ctrl: bool)
    requires forall e | e in bound :: e.1 || e.2 != ctrl || e.3
    ensures |Uncovered(table, bound, ctrl)| == |table|
  {
    if table != [] {
      UncoveredAll(table[1..], bound, ctrl);
    }
  }

  /** Binding more shortcuts never adds a report. */
  lemma {:induction false} UncoveredAntitone(table: seq<(string, string)>, small: set<(string, bool, bool, bool)>,
                                             big: set<(string, bool, bool, bool)>, ctrl: bool)
    requires small <= big
    ensures forall d | d in Uncovered(table, big, ctrl) :: d in Uncovered(table, small, ctrl)
    ensures |Uncovered(table, big, ctrl)| <= |Uncovered(table, small, ctrl)|
  {
    if table != [] {
      UncoveredAntitone(table[1..], small, big, ctrl);
    }
  }

  lemma CriticalKeysDistinct()
    ensures DistinctCodes(CriticalKeys)
  {
    DistinctByTag(CriticalKeys);
  }

  /** Codes whose length and first character after `KEY_` differ are different codes. */
  lemma {:induction false} DistinctByTag(table: seq<(string, string)>)
    requires forall i | 0 <= i < |table| :: |table[i].0| > 4
    requires forall i, j | 0 <= i < j < |table| :: (|table[i].0|, table[i].0[4]) != (|table[j].0|, table[j].0[4])
    ensures DistinctCodes(table)
  {
  }

  lemma CtrlShortcutsDistinct()
    ensures DistinctCodes(CtrlShortcuts)
  {
    DistinctByTag(CtrlShortcuts);
  }

  /** The diagnostics of a package whose document parsed: item checks, then the two coverage checks. */
  lemma {:induction false} VerifyParts(items: seq<Item>)
    ensures Verify(Ok(items)) == Walk(items, {}) + Uncovered(CriticalKeys, BoundKeys(items), false)
                                 + Uncovered(CtrlShortcuts, BoundKeys(items), true)
  {
  }

  /**
   * Critical key `k` is reported exactly once when it is not bound without
   * modifiers in the boolean view, and not at all when it is.
   */
  lemma {:induction false} CriticalKeyReported(items: seq<Item>, k: nat)
    requires k < |CriticalKeys|
    ensures multiset(Verify(Ok(items)))[CriticalMissing(CriticalKeys[k].0, CriticalKeys[k].1)]
        == if (CriticalKeys[k].0, false, false, false) in BoundKeys(items) then 0 else 1
  {
    var d := CriticalMissing(CriticalKeys[k].0, CriticalKeys[k].1);
    var bound := BoundKeys(items);
    VerifyParts(items);
    CriticalKeysDistinct();
    UncoveredOnce(CriticalKeys, bound, false, k);
    assert d !in Walk(items, {});
    assert d !in Uncovered(CtrlShortcuts, bound, true);
  }

  /** Ctrl shortcut `k` is reported exactly once when Ctrl plus its key is not bound, and never otherwise. */
  lemma {:induction false} CtrlShortcutReported(items: seq<Item>, k: nat)
    requires k < |CtrlShortcuts|
    ensures multiset(Verify(Ok(items)))[ComboMissing(CtrlShortcuts[k].0, CtrlShortcuts[k].1)]
        == if (CtrlShortcuts[k].0, false, true, false) in BoundKeys(items) then 0 else 1
  {
    var d := ComboMissing(CtrlShortcuts[k].0, CtrlShortcuts[k].1);
    var bound := BoundKeys(items);
    VerifyParts(items);
    CtrlShortcutsDistinct();
    UncoveredOnce(CtrlShortcuts, bound, true, k);
    assert d !in Walk(items, {});
    assert d !in Uncovered(CriticalKeys, bound, false);
  }

  lemma {:induction false} WalkWithoutCodes(items: seq<Item>, seen: set<string>)
    requires forall it | it in items :: !Truthy(it.code)
    ensures |Walk(items, seen)| == |items|
    ensures forall i | 0 <= i < |items| :: Walk(items, seen)[i] == MissingCode(items[i])
  {
    if items != [] {
      WalkWithoutCodes(items[1..], seen + Added(items[0]));
      assert forall i | 1 <= i < |items| :: items[1..][i - 1] == items[i];
    }
  }

  /** The shape of the report for a document without codes, for any pair of tables. */
  lemma {:induction false} NothingBoundIn(items: seq<Item>, critical: seq<(string, string)>, combos: seq<(string, string)>)
    requires forall it | it in items :: !Truthy(it.code)
    ensures var r := Walk(items, {}) + Uncovered(critical, BoundKeys(items), false) + Uncovered(combos, BoundKeys(items), true);
      && |r| == |items| + |critical| + |combos|
      && (forall i | 0 <= i < |items| :: r[i] == MissingCode(items[i]))
      && (forall d | d in r[|items|..] :: d.CriticalMissing? || d.ComboMissing?)
  {
    var bound := BoundKeys(items);
    assert bound == {};
    WalkWithoutCodes(items, {});
    UncoveredAll(critical, bound, false);
    UncoveredAll(combos, bound, true);
    var w, c, m := Walk(items, {}), Uncovered(critical, bound, false), Uncovered(combos, bound, true);
    assert (w + c + m)[|items|..] == c + m;
  }

  /**
   * A document in which no item has a code (the empty one included) draws one
   * missing-code diagnostic per item and then all thirteen critical-key and
   * seven Ctrl diagnostics.
   */
  lemma {:induction false} NothingBound(items: seq<Item>)
    requires forall it | it in items :: !Truthy(it.code)
    ensures |Verify(Ok(items))| == |items| + 20
    ensures forall i | 0 <= i < |items| :: Verify(Ok(items))[i] == MissingCode(items[i])
    ensures forall d | d in Verify(Ok(items))[|items|..] :: d.CriticalMissing? || d.ComboMissing?
  {
    VerifyParts(items);
    NothingBoundIn(items, CriticalKeys, CtrlShortcuts);
  }

  /** Adding items to a document can only remove coverage diagnostics, never add one. */
  lemma {:induction false} CoverageMonotone(items: seq<Item>, more: seq<Item>)
    ensures BoundKeys(items) <= BoundKeys(items + more)
    ensures forall d | d in Verify(Ok(items + more)) && Rank(d) >= 2 :: d in Verify(Ok(items))
  {
    var small, big := BoundKeys(items), BoundKeys(items + more);
    assert small <= big by {
      forall e | e in small ensures e in big {
        var it :| it in items && Truthy(it.code)
          && e == (it.code.value, it.shift == Some("true"), it.mod1 == Some("true"), it.mod2 == Some("true"));
        assert it in items + more;
      }
    }
    UncoveredAntitone(CriticalKeys, small, big, false);
    UncoveredAntitone(CtrlShortcuts, small, big, true);
    VerifyParts(items);
    VerifyParts(items + more);
  }

  /** A flag value the signature cannot confuse: absent, or a string without '_' other than "None". */
  predicate PlainFlag(o: Option<string>) {
    o.None? || ('_' !in o.value && o.value != "None")
  }

  /** If the right part of one split is shorter, the other's right part holds the first one's separator. */
  lemma {:induction false} SeparatorInside(x: string, y: string, x': string, y': string)
    requires x + "_" + y == x' + "_" + y'
    requires |y| < |y'|
    ensures y'[|y'| - 1 - |y|] == '_'
  {
    var s := x + "_" + y;
    assert s[|x|] == '_';
    assert s[|x|] == (x' + "_" + y')[|x'| + 1 + (|y'| - 1 - |y|)];
  }

  lemma {:induction false} SplitAtLastSeparator(x: string, y: string, x': string, y': string)
    requires '_' !in y && '_' !in y'
    requires x + "_" + y == x' + "_" + y'
    ensures x == x' && y == y'
  {
    var s := x + "_" + y;
    if |y| < |y'| {
      SeparatorInside(x, y, x', y');
      assert false;
    } else if |y'| < |y| {
      SeparatorInside(x', y', x, y);
      assert false;
    }
    assert y == s[|s| - |y|..] == y';
    assert x == s[..|x|] == x';
  }

  lemma {:induction false} ShowInjective(a: Option<string>, b: Option<string>)
    requires PlainFlag(a) && PlainFlag(b)
    requires Show(a) == Show(b)
    ensures a == b
  {
  }

  /**
   * For items with a code and plain flag values, two signatures agree exactly
   * when code and all three raw flag values agree, so the string key behaves
   * like the tuple it stands for.
   */
  lemma {:induction false} SignatureInjective(a: Item, b: Item)
    requires Truthy(a.code) && Truthy(b.code)
    requires PlainFlag(a.shift) && PlainFlag(a.mod1) && PlainFlag(a.mod2)
    requires PlainFlag(b.shift) && PlainFlag(b.mod1) && PlainFlag(b.mod2)
    ensures Signature(a) == Signature(b) <==> (a.code, a.shift, a.mod1, a.mod2) == (b.code, b.shift, b.mod1, b.mod2)
  {
    if Signature(a) == Signature(b) {
      assert forall o | PlainFlag(o) :: '_' !in Show(o);
      SplitAtLastSeparator(Show(a.code) + "_" + Show(a.shift) + "_" + Show(a.mod1), Show(a.mod2),
                           Show(b.code) + "_" + Show(b.shift) + "_" + Show(b.mod1), Show(b.mod2));
      SplitAtLastSeparator(Show(a.code) + "_" + Show(a.shift), Show(a.mod1),
                           Show(b.code) + "_" + Show(b.shift), Show(b.mod1));
      SplitAtLastSeparator(Show(a.code), Show(a.shift), Show(b.code), Show(b.shift));
      ShowInjective(a.shift, b.shift);
      ShowInjective(a.mod1, b.mod1);
      ShowInjective(a.mod2, b.mod2);
    }
  }

  /**
   * An absent flag and the string "false" mean the same in the coverage view
   * but give different signatures, so the pair is not a duplicate.
   */
  lemma {:induction false} AbsentVersusFalse(code: string, command: string)
    requires code != [] && command != []
    ensures var a := Item(Some(code), None, None, None, Some(command));
      var b := Item(Some(code), Some("false"), None, None, Some(command));
      BoundKeys([a, b]) == BoundKeys([a]) && CountDuplicates(Walk([a, b], {})) == 0
  {
    var a := Item(Some(code), None, None, None, Some(command));
    var b := Item(Some(code), Some("false"), None, None, Some(command));
    SignatureInjective(a, b);
    assert [a, b][1..] == [b];
    var ra, rb := ItemReport(a, {}), ItemReport(b, {Signature(a)});
    assert Walk([a, b], {}) == ra + rb;
    CountDuplicatesConcat(ra, rb);
    assert Signature(b) !in {Signature(a)};
    UnseenNotDuplicate(a, {});
    UnseenNotDuplicate(b, {Signature(a)});
  }

  lemma {:induction false} UnseenNotDuplicate(it: Item, seen: set<string>)
    requires Signature(it) !in seen
    ensures CountDuplicates(ItemReport(it, seen)) == 0
  {
    if Checked(it) {
      var head := if StartsWith(it.href.value, CommandPrefix) then [] else [InvalidCommand(it.href.value)];
      assert ItemReport(it, seen) == head + [];
      assert head + [] == head;
    }
  }

  /**
   * An absent flag and the string "None" print alike, so two different items
   * collide on the signature and the second is reported as a duplicate.
   */
  lemma {:induction false} NoneSpellingCollides(code: string, command: string)
    requires code != [] && command != []
    ensures var a := Item(Some(code), None, None, None, Some(command));
      var b := Item(Some(code), Some("None"), None, None, Some(command));
      a != b && Signature(a) == Signature(b) && CountDuplicates(Walk([a, b], {})) == 1
  {
    var a := Item(Some(code), None, None, None, Some(command));
    var b := Item(Some(code), Some("None"), None, None, Some(command));
    assert [a, b][1..] == [b];
    var ra, rb := ItemReport(a, {}), ItemReport(b, {Signature(a)});
    assert Walk([a, b], {}) == ra + rb;
    CountDuplicatesConcat(ra, rb);
    var head := if StartsWith(command, CommandPrefix) then [] else [InvalidCommand(command)];
    assert rb == head + [DuplicateKey(code, b.shift, None, None, command)];
    CountDuplicatesConcat(head, [DuplicateKey(code, b.shift, None, None, command)]);
  }

  /** An item with a code but no command is reported, yet still counts as bound. */
  lemma {:induction false} CommandlessItemCovers(it: Item)
    requires Truthy(it.code) && !Truthy(it.href)
    ensures Walk([it], {}) == [MissingCommand(it)]
    ensures (it.code.value, it.shift == Some("true"), it.mod1 == Some("true"), it.mod2 == Some("true")) in BoundKeys([it])
  {
    assert it in [it];
  }

  /**
   * A malformed command is reported but the item still takes part in the
   * duplicate check: a later item with the same signature is a duplicate.
   */
  lemma {:induction false} InvalidCommandStillTracked(a: Item, b: Item)
    requires Checked(a) && Checked(b) && Signature(a) == Signature(b)
    requires !StartsWith(a.href.value, CommandPrefix)
    ensures InvalidCommand(a.href.value) in Walk([a, b], {})
    ensures DuplicateKey(b.code.value, b.shift, b.mod1, b.mod2, b.href.value) in Walk([a, b], {})
  {
    assert [a, b][1..] == [b];
    var rb := ItemReport(b, {Signature(a)});
    assert Walk([a, b], {}) == [InvalidCommand(a.href.value)] + rb;
    assert rb[|rb| - 1] == DuplicateKey(b.code.value, b.shift, b.mod1, b.mod2, b.href.value);
  }

  /** An item that draws no diagnostic of its own: code, command, and the command namespace. */
  predicate WellFormed(it: Item) {
    Checked(it) && StartsWith(it.href.value, CommandPrefix)
  }

  predicate AllWellFormed(items: seq<Item>) {
    forall i | 0 <= i < |items| :: WellFormed(items[i])
  }

  predicate DistinctSignatures(items: seq<Item>) {
    forall i, j | 0 <= i < j < |items| :: Signature(items[i]) != Signature(items[j])
  }

  lemma {:induction false} WalkSilentFrom(items: seq<Item>, seen: set<string>)
    requires forall i | 0 <= i < |items| :: WellFormed(items[i]) && Signature(items[i]) !in seen
    requires DistinctSignatures(items)
    ensures Walk(items, seen) == []
  {
    if items != [] {
      var seen' := seen + Added(items[0]);
      forall i | 0 <= i < |items[1..]| ensures WellFormed(items[1..][i]) && Signature(items[1..][i]) !in seen' {
        assert items[1..][i] == items[i + 1];
      }
      assert DistinctSignatures(items[1..]) by {
        forall i, j | 0 <= i < j < |items[1..]| ensures Signature(items[1..][i]) != Signature(items[1..][j]) {
          assert items[1..][i] == items[i + 1] && items[1..][j] == items[j + 1];
        }
      }
      WalkSilentFrom(items[1..], seen');
    }
  }

  /**
   * The item checks report nothing exactly when every item has a code and a
   * `.uno:` command and no two items share a signature.
   */
  lemma {:induction false} WalkSilentIff(items: seq<Item>)
    ensures Walk(items, {}) == [] <==> AllWellFormed(items) && DistinctSignatures(items)
  {
    if Walk(items, {}) == [] {
      forall i | 0 <= i < |items| ensures WellFormed(items[i]) && ReportOf(items, i) == [] {
        ReportAt(items, i);
        var r := ReportOf(items, i);
        assert |r| == 0;
      }
      forall i, j | 0 <= i < j < |items| ensures Signature(items[i]) != Signature(items[j]) {
        DuplicateReportedIff(items, j);
        assert !(exists d :: d in ReportOf(items, j) && d.DuplicateKey?);
      }
    } else if AllWellFormed(items) && DistinctSignatures(items) {
      WalkSilentFrom(items, {});
    }
  }

  /** A coverage table reports nothing exactly when every entry's shortcut is bound. */
  lemma {:induction false} UncoveredEmptyIff(table: seq<(string, string)>, bound: set<(string, bool, bool, bool)>, ctrl: bool)
    ensures Uncovered(table, bound, ctrl) == [] <==> forall k | 0 <= k < |table| :: (table[k].0, false, ctrl, false) in bound
  {
    if table != [] {
      UncoveredEmptyIff(table[1..], bound, ctrl);
      assert forall k | 1 <= k < |table| :: table[1..][k - 1] == table[k];
      if (table[0].0, false, ctrl, false) !in bound {
        assert Check(table[0], bound, ctrl) != [];
      }
    }
  }
}
