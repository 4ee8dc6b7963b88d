/**
 * Generating a package and then checking it with the validator: which
 * generated packages the validator accepts without a single diagnostic, and
 * which generated bindings it reports as duplicates.
 */
module Pipeline {
  import opened Wrappers
  import opened Strings
  import KeyTable
  import Shortcut
  import Merge
  import AccelXml
  import Validator
  import Package

  /** What makes two bindings the same shortcut: the key and the three modifiers. */
  function Key(b: AccelXml.Binding): (string, bool, bool, bool) {
    (b.code, b.shift, b.mod1, b.mod2)
  }

  predicate DistinctKeys(bs: seq<AccelXml.Binding>) {
    forall i, j | 0 <= i < j < |bs| :: Key(bs[i]) != Key(bs[j])
  }

  predicate UnoCommands(bs: seq<AccelXml.Binding>) {
    forall i | 0 <= i < |bs| :: StartsWith(bs[i].command, Validator.CommandPrefix)
  }

  /** Every entry of a required-shortcut table is bound to its key, with Ctrl alone when `ctrl` holds. */
  predicate Covers(bs: seq<AccelXml.Binding>, table: seq<(string, string)>, ctrl: bool) {
    forall k | 0 <= k < |table| :: exists i | 0 <= i < |bs| :: Key(bs[i]) == (table[k].0, false, ctrl, false)
  }

  /** The bindings the generator writes for a custom list merged over optional defaults. */
  function Generated(customs: seq<Merge.Mapping>, defaults: Option<seq<Merge.Mapping>>): seq<AccelXml.Binding> {
    AccelXml.Bindings(Merge.MergeMappings(customs, defaults))
  }

  // ---------------------------------------------------------------------

  /** Every generated item has a code, and its flags are absent or "true". */
  lemma {:induction false} ItemOfShape(b: AccelXml.Binding)
    requires StartsWith(b.code, KeyTable.CodePrefix)
    ensures Validator.Truthy(AccelXml.ItemOf(b).code)
    ensures Validator.PlainFlag(AccelXml.ItemOf(b).shift)
    ensures Validator.PlainFlag(AccelXml.ItemOf(b).mod1)
    ensures Validator.PlainFlag(AccelXml.ItemOf(b).mod2)
  {
    assert |b.code| >= |KeyTable.CodePrefix|;
  }

  /** Two generated items share a signature exactly when their bindings share a key. */
  lemma {:induction false} GeneratedSignatures(a: AccelXml.Binding, b: AccelXml.Binding)
    requires StartsWith(a.code, KeyTable.CodePrefix) && StartsWith(b.code, KeyTable.CodePrefix)
    ensures Validator.Signature(AccelXml.ItemOf(a)) == Validator.Signature(AccelXml.ItemOf(b)) <==> Key(a) == Key(b)
  {
    ItemOfShape(a);
    ItemOfShape(b);
    Validator.SignatureInjective(AccelXml.ItemOf(a), AccelXml.ItemOf(b));
  }

  /** The coverage view of generated items binds exactly the keys of the bindings. */
  lemma {:induction false} BoundKeysOf(bs: seq<AccelXml.Binding>)
    requires forall i | 0 <= i < |bs| :: StartsWith(bs[i].code, KeyTable.CodePrefix)
    ensures Validator.BoundKeys(AccelXml.ItemsOf(bs)) == set i | 0 <= i < |bs| :: Key(bs[i])
  {
    var items := AccelXml.ItemsOf(bs);
    var keys := set i | 0 <= i < |bs| :: Key(bs[i]);
    forall t | t in Validator.BoundKeys(items) ensures t in keys {
      var it :| it in items && Validator.Truthy(it.code)
        && t == (it.code.value, it.shift == Some("true"), it.mod1 == Some("true"), it.mod2 == Some("true"));
      var i :| 0 <= i < |items| && items[i] == it;
      ItemView(bs[i]);
    }
    forall i | 0 <= i < |bs| ensures Key(bs[i]) in Validator.BoundKeys(items) {
      ItemView(bs[i]);
      assert items[i] in items;
    }
  }

  /** The coverage view of one written item is its binding's key. */
  lemma {:induction false} ItemView(b: AccelXml.Binding)
    requires StartsWith(b.code, KeyTable.CodePrefix)
    ensures var it := AccelXml.ItemOf(b);
      && Validator.Truthy(it.code)
      && (it.code.value, it.shift == Some("true"), it.mod1 == Some("true"), it.mod2 == Some("true")) == Key(b)
  {
    ItemOfShape(b);
  }

  /**
   * A duplicate is reported for the i-th generated binding exactly when an
   * earlier binding has the same key and modifiers, provided every binding
   * has a command.
   */
  lemma {:induction false} GeneratedDuplicateIff(bs: seq<AccelXml.Binding>, i: nat)
    requires i < |bs|
    requires forall j | 0 <= j < |bs| :: StartsWith(bs[j].code, KeyTable.CodePrefix) && bs[j].command != []
    ensures (exists d :: d in Validator.ReportOf(AccelXml.ItemsOf(bs), i) && d.DuplicateKey?)
        <==> exists j | 0 <= j < i :: Key(bs[j]) == Key(bs[i])
  {
    var items := AccelXml.ItemsOf(bs);
    Validator.DuplicateReportedIff(items, i);
    ItemOfShape(bs[i]);
    forall j | 0 <= j < i
      ensures Validator.Checked(items[j])
      ensures Validator.Signature(items[j]) == Validator.Signature(items[i]) <==> Key(bs[j]) == Key(bs[i])
    {
      ItemOfShape(bs[j]);
      GeneratedSignatures(bs[j], bs[i]);
    }
  }

  /** The item checks stay silent exactly when every command is a `.uno:` command and no shortcut is bound twice. */
  lemma {:induction false} WalkCleanIff(bs: seq<AccelXml.Binding>)
    requires forall i | 0 <= i < |bs| :: StartsWith(bs[i].code, KeyTable.CodePrefix)
    ensures Validator.Walk(AccelXml.ItemsOf(bs), {}) == [] <==> UnoCommands(bs) && DistinctKeys(bs)
  {
    var items := AccelXml.ItemsOf(bs);
    Validator.WalkSilentIff(items);
    WellFormedItems(bs);
    DistinctItems(bs);
  }

  /** Each written item is a checked `.uno:` item exactly when its binding's command is a `.uno:` command. */
  lemma {:induction false} WellFormedItems(bs: seq<AccelXml.Binding>)
    requires forall i | 0 <= i < |bs| :: StartsWith(bs[i].code, KeyTable.CodePrefix)
    ensures Validator.AllWellFormed(AccelXml.ItemsOf(bs)) <==> UnoCommands(bs)
  {
    var items := AccelXml.ItemsOf(bs);
    forall i | 0 <= i < |bs|
      ensures Validator.WellFormed(items[i]) <==> StartsWith(bs[i].command, Validator.CommandPrefix)
    {
      ItemOfShape(bs[i]);
      if StartsWith(bs[i].command, Validator.CommandPrefix) {
        assert |bs[i].command| >= |Validator.CommandPrefix|;
      }
    }
  }

  /** Written items have pairwise distinct signatures exactly when their bindings have pairwise distinct keys. */
  lemma {:induction false} DistinctItems(bs: seq<AccelXml.Binding>)
    requires forall i | 0 <= i < |bs| :: StartsWith(bs[i].code, KeyTable.CodePrefix)
    ensures Validator.DistinctSignatures(AccelXml.ItemsOf(bs)) <==> DistinctKeys(bs)
  {
    var items := AccelXml.ItemsOf(bs);
    forall i, j | 0 <= i < j < |bs|
      ensures Validator.Signature(items[i]) != Validator.Signature(items[j]) <==> Key(bs[i]) != Key(bs[j])
    {
      GeneratedSignatures(bs[i], bs[j]);
    }
  }

  /** A required-shortcut table reports nothing exactly when the bindings cover it. */
  lemma {:induction false} CoverageCleanIff(bs: seq<AccelXml.Binding>, table: seq<(string, string)>, ctrl: bool)
    requires forall i | 0 <= i < |bs| :: StartsWith(bs[i].code, KeyTable.CodePrefix)
    ensures Validator.Uncovered(table, Validator.BoundKeys(AccelXml.ItemsOf(bs)), ctrl) == [] <==> Covers(bs, table, ctrl)
  {
    Validator.UncoveredEmptyIff(table, Validator.BoundKeys(AccelXml.ItemsOf(bs)), ctrl);
    BoundKeysOf(bs);
  }

  /**
   * The validator accepts the items of a binding list without any diagnostic
   * exactly when every command is a `.uno:` command, no shortcut is bound
   * twice, and every critical key and every Ctrl shortcut is bound.
   */
  lemma {:induction false} CleanIff(bs: seq<AccelXml.Binding>)
    requires forall i | 0 <= i < |bs| :: StartsWith(bs[i].code, KeyTable.CodePrefix)
    ensures Validator.Verify(Validator.Ok(AccelXml.ItemsOf(bs))) == []
        <==> UnoCommands(bs) && DistinctKeys(bs)
             && Covers(bs, Validator.CriticalKeys, false) && Covers(bs, Validator.CtrlShortcuts, true)
  {
    Validator.VerifyParts(AccelXml.ItemsOf(bs));
    WalkCleanIff(bs);
    CoverageCleanIff(bs, Validator.CriticalKeys, false);
    CoverageCleanIff(bs, Validator.CtrlShortcuts, true);
  }

  /**
   * End to end: the package generated from a merged mapping list passes the
   * validator with no diagnostic at all exactly when the written bindings use
   * `.uno:` commands, bind no shortcut twice and cover every critical key and
   * Ctrl shortcut — as long as no code or command holds a `"` or a character outside plain text.
   */
  lemma {:induction false} GeneratedPackageClean(customs: seq<Merge.Mapping>, defaults: Option<seq<Merge.Mapping>>)
    requires forall b | b in Generated(customs, defaults) :: AccelXml.SafeBinding(b)
    ensures var bs := Generated(customs, defaults);
      Validator.Verify(Package.OpenPackage(Some(Package.GeneratePackage(customs, defaults)))) == []
      <==> UnoCommands(bs) && DistinctKeys(bs)
           && Covers(bs, Validator.CriticalKeys, false) && Covers(bs, Validator.CtrlShortcuts, true)
  {
    var bs := Generated(customs, defaults);
    var archive := Package.OpenPackage(Some(Package.GeneratePackage(customs, defaults)));
    Package.GeneratedPackageOpens(customs, defaults);
    AccelXml.BindingCodes(Merge.MergeMappings(customs, defaults));
    assert archive == Validator.Ok(AccelXml.ItemsOf(bs));
    forall i | 0 <= i < |bs| ensures StartsWith(bs[i].code, KeyTable.CodePrefix) {
      assert bs[i] in bs;
    }
    CleanIff(bs);
  }

  /** Two bindings under the same key: the second is reported as a duplicate. */
  lemma {:induction false} PairDuplicate(b1: AccelXml.Binding, b2: AccelXml.Binding)
    requires StartsWith(b1.code, KeyTable.CodePrefix) && StartsWith(b2.code, KeyTable.CodePrefix)
    requires b1.command != [] && b2.command != []
    requires Key(b1) == Key(b2)
    ensures exists d :: d in Validator.ReportOf(AccelXml.ItemsOf([b1, b2]), 1) && d.DuplicateKey?
  {
    var bs := [b1, b2];
    GeneratedDuplicateIff(bs, 1);
    assert Key(bs[0]) == Key(bs[1]);
  }

  /** Two custom mappings and no defaults: each is written on its own, in order. */
  lemma {:induction false} PairGenerated(m1: Merge.Mapping, m2: Merge.Mapping)
    ensures Generated([m1, m2], None) == AccelXml.BindingOf(m1) + AccelXml.BindingOf(m2)
  {
    Merge.MergeWithoutDefaults([m1, m2]);
    assert [m1, m2] == [m1] + [m2];
    AccelXml.BindingsConcat([m1], [m2]);
    AccelXml.BindingsOne(m1);
    AccelXml.BindingsOne(m2);
  }

  /**
   * Two custom mappings whose shortcuts parse alike are both written, under
   * the same key, and the validator reports the second as a duplicate.
   */
  lemma {:induction false} SameParseDuplicate(m1: Merge.Mapping, m2: Merge.Mapping)
    requires Shortcut.Parse(m1.msShortcut).code.Some?
    requires Shortcut.Parse(m1.msShortcut) == Shortcut.Parse(m2.msShortcut)
    requires m1.unoCommand != [] && m2.unoCommand != []
    ensures var bs := Generated([m1, m2], None);
      var p := Shortcut.Parse(m1.msShortcut);
      && |bs| == 2 && Key(bs[0]) == Key(bs[1]) == (p.code.value, p.shift, p.mod1, p.mod2)
      && exists d :: d in Validator.ReportOf(AccelXml.ItemsOf(bs), 1) && d.DuplicateKey?
  {
    var p := Shortcut.Parse(m1.msShortcut);
    PairGenerated(m1, m2);
    AccelXml.BindingOfParsed(m1);
    AccelXml.BindingOfParsed(m2);
    var b1 := AccelXml.Binding(p.code.value, m1.unoCommand, p.shift, p.mod1, p.mod2);
    var b2 := AccelXml.Binding(p.code.value, m2.unoCommand, p.shift, p.mod1, p.mod2);
    assert Generated([m1, m2], None) == [b1, b2];
    PairDuplicate(b1, b2);
  }

  /**
   * The merge compares shortcut texts, not parsed shortcuts: a custom `S+Ctrl`
   * does not override a default `Ctrl+S`. Both are written, the default first,
   * as Ctrl with `KEY_S`, and the validator reports the custom one as a
   * duplicate.
   */
  lemma ReorderedShortcutDuplicate()
    ensures var save, saveAs := Merge.Mapping("Save", ".uno:Save", "Ctrl+S"), Merge.Mapping("Save As", ".uno:SaveAs", "S+Ctrl");
      && Merge.ShortcutKey("Ctrl+S") != Merge.ShortcutKey("S+Ctrl")
      && Merge.MergeMappings([saveAs], Some([save])) == [save, saveAs]
      && var bs := Generated([saveAs], Some([save]));
      && |bs| == 2 && Key(bs[0]) == Key(bs[1]) == ("KEY_S", false, true, false)
      && exists d :: d in Validator.ReportOf(AccelXml.ItemsOf(bs), 1) && d.DuplicateKey?
  {
    Shortcut.CtrlS();
    Shortcut.SThenCtrl();
    var key, key' := Merge.ShortcutKey("Ctrl+S"), Merge.ShortcutKey("S+Ctrl");
    assert key == Merge.RemoveSpaces(Upper("Ctrl+S")) && key[0] == 'C';
    assert key' == Merge.RemoveSpaces(Upper("S+Ctrl")) && key'[0] == 'S';
    var save, saveAs := Merge.Mapping("Save", ".uno:Save", "Ctrl+S"), Merge.Mapping("Save As", ".uno:SaveAs", "S+Ctrl");
    Merge.KeepOne(saveAs, save);
    assert Generated([saveAs], Some([save])) == Generated([save, saveAs], None);
    SameParseDuplicate(save, saveAs);
  }
}
