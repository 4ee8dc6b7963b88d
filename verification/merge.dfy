/**
 * The merge of default and custom mappings inside `generate_package`
 * (`src/generate_config.py`): a custom mapping overrides every default whose
 * shortcut string is the same after upper-casing and removing spaces.
 */
module Merge {
  import opened Wrappers
  import opened Strings

  /** One record of a mapping file. */
  datatype Mapping = Mapping(commandName: string, unoCommand: string, msShortcut: string)

  /** `s.replace(" ", "")`: only the space character is removed, other whitespace stays. */
  function RemoveSpaces(s: string): (r: string)
    ensures ' ' !in r
    ensures |r| <= |s|
  {
    if s == [] then []
    else (if s[0] == ' ' then [] else [s[0]]) + RemoveSpaces(s[1..])
  }

  /** The override key of a shortcut: `ms_shortcut.upper().replace(" ", "")`. */
  function ShortcutKey(shortcut: string): string {
    RemoveSpaces(Upper(shortcut))
  }

  /** The keys of `custom_keys`. */
  function CustomKeys(customs: seq<Mapping>): set<string> {
    set m | m in customs :: ShortcutKey(m.msShortcut)
  }

  /** The defaults whose key is not taken by a custom mapping, in their order. */
  function KeepDefaults(defaults: seq<Mapping>, keys: set<string>): seq<Mapping> {
    if defaults == [] then []
    else
      var rest := KeepDefaults(defaults[1..], keys);
      if ShortcutKey(defaults[0].msShortcut) in keys then rest else [defaults[0]] + rest
  }

  /**
   * `final_mappings`. `defaults` is `None` when no defaults path was given or
   * the file does not exist; then the customs are used as they are.
   */
  function MergeMappings(customs: seq<Mapping>, defaults: Option<seq<Mapping>>): seq<Mapping> {
    match defaults
    case None => customs
    case Some(ds) => KeepDefaults(ds, CustomKeys(customs)) + customs
  }

  /** The source's loop over the defaults followed by `extend(custom_mappings)`. */
  method GenerateMappings(customs: seq<Mapping>, defaults: Option<seq<Mapping>>)
    returns (final: seq<Mapping>)
    ensures final == MergeMappings(customs, defaults)
  {
    if defaults.None? {
      return customs;
    }
    var ds := defaults.value;
    var keys := CustomKeys(customs);
    final := [];
    var i := 0;
    while i < |ds|
      invariant i <= |ds|
      invariant final + KeepDefaults(ds[i..], keys) == KeepDefaults(ds, keys)
    {
      assert ds[i..][1..] == ds[i + 1..];
      var key := ShortcutKey(ds[i].msShortcut);
      KeepDefaultsHead(ds[i..], keys);
      if key !in keys {
        assert (final + [ds[i]]) + KeepDefaults(ds[i + 1..], keys) == final + ([ds[i]] + KeepDefaults(ds[i + 1..], keys));
        final := final + [ds[i]];
      }
      i := i + 1;
    }
    final := final + customs;
  }

  // ---------------------------------------------------------------------
  // Properties

  /** One step of the filter: the first default is kept or dropped, then the rest are filtered. */
  lemma KeepDefaultsHead(defaults: seq<Mapping>, keys: set<string>)
    requires defaults != []
    ensures KeepDefaults(defaults, keys)
         == (if ShortcutKey(defaults[0].msShortcut) in keys then [] else [defaults[0]]) + KeepDefaults(defaults[1..], keys)
  {
  }

  /** A default survives exactly when its key is not a custom key. */
  lemma {:induction false} KeepDefaultsMembers(defaults: seq<Mapping>, keys: set<string>, d: Mapping)
    ensures d in KeepDefaults(defaults, keys) <==> d in defaults && ShortcutKey(d.msShortcut) !in keys
  {
    if defaults != [] {
      KeepDefaultsMembers(defaults[1..], keys, d);
      assert defaults == [defaults[0]] + defaults[1..];
    }
  }

  /** Filtering keeps order: it distributes over concatenation. */
  lemma {:induction false} KeepDefaultsConcat(a: seq<Mapping>, b: seq<Mapping>, keys: set<string>)
    ensures KeepDefaults(a + b, keys) == KeepDefaults(a, keys) + KeepDefaults(b, keys)
  {
    if a == [] {
      assert a + b == b;
    } else {
      assert (a + b)[1..] == a[1..] + b;
      KeepDefaultsConcat(a[1..], b, keys);
    }
  }

  /** Nothing is dropped exactly when no default's key is taken. */
  lemma {:induction false} KeepDefaultsLength(defaults: seq<Mapping>, keys: set<string>)
    ensures |KeepDefaults(defaults, keys)| <= |defaults|
    ensures |KeepDefaults(defaults, keys)| == |defaults|
            <==> forall i :: 0 <= i < |defaults| ==> ShortcutKey(defaults[i].msShortcut) !in keys
  {
    if defaults != [] {
      KeepDefaultsLength(defaults[1..], keys);
      if ShortcutKey(defaults[0].msShortcut) !in keys {
        forall i | 1 <= i < |defaults|
          ensures defaults[i] == defaults[1..][i - 1]
        {
        }
      }
    }
  }

  /**
   * With defaults, the result is the kept defaults in order followed by all
   * customs in order; a default is in it exactly when no custom has its key,
   * and no kept default shares a key with any custom.
   */
  lemma {:induction false} MergeWithDefaults(customs: seq<Mapping>, ds: seq<Mapping>)
    ensures var kept := KeepDefaults(ds, CustomKeys(customs));
      && MergeMappings(customs, Some(ds)) == kept + customs
      && |MergeMappings(customs, Some(ds))| == |kept| + |customs|
      && (forall d :: d in kept <==> d in ds && forall c :: c in customs ==> ShortcutKey(c.msShortcut) != ShortcutKey(d.msShortcut))
  {
    var keys := CustomKeys(customs);
    forall d
      ensures d in KeepDefaults(ds, keys) <==> d in ds && forall c :: c in customs ==> ShortcutKey(c.msShortcut) != ShortcutKey(d.msShortcut)
    {
      KeepDefaultsMembers(ds, keys, d);
    }
  }

  /** Without defaults the customs are the result. */
  lemma {:induction false} MergeWithoutDefaults(customs: seq<Mapping>)
    ensures MergeMappings(customs, None) == customs
  {
  }

  /** Merging the same customs again over an earlier merge result changes nothing. */
  lemma {:induction false} MergeIdempotent(customs: seq<Mapping>, ds: seq<Mapping>)
    ensures MergeMappings(customs, Some(MergeMappings(customs, Some(ds)))) == MergeMappings(customs, Some(ds))
  {
    var keys := CustomKeys(customs);
    var kept := KeepDefaults(ds, keys);
    var merged := kept + customs;
    assert MergeMappings(customs, Some(ds)) == merged;
    KeepDefaultsConcat(kept, customs, keys);
    assert forall c :: c in customs ==> ShortcutKey(c.msShortcut) in keys;
    KeepDefaultsOwnKeys(customs, keys);
    KeepDefaultsIdempotent(ds, keys);
    assert KeepDefaults(merged, keys) == kept;
    assert MergeMappings(customs, Some(merged)) == KeepDefaults(merged, keys) + customs;
  }

  lemma {:induction false} KeepDefaultsOwnKeys(customs: seq<Mapping>, keys: set<string>)
    requires forall c :: c in customs ==> ShortcutKey(c.msShortcut) in keys
    ensures KeepDefaults(customs, keys) == []
  {
    if customs != [] {
      assert customs[0] in customs;
      KeepDefaultsOwnKeys(customs[1..], keys);
    }
  }

  lemma {:induction false} KeepDefaultsIdempotent(ds: seq<Mapping>, keys: set<string>)
    ensures KeepDefaults(KeepDefaults(ds, keys), keys) == KeepDefaults(ds, keys)
  {
    if ds != [] {
      KeepDefaultsIdempotent(ds[1..], keys);
      var rest := KeepDefaults(ds[1..], keys);
      if ShortcutKey(ds[0].msShortcut) !in keys {
        assert ([ds[0]] + rest)[1..] == rest;
      }
    }
  }

  /** A single custom mapping replaces a single default with the same override key. */
  lemma {:induction false} OverrideOne(custom: Mapping, default: Mapping)
    requires ShortcutKey(default.msShortcut) == ShortcutKey(custom.msShortcut)
    ensures MergeMappings([custom], Some([default])) == [custom]
  {
    var keys := CustomKeys([custom]);
    assert custom in [custom];
    assert ShortcutKey(default.msShortcut) in keys;
    assert [default][1..] == [];
    assert KeepDefaults([default], keys) == KeepDefaults([], keys) == [];
  }

  /** A default under a different key is kept, ahead of the custom mapping. */
  lemma {:induction false} KeepOne(custom: Mapping, default: Mapping)
    requires ShortcutKey(default.msShortcut) != ShortcutKey(custom.msShortcut)
    ensures MergeMappings([custom], Some([default])) == [default, custom]
  {
    var keys := CustomKeys([custom]);
    assert keys == {ShortcutKey(custom.msShortcut)};
    assert [default][1..] == [];
    assert KeepDefaults([default], keys) == [default] + KeepDefaults([], keys) == [default];
  }

  /** A custom `CTRL+S` overrides a default `Ctrl+S`. */
  lemma OverrideExample()
    ensures var save := Mapping("Save", ".uno:Save", "Ctrl+S");
            var saveAs := Mapping("Save As", ".uno:SaveAs", "CTRL+S");
            MergeMappings([saveAs], Some([save])) == [saveAs]
  {
    assert Upper("Ctrl+S") == "CTRL+S";
    assert Upper("CTRL+S") == "CTRL+S";
    OverrideOne(Mapping("Save As", ".uno:SaveAs", "CTRL+S"), Mapping("Save", ".uno:Save", "Ctrl+S"));
  }

  /** A space anywhere in a shortcut does not change its override key. */
  lemma {:induction false} SpaceDropped(a: string, b: string)
    ensures RemoveSpaces(a + " " + b) == RemoveSpaces(a + b)
  {
    calc {
      RemoveSpaces(a + " " + b);
      { RemoveSpacesConcat(a + " ", b); }
      RemoveSpaces(a + " ") + RemoveSpaces(b);
      { RemoveSpacesConcat(a, " "); SingleSpace(); }
      RemoveSpaces(a) + RemoveSpaces(b);
      { RemoveSpacesConcat(a, b); }
      RemoveSpaces(a + b);
    }
  }

  /** Removing spaces keeps every other character. */
  lemma {:induction false} RemoveSpacesKeeps(s: string, c: char)
    requires c != ' '
    ensures c in RemoveSpaces(s) <==> c in s
  {
    if s != [] {
      RemoveSpacesKeeps(s[1..], c);
      assert s == [s[0]] + s[1..];
    }
  }

  lemma {:induction false} RemoveSpacesConcat(a: string, b: string)
    ensures RemoveSpaces(a + b) == RemoveSpaces(a) + RemoveSpaces(b)
  {
    if a != [] {
      assert (a + b)[1..] == a[1..] + b;
      RemoveSpacesConcat(a[1..], b);
    } else {
      assert a + b == b;
    }
  }

  lemma SingleSpace()
    ensures RemoveSpaces(" ") == []
  {
    assert " "[1..] == [];
  }

  /** Spaces do not matter to the override key. */
  lemma SpacesIgnored()
    ensures ShortcutKey("Ctrl + S") == ShortcutKey("CTRL+S")
  {
    assert Upper("Ctrl + S") == "CTRL + S";
    assert Upper("CTRL+S") == "CTRL+S";
    SpaceDropped("CTRL", "+ S");
    SpaceDropped("CTRL+", "S");
    assert "CTRL + S" == "CTRL" + " " + "+ S";
    assert "CTRL" + "+ S" == "CTRL+" + " " + "S";
    assert "CTRL+" + "S" == "CTRL+S";
  }

  /** A character other than a space or a letter that only one shortcut holds tells their override keys apart. */
  lemma {:induction false} OtherCharacterKept(s: string, t: string, c: char)
    requires c != ' ' && !('a' <= c <= 'z') && !('A' <= c <= 'Z')
    requires c in s && c !in t
    ensures ShortcutKey(s) != ShortcutKey(t)
  {
    UpperKeepsNonLetter(s, c);
    UpperKeepsNonLetter(t, c);
    RemoveSpacesKeeps(Upper(s), c);
    RemoveSpacesKeeps(Upper(t), c);
  }

  /** Other whitespace is kept: a tab makes a different override key. */
  lemma TabKept()
    ensures ShortcutKey("Ctrl+\tS") != ShortcutKey("CTRL+S")
  {
    assert "Ctrl+\tS"[5] == '\t';
    OtherCharacterKept("Ctrl+\tS", "CTRL+S", '\t');
  }
}
