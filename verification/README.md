# MS Office shortcuts for LibreOffice — a Dafny model

The repository turns lists of Microsoft Office keyboard shortcuts into a LibreOffice
accelerator configuration package (`.cfg`). It also checks such a package again. This
project models and proves the core of both halves.

- **The generator** (`src/generate_config.py`):
  - `KEY_MAP`, the table of key names, with its letter, digit and function-key loops;
  - `parse_shortcut`, which turns `Ctrl+Shift+D` or `Ctrl++` into a key code and three
    modifier flags;
  - the merge of default and custom mappings in `generate_package`, where a custom
    mapping overrides every default whose shortcut has the same upper-cased, space-free
    form;
  - `create_xml`, which writes one `accel:item` line per mapping that parses. It escapes
    both attribute values with `xml.sax.saxutils.escape`;
  - `create_manifest`;
  - the three-entry zip layout: an uncompressed `mimetype` first, then the accelerator
    document, then the manifest.
- **The validator** (`src/verify_config.py`, `verify_cfg`):
  - the diagnostics list for a package, in the order the function appends them;
  - the missing-code and missing-command checks, the `.uno:` prefix check and the
    duplicate check on the string signature `code_shift_mod1_mod2`;
  - the 13 critical keys that must be bound without modifiers, and the 7 Ctrl shortcuts
    that must be bound with Ctrl alone. Both are checked on a view in which a flag holds
    only when it is the string `"true"`.

Modules, one per file:

| module | role |
|---|---|
| `Wrappers` | `Option` |
| `Strings` | ASCII `upper`, `split`, `join`, substring and prefix tests |
| `KeyTable` | `KEY_MAP` |
| `Shortcut` | `parse_shortcut` |
| `Merge` | the merge |
| `Escape` | `saxutils.escape` and entity decoding |
| `AccelXml` | `create_xml`, plus a reader for the document it writes |
| `Package` | the manifest, the archive, and opening an archive |
| `Validator` | `verify_cfg` |
| `Pipeline` | theorems that connect the generator with the validator |

Two inputs are abstracted:
- **Opening a zip and parsing XML.** `verify_cfg` receives an `Archive` outcome: not a zip
  archive, no accelerator entry, a parse error, or the list of `accel:item` elements with
  their raw attribute values.
- **The XML parser.** It is replaced by `AccelXml.ReadDocument`, a reader for exactly the
  line layout `create_xml` writes. The reader takes each attribute value up to the next
  `"` and decodes entities, as an XML parser does for values of plain text:
  characters from U+0020 up, other than U+FFFE and U+FFFF. A parser would turn a tab,
  carriage return or line feed in a value into a space and reject any other character
  below U+0020, so every theorem about what is read back requires plain values. The reader is what lets the
  model state round trips and end-to-end theorems.

The main results:
- `Shortcut` characterises when `parse_shortcut` yields no code, and proves that the last
  key candidate wins.
- `Merge` proves that a default survives exactly when no custom mapping shares its key,
  and that merging again is idempotent.
- `AccelXml.CreateXmlRoundTrip`: the validator's parser reads back exactly the generated
  bindings, provided every value is plain text without a `"`.
- `Pipeline.GeneratedPackageClean`: provided every code and command is plain text
  without a `"`, a generated package draws no diagnostic at all exactly when all of the
  following hold:
  - every command starts with `.uno:`;
  - no shortcut is written twice;
  - every critical key and Ctrl shortcut is bound.

## Model

| member | source | states |
|---|---|---|
| Strings.Split | src/generate_config.py:60 | `split("+")` yields one more piece than there are separators, and no piece holds the separator |
| Strings.JoinSplit | src/generate_config.py:60 | splitting loses nothing: joining the pieces with the separator gives the text back |
| Strings.SplitJoin | src/generate_config.py:161 | splitting a `"\n".join` of break-free lines gives exactly those lines back |
| Strings.UpperKeepsNonLetter | src/generate_config.py:60 | `upper()` neither creates nor removes a character that is not a letter, `+` in particular |
| Strings.ContainsAcrossSeparator | src/generate_config.py:109 | a `+`-free pattern such as "CTRL" occurs in `a+b` exactly when it occurs in `a` or in `b` |
| KeyTable.Resolve | src/generate_config.py:111-125 | every resolved key code starts with `KEY_`; a name not in the table gives `KEY_<name>` |
| KeyTable.Lookup | src/generate_config.py:9-54 | `KEY_MAP` as a partial function of the key name; its entries are stated by `KeyTable.LiteralEntry`, the alias lemmas, `KeyTable.StandardKeyCode` and `KeyTable.FunctionKeyCode` |
| KeyTable.LiteralEntry | src/generate_config.py:9-48 | a literal-table name that neither population loop overwrites keeps its literal code |
| KeyTable.EnterAliases | src/generate_config.py:11-12 | `ENTER` and `RETURN` both resolve to `KEY_RETURN` |
| KeyTable.EscapeAliases | src/generate_config.py:13-14 | `ESC` and `ESCAPE` both resolve to `KEY_ESCAPE` |
| KeyTable.PlusMinusAliases | src/generate_config.py:27-30 | the glyphs `+` and `-` and their aliases `PLUS` and `MINUS` resolve to `KEY_ADD` and `KEY_SUBTRACT` |
| KeyTable.PlusKey | src/generate_config.py:27 | `+` resolves to `KEY_ADD` |
| KeyTable.ColonSharesSemicolon | src/generate_config.py:37-39 | `:` deliberately shares `KEY_SEMICOLON` with `;` and `SEMICOLON` |
| KeyTable.StandardKeysRange | src/generate_config.py:51 | the first population loop covers exactly the letters A-Z and the digits 0-9 |
| KeyTable.StandardKeyCode | src/generate_config.py:51-52 | each letter and digit resolves to `KEY_` followed by itself |
| KeyTable.FunctionKeyCode | src/generate_config.py:53-54 | F1 to F12 resolve to `KEY_F1` to `KEY_F12` |
| KeyTable.F11Code | src/generate_config.py:53-54 | `F11` resolves to `KEY_F11`, with the number spelled in decimal as the f-string prints it |
| KeyTable.UnknownNameFallsBack | src/generate_config.py:115-116 | an unknown name such as `NUMLOCK` falls back to `KEY_NUMLOCK` |
| KeyTable.NamedKeysUpper | src/generate_config.py:9-48 | no name in the literal table has a lower-case letter |
| KeyTable.KeyNamesUpper | src/generate_config.py:9-54 | every name the table knows is upper-case, so upper-casing the input (line 60) reaches every entry |
| Shortcut.CleanFrom | src/generate_config.py:75-91 | every cleaned token is non-empty and is either the literal "+" or a raw token; cleaning never adds tokens |
| Shortcut.CleanParts | src/generate_config.py:75-91 | the `while` loop, with its extra index step after an empty token, computes the recursive cleaning |
| Shortcut.CleanWithoutEmpty | src/generate_config.py:75-91 | without empty tokens, cleaning changes nothing |
| Shortcut.PlusIffEmpty | src/generate_config.py:75-91 | among `+`-free tokens, a literal "+" survives cleaning exactly when some token was empty |
| Shortcut.LiteralPlusIffEmptyPart | src/generate_config.py:60-91 | a shortcut's cleaned tokens hold "+" exactly when splitting it produced an empty token |
| Shortcut.TokensCons | src/generate_config.py:60-91 | a leading `+`-free token contributes exactly one cleaned token, its upper-case form |
| Shortcut.ScanTokens | src/generate_config.py:94-105 | each flag is set exactly when its modifier token is present; the candidates are exactly the non-empty, non-modifier tokens |
| Shortcut.FlagsFromTokens | src/generate_config.py:94-101 | `shift`, `mod1` and `mod2` are set exactly when SHIFT, CTRL and ALT survive cleaning |
| Shortcut.FlagsWithoutEmptyTokens | src/generate_config.py:60-101 | without empty split tokens, each flag is set exactly when its token is among the split parts |
| Shortcut.Parse | src/generate_config.py:56-127 | any code the parser yields starts with `KEY_` |
| Shortcut.CaseInsensitive | src/generate_config.py:56-127 | two shortcuts with the same upper-case form parse identically |
| Shortcut.ModifierPrefix | src/generate_config.py:94-101 | when a key candidate follows, a leading modifier only adds its own flag to what the rest parses to |
| Shortcut.RepeatedModifier | src/generate_config.py:94-101 | repeating a modifier changes nothing |
| Shortcut.LastCandidateWins | src/generate_config.py:117-125 | a leading non-modifier token is discarded when another candidate follows |
| Shortcut.NoCandidateCode | src/generate_config.py:107-110 | with no candidate, the code is `KEY_ADD` exactly when the input holds `+` and Ctrl is not set, and absent otherwise |
| Shortcut.NoCodeIff | src/generate_config.py:107-125 | a shortcut has no code exactly when it has no candidate and either lacks `+` or has Ctrl |
| Shortcut.ModifierJoinMentionsCtrl | src/generate_config.py:109 | on a `+`-join of modifier names, the substring test for "CTRL" is the test for the CTRL token |
| Shortcut.SingleToken | src/generate_config.py:60-91 | a `+`-free shortcut has its upper-case form as its only token |
| Shortcut.SingleKey | src/generate_config.py:111-116 | a single key token parses to its resolution with no modifier |
| Shortcut.StandardKeyAlone | src/generate_config.py:111-116 | a single letter or digit parses to its own `KEY_` code with no modifier |
| Shortcut.ModifierThenKey | src/generate_config.py:94-116 | a modifier then a key gives that key with exactly that modifier's flag |
| Shortcut.KeyThenModifier | src/generate_config.py:94-116 | a key then a modifier parses the same as the modifier then the key |
| Shortcut.KeyThenKey | src/generate_config.py:117-125 | with two key tokens, the second one is the key and no flag is set |
| Shortcut.LetterThenLetter | src/generate_config.py:117-125 | with two letters or digits, the second gives the code |
| Shortcut.ModifierThenPlus | src/generate_config.py:75-114 | a modifier followed by `++` is that modifier with `KEY_ADD` |
| Shortcut.ModifierPair | src/generate_config.py:107-110 | two modifiers and no key give `KEY_ADD` unless one of them is Ctrl, in which case there is no code |
| Shortcut.CtrlS | src/generate_config.py:56-127 | `Ctrl+S` is `KEY_S` with Ctrl only |
| Shortcut.SThenCtrl | src/generate_config.py:56-127 | `S+Ctrl` parses like `Ctrl+S` |
| Shortcut.CtrlPlus | src/generate_config.py:56-127 | `Ctrl++` is `KEY_ADD` with Ctrl |
| Shortcut.LonePlus | src/generate_config.py:75-114 | a lone `+` is `KEY_ADD` with no modifier |
| Shortcut.EmptyShortcut | src/generate_config.py:75-114 | the empty shortcut splits into one empty token, which cleans to `+`, so it yields `KEY_ADD` |
| Shortcut.TriplePlusTokens | src/generate_config.py:75-91 | `+++` cleans to two literal "+" tokens |
| Shortcut.TriplePlus | src/generate_config.py:117-125 | `+++` is `KEY_ADD`, from the last of its two candidates |
| Shortcut.LeadingPlusSwallows | src/generate_config.py:75-91 | a leading `+` followed by one token cleans to the single token "+", because the loop skips the part after an empty one; the shortcut is `KEY_ADD` with no modifier |
| Shortcut.PlusCtrl | src/generate_config.py:75-105 | `+Ctrl` is `KEY_ADD` without Ctrl: the cleaning loop skips the modifier |
| Shortcut.APlusPlusB | src/generate_config.py:75-125 | `A++B` is `KEY_ADD`: `B` is skipped and "+" is the last candidate |
| Shortcut.CtrlA | src/generate_config.py:56-127 | `Ctrl+A` is `KEY_A` with Ctrl only |
| Shortcut.AThenB | src/generate_config.py:117-125 | `A+B` is `KEY_B`; `A` is dropped |
| Shortcut.CtrlAlone | src/generate_config.py:107-110 | `Ctrl` alone has no code |
| Shortcut.CtrlShiftAlone | src/generate_config.py:107-110 | `Ctrl+Shift` has no code |
| Shortcut.ShiftAltIsPlus | src/generate_config.py:107-110 | `Shift+Alt` holds a `+` and no Ctrl, so it means `KEY_ADD` with Shift and Alt |
| Shortcut.EnterIsReturn | src/generate_config.py:111-116 | `Enter` is `KEY_RETURN` with no modifier |
| Shortcut.ShiftF11 | src/generate_config.py:56-127 | `Shift+F11` is `KEY_F11` with Shift |
| Merge.RemoveSpaces | src/generate_config.py:185 | `replace(" ", "")` leaves no space and never lengthens the text |
| Merge.RemoveSpacesKeeps | src/generate_config.py:185-189 | removing spaces keeps every other character |
| Merge.SpaceDropped | src/generate_config.py:185-189 | a space anywhere in a shortcut does not change its override key |
| Merge.SpacesIgnored | src/generate_config.py:185-189 | `Ctrl + S` and `CTRL+S` have the same override key |
| Merge.OtherCharacterKept | src/generate_config.py:185-189 | a non-space, non-letter character held by only one of two shortcuts tells their override keys apart |
| Merge.TabKept | src/generate_config.py:185-189 | other whitespace is kept: a tab gives a different override key |
| Merge.GenerateMappings | src/generate_config.py:177-198 | the loop over the defaults followed by `extend(custom_mappings)` computes the merge; without defaults the customs are used |
| Merge.KeepDefaultsMembers | src/generate_config.py:188-193 | a default survives exactly when its override key is not a custom key |
| Merge.KeepDefaultsConcat | src/generate_config.py:188-191 | the filter keeps order: it distributes over concatenation |
| Merge.KeepDefaultsLength | src/generate_config.py:188-193 | no default is dropped exactly when no default's key is taken |
| Merge.MergeMappings | src/generate_config.py:177-198 | `final_mappings`; what it holds is stated by `Merge.MergeWithDefaults`, `Merge.MergeWithoutDefaults` and `Merge.MergeIdempotent`, and `Merge.GenerateMappings` shows that the source loop computes it |
| Merge.MergeWithDefaults | src/generate_config.py:177-196 | with defaults, the result is the kept defaults in order then all customs in order; a default is kept exactly when no custom shares its key |
| Merge.MergeWithoutDefaults | src/generate_config.py:197-198 | without defaults, the result is the customs |
| Merge.MergeIdempotent | src/generate_config.py:177-198 | merging the same customs over an earlier merge result changes nothing |
| Merge.OverrideOne | src/generate_config.py:185-193 | one custom mapping replaces one default with the same override key |
| Merge.OverrideExample | src/generate_config.py:185-193 | a custom `CTRL+S` overrides a default `Ctrl+S` |
| Merge.KeepOne | src/generate_config.py:185-196 | a default whose override key differs from the one custom mapping is kept, ahead of it |
| Escape.Escape | src/generate_config.py:146-148 | `saxutils.escape` as three sequential replaces; `Escape.EscapeRoundTrip` proves the independent decoder undoes it and `Escape.EscapeProperties` that it leaves no raw `<` or `>` |
| Escape.EscapeOneChar | src/generate_config.py:146-148 | the three sequential replaces turn a single character into its entity |
| Escape.EscapeIsCharwise | src/generate_config.py:146-148 | because `&` is replaced first, escaping equals escaping each character on its own |
| Escape.WrongOrderDoubleEscapes | src/generate_config.py:146-148 | replacing `<` before `&` would escape `<` twice, to `&amp;lt;`, which the real order does not |
| Escape.EscapeConcat | src/generate_config.py:146-148 | escaping distributes over concatenation |
| Escape.EscapeInert | src/generate_config.py:146-148 | text without `&`, `<` and `>` is left unchanged |
| Escape.EscapeCharsProperties | src/generate_config.py:146-148 | character-wise escaping writes no `<` or `>`, and keeps `"` and line breaks exactly where the input has them |
| Escape.EscapeProperties | src/generate_config.py:146-148 | escaped text holds no raw `<` or `>`, holds a `"` exactly when the input does, and a line break likewise |
| Escape.UnescapeEscapeChars | src/generate_config.py:146-148 | entity decoding undoes character-wise escaping |
| Escape.EscapeRoundTrip | src/generate_config.py:146-148 | decoding what `saxutils.escape` wrote gives the original text |
| Escape.EscapeAttributeRoundTrip | src/generate_config.py:146-150 | attribute-safe escaping leaves no `"` and decodes back to the original for every input; line breaks are kept |
| Escape.AttributeAgrees | src/generate_config.py:146-150 | on text without `"`, attribute-safe escaping is exactly `saxutils.escape` |
| AccelXml.Bindings | src/generate_config.py:136-158 | the bindings `create_xml`'s loop writes, in order; stated by `AccelXml.SkippedIffUnparsed` and `AccelXml.BindingsConcat` |
| AccelXml.SkippedIffUnparsed | src/generate_config.py:140-144 | a mapping contributes no line exactly when its shortcut yields no code; otherwise it contributes its code, command and flags |
| AccelXml.BindingsConcat | src/generate_config.py:136-158 | mappings are written one at a time, in order |
| AccelXml.BindingCodes | src/generate_config.py:140-148 | every written key code starts with `KEY_` |
| AccelXml.ItemLines | src/generate_config.py:136-158 | one item line per binding, in order |
| AccelXml.CreateXml | src/generate_config.py:129-161 | `create_xml`; its layout is stated by `AccelXml.DocumentLines` and its reading back by `AccelXml.CreateXmlRoundTrip` |
| AccelXml.DocumentLines | src/generate_config.py:129-161 | the document is the three header lines, one item line per binding in order, then the closing tag |
| AccelXml.ReadFlagsWritten | src/generate_config.py:151-156 | the flag attributes, written in the order shift, mod1, mod2 and only when set, read back as the flags written |
| AccelXml.ItemLineRoundTrip | src/generate_config.py:146-158 | an item line whose code and command are plain text without `"` reads back as that binding's code, command and flags |
| AccelXml.QuoteInjection | src/generate_config.py:146-158 | for plain code and command without `"` and any Ctrl and Alt flags, a command ending in `" accel:shift="true` writes the very line of a different binding (Shift added, command cut) and reads back as that binding |
| AccelXml.InjectedLine | src/generate_config.py:146-158 | for any Ctrl and Alt flags, any command suffix that escaping keeps and that reads as a closing quote plus the Shift attribute forges the Shift flag |
| AccelXml.CtrlABinding | src/generate_config.py:136-158 | a mapping with shortcut `Ctrl+A` is written as `KEY_A` with Ctrl alone and its own command |
| AccelXml.CtrlAInjection | src/generate_config.py:136-158 | for any plain command without `"`, such as `.uno:X`, the mapping `Ctrl+A` to that command followed by `" accel:shift="true` is written as `KEY_A` with Ctrl, and its line reads back as Ctrl+Shift+A bound to the command alone |
| AccelXml.SafeItemLineRoundTrip | src/generate_config.py:146-158 | with `"` escaped too, every item line of plain values reads back as its binding, quotes included |
| AccelXml.ItemLineUnbroken | src/generate_config.py:146-158 | an item line holds no line break when its values are plain text without `"` |
| AccelXml.NoLineBreaks | src/generate_config.py:136-158 | no item line holds a line break when every value is plain text without `"` |
| AccelXml.ReadFramed | src/generate_config.py:129-161 | a document of header, break-free lines and closing tag joined by newlines reads as those lines read |
| AccelXml.ReadItemLines | src/generate_config.py:136-158 | reading the item lines gives one item per binding, in order |
| AccelXml.DocumentRoundTrip | src/generate_config.py:129-161 | the whole document reads back as one item per binding, in order, with written code, command and flags |
| AccelXml.CreateXmlRoundTrip | src/generate_config.py:129-161 | `create_xml` round trip: the parser reports exactly the mappings that parse, in order, when every value is plain text without `"` |
| AccelXml.SafeCreateXmlRoundTrip | src/generate_config.py:129-161 | the corrected document reads back as every parsed mapping, quotes included; only values that are not plain text are excluded |
| AccelXml.SafeCreateXmlAgrees | src/generate_config.py:146-148 | where no value holds `"`, the corrected document is exactly what `create_xml` writes |
| Package.CreateManifest | src/generate_config.py:163-169 | `create_manifest`; stated by `Package.ManifestListsDocument` |
| Package.ManifestListsDocument | src/generate_config.py:163-169 | the manifest declares the configuration media type and lists the accelerator document's path |
| Package.PathsDistinct | src/generate_config.py:205-207 | the three entry names differ |
| Package.Archive | src/generate_config.py:203-207 | three entries with distinct names, `mimetype` first with the media type; all three stored uncompressed, `mimetype` by its explicit argument and the others because the archive's default is `ZIP_STORED` |
| Package.GeneratePackage | src/generate_config.py:177-207 | `generate_package` once its inputs are loaded; its entries are stated by `Package.Archive` and its reading back by `Package.GeneratedPackageOpens` |
| Package.ArchiveReadsDocument | src/generate_config.py:203-207 | reading `Configurations2/accelerator/current.xml` out of the archive gives the document stored |
| Package.Read | src/verify_config.py:13-17 | an entry can be read exactly when its name is in `namelist()`, and what is read is that entry's content |
| Package.OpenPackage | src/verify_config.py:11-20 | opening the archive and parsing its document; stated by `Package.MissingDocument` and `Package.OpenArchive` |
| Package.MissingDocument | src/verify_config.py:13-15 | an archive without the accelerator document is reported as missing it, whatever else it holds |
| Package.OpenArchive | src/verify_config.py:11-27 | opening a generated archive yields the items its document reads as |
| Package.GeneratedPackageOpens | src/generate_config.py:177-207 | opening a generated package reads back one item per merged mapping that parses, when every value is plain text without `"` |
| Validator.Walk | src/verify_config.py:31-54 | the item loop appends at most two diagnostics per item, all of them item-level |
| Validator.WalkConcat | src/verify_config.py:31-54 | the item loop over two runs is the loop over the first, then the second with the first's signatures seen |
| Validator.ReportAt | src/verify_config.py:31-54 | the item diagnostics split at any item into those before it, its own, and those after it |
| Validator.SeenMembers | src/verify_config.py:29-54 | `seen_keys` holds exactly the signatures of the items that passed the code and command checks |
| Validator.ReportDuplicateIff | src/verify_config.py:50-54 | one item's report holds a duplicate exactly when the item is checked and its signature was already seen |
| Validator.DuplicateReportedIff | src/verify_config.py:50-54 | item `i` is a duplicate exactly when it is checked and an earlier checked item has the same signature |
| Validator.DuplicateCount | src/verify_config.py:50-54 | duplicates reported plus distinct signatures equals the number of checked items |
| Validator.UnseenNotDuplicate | src/verify_config.py:52-54 | an item whose signature was not seen draws no duplicate |
| Validator.InvalidCommandStillTracked | src/verify_config.py:47-54 | a command without `.uno:` is reported, yet its signature is still recorded and a later copy is a duplicate |
| Validator.WalkWithoutCodes | src/verify_config.py:38-40 | items without a code draw exactly one missing-code diagnostic each |
| Validator.CommandlessItemCovers | src/verify_config.py:42-104 | an item with a code but no command is reported, yet still counts as bound in the coverage view |
| Validator.WalkSilentIff | src/verify_config.py:31-54 | the item loop reports nothing exactly when every item has a code and a `.uno:` command and no two items share a signature |
| Validator.Signature | src/verify_config.py:51 | the f-string `key_sig`; stated by `Validator.SignatureInjective` and `Validator.NoneSpellingCollides` |
| Validator.SignatureInjective | src/verify_config.py:51 | for plain flag values, two signatures agree exactly when code and the three raw flags agree |
| Validator.SplitAtLastSeparator | src/verify_config.py:51 | a signature splits uniquely at its last `_` when the last field holds none |
| Validator.AbsentVersusFalse | src/verify_config.py:51-104 | an absent flag and `"false"` look the same in the coverage view but give different signatures, so they are not duplicates |
| Validator.NoneSpellingCollides | src/verify_config.py:51-53 | an absent flag and the text `"None"` print alike, so two different items collide and the second is a duplicate |
| Validator.BoundKeys | src/verify_config.py:95-104 | `present_shortcuts`; stated by `Pipeline.BoundKeysOf` and `Validator.CommandlessItemCovers` |
| Validator.Uncovered | src/verify_config.py:106-125 | at most one diagnostic per table entry, all of the table's kind |
| Validator.UncoveredSound | src/verify_config.py:106-125 | every coverage diagnostic names a table entry whose shortcut is not bound |
| Validator.UncoveredIff | src/verify_config.py:106-125 | an entry is reported exactly when it is in the table and its shortcut is not bound |
| Validator.UncoveredOnce | src/verify_config.py:106-125 | with distinct codes, an unbound entry is reported exactly once and a bound one never |
| Validator.UncoveredAll | src/verify_config.py:106-125 | when nothing relevant is bound, every entry is reported |
| Validator.UncoveredAntitone | src/verify_config.py:106-125 | binding more shortcuts never adds a coverage diagnostic |
| Validator.UncoveredEmptyIff | src/verify_config.py:106-125 | a table reports nothing exactly when every entry's shortcut is bound |
| Validator.CriticalKeysDistinct | src/verify_config.py:57-71 | the thirteen critical keys have distinct codes |
| Validator.CtrlShortcutsDistinct | src/verify_config.py:112-120 | the seven Ctrl shortcuts have distinct codes |
| Validator.CriticalKeyReported | src/verify_config.py:106-109 | each critical key is reported exactly once when it is not bound without modifiers, and never when it is |
| Validator.CtrlShortcutReported | src/verify_config.py:122-125 | each Ctrl shortcut is reported exactly once when it is not bound with Ctrl alone, and never when it is |
| Validator.CriticalText | src/verify_config.py:109 | the critical line starts with `CRITICAL MISSING: ` and names both the key and its code |
| Validator.ComboText | src/verify_config.py:125 | the Ctrl line starts with `CRITICAL MISSING: ` and names the shortcut |
| Validator.Message | src/verify_config.py:106-125 | every coverage diagnostic's text starts with `CRITICAL MISSING: ` and names its entry |
| Validator.Verify | src/verify_config.py:7-135 | a package that fails to open draws exactly one fatal diagnostic; otherwise the list is bounded, and fatal, item, critical and Ctrl diagnostics come in that order |
| Validator.Diagnose | src/verify_config.py:31-125 | item diagnostics, then critical keys, then Ctrl shortcuts, with the count bounded |
| Validator.NothingBoundIn | src/verify_config.py:31-125 | a document without codes draws one missing-code diagnostic per item, then one report per table entry |
| Validator.NothingBound | src/verify_config.py:31-125 | a document without codes, the empty one included, draws one diagnostic per item plus all 20 coverage diagnostics |
| Validator.CoverageMonotone | src/verify_config.py:94-125 | adding items never adds a coverage diagnostic |
| Pipeline.ItemOfShape | src/generate_config.py:150-157 | every written item has a code, and its flags are absent or `"true"` |
| Pipeline.ItemView | src/verify_config.py:97-104 | the coverage view of a written item is its binding's key and modifiers |
| Pipeline.GeneratedSignatures | src/verify_config.py:51 | two written items share a signature exactly when their bindings share key and modifiers |
| Pipeline.BoundKeysOf | src/verify_config.py:94-104 | the coverage view of the written items is exactly the set of the bindings' shortcuts |
| Pipeline.GeneratedDuplicateIff | src/verify_config.py:50-54 | when every command is non-empty, a written binding is a duplicate exactly when an earlier one has the same key and modifiers |
| Pipeline.WellFormedItems | src/verify_config.py:38-48 | the written items pass the missing-code, missing-command and `.uno:` command-format checks exactly when every command starts with `.uno:` |
| Pipeline.DistinctItems | src/verify_config.py:50-54 | the written items have distinct signatures exactly when the bindings have distinct shortcuts |
| Pipeline.WalkCleanIff | src/verify_config.py:31-54 | the item checks stay silent exactly when every command is `.uno:` and no shortcut is written twice |
| Pipeline.CoverageCleanIff | src/verify_config.py:106-125 | a required-shortcut table reports nothing exactly when the bindings cover it |
| Pipeline.CleanIff | src/verify_config.py:31-125 | the validator is silent on written items exactly when commands are `.uno:`, shortcuts are distinct and every critical key and Ctrl shortcut is bound |
| Pipeline.GeneratedPackageClean | src/generate_config.py:177-207 | a generated package draws no diagnostic exactly when the merged bindings have `.uno:` commands, distinct shortcuts and full coverage, given plain values without `"` |
| Pipeline.PairGenerated | src/generate_config.py:136-158 | two custom mappings without defaults are written each on its own, in order |
| Pipeline.PairDuplicate | src/verify_config.py:50-54 | of two bindings with the same key and modifiers and non-empty commands, the second is reported as a duplicate |
| Pipeline.SameParseDuplicate | src/generate_config.py:185-198 | two custom mappings with non-empty commands whose shortcuts parse alike are both written, and the second is reported as a duplicate |
| Pipeline.ReorderedShortcutDuplicate | src/generate_config.py:185-191 | `Ctrl+S` and `S+Ctrl` have different override keys, so a custom `S+Ctrl` does not override a default `Ctrl+S`: the merge gives the default then the custom mapping, both are written as Ctrl with `KEY_S`, and the custom one is reported as a duplicate |

## Left out

- Reading and writing files is not modelled: `json.load`, `os.path.exists`, the `zipfile` format, the console messages, and the `Overriding default …` and `Warning: Could not parse …` prints. The mapping lists and the archive are parameters.
- The XML parser (ElementTree) is replaced by a reader that recognises only the layout `create_xml` writes. Other well-formed XML is not modelled, nor is attribute-value normalisation of tab, carriage return and line feed, nor the parse error a parser raises on any other control character or on U+FFFE and U+FFFF. A value holding one of these is therefore outside every round-trip theorem, which requires plain values: `AccelXml.CreateXmlRoundTrip`, `Package.GeneratedPackageOpens`, `Pipeline.GeneratedPackageClean`. For example, `Ctrl+X\tY` and `Ctrl+X Y` give the codes `KEY_X\tY` and `KEY_X Y`, which a real parser reads as the same shortcut.
- `Validator.Verify` takes the outcome of opening the file as input. `BadZipFile`, a missing entry and `ParseError` are modelled as outcomes. The catch-all `Unexpected error` branch is not modelled, because no modelled step raises.
- `Validator.Message`: the element dump of `ET.tostring(item)` and the parser's error text are not modelled. Those messages keep only their fixed prefix.
- `find_key` in `verify_cfg` is dead code: it computes nothing and is never called, so it is not modelled.
- `interactive_mode`, the command-line entry points of both scripts, and the GUI verification scripts are outside the core.
- `Strings.Upper` maps ASCII letters only. Python's Unicode `upper()`, e.g. `ß` becoming `SS`, is not modelled.
- `zipfile.ZipFile(path, 'w')` defaults to `ZIP_STORED`, so all three entries are modelled as `Stored`; `mimetype` is stored by its explicit argument, the other two by that default. The zip byte layout is not modelled.
- The mapping records carry only `command_name`, `uno_command` and `ms_shortcut`. A record missing a field is a `KeyError` in the source; it is not modelled.
- `+++` yields two literal `+` candidates. The duplicate signature is the f-string `code_shift_mod1_mod2`, with an absent flag printed as `None`; `Validator.NoneSpellingCollides` shows one consequence.

## Findings

| source | as written | input that shows it | evidently intended | confidence | as-written member | corrected member |
|---|---|---|---|---|---|---|
| src/generate_config.py:146-150 | `saxutils.escape` escapes `&`, `<` and `>` but not `"`, yet the value is placed inside a double-quoted attribute | the mapping `Ctrl+A` with uno_command `.uno:X" accel:shift="true` is written as a line that a parser reads as Ctrl+Shift+A bound to `.uno:X` | the attribute value is escaped with `"` written as `&quot;`, so every command reads back unchanged | not executed | AccelXml.QuoteInjection | AccelXml.SafeCreateXmlRoundTrip |

In the model, `AccelXml.CreateXml` follows the source as written, and `AccelXml.CtrlAInjection` works the example of the table through it. `AccelXml.SafeCreateXml` is the corrected document, and `AccelXml.SafeCreateXmlRoundTrip` proves that it reads back every binding. `AccelXml.SafeCreateXmlAgrees` proves that the two documents are identical whenever no value holds a `"`. Every theorem in `Package` and `Pipeline` that reads a generated document back assumes at least that, so those theorems hold for the corrected generator too.
