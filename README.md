# EPrints autofill: a verified model of the form-filling rules

`content.js` (EPrints Autofill v3.0) is a browser extension script. It runs on
the EPrints "Edit → Upload" page. For every uploaded document block, it fills
three form controls:

- the format description, with a canonical label derived from the file's display name;
- the "Visible to" select: `Anyone` for a cover page, `Registered users only` otherwise;
- the language select: `Indonesian`.

It then marks the block so that it is never filled again.

This project models that rule logic in Dafny and proves its properties:

- `js_text.dfy` (module `JsText`) holds the JavaScript string built-ins the rules use:
  - `trim`, with JavaScript's exact whitespace set;
  - `includes`;
  - `toLowerCase` / `toUpperCase` on ASCII.
- `file_names.dfy` (module `FileNames`) is `parseFileName`:
  - the number-prefix regular expression, written as a character scanner with
    JavaScript's backtracking, and proved equal to a declarative description
    of the matches;
  - the `/` cut;
  - removal of the one trailing extension;
  - the trims.
- `canonical.dfy` (module `Canonical`) is `toCanonicalDescription`, as its chain
  of `if` tests. The chain is proved equal to an ordered rule table in which
  the first rule that fires wins.
- `autofill.dfy` (module `Autofill`) is `autofillBlock` and `processAll`:
  - a `Block` class whose fields the methods update in place;
  - option selection as the source's loop, with its `matched` flag and `break`;
  - a pure specification `Autofilled` of one pass over a block, which the
    methods are proved to implement.
- `wrappers.dfy` holds the `Option` type.

The model follows the code of `content.js` v3.0. That version has no `ABSTRAK`
rule, no Roman-numeral chapters, no word-boundary chapter matching and no
combined "daftar pustaka dan lampiran" label.

## Model

| member | source | states |
|---|---|---|
| JsText.Trim | content.js:23 | `trim` leaves no whitespace at either end of its result |
| JsText.TrimSlice | content.js:23 | `trim` returns a contiguous slice of its input, starting right after the leading whitespace |
| JsText.TrimDropsSpace | content.js:23 | everything `trim` drops, before and after its result, is whitespace |
| JsText.TrimKeeps | content.js:23 | every character of the trimmed string occurs in the input |
| JsText.TrimTrimmed | content.js:27 | trimming a string that is already trimmed returns it unchanged (why the repeated `.trim()` calls are harmless) |
| JsText.TrimAfterSpace | content.js:25 | whitespace in front of a string does not change its trim |
| JsText.TrimAllSpace | content.js:25 | a string of whitespace only trims to the empty string |
| JsText.Lower | content.js:37 | `toLowerCase` keeps the length and maps each character through ASCII lower-casing |
| JsText.Upper | content.js:47 | `toUpperCase` keeps the length and maps each character through ASCII upper-casing |
| JsText.LowerOfUpper | content.js:47 | upper-casing loses nothing that lower-casing sees: lower(upper(s)) = lower(s) |
| JsText.UpperOfUpper | content.js:47 | upper-casing twice is upper-casing once |
| JsText.Contains | content.js:38-46 | `includes` is true exactly when the pattern occurs at some index |
| JsText.ContainsPrefix | content.js:39 | a text containing `p + q` contains `p` (substring tests see prefixes of longer words) |
| JsText.ContainsInner | content.js:38 | a text containing `p + q + r` contains `q` |
| FileNames.DecimalValue | content.js:27 | `parseInt(digits, 10)`: a number of n digits is below 10 to the power n, and a single digit is its own value |
| FileNames.LeadingZero | content.js:27 | `parseInt` ignores a leading zero: "01" and "1" give the same number |
| FileNames.MatchNumberPrefix | content.js:25 | a match captures a non-empty run of decimal digits |
| FileNames.MatchSound | content.js:25 | every match the scanner reports is a way for the regular expression to match the whole name, with the captured groups as its digits and rest |
| FileNames.MatchComplete | content.js:25 | every way the regular expression can match is found, with the same digits and the same rest up to leading whitespace |
| FileNames.MatchIff | content.js:25-27 | the scanner matches exactly when the name has a number prefix |
| FileNames.BeforeSlash | content.js:29 | `split("/")[0]` is a prefix without `/`, followed in the input by `/` or by nothing |
| FileNames.StripExtension | content.js:31 | the extension pattern is cut at the one place it matches, and a string it does not match comes back unchanged |
| FileNames.ExtensionUnique | content.js:31 | the extension pattern can match in at most one place |
| FileNames.StripOneExtension | content.js:31 | only the last extension goes: "skripsi.tar.gz" becomes "skripsi.tar" |
| FileNames.Tidy | content.js:29-31 | the cleaned description contains no `/` and no whitespace at either end |
| FileNames.ParseFileName | content.js:22-33 | the returned description never contains `/` and is trimmed |
| FileNames.ParseNumbered | content.js:23-31 | a name with a number prefix gives the base-10 value of its digits, and a description built from what follows the separator |
| FileNames.ParseUnnumbered | content.js:23-31 | a name without a number prefix gives no number, and a description built from the whole trimmed name |
| Canonical.CanonicalDescription | content.js:36-48 | `toCanonicalDescription` returns one of the nine labels of its rules, or else the text upper-cased |
| Canonical.FirstFiring | content.js:38-46 | the index reported is that of a rule that fires while no earlier one does; none reported means no rule fires |
| Canonical.FiresRules | content.js:38-46 | each table row fires exactly on the substring tests of the matching `if` |
| Canonical.CanonicalIsDecisionList | content.js:36-48 | the `if` chain equals the ordered table: the first rule that fires gives the result, else the upper-cased text |
| Canonical.FirstMatchWins | content.js:38-46 | a rule that fires while no earlier one does decides the result |
| Canonical.NoRuleUpperCases | content.js:47 | when no rule fires, the result is the upper-cased input: same length, same text up to case |
| Canonical.ResultFiresOwnRule | content.js:38-46 | each label, lower-cased, fires its own rule first |
| Canonical.ResultIff | content.js:38-47 | the result is rule k's label exactly when rule k is the first to fire; an upper-cased fall-through never equals a label |
| Canonical.CoverIff | content.js:38 | `COVER` comes out exactly when the lower-cased text contains "cover" or "halaman judul", whatever else it contains |
| Canonical.BabTenIsBabOne | content.js:39 | with no cover pattern, a text containing "bab 10" gives `BAB 1` |
| Canonical.DaftarBeforeLampiran | content.js:44-45 | with no cover or chapter pattern, "daftar pustaka" wins over "lampiran" |
| Canonical.RecoveryIsCover | content.js:38 | a text containing "recovery" gives `COVER` |
| Canonical.CanonicalIdempotent | content.js:36-48 | applying the rules to their own output changes nothing |
| Autofill.VisibilityLabel | content.js:78 | the wanted label is `Anyone` exactly when the description is `COVER`, and `Registered users only` otherwise |
| Autofill.Matches | content.js:81 | an option matches when its trimmed, lower-cased text equals the wanted label; only a lower-case wanted label can ever match |
| Autofill.FirstMatchIndex | content.js:80-81 | the index found is that of a matching option with no matching option before it; none found means no option matches |
| Autofill.PickOption | content.js:79-89 | the loop reports a match exactly when some option matches, with the value of the first matching option |
| Autofill.FirstMatchAt | content.js:80-86 | the first matching option is the one the loop stops at |
| Autofill.ChooseFirst | content.js:80-89 | the select ends on the first option whose trimmed, lower-cased text equals the wanted label; with none, its value is unchanged; its options never change |
| Autofill.Autofilled | content.js:52-113 | after one pass over a block, the block is marked exactly when it was marked before or has a file name label |
| Autofill.Untouched | content.js:52-55 | a marked block, or one without a file name label, is left entirely as it was |
| Autofill.AutofillIdempotent | content.js:52-113 | a second pass over a block changes nothing and dispatches no event |
| Autofill.DescriptionWritten | content.js:56-67 | a fresh block's description input receives the canonical description of its trimmed file name label |
| Autofill.DescriptionStable | content.js:57-58 | the description written is a fixed point of the rules |
| Autofill.CoverIsPublic | content.js:57-78 | the wanted "Visible to" label is `Anyone` exactly when the parsed description contains "cover" or "halaman judul" |
| Autofill.SecurityChosen | content.js:76-89 | the "Visible to" select of a fresh block is searched for the wanted label, lower-cased |
| Autofill.VisibilityFollowsCover | content.js:76-89 | "Visible to" is searched for `Anyone` exactly when the parsed description contains "cover" or "halaman judul", and for `Registered users only` otherwise |
| Autofill.LanguageIndonesian | content.js:95-106 | the language select of a fresh block is searched for "indonesian" |
| Autofill.FillKeeps | content.js:63-113 | filling changes values only: the label, which controls exist and their options stay the same, and events are only appended |
| Autofill.FillOrder | content.js:66-113 | events go out in source order: description, then visibility, then language |
| Autofill.FillNotices | content.js:66-107 | `input` and `change` go to the description exactly when it exists; `change` goes to a select exactly when it exists and an option matched |
| Autofill.FillNoticesOnly | content.js:66-107 | a fill dispatches no event twice, and no event other than `input` and `change` on the description and `change` on the two selects |
| Autofill.Block.constructor | content.js:51 | a block object holds exactly the given state |
| Autofill.Block.Autofill | content.js:51-114 | the block's new state is `Autofilled` of its old state |
| Autofill.Block.SetDescription | content.js:63-73 | writes the description and announces it, if the input exists |
| Autofill.Block.SetSecurity | content.js:76-92 | picks the first "Visible to" option with the wanted label, if the select exists |
| Autofill.Block.SetLanguage | content.js:95-110 | picks the first language option labelled "indonesian", if the select exists |
| Autofill.ProcessAll | content.js:117-122 | every listed block ends in `Autofilled` of its old state, including a block listed twice |

## Left out

- The URL guard (content.js:13-18) reads `location.search`, which is browser I/O. The model assumes it passed.
- The `MutationObserver`, the 300 ms debounce and the 400 ms start-up delay (content.js:125-159) are event-loop scheduling. Each run of `processAll` is modelled as one call of `ProcessAll`, on the blocks the page holds at that moment.
- `document.querySelectorAll` and `block.querySelector` are not simulated. A control the page lacks is `None` in the block, and `ProcessAll` takes the list of blocks as its argument.
- Events are recorded as a list of notices, in dispatch order. Listeners that react to them are not modelled.
- Console logging, warnings and the `window.EPFill` handle (content.js:8-10, 17, 55, 60, 70, 72, 85, 89, 91, 103, 107, 109, 119, 120, 145, 150, 154) have no effect on the form and are left out. The early returns on lines 55 and 119 are modelled.
- The `!block` test (content.js:52) is not modelled: a `Block` reference is never null, and `querySelectorAll` yields no null entries.
- JsText.Lower: only ASCII letters are lower-cased; the Unicode case mapping of `toLowerCase` is not modelled.
- JsText.Upper: only ASCII letters are upper-cased; the Unicode case mapping of `toUpperCase` is not modelled.
- Canonical.ResultIff: "an upper-cased fall-through never equals a label" holds only for ASCII case mapping. In JavaScript, "Lampıran" (dotless ı) matches no rule and upper-cases to "LAMPIRAN".
- Canonical.CanonicalIdempotent: holds only for ASCII case mapping. In JavaScript, "Lampıran x" gives "LAMPIRAN X", which then gives "LAMPIRAN".
- Autofill.DescriptionStable: holds only for ASCII case mapping, for the same reason as Canonical.CanonicalIdempotent.
- Canonical.NoRuleUpperCases: "same length" holds only for ASCII case mapping. In JavaScript, "ß" upper-cases to "SS".
- FileNames.ParseFileName: the number is an unbounded natural. `parseInt` returns a double, which loses precision beyond 2^53; this is not modelled.
- Autofill.Matches: option labels are compared as their stored text. The DOM's `option.text` also collapses runs of inner whitespace; this is not modelled.
- Setting `select.value` selects the first option with that value. The model records the value written, which is the same string.
