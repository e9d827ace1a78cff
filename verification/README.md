# NeoZygisk dashboard core, modelled in Dafny

The NeoZygisk WebUI dashboard (`webroot/script.js`) reads the module's
`module.prop` through the root manager's `exec` bridge. It parses the
`key=value` lines into a record. It then renders the record into the page:

- plain text fields;
- three status badges, each with a colour and an icon;
- a modules count;
- a list of running modules.

A language switch re-translates the `data-i18n` elements and re-labels every
badge from the status it stored.

The project models that logic as pure functions over strings, maps and small
records. It proves the properties the dashboard relies on.

| file | module | what it models |
|---|---|---|
| `optional.dfy` | `Optional` | `undefined` as `None`, JavaScript truthiness of a string, property access on a plain object |
| `strings.dfy` | `Strings` | `String.prototype.trim` (the exact ECMAScript WhiteSpace and LineTerminator set), `split` and `join` with a one-character separator, first occurrence |
| `prop_parser.dfy` | `PropParser` | the parse loop of `parseModuleProp`, including the pattern `^([^=]+)=(.*)$` |
| `translations.dfy` | `Translations` | the `en`/`zh` translation table and the lookup `translations[lang][key] \|\| key` |
| `status.dfy` | `Status` | the three-way status classification, `updateStatusBadge` on one badge, and the badge re-labelling of `setLanguage` |
| `modules_list.dfy` | `ModulesList` | the `modules_list` split and the list rebuild |
| `dashboard.dfy` | `Dashboard` | the page as a whole: `updateText`, the rendering half of `parseModuleProp`, `fetchAndParseModuleProp` with the bridge's outcome as input, and `setLanguage` |

Three details of the code shape the model:

- The text is split on `'\n'` only. A `'\r'` from a CRLF file stays on the
  line, and `trim` then removes it when it sits at the end.
- The value group `(.*)$` cannot match across a line terminator. A line whose
  value holds an inner `'\r'`, U+2028 or U+2029 therefore does not match and is
  skipped. The key group `[^=]+` has no such limit.
- The failure placeholder appears when the read fails with a non-zero error
  number, and also when it succeeds with empty output.

## Model

| member | source | states |
|---|---|---|
| Strings.Trim | webroot/script.js:148 | the result has no whitespace at either end, is no longer than the input, and is empty exactly when the input is all whitespace |
| Strings.TrimInfix | webroot/script.js:148 | the trimmed string is the infix of the input between a run of leading and a run of trailing whitespace |
| Strings.TrimChars | webroot/script.js:148 | trimming introduces no character that was not in the input |
| Strings.TrimTrimmed | webroot/script.js:152 | trimming a string with no whitespace at either end returns it unchanged, so trimming is idempotent |
| Strings.TrimPadded | webroot/script.js:148 | trimming removes exactly the whitespace padding put around a trimmed string |
| Strings.IndexOf | webroot/script.js:145 | the position returned holds the character, and no earlier position does |
| Strings.Split | webroot/script.js:143 | there is at least one piece, no piece contains the separator, and joining the pieces with the separator gives the input back |
| Strings.SplitJoin | webroot/script.js:143 | splitting the join of separator-free pieces gives the pieces back |
| Strings.SplitAppend | webroot/script.js:143 | splitting `a + sep + b` gives the pieces of `a` followed by the pieces of `b` |
| PropParser.MatchEntry | webroot/script.js:150-151 | a match splits the line at an `=` into a non-empty key free of `=` and a value free of line terminators |
| PropParser.MatchEntryExactly | webroot/script.js:145 | the pattern matches a line with groups `k` and `v` exactly when the line is `k=v`, with `k` non-empty and free of `=` and `v` free of line terminators: the split is at the first `=` |
| PropParser.ParseLine | webroot/script.js:147-152 | every entry a line yields has a non-empty, trimmed key free of `=` and a trimmed value free of line terminators |
| PropParser.Assign | webroot/script.js:152-153 | every key and value of the record was assigned by some line, as that pair |
| PropParser.Parse | webroot/script.js:142-154 | the record the parse loop builds holds only non-empty, trimmed, `=`-free keys and trimmed values free of line terminators |
| PropParser.ParseModuleProp | webroot/script.js:142-154 | the loop builds the record of the functional parser, and that record holds only well-formed keys and values |
| PropParser.ParseValid | webroot/script.js:145-152 | every key of the parsed record is non-empty, trimmed and free of `=`; every value is trimmed |
| PropParser.AssignKeys | webroot/script.js:147-153 | a key is in the record exactly when some line assigns it |
| PropParser.AssignLastWins | webroot/script.js:147-153 | the value kept for a key is the one of the last line that assigns that key |
| PropParser.AssignAppend | webroot/script.js:147-153 | running two batches of assignments gives the first record overwritten by the second, and keys the second does not assign keep their values |
| PropParser.ParseAppend | webroot/script.js:143-153 | parsing two texts joined by a newline gives the first record overwritten by the second |
| PropParser.ParseWithoutEquals | webroot/script.js:147-150 | text without any `=`, the empty text included, parses to the empty record |
| PropParser.ParseAllSkipped | webroot/script.js:147-150 | text whose every line is blank or malformed parses to the empty record |
| PropParser.ParseLineSkips | webroot/script.js:148-150 | blank lines, lines without `=`, and lines whose trimmed form starts with `=` yield no entry |
| PropParser.ParseLineFirstEquals | webroot/script.js:145-152 | a line whose trimmed form is `k=v`, with `k` non-empty and free of `=` and `v` free of line terminators, yields the trimmed `k` and the trimmed `v`; `v` may contain `=` |
| PropParser.ParseLineOrigin | webroot/script.js:150-152 | every entry a line yields comes from a split of its trimmed form at the first `=` |
| PropParser.ParseFormattedLine | webroot/script.js:150-152 | a well-formed `key=value` line yields exactly that key and value |
| PropParser.ParseFormat | webroot/script.js:142-154 | round trip: writing well-formed entries as lines and parsing the text gives the record the entries describe |
| PropParser.ParseOneLine | webroot/script.js:143-153 | a text without a newline gives the record of its single line's entry, if any |
| PropParser.ParsePaddedEntry | webroot/script.js:148-152 | blank (non-line-terminator) whitespace around the line, the key and the value is dropped, for a valid key and a value free of line terminators; a line `k = ` with no value gives the empty value |
| PropParser.ParseTrimsExample | webroot/script.js:148-152 | `k = v ` parses to the record `{k: "v"}` |
| PropParser.ParseSingleEntry | webroot/script.js:150-152 | one well-formed line parses to a one-entry record |
| PropParser.ParseDuplicateKey | webroot/script.js:147-153 | of two lines for the same key, the later value is kept |
| PropParser.LastWinsExample | webroot/script.js:147-153 | `a=1` then `a=2` parses to the record `{a: "2"}` |
| Translations.Table | webroot/script.js:3-44 | the `en` and `zh` tables; no translation is the empty string, so the `\|\| key` fallback only applies to keys a table lacks |
| Translations.Label | webroot/script.js:208 | the label is the locale's translation when it exists and is non-empty, otherwise the key itself; a non-empty key never gets an empty label |
| Translations.TablesAgreeOnKeys | webroot/script.js:3-44 | both locales translate the same keys, and no translation is empty |
| Translations.LabelFallback | webroot/script.js:120 | a key with no translation is shown as itself in every locale |
| Status.Classify | webroot/script.js:233-243 | a status is Positive exactly when it is in the positive list, Negative exactly when it is in the negative list, and Indeterminate exactly when it is in neither |
| Status.ColourOf | webroot/script.js:233-243 | Positive is green, Negative red, Indeterminate gray; no two classes share a colour (`Status.ClassificationWellDefined`) |
| Status.IconOf | webroot/script.js:233-243 | Positive shows the check icon, Negative the cross, Indeterminate the unknown icon; no two classes share an icon (`Status.ClassificationWellDefined`) |
| Status.ClassificationWellDefined | webroot/script.js:233-243 | the two status lists are disjoint, and each class has its own colour and its own icon, never other markup |
| Status.ClassifyVocabulary | webroot/script.js:233-243 | the classes of the known status words, with `unknown` and the empty string Indeterminate |
| Status.UpdateStatusBadge | webroot/script.js:201-245 | an absent or empty status changes nothing; otherwise the label is set; inside a badge the status is stored, exactly one colour is set (that of the class), and the class's icon is shown, written only when it differs from the current icon |
| Status.Relabel | webroot/script.js:115-123 | only the text changes, to the label of the stored status; slots outside a badge or without a stored status are left alone |
| Status.UpdateIdempotent | webroot/script.js:201-245 | rendering the same status twice gives the same slot as once; the icon is not written again |
| Status.RelabelAfterUpdate | webroot/script.js:115-123 | re-labelling a badge after an update gives the slot the update would have produced in the new locale |
| Status.RelabelTwice | webroot/script.js:115-123 | only the last re-labelling matters |
| Status.UpdateCommutesWithRelabel | webroot/script.js:115-123 | for a slot inside a badge, update-then-relabel equals relabel-then-update in the new locale |
| ModulesList.Entry | webroot/script.js:184-186 | a segment contributes its trimmed form, unless that form is empty; it contributes nothing exactly when the segment is all whitespace |
| ModulesList.SplitModules | webroot/script.js:182-189 | every rendered name is non-empty, trimmed and free of commas |
| ModulesList.EntriesValid | webroot/script.js:182-189 | the entries of comma-free segments are all non-empty, trimmed and comma-free |
| ModulesList.RenderModules | webroot/script.js:178-190 | the loop builds the list of the functional definition, whose names are all valid |
| ModulesList.UpdateModulesList | webroot/script.js:178-181 | the list element exists afterwards exactly when it existed before; a missing list element or an absent or empty field leaves the list untouched; otherwise the list is replaced by the names |
| ModulesList.UpdateModulesListIdempotent | webroot/script.js:178-189 | the list is cleared before it is refilled, so rebuilding it from the same field twice equals rebuilding it once |
| ModulesList.SplitModulesAppend | webroot/script.js:182-189 | the names of `a,b` are the names of `a` followed by the names of `b`, in source order |
| ModulesList.SplitModulesJoin | webroot/script.js:182-189 | round trip: joining valid names with commas and splitting gives the names back |
| ModulesList.SplitModulesSkipsBlank | webroot/script.js:184 | a whitespace-only segment between two commas contributes nothing |
| ModulesList.SplitModulesBlank | webroot/script.js:184 | a comma-free whitespace-only field renders as the empty list |
| ModulesList.SplitModulesSingle | webroot/script.js:184-186 | a single name with whitespace around it renders as that name |
| ModulesList.SplitModulesExample | webroot/script.js:182-189 | `modA, modB,,  modC ` renders exactly `["modA", "modB", "modC"]`: the empty segment is dropped and the names are trimmed |
| Optional.Truthy | webroot/script.js:195 | `undefined` and the empty string are falsy, every other string truthy: the test `updateText`, `updateStatusBadge` (202) and the `modules_count`/`modules_list` guards (173, 178) apply |
| Dashboard.SetText | webroot/script.js:195-197 | a truthy value replaces the element's text; a falsy one keeps it |
| Dashboard.UpdateElement | webroot/script.js:196-197 | a missing element is skipped, no element is created, and no other element changes |
| Dashboard.UpdateTextSemantics | webroot/script.js:194-199 | `updateText` with a falsy value leaves the page unchanged, with a truthy value shows it, and is idempotent |
| Dashboard.ApplyAll | webroot/script.js:157-170 | rendering creates and removes no element and leaves elements no binding names untouched |
| Dashboard.ApplyAllBound | webroot/script.js:157-170 | with distinct ids, each bound element ends up updated once, from its original content and its own field |
| Dashboard.ApplyAllIdempotent | webroot/script.js:157-170 | when the bindings name distinct ids and the per-element update is idempotent, rendering twice is rendering once |
| Dashboard.ApplyAllAbsent | webroot/script.js:157-170 | when the per-element update leaves an element unchanged for an absent field (`update(x, None) == x`), a record with none of the bound fields leaves every element unchanged |
| Dashboard.ApplyRecord | webroot/script.js:156-191 | the locale and the `data-i18n` elements are untouched, no element appears or disappears, and the list is updated from `modules_list` |
| Dashboard.Refresh | webroot/script.js:142-191 | parsing and rendering a file leaves the locale and the `data-i18n` elements untouched, creates and removes no element, and keeps the list element exactly when it existed |
| Dashboard.ApplyRecordElements | webroot/script.js:157-175 | each existing text element shows its field if truthy and keeps its text otherwise; each existing status element is rendered from its field in the page's locale |
| Dashboard.ApplyRecordIdempotent | webroot/script.js:156-191 | rendering a record a second time changes nothing |
| Dashboard.RefreshIdempotent | webroot/script.js:142-191 | parsing and rendering the same file twice gives the same page as once |
| Dashboard.ApplyRecordEmpty | webroot/script.js:156-191 | an empty record leaves the page as it was |
| Dashboard.RefreshWithoutEquals | webroot/script.js:142-191 | a file with no `=` at all leaves the page as it was |
| Dashboard.FetchAndParse | webroot/script.js:126-140 | a successful, non-empty read is parsed and rendered; otherwise only `prop-name` changes, to the failure or error placeholder |
| Dashboard.FetchAndParseIdempotent | webroot/script.js:126-140 | refreshing again with the same outcome changes nothing |
| Dashboard.Translate | webroot/script.js:107-112 | an element whose key has a non-empty translation shows it; any other element is unchanged |
| Dashboard.SetLanguage | webroot/script.js:104-124 | the locale is recorded, every `data-i18n` element is translated and every badge re-labelled; the text elements and the modules list are untouched |
| Dashboard.RelabelAll | webroot/script.js:115-123 | every status element is re-labelled from its stored status and nothing else about it changes; none appears or disappears |
| Dashboard.TranslateTwice | webroot/script.js:107-112 | translating into one locale and then another equals translating into the second |
| Dashboard.SetLanguageTwice | webroot/script.js:104-124 | only the last locale switch matters; no text of an earlier locale survives |
| Dashboard.SetLanguageAfterApply | webroot/script.js:104-124 | when every status element sits in a badge, switching locale after rendering equals rendering in the new locale |

## Left out

- DOM event wiring, the dropdown and modal toggles and `console` logging
  (`webroot/script.js:46-100`, `131-137`) are user-interface plumbing with no
  logic to prove.
- The choice of the initial locale from `navigator.language`
  (`webroot/script.js:95`) reads the browser environment. `setLanguage` is only
  modelled for `en` and `zh`. Any other `data-lang` value would make line 120
  throw on a missing table, and the `Locale` type rules such a value out.
- The `exec` bridge (`./kernelsu.js`) and the `async`/`await` around it are
  not part of this model. `FetchAndParse` takes the call's outcome as a
  parameter: `None` when it threw, otherwise the error number and output.
- The SVG markup of the three icons (`webroot/script.js:212-214`) is
  represented by three distinct tokens. The placeholder `span` inserted into a
  badge without an SVG is represented by the icon being absent. The next write
  then always counts as an icon replacement.
- Prototype-chain lookups are not modelled. A record field or translation key
  named like an `Object.prototype` member (`constructor`, `toString`) would
  resolve to a function in JavaScript. The model treats every key missing from
  the object as absent. Likewise a `__proto__=x` line is lost in the script's
  object, because the `__proto__` setter ignores a string value, while `Parse`
  keeps it as an ordinary key.
- The page's element structure is abstracted:
  - Text elements, `data-i18n` elements and status elements are three separate
    collections, so an element that belongs to two of them is not modelled.
  - Re-labelling finds the badge's inner `span[id^="val-"]`; the model assumes
    that span is the status element whose parent is the badge.
  - A badge's other CSS classes are not modelled, only its colour classes.
- Strings are sequences of Unicode scalar values rather than UTF-16 code
  units. None of the operations modelled here (`trim`, `split`, the pattern,
  equality) behaves differently for the two.
