# ONG Resgate Verde: the page script, modelled in Dafny

The site of the ONG Resgate Verde has three pages: `index`, `cadastro` and `projetos`. One script, `js/script.js`, runs on all of them. This project models the parts of that script that hold logic and state, and proves what they do:

- **The volunteer form of the `cadastro` page.**
  - The field rule chain, `validateField`.
  - The per-field error indicators, `showError`.
  - The `submit` handler. It re-validates the twelve fields and, when all pass, stores the record under `voluntarioData`.
  - Rehydration of the inputs from that record on page load.
- **Page detection and the template slot.** The page id comes from the location's path. The three template pages get their own fragment injected into `dynamicContent`.
- **The light/dark theme toggle.** The saved theme is applied on load; each click flips it and saves the new value.
- **The header that hides while scrolling down.** The handler keeps a remembered offset, `lastScrollTop`, across events.

The browser is abstracted:

- The page is two maps:
  - `values` maps each element id to that element's value;
  - `indicators` maps each error indicator's element id `error-<field>` to its text.
- A set of class names stands for an element's `classList`.
- `localStorage` is a class holding a map from key to item. `JSON.stringify` and `JSON.parse` are the identity on string maps.
- The comparison of the birth date with the current date is a boolean parameter, `isFuture`.
- Scroll offsets are integer parameters of the scroll handler.

Modules, one per file:

| module | file | contents |
|---|---|---|
| `Optional`, `Text` | `text.dfy` | The string primitives: ECMAScript whitespace, `trim`, deleting non-digits, first-occurrence search and cut. |
| `Validation` | `validation.dfy` | `Validate`, the regular expressions as predicates, and an independent description of what each field accepts. |
| `Storage` | `storage.dfy` | `localStorage`. |
| `Form` | `form.dfy` | The indicator table, the submission gate, the record and rehydration. Class `VolunteerForm`. |
| `Pages` | `pages.dfy` | Page id, template lookup, and the finding below. |
| `Theme` | `theme.dfy` | Class `ThemeToggle`. |
| `Scroll` | `scroll.dfy` | Class `Header`. |

## Model

| member | source | states |
|---|---|---|
| Text.Trim | js/script.js:82 | `trim` gives the empty string exactly when the value is all ECMAScript whitespace; otherwise the result starts and ends with a non-space. |
| Text.TrimCutsEnds | js/script.js:82 | `trim` cuts whitespace from the two ends and nothing else. The result is a contiguous slice of the input with only whitespace before and after it (`SpaceFramedIn`). |
| Text.TrimStart | js/script.js:82 | The result is a suffix of the input; everything dropped is whitespace; the result does not start with whitespace. |
| Text.TrimEnd | js/script.js:82 | The result is a prefix of the input; everything dropped is whitespace; the result does not end with whitespace. |
| Text.Digits | js/script.js:85 | `replace(/\D/g, '')` leaves only ASCII digits, never a longer string, and exactly the characters of the input that are digits. A string of digits is kept whole. |
| Text.DigitsCount | js/script.js:85 | Each digit occurs in the result exactly as often as in the input, and no other character occurs. This is the count the `cpf`, `telefone` and `cep` rules measure. |
| Text.DigitsOne | js/script.js:85 | One character is kept exactly when it is a digit. |
| Text.DigitsAppend | js/script.js:85 | Deleting non-digits distributes over concatenation. With `Text.DigitsOne`, this fixes the result as the input's digits in their order. |
| Text.Count | js/script.js:83 | The number of occurrences of a character is zero exactly when the character is absent. |
| Text.CountAround | js/script.js:83 | The count splits around any position. |
| Text.IndexOf | js/script.js:9 | The position found is an occurrence with no earlier one; no result means no occurrence anywhere. |
| Text.RemoveFirst | js/script.js:9 | `replace('.html', '')` removes one occurrence: the length drops by the pattern's length, or the string is unchanged when the pattern is absent. |
| Text.RemoveFirstSplit | js/script.js:9 | Reinserting the pattern at the found position gives back the original string. |
| Validation.FieldsDistinct | js/script.js:70 | The twelve field ids are pairwise distinct. |
| Validation.LocalPart | js/script.js:83 | The class `[^\s@]+` on a whole string: non-empty, with no whitespace and no `@`. Its meaning is fixed by `Validation.EmailPatternIff`. |
| Validation.EmailPattern | js/script.js:83 | The email expression as a split into three `LocalPart` runs joined by `@` and `.`. `Validation.EmailPatternIff` proves it equal to the independent `EmailShape`. |
| Validation.DigitRun | js/script.js:84-96 | `/^\d{lo,hi}$/`: all digits, with length between the bounds. `Validation.ValidateOutcome` restates each digit rule without it, as a length condition on `Digits(v)`. |
| Validation.Validate | js/script.js:79-99 | Every result is the empty string or one of the seven messages. A blank value always yields `Campo obrigatório.`. The blank test is written `AllSpace(value)`, equivalent to `!value.trim()` by `Validation.BlankIsEmptyTrim`. |
| Validation.BlankIsEmptyTrim | js/script.js:82 | `Campo obrigatório.` is given exactly when `trim` leaves nothing of the value. |
| Validation.EmailPatternSound | js/script.js:83 | A value the email expression accepts has no whitespace, exactly one `@` with text before it, and after it a `.` that is neither first nor last. |
| Validation.EmailPatternComplete | js/script.js:83 | Every value of that shape is accepted by the email expression. |
| Validation.EmailPatternIff | js/script.js:83 | The email expression accepts exactly the values of that shape. |
| Validation.ValidateOutcome | js/script.js:82-97 | The full message table. Blank fails first, for every field. Then `email` fails unless it has the shape above; `cpf` needs exactly 11 digits left after deleting non-digits; `dataNascimento` fails exactly when in the future; `telefone` needs 10 or 11 digits; `cep` needs 8; `numeroResidencia` needs its trimmed value all digits. Every other field passes. |
| Validation.ValidateAccepts | js/script.js:82-97 | A value passes exactly when it satisfies the independent per-field description `Acceptable`. |
| Validation.FreeTextFields | js/script.js:82 | `nome`, `tipoLogradouro`, `nomeLogradouro`, `cidade`, `estado` and `motivo` reject only blank values. |
| Validation.EmailSurroundingSpace | js/script.js:83 | A leading or a trailing space makes an otherwise well-formed address invalid, because the expression reads the untrimmed value. |
| Form.ErrorKey | js/script.js:102 | The indicator id is `error-` followed by the field id. |
| Form.ErrorKeyInjective | js/script.js:102 | Two fields share an indicator id only when they are the same field. |
| Form.Indicate | js/script.js:101-113 | The indicator table after one `showError` call. It is specified by `Form.IndicateEffect` and `Form.IndicateIdempotent`. |
| Form.IndicateEffect | js/script.js:101-113 | A non-empty message leaves the field's indicator with exactly that text. The empty message leaves no indicator. Indicators of other fields are untouched. |
| Form.IndicateIdempotent | js/script.js:101-113 | Repeating a `showError` call changes nothing. |
| Form.Checks | js/script.js:118-119 | The verdicts of `validateField` on each id in order, one per id. The per-index meaning is `Form.ChecksAt`. |
| Form.ChecksAt | js/script.js:118-119 | The i-th check of a pass is `validateField`'s verdict on the i-th id. |
| Form.ApplyChecks | js/script.js:118-119 | The indicator table after a sequence of `showError` calls. It is specified by `Form.ApplyChecksOther` and `Form.ApplyChecksAt`. |
| Form.Revalidate | js/script.js:118-119 | The indicator table after the validation pass. It is specified by `Form.RevalidateAt`, `Form.RevalidateOther` and `Form.RevalidateFields`. |
| Form.ApplyChecksOther | js/script.js:118-119 | `showError` calls for other fields leave an indicator as it was. |
| Form.ApplyChecksAt | js/script.js:118-119 | After calls for distinct fields, each field has an indicator exactly when its own call's message is non-empty, showing that message. |
| Form.RevalidateAt | js/script.js:118-119 | After validating distinct ids in order, each id has an indicator exactly when its value fails, showing that failure's message. |
| Form.RevalidateOther | js/script.js:118-119 | Validating some ids leaves every indicator belonging to none of them unchanged. |
| Form.RevalidateFields | js/script.js:118-119 | The same, for the pass over the twelve fields. |
| Form.ChecksSnoc | js/script.js:118-119 | Validating one more id appends one check. |
| Form.RevalidateSnoc | js/script.js:118-119 | Validating one more id appends one `showError` call. |
| Form.AllClear | js/script.js:117-120 | The submit handler's flag: no check of the pass found a failure. It is specified by `Form.AllClearSnoc` and `Form.VolunteerForm.ValidateAll`. |
| Form.PassStep | js/script.js:118-120 | One iteration of the pass: validating one more field applies one more `showError` call, and keeps the flag only if that field passes. |
| Form.AllClearSnoc | js/script.js:120 | One more check keeps the flag only if it passes. |
| Form.AllPass | js/script.js:117-122 | The gate: every field's check passes. `Form.AllPassIff` and `Form.AllPassIffNoIndicator` give its two independent readings. |
| Form.AllPassIff | js/script.js:115-122 | The gate opens exactly when every field's value is `Acceptable`. |
| Form.AllPassIffNoIndicator | js/script.js:118-122 | The gate opens exactly when no field is left with an indicator after the pass. |
| Form.RecordOf | js/script.js:123-124 | The record stored on success. It is specified by `Form.RecordOfFields`. |
| Form.Rehydrated | js/script.js:146-149 | The inputs after copying each stored entry whose element exists. It is specified by `Form.RehydrateRoundTrip`. |
| Form.RecordOfFields | js/script.js:123-124 | The record's keys are exactly the twelve fields, each with its current value. |
| Form.Reset | js/script.js:135 | Each of the twelve fields becomes the empty string; every other element keeps its value. |
| Form.RehydrateRoundTrip | js/script.js:144-149 | Rehydrating any page from a stored record gives each field its submitted value back and leaves every other element alone. |
| Form.VolunteerForm.constructor | js/script.js:66-70 | A `cadastro` page with all twelve inputs starts with no indicators. |
| Form.VolunteerForm.ShowError | js/script.js:101-113 | The indicator table becomes `Indicate` of the old one (see `Form.IndicateEffect`). |
| Form.VolunteerForm.ValidateField | js/script.js:75-99 | The input handler. The field's indicator is set from `Validate`. |
| Form.VolunteerForm.ValidateAll | js/script.js:117-121 | Over a list of ids: the flag is true exactly when every check passes, and the indicator table is the result of the whole pass. |
| Form.VolunteerForm.CollectRecord | js/script.js:123-124 | The record built in the loop is `RecordOf` the current values. |
| Form.VolunteerForm.Submit | js/script.js:115-141 | The submission is accepted exactly when the gate opens. On rejection, storage and inputs are unchanged. On acceptance the record is stored under `voluntarioData`, and the inputs are reset exactly when the page has the `mensagem` element. Indicators end as after one pass. |
| Form.VolunteerForm.Rehydrate | js/script.js:144-150 | With a stored record, every input whose id is a key of the record gets the stored value, and nothing else changes. Without a record, nothing changes. |
| Form.SubmitThenReload | js/script.js:115-150 | A successful submission followed by a page load gives every field its submitted value back. |
| Storage.LocalStorage.GetItem | js/script.js:144 | `getItem` finds an item exactly when the key is stored. |
| Storage.LocalStorage.SetItem | js/script.js:125 | `setItem` overwrites one key and keeps every other key as it was. |
| Pages.LastSegment | js/script.js:9 | `split('/').pop()` is the suffix after the last `/`: it has no `/`, and it is preceded by a `/` unless it is the whole path. |
| Pages.RemoveFirstChars | js/script.js:9 | Cutting `.html` introduces no character. |
| Pages.PageId | js/script.js:9 | The page id is never empty and never holds a `/`. |
| Pages.PatternAfterName | js/script.js:9 | When `name` lacks the first character of the pattern, no occurrence of the pattern starts inside `name`. |
| Pages.CutAfterName | js/script.js:9 | When no `.html` starts inside `name`, cutting the first `.html` out of `name.html` + `rest` leaves `name` + `rest`. |
| Pages.SegmentAfterSlash | js/script.js:9 | The directory part of the path does not affect the last segment. |
| Pages.PageIdOfFile | js/script.js:9 | Take a last segment `name.html` followed by `rest`, where no `.html` starts inside `name`. Its page id is `name` + `rest`, or `index` when that is empty. Dotted names such as `v1.2` are included. Only the first `.html` is cut. |
| Pages.DotFreeName | js/script.js:9 | A name without a dot, such as `cadastro`, meets that condition. So `/dir/cadastro.html` is the page `cadastro`. |
| Pages.DirectoryIsIndex | js/script.js:9 | A path ending in `/` is the `index` page. |
| Pages.Inject | js/script.js:46-53 | The lookup as intended: only the table's own keys replace the slot. It is specified by `Pages.InjectEffect`, and it is the corrected half of the finding below. |
| Pages.InjectEffect | js/script.js:46-53 | The slot changes only on `index`, `cadastro` and `projetos`, each getting its own fragment. Injecting twice is injecting once. |
| Pages.LoadedSlot | js/script.js:44-54 | Page load with the intended lookup `Pages.Inject`, not the one as written (see "## Findings"). A page without the slot element has none afterwards. On a page that is not a template page, the slot is untouched. |
| Pages.InjectAsWritten | js/script.js:51-52 | The lookup as written agrees with the intended one on the three template pages. |
| Pages.AsWrittenAgrees | js/script.js:46-53 | The two lookups differ exactly on the inherited `Object.prototype` names, unless the slot already shows that property. |
| Pages.ToStringPageOverwritesSlot | js/script.js:9-53 | On `/toString.html` the intended lookup leaves the slot alone, but the written one overwrites it. |
| Theme.SavedTheme | js/script.js:15 | `getItem('theme') \|\| 'light'` gives the stored text, or `light` when it is missing or empty; never the empty string. |
| Theme.NextTheme | js/script.js:18 | The theme a click selects. It is specified by `Theme.ToggledEffect`. |
| Theme.Toggled | js/script.js:18-20 | The body's classes after a click. It is specified by `Theme.ToggledEffect` and `Theme.ToggleTwice`. |
| Theme.ToggledEffect | js/script.js:18-20 | After a click the body has exactly one of `light`/`dark`. It is `dark` exactly when it had `light`. Every other class is kept. |
| Theme.ToggleTwice | js/script.js:17-22 | From exactly one theme class, two clicks restore the body. |
| Theme.ToggleThenReload | js/script.js:13-21 | A click, then a page load that reads the same store: the load applies the theme the click saved. A body that starts without theme classes ends with exactly that theme and its other classes. |
| Theme.ThemeToggle.constructor | js/script.js:13-16 | On load the saved theme, or `light`, is added to the body's classes. |
| Theme.ThemeToggle.Toggle | js/script.js:17-22 | The body's classes become `Toggled` of the old ones, and the new theme is stored under `theme`. The stored theme is the one applied. |
| Scroll.ScrollOffset | js/script.js:178 | `pageYOffset \|\| scrollTop` uses the second reading only when the first is 0. |
| Scroll.Hides | js/script.js:179 | The hiding condition: the offset is greater than both the remembered one and 100. `Scroll.DownThenUp`, `Scroll.NearTopShows` and `Scroll.Header.OnScroll` state its consequences. |
| Scroll.HeaderAfter | js/script.js:179-187 | The header has exactly one of `header-hidden`/`header-visible`: hidden exactly when the event hides it. Other classes are kept. |
| Scroll.Remembered | js/script.js:188 | The remembered offset is `max(scrollTop, 0)`, never negative. |
| Scroll.Header.constructor | js/script.js:175-176 | The remembered offset starts at 0. |
| Scroll.Header.OnScroll | js/script.js:177-189 | Hidden exactly when the new offset is greater than both the remembered one and 100. The remembered offset becomes the new one clamped at 0, so it stays non-negative. |
| Scroll.DownThenUp | js/script.js:179-188 | Scrolling down past 100 hides the header; any scroll up from there shows it again. |
| Scroll.NearTopShows | js/script.js:179 | At an offset of 100 or less the header is always shown. |
| Scroll.TwoEvents | js/script.js:177-189 | After two events the header is hidden exactly when the second offset exceeds 100 and the first offset clamped at 0. |

## Left out

- The click counter (js/script.js:37-41) and the hamburger menu toggles (js/script.js:163-172) are not modelled. Each is a one-line state update outside the form, the theme, the page id and the header.
- Styles and timers are not modelled: link hover colours, fade-ins, the notice's text and styling, and its five-second auto-hide (js/script.js:26-34, 57-64, 129-136, 154-160). They carry no logical state.
- `alert`, `console.log` and `e.preventDefault()` are not modelled. They have no effect on the modelled state.
- Date parsing and the clock are not modelled. The comparison `new Date(value) > new Date()` is the `isFuture` parameter. An unparseable date compares as not in the future; the caller passes `false` for it.
- `JSON.stringify`/`JSON.parse` are the identity on string maps. The script has no guard for malformed stored data, so there is no fallback for it.
- The DOM itself is not modelled. Every field element is assumed to exist (`HasFields`), because `validateField` reads `.value` without a null check. The header element is assumed to exist too. The form model stands for the `cadastro` page with a form, the only page where that code runs (js/script.js:66-69).
- Form.Reset: `form.reset()` is modelled as setting every field to the empty string. The markup's default values, such as a pre-selected option, are not part of this model.
- Form.VolunteerForm.Rehydrate: the order of `Object.keys` is not modelled. The keys are distinct, so the order does not change the result.
- Theme.ThemeToggle and Theme.SavedTheme: only text is stored under `theme`. The theme code runs only when the toggle button exists (js/script.js:14); a page without the button is not modelled. `classList.add` throws on a stored value that contains whitespace; the model does not capture that.
- Scroll.Header.OnScroll: offsets are integers. Fractional offsets and `NaN` are not modelled.
- The three template fragments are opaque constants. Their HTML is not part of this model.
- The theme code adds any non-empty stored string as a class. A stored value other than `light`/`dark` therefore does not fall back to `light`. The model follows the code.

## Findings

| source | as written | input that shows it | evidently intended | confidence | as-written member | corrected member |
|---|---|---|---|---|---|---|
| js/script.js:51-52 | `if (templates[currentPage])` looks the page id up in an object literal, and that lookup also finds inherited `Object.prototype` properties. `toString`, `constructor`, `__proto__` and nine others are truthy, so the slot is overwritten with the property's text. | the path `/toString.html`, whose page id is `toString` | only the pages `index`, `cadastro` and `projetos` replace the slot; any other page leaves it untouched | medium, not executed | Pages.InjectAsWritten, with Pages.ToStringPageOverwritesSlot and Pages.AsWrittenAgrees | Pages.Inject, with Pages.InjectEffect (used by Pages.LoadedSlot) |
