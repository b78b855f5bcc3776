# md-to-pug post-processing, modelled in Dafny

md-to-pug is an Angular application. It converts a Markdown file to Pug with
the `markdown-to-pug` library and then rewrites that Pug text in
`AppComponent.modifyPug`. This project models that rewriting and proves what
it does. The rewriting runs five passes in a fixed order. Strong removal, the
title, the imports and the footer each run only when their switch in the
preferences form is on. The variables pass always runs, and its two scans,
curly and square, each have their own switch:

1. strong removal (`removeStrongTags`);
2. the title (`insertOurTitle` and `indendForTitle`);
3. variable extraction (`insertSetUpVariables`, `extractVariables` and
   `findKeyByValue`);
4. the imports (`insertOurImports`);
5. the footer (`insertFooter`).

The modules follow the component:

- `Preferences`: the six switches of the form, as one record of booleans.
- `Text`: the JavaScript library calls the component relies on:
  - the `\s` class;
  - `trim`;
  - `split('\n')` and `join`;
  - the decimal rendering of the counter in `variable${n}`.
- `Scanner`: the three regular expressions, written as hand-made matchers, plus the scan that
  `String.prototype.replace` does with a global regex. The scan goes left to
  right, takes non-overlapping matches and never rescans replacement text. A reference
  definition (`IsFragment`, `Leftmost`) states what a match and a scan are,
  and the matchers and the scan are proved to be exactly that.
- `Registry`: `variableMap`, the insertion-ordered object from generated names to
  stored fragments, held as a sequence of entries.
  - `findKeyByValue` is a loop over it.
  - `Intern` is what a replace callback does to the registry and the counter.
- `Extract`: `extractVariables`.
  - Functions state the result.
  - Methods do the source's step-by-step work and are proved to compute it:
    - `Callback` is one replace callback;
    - `ReplaceFragments` is one `replace` call, looping over the text and updating the counter and the registry;
    - `RenderDeclarations` builds the declarations with `+=`, then trims them;
    - `ExtractVariables` is the whole method.
- `ExtractExamples`: the behaviours the component shows on small inputs. These include the
  length bounds of both patterns, the placeholders of repeated fragments
  and the normalised value of a curly fragment.
- `Pipeline`: the remaining passes, their constants, and `modifyPug` as a method
  that reassigns the text pass by pass.
- `Seqs`, `Wrappers`: sequence identities and `Option`.

Two behaviours of the code are worth knowing:

- A curly match is stored with every brace replaced, so `{{hello}}` is
  declared as `((hello))` (`ExtractExamples.CurlyExample`).
- Strong removal is not idempotent: `"\ns\nstrongtrong"` becomes
  `"\nstrong"`, and a second removal takes that to `""`
  (`Pipeline.RemoveStrongTagsNotIdempotent`). The component runs the removal
  once, so this is stated as a property of the pass and not as a defect.

## Model

| member | source | states |
|---|---|---|
| Scanner.MatchAt | src/app/app.component.ts:137-138 | The matcher of each pattern (the two of `extractVariables` and `\n\s*strong` of `removeStrongTags`): a match starts at the pattern's first character, and its length is at least 1 and at most the rest of the text. What a match is comes from `Scanner.MatchAtCorrect`. Lengths are counted in Unicode scalar values (see "Left out"). |
| Scanner.MatchAtCorrect | src/app/app.component.ts:80 | The hand-made matchers find a match of length n exactly when the reference definition of the pattern holds for the first n characters. This covers `\n\s*strong`, `\{\{[^\{\}]{1,30}\}\}` and `\[[^\[\]]{1,40}\]`. |
| Scanner.MatchesAtUnique | src/app/app.component.ts:137-138 | At most one match of a pattern starts at any position, because each repeated class excludes the character that ends the pattern. |
| Scanner.Tokenize | src/app/app.component.ts:143 | A global `replace` scan cuts the text into pieces that, put back together, give the text. |
| Scanner.TokenizeIsTheLeftmostCut | src/app/app.component.ts:80 | A cut of the text is the scan's cut exactly when it is the leftmost non-overlapping one. So the scan is the only such cut. |
| Scanner.DroppedAreFragments | src/app/app.component.ts:80 | Every segment a leftmost scan cuts out is a match of the pattern. |
| Scanner.NoOpenerKeepsAll | src/app/app.component.ts:157 | A text without the first character of a pattern has no match, and the scan keeps all of it. |
| Scanner.TokenizeKeeps | src/app/app.component.ts:157 | No match starts inside a stretch without the pattern's first character, so the scan of that stretch followed by more text keeps the stretch and goes on scanning the rest. |
| Text.SplitLines | src/app/app.component.ts:110 | `split('\n')`: there is at least one line, no line holds a newline, and the lines joined with newlines give the text back. With `Text.SplitJoin` these fix the lines uniquely. |
| Text.Trim | src/app/app.component.ts:174 | `trim()`, through the contracts of `TrimStart` and `TrimEnd`: only whitespace is removed, from the two ends, and what is left is empty or has no whitespace at either end. `Text.TrimOneTrailing` is its use on the declarations. |
| Text.SplitJoin | src/app/app.component.ts:110-114 | Splitting on newlines after joining with newlines gives the lines back, provided no line holds a newline. |
| Text.SplitAppend | src/app/app.component.ts:106 | The lines of a concatenation: the last line of the first text and the first line of the second merge, and every other line stays. |
| Text.TrimOneTrailing | src/app/app.component.ts:174 | `trim()` of a text that starts and ends with non-space characters, followed by one whitespace character, removes exactly that character. |
| Text.DigitsRoundTrip | src/app/app.component.ts:146 | The decimal rendering of the counter reads back as the counter. |
| Registry.VarName | src/app/app.component.ts:146 | `variable${n}`: `variable` followed by the decimal digits of n. Its meaning is in `Registry.VarNameInjective` and `Text.DigitsRoundTrip`. |
| Registry.VarNameInjective | src/app/app.component.ts:146 | Different counter values give different names `variable${n}`. |
| Registry.ValidNames | src/app/app.component.ts:139-149 | In every registry the callbacks can build, the k-th entry is named `variable${k+1}`: consecutive, from 1, with no gaps. |
| Registry.ValidDistinct | src/app/app.component.ts:145-149 | In every such registry no value is stored twice. |
| Registry.IndexOf | src/app/app.component.ts:178-183 | The position of the first entry holding a value: absent exactly when no entry holds it, and no earlier entry holds it. |
| Registry.KeyOf | src/app/app.component.ts:177-184 | A key is found exactly when the value is stored. |
| Registry.FindKeyByValue | src/app/app.component.ts:177-184 | The loop returns false (None) exactly when no entry holds the value. Otherwise it returns the key of an entry that holds it, namely the first one. |
| Registry.Put | src/app/app.component.ts:148 | `variableMap[name] = value` appends the entry when the name is new. When the name exists, every name keeps its place and the registry then holds (name, value). |
| Registry.Intern | src/app/app.component.ts:145-152 | A callback either reuses the key of a stored value and leaves the registry alone, or adds the value under `variable${count}` with count = size + 1. The returned name is the registry's key for the value, and the registry invariant is preserved. |
| Registry.InternAllValues | src/app/app.component.ts:143-166 | A run of callbacks adds exactly the values not yet stored, each once, in the order they are first met. |
| Registry.FirstSeenDistinct | src/app/app.component.ts:145-149 | The first-encounter list of values has no repeats. |
| Registry.FirstSeenMembers | src/app/app.component.ts:145-149 | A value is in the first-encounter list exactly when it occurs and was not there already. |
| Registry.KeyOfStable | src/app/app.component.ts:178-183 | Entries added later do not change the key found for a value already stored. |
| Extract.Parenthesize | src/app/app.component.ts:144 | The two chained replaces: every `{` becomes `(`, every `}` becomes `)`, and every other character stays. `ExtractExamples.ParenthesizeFragment` states it on a curly match. |
| Extract.Extract | src/app/app.component.ts:134-175 | The declarations and the rewritten text `extractVariables` returns. Its meaning is in `Extract.ExtractBody`, `Extract.ExtractRegistry`, `Extract.ExtractDeclarations` and `Extract.ExtractNothingMatched`. `Extract.ExtractVariables` is the method that computes it. |
| Extract.Substitute | src/app/app.component.ts:143-166 | One `replace` pass keeps the registry valid and only adds entries at its end. |
| Extract.SubstituteRegistry | src/app/app.component.ts:143-166 | The registry after a pass is the one the callbacks build from the stored values of the matches, in scan order. |
| Extract.SubstituteStores | src/app/app.component.ts:143-166 | After a pass the stored value of every match is in the registry. |
| Extract.SubstituteRenders | src/app/app.component.ts:143-166 | The rewritten text of a pass keeps every unmatched character. It replaces each match with `{{ name }}`, where name is the registry's final name for the match's stored value. So equal values get equal placeholders wherever they stand. |
| Extract.RenderStable | src/app/app.component.ts:155-166 | A longer registry that starts with the same entries renders an already-rewritten scan the same way. So the square pass does not change the curly pass's names. |
| Extract.SubstituteNoMatch | src/app/app.component.ts:143-157 | A pass over a text without matches returns the text and the registry unchanged. |
| Extract.ExtractRegistry | src/app/app.component.ts:139-167 | The final registry is valid. Its values are the stored values of all matches, curly first, each once, in first-encounter order. The curly pass's entries come first. |
| Extract.ExtractBody | src/app/app.component.ts:141-167 | Each enabled pass renders its scan against the final registry. The square pass scans the curly pass's output. With a pass switched off, its input goes through unchanged. |
| Extract.ExtractDeclarations | src/app/app.component.ts:169-174 | The declarations are one line `- var variable${k+1} = \`v\`` for the k-th distinct stored value v, in first-encounter order. No value is declared twice. |
| Extract.DeclarationsEmpty | src/app/app.component.ts:169-174 | The declarations are empty exactly when the registry is. |
| Extract.ExtractNothingMatched | src/app/app.component.ts:141-174 | The declarations are empty exactly when no enabled scan matched anything, and then the text comes back unchanged. |
| Extract.DeclarationsEnds | src/app/app.component.ts:171 | A non-empty declarations text starts with `-` and ends with a backquote, so `trim` leaves its ends alone. |
| Extract.DeclBlockJoin | src/app/app.component.ts:170-172 | The `+=` loop's text is the lines joined by newlines, plus a final newline. |
| Extract.DeclBlockTrim | src/app/app.component.ts:174 | Trimming the `+=` loop's text gives the lines joined by newlines, with no trailing newline. |
| Extract.InternFresh | src/app/app.component.ts:146-149 | With the value not yet stored, the callback names it `variable${size+1}` and appends it. |
| Extract.Callback | src/app/app.component.ts:144-152 | The callback method (lookup, then name from the counter, store and increment) returns the same name and registry as `Intern`. It keeps the counter one above the registry's size. |
| Extract.ReplaceFragments | src/app/app.component.ts:143-153 | The loop that scans the text and calls the callback on each match computes the same text and registry as the pass `Substitute` over the leftmost scan. It keeps the counter one above the registry's size. |
| Extract.RenderDeclarations | src/app/app.component.ts:169-174 | The `for…of` loop with `+=` and the final `trim()` give the declarations text. |
| Extract.ExtractVariables | src/app/app.component.ts:134-175 | The method, with a fresh counter and registry and the two gated passes, returns the declarations and rewritten body that `Extract` specifies. |
| ExtractExamples.SquareBounds | src/app/app.component.ts:137 | `[` + x + `]`, x without brackets, is a match exactly when x has 1 to 40 characters, counted as Unicode scalar values (see "Left out" on UTF-16). |
| ExtractExamples.CurlyBounds | src/app/app.component.ts:138 | `{{` + x + `}}`, x without braces, is a match exactly when x has 1 to 30 characters, counted as Unicode scalar values (see "Left out" on UTF-16). |
| ExtractExamples.SquareFragment | src/app/app.component.ts:157-174 | A lone square fragment with 1 to 40 interior characters, none of them `{`, becomes `{{ variable1 }}`, declared with its text verbatim. |
| ExtractExamples.SquareRepeated | src/app/app.component.ts:157-166 | The same square fragment, its interior without `{`, twice around any text without `[` or `{`, gets one name and one declaration. |
| ExtractExamples.SquareExample | src/app/app.component.ts:157-174 | `[abc] and [abc]` becomes `{{ variable1 }} and {{ variable1 }}` with the single declaration ``- var variable1 = `[abc]` ``. |
| ExtractExamples.SquareOutOfBounds | src/app/app.component.ts:137 | `[]`, or a square fragment with more than 40 interior characters, none of them `{`, passes through unmatched with no declarations. |
| ExtractExamples.ParenthesizeFragment | src/app/app.component.ts:144 | The stored value of `{{x}}`, x without braces, is `((x))`. |
| ExtractExamples.CurlyFragment | src/app/app.component.ts:143-153 | A lone curly fragment with 1 to 30 interior characters becomes `{{ variable1 }}`, declared with every brace turned into a parenthesis. |
| ExtractExamples.CurlyExample | src/app/app.component.ts:143-153 | `{{hello}}` becomes `{{ variable1 }}` with the declaration ``- var variable1 = `((hello))` ``. |
| ExtractExamples.CurlyOutOfBounds | src/app/app.component.ts:138 | `{{}}`, or a curly fragment with more than 30 interior characters, none of them `[`, passes through unmatched with no declarations. |
| Pipeline.RemoveStrongTags | src/app/app.component.ts:79-81 | `replace(/\n\s*strong/g, '')`: the kept text of the scan of the strong pattern. Its meaning is in `Pipeline.RemoveStrongTagsLeftmost`, `Pipeline.RemoveStrongTagsNoStrong` and the examples below. |
| Pipeline.RemoveStrongTagsLeftmost | src/app/app.component.ts:79-81 | Strong removal keeps exactly the text the one leftmost non-overlapping cut keeps, in order. Every segment it removes is a newline, whitespace, then `strong`. |
| Pipeline.RemoveStrongTagsNoStrong | src/app/app.component.ts:79-81 | A text in which `strong` does not occur comes back unchanged. |
| Pipeline.KeptAppend | src/app/app.component.ts:80 | The kept text of two scans put together is the kept text of each, in order. |
| Pipeline.RemoveStrongTagsExample | src/app/app.component.ts:80 | `"\n  strong\nmore text"` becomes `"\nmore text"`. |
| Pipeline.RemoveStrongTagsWordRest | src/app/app.component.ts:80 | Only the tag goes: `"\n  strongly"` becomes `"ly"`. |
| Pipeline.RemoveStrongTagsNotIdempotent | src/app/app.component.ts:80 | Removing twice can differ from removing once: `"\ns\nstrongtrong"` becomes `"\nstrong"`, which becomes `""`. |
| Pipeline.IndentAll | src/app/app.component.ts:111-113 | The `map` over the lines gives one line for each line. That each gets four spaces in front is in `Pipeline.IndentForTitleLines`. |
| Pipeline.IndentForTitle | src/app/app.component.ts:109-115 | `indendForTitle`: split, indent by four, join. Its meaning is in `Pipeline.IndentForTitleLines` and `Pipeline.IndentForTitleEmpty`. |
| Pipeline.IndentForTitleLines | src/app/app.component.ts:109-115 | Indenting keeps the number of lines, and line i of the result is four spaces followed by line i of the text. |
| Pipeline.IndentForTitleEmpty | src/app/app.component.ts:109-115 | The empty text becomes four spaces. |
| Pipeline.InsertOurTitle | src/app/app.component.ts:104-107 | `titleText` followed by the indented text. Its meaning is in `Pipeline.InsertOurTitleLines` and `Pipeline.TitleLastLine`. |
| Pipeline.PrependIndented | src/app/app.component.ts:104-115 | The lines of a text behind the indented text: its lines except the last, then the merged line, then the indented lines. |
| Pipeline.TitleLastLine | src/app/app.component.ts:196-207 | The last line of `titleText` is the seven spaces after its last newline. |
| Pipeline.InsertOurTitleLines | src/app/app.component.ts:104-107 | After the title, the first line of the text sits behind the title's seven trailing spaces and four more. Its other lines are indented by four, and the title's other lines stay as they are. |
| Pipeline.InsertSetUpVariables | src/app/app.component.ts:117-120 | The declarations of `extractVariables` followed by its rewritten text. Its meaning is in `Pipeline.InsertSetUpVariablesIdentity`, `Pipeline.InsertSetUpVariablesOff` and `Pipeline.InsertSetUpVariablesDeclares`. |
| Pipeline.InsertSetUpVariablesIdentity | src/app/app.component.ts:117-120 | When no enabled scan matched anything, the variables pass returns its input. |
| Pipeline.InsertSetUpVariablesOff | src/app/app.component.ts:117-120 | With both variable switches off, the variables pass returns its input. |
| Pipeline.InsertSetUpVariablesDeclares | src/app/app.component.ts:117-120 | When something matched, the result starts with the declaration of `variable1`, whose value is the first value matched. |
| Pipeline.InsertOurImports | src/app/app.component.ts:122-124 | `importsText` followed by the text. Its meaning is in `Pipeline.ModifyPugOnlyImports` and `Pipeline.ModifyPugImports`. |
| Pipeline.InsertFooter | src/app/app.component.ts:126-132 | The text followed by the footer line. Its meaning is in `Pipeline.ModifyPugFooter`. |
| Pipeline.Modified | src/app/app.component.ts:83-102 | The five passes in their fixed order: strong removal, title, imports and footer each under its switch, the variables pass always. `Pipeline.ModifyPug` is the method that computes it, and the `ModifyPug…` lemmas below state its meaning. |
| Pipeline.ModifyPug | src/app/app.component.ts:83-102 | The method that reassigns the text pass by pass computes `Modified`, the five passes in their fixed order, each under its switch. |
| Pipeline.ModifyPugAllOff | src/app/app.component.ts:83-102 | With every switch off, the text comes back unchanged. |
| Pipeline.ModifyPugOnlyImports | src/app/app.component.ts:94-96 | With only the imports switch on, the result is `importsText` followed by the text. |
| Pipeline.ModifyPugImports | src/app/app.component.ts:122-124 | With the imports switch on, the result starts with `importsText`, whatever the other switches are. |
| Pipeline.ModifyPugFooter | src/app/app.component.ts:126-132 | With the footer switch on, the result ends with the footer line, whatever the other switches are. |

## Left out

- Reading the chosen file (`selectFile`, `convertFileToString`, src/app/app.component.ts:49-69) is left out: it is asynchronous browser I/O.
- `downloadFile` (src/app/app.component.ts:186-194) is left out: it is DOM, Blob and URL plumbing.
- `convertStringToPuG` (src/app/app.component.ts:71-77) is left out. It calls the third-party `markdown-to-pug` renderer, which is not part of this model. Its output is any string given to `ModifyPug`.
- The Angular component machinery is left out: the form controls, `toggleDropdown` and the UI fields. `preferenciesForm.value` is the immutable record `Preferences.Options`, read once per run.
- The JavaScript regular-expression engine is not modelled. The three patterns are hand-made matchers, proved equal to a reference definition of each pattern.
- `\s` and `trim` use the ECMAScript WhiteSpace and LineTerminator code points, listed in `Text.IsJsSpace`. Characters are Dafny `char`s, that is Unicode scalar values. No code point above U+FFFF is in that set, so `\s` and `trim` are not affected by UTF-16 surrogate pairs.
- Scanner.MatchAt: the length bounds `{1,40}` and `{1,30}` are counted in Unicode scalar values, while the regexes, which have no `u` flag, count UTF-16 code units, where a character above U+FFFF counts as two. A fragment near the bound that holds such characters is matched by the model and not by the component: `[` followed by 39 letters, one emoji and `]` is a match here, but its 41 code units are too many for the regex. Without such characters the two counts agree.
- Registry.Put: for an existing name the contract does not say that the other entries keep their values. The callbacks never take that branch, because the fresh name is never in the registry (`Extract.InternFresh`).
- Pipeline.InsertOurTitleLines: the title's lines are stated through `SplitLines(TitleText)` and not written out one by one.
