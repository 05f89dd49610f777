# Vue component documentation generator — verified model of its logic

The application takes the source of a Vue 3 component and shows documentation for it. The
user types the code and a description. A generate button runs a simulated generation: after a
delay the inputs are committed as the generated document. The preview then extracts three
things from the committed code, each with a regular expression:

- the component name (`name: '…'`);
- the declared props (`props: { … }`);
- the emitted events (`emits: [ … ]`).

From these it synthesises a `<template>` usage example. Two smaller parts come with it:

- The code editor replaces the selection by two spaces when Tab is pressed.
- A toast store keeps a shared list of notifications, with ids from a counter and an expiry
  timer per toast.

The Dafny model has eight modules, one per file:

| file | module | what it models |
|---|---|---|
| `wrappers.dfy` | `Wrappers` | `Option`, for "the pattern did not match" |
| `text.dfy` | `Text` | the JavaScript string operations used: `\s`, `.`, `\w`, `trim`, `split`, `join`, `map`, `filter`, quote removal, capitalising the first letter |
| `patterns.dfy` | `Patterns` | the four regular expressions, as search functions |
| `extraction.dfy` | `Extraction` | name, props and events extraction |
| `preview.dfy` | `Preview` | view choice, description fallback, usage example, the preview's state cells |
| `code_editor.dfy` | `CodeEditing` | the Tab splice, the caret, the character count |
| `create_documentation.dfy` | `Generation` | the form's state machine |
| `toasts.dfy` | `Toasts` | the toast store |

How the pieces are modelled:

- **Regular expressions.** Dafny has none. Each pattern is a ghost predicate that says when it
  matches at a position (for example `Patterns.NameMatch`). Each also has a search function
  that returns what JavaScript's `String.prototype.match` returns: the capture group of the
  leftmost match, and among the matches at that position the one backtracking finds first.
  That means the lazy `.+?` stops at the first quote it can. The search functions are proved
  against the predicates.
- **State.** Stateful components are classes whose methods change the fields: the preview's
  three state cells, the editor's text area, the form, and the toast store.
- **Timers.** Each callback of a `setTimeout` is an explicit step: `Complete` for the form and
  `Expire` for a toast.

One consequence of the source is worth knowing. The generate button is disabled whenever the
code is blank (`src/components/CreateDocumentation.tsx:90`). A click therefore never reaches
the "Missing component code" branch of `handleGenerate`. `Generation.DocumentationForm.Click`
states this: a click raises no notification.

## Model

| member | source | states |
|---|---|---|
| Text.TrimStart | src/components/DocumentationPreview.tsx:31 | the result is a suffix; everything dropped is white space; it does not start with white space |
| Text.TrimEnd | src/components/DocumentationPreview.tsx:31 | the result is a prefix; everything dropped is white space; it does not end with white space |
| Text.Trim | src/components/DocumentationPreview.tsx:31 | `trim()` result: no longer than the input; first and last characters not white space; empty exactly when the input is all white space; made of the input's characters |
| Text.TrimOffset | src/components/DocumentationPreview.tsx:31 | the trimmed text starts at this offset and fits in the input |
| Text.TrimIsInfix | src/components/DocumentationPreview.tsx:31 | the trimmed text is the infix at the offset, with only white space before and after it |
| Text.TrimUnique | src/components/DocumentationPreview.tsx:31 | any split into white space, an infix that neither starts nor ends with white space, and white space is exactly the cut `trim` makes |
| Text.TrimPadded | src/components/DocumentationPreview.tsx:47 | white space around a text whose ends are not white space is exactly what `trim()` removes |
| Text.Split | src/components/DocumentationPreview.tsx:30 | `split(',')`: k separators give k+1 pieces, empty pieces kept; no piece contains the separator |
| Text.SplitAppend | src/components/DocumentationPreview.tsx:30 | the pieces of `a + sep + b` are the pieces of `a` followed by those of `b` |
| Text.Join | src/components/DocumentationPreview.tsx:188 | `join(sep)`; `Text.JoinSplit` and `Text.SplitJoin` show it is the inverse of `split`, and `Text.JoinEnds` shows where the first and last parts sit |
| Text.JoinEnds | src/components/DocumentationPreview.tsx:188 | a join of at least one part starts with the first part and ends with the last |
| Text.JoinSplit | src/components/DocumentationPreview.tsx:30 | joining the pieces with the separator gives back the text |
| Text.SplitJoin | src/components/DocumentationPreview.tsx:30 | splitting a join of separator-free pieces gives back the pieces |
| Text.SplitNoSeparator | src/components/DocumentationPreview.tsx:30 | text without the separator splits into itself alone |
| Text.SplitPrefix | src/components/DocumentationPreview.tsx:30 | a separator-free prefix followed by a separator becomes the first piece |
| Text.Map | src/components/DocumentationPreview.tsx:31 | `map`: same length, each entry the function of the entry at the same position |
| Text.MapAppend | src/components/DocumentationPreview.tsx:31 | mapping distributes over concatenation |
| Text.DropEmpty | src/components/DocumentationPreview.tsx:32 | the `length > 0` filter: no longer than the input; every entry non-empty and taken from the input |
| Text.DropEmptyMembers | src/components/DocumentationPreview.tsx:32 | a string is kept if and only if it is in the input and non-empty |
| Text.DropEmptyAppend | src/components/DocumentationPreview.tsx:32 | filtering distributes over concatenation, so relative order is kept |
| Text.RemoveQuotes | src/components/DocumentationPreview.tsx:47 | `replace(/['"]/g, '')`: no longer than the input; every character left is from the input and is not a quote |
| Text.RemoveQuotesMembers | src/components/DocumentationPreview.tsx:47 | a character survives if and only if it is in the input and is not a quote |
| Text.RemoveQuotesAppend | src/components/DocumentationPreview.tsx:47 | quote removal on a concatenation is the removal on each part, concatenated: the kept characters stay in order and keep their multiplicity |
| Text.RemoveQuotesChar | src/components/DocumentationPreview.tsx:47 | one character: a quote is removed, any other character is kept |
| Text.RemoveQuotesNoQuote | src/components/DocumentationPreview.tsx:47 | text without quotes is left unchanged |
| Text.RemoveQuotesQuoted | src/components/DocumentationPreview.tsx:47 | a quote-free text between two quotes comes out bare |
| Text.UpperAscii | src/components/DocumentationPreview.tsx:188 | `toUpperCase` of one character: `a`–`z` move to `A`–`Z` by the fixed offset; every other character is unchanged |
| Text.Capitalize | src/components/DocumentationPreview.tsx:188 | `e.charAt(0).toUpperCase() + e.slice(1)`: same length; first character upper-cased; the rest unchanged |
| Patterns.SpaceRunEnd | src/components/DocumentationPreview.tsx:23 | greedy `\s*`: the end of the maximal white-space run from a position |
| Patterns.SpaceRunForced | src/components/DocumentationPreview.tsx:23 | before a non-space literal, `\s*` must consume exactly the maximal run |
| Patterns.NameAt | src/components/DocumentationPreview.tsx:23 | the match of `name:\s*['"](.+?)['"]` at one position that backtracking yields (least closing quote), or none exists there |
| Patterns.MatchName | src/components/DocumentationPreview.tsx:23 | `match` of the name pattern: a result is the group of the leftmost match, the one backtracking yields; no result if and only if the pattern matches nowhere |
| Patterns.NameGroupShape | src/components/DocumentationPreview.tsx:23 | the name group has at least one character and no line terminator |
| Patterns.BlockAt | src/components/DocumentationPreview.tsx:27 | the unique match of `props:\s*{([^}]+)}` or `emits:\s*\[([^\]]+)\]` at one position, or none exists there |
| Patterns.MatchBlock | src/components/DocumentationPreview.tsx:43 | `match` of a block pattern: a result is the group of the leftmost match; no result if and only if the pattern matches nowhere |
| Patterns.BlockGroupShape | src/components/DocumentationPreview.tsx:27 | a block group has at least one character and never contains its closing bracket |
| Patterns.WordRunEnd | src/components/DocumentationPreview.tsx:34 | greedy `\w+`: the end of the maximal word run |
| Patterns.WordColonAt | src/components/DocumentationPreview.tsx:34 | the match of `(\w+):` at one position: the maximal word run, then a colon |
| Patterns.MatchWordColon | src/components/DocumentationPreview.tsx:34 | `match(/(\w+):/)`: a result is the group of the leftmost match; no result if and only if no word run is followed by a colon |
| Extraction.ComponentName | src/components/DocumentationPreview.tsx:23-24 | the group of the leftmost name match, or `MyComponent` exactly when there is none; the name is never empty and has no line terminator |
| Extraction.PropName | src/components/DocumentationPreview.tsx:33-36 | the leftmost word run followed by `:`, or the whole declaration when there is none; never empty for a non-empty declaration; made of its characters |
| Extraction.PropsOf | src/components/DocumentationPreview.tsx:29-36 | at most one prop per comma piece; every prop non-empty and comma-free |
| Extraction.PropsOfPiece | src/components/DocumentationPreview.tsx:30-36 | a comma-free piece gives nothing when blank, otherwise exactly the prop name of its trimmed text |
| Extraction.PropsAcrossComma | src/components/DocumentationPreview.tsx:30-36 | the props of `a , b` are those of `a` followed by those of `b`, so order follows the source |
| Extraction.Props | src/components/DocumentationPreview.tsx:27-40 | with a props block, the props of the leftmost block's group; with none, empty; every entry non-empty and comma-free |
| Extraction.EventName | src/components/DocumentationPreview.tsx:47 | the trimmed piece with its quotes removed: only the piece's characters, and no quote. With `Text.TrimUnique`, `Text.RemoveQuotesAppend` and `Text.RemoveQuotesChar`, the result is the trimmed piece with exactly its quote characters deleted, in order |
| Extraction.EventNameQuoted | src/components/DocumentationPreview.tsx:47 | a quoted name with white space around it, such as ` 'close' `, gives the bare name |
| Extraction.EventsOf | src/components/DocumentationPreview.tsx:45-48 | at most one event per comma piece; every event non-empty and free of commas and quotes |
| Extraction.EventsOfPiece | src/components/DocumentationPreview.tsx:46-48 | a comma-free piece gives nothing when its cleaned name is empty, otherwise exactly that name |
| Extraction.EventsAcrossComma | src/components/DocumentationPreview.tsx:46-48 | the events of `a , b` are those of `a` followed by those of `b`, so order follows the source |
| Extraction.Events | src/components/DocumentationPreview.tsx:43-52 | with an emits block, the events of the leftmost block's group; with none, empty; every entry non-empty and free of commas and quotes |
| Preview.ViewFor | src/components/DocumentationPreview.tsx:56-94 | the empty state exactly when code, description and loading flag are all falsy; the loading view exactly when loading; the content view otherwise |
| Preview.DescriptionShown | src/components/DocumentationPreview.tsx:118 | never empty; the description when there is one, `No description provided.` otherwise |
| Preview.PropAttribute | src/components/DocumentationPreview.tsx:188 | `:p="p"`: its length is twice the prop plus four; it starts with `:` followed by the prop, and the quoted value is the prop again |
| Preview.EventAttribute | src/components/DocumentationPreview.tsx:188 | `@e="handleE"`: starts with `@` followed by the event name; its length is twice the name plus ten |
| Preview.AttributeLines | src/components/DocumentationPreview.tsx:188 | the `length > 0 ? ... : ''` piece: empty exactly when there are no attributes, otherwise it starts with the line break and indent |
| Preview.UsageExample | src/components/DocumentationPreview.tsx:187-190 | the template literal: it starts with `<template>`, the line break, the tag and the name, and ends with the line break, `  />` and `</template>` |
| Preview.IndentedAppend | src/components/DocumentationPreview.tsx:188 | the indented lines of two lists are those of each, concatenated |
| Preview.AttributeLinesIndented | src/components/DocumentationPreview.tsx:188 | a leading indent plus `join` by the indent is the same as each attribute behind its own indent |
| Preview.UsageExampleShape | src/components/DocumentationPreview.tsx:187-190 | the usage example is the opening tag, one indented `:p="p"` line per prop in order, then one indented `@e="handleE"` line per event in order, then the closing `/>` |
| Preview.UsageExampleBare | src/components/DocumentationPreview.tsx:187-190 | with no props and no events the tag line is `  <Name ` followed directly by `\n  />` |
| Preview.EventAttributeHandler | src/components/DocumentationPreview.tsx:188 | the handler of event `e` is `handle` + upper-cased first letter + the rest of `e` |
| Preview.DocumentationPreview.constructor | src/components/DocumentationPreview.tsx:16-18 | the three cells start as `''`, `[]`, `[]` |
| Preview.DocumentationPreview.OnCodeChange | src/components/DocumentationPreview.tsx:20-54 | empty code: nothing is written. Otherwise the cells become the extracted name, props and events. The cells' shape guarantees are kept |
| Preview.DocumentationPreview.Usage | src/components/DocumentationPreview.tsx:187-190 | the example shown for the current cells: the opening tag, one indented line per extracted prop in order, then one per extracted event in order, then the closing `/>` |
| CodeEditing.Clamp | src/components/CodeEditor.tsx:36 | clamps a `substring` index into `[0, length]` |
| CodeEditing.Substring | src/components/CodeEditor.tsx:36 | no longer than the text; the slice between in-range ordered indices |
| CodeEditing.TabSplice | src/components/CodeEditor.tsx:36 | for any start and end: the text up to `start` and the text from `end`, each cut at the text's length, with two spaces between them |
| CodeEditing.TabSpliceReplacesSelection | src/components/CodeEditor.tsx:31-36 | for `start <= end <= length`: the new text is `value[..start] + "  " + value[end..]`. Its length is `length - (end - start) + 2`. Prefix and suffix are preserved. Removing the two spaces gives the text with the selection deleted. `start + 2` is inside the new text |
| CodeEditing.TabAtCaretInserts | src/components/CodeEditor.tsx:36 | with an empty selection, two spaces are inserted at the caret and the length grows by two |
| CodeEditing.CharacterCount | src/components/CodeEditor.tsx:89 | the displayed count is zero exactly for empty text |
| CodeEditing.IndicatorActive | src/components/CodeEditor.tsx:87 | the green dot is lit exactly when there is text |
| CodeEditing.TabLightsIndicator | src/components/CodeEditor.tsx:87-89 | after a Tab, the count changes by `2 - (end - start)` and the indicator is lit |
| CodeEditing.CodeEditor.HandleKeyDown | src/components/CodeEditor.tsx:30-46 | on Tab, the value becomes the splice and both selection ends move to old `start + 2`, inside the text. Any other key changes nothing |
| Generation.IsBlank | src/components/CreateDocumentation.tsx:18 | `!code.trim()` holds exactly when the code has no character outside white space |
| Generation.TrimmedIffContent | src/components/CreateDocumentation.tsx:18 | `code.trim()` is non-empty if and only if some character of the code is not white space |
| Generation.PendingAppend | src/components/CreateDocumentation.tsx:30 | scheduling a callback for code with content keeps every pending callback's code with content |
| Generation.CommittedDoc | src/components/CreateDocumentation.tsx:31-34 | the committed code is the captured code. The description is the captured one, or `A Vue 3 component.` when that is empty. It is never empty |
| Generation.ButtonDisabled | src/components/CreateDocumentation.tsx:90 | disabled if and only if generating or the code is all white space |
| Generation.Subtitle | src/components/CreateDocumentation.tsx:117 | the "generated" subtitle exactly when the document has code, the prompt exactly when it has none |
| Generation.DocumentationForm.constructor | src/components/CreateDocumentation.tsx:9-15 | the cells start as `''`, `''`, `false`, `{code: '', description: ''}`; nothing raised or pending |
| Generation.DocumentationForm.SetCode | src/components/CreateDocumentation.tsx:68 | only the code changes |
| Generation.DocumentationForm.SetDescription | src/components/CreateDocumentation.tsx:78 | only the description changes |
| Generation.DocumentationForm.HandleGenerate | src/components/CreateDocumentation.tsx:17-27 | blank code: exactly one destructive notification and no other change. Otherwise the flag is set, the current code and description are captured for the callback, and the document stays unchanged |
| Generation.DocumentationForm.Click | src/components/CreateDocumentation.tsx:88-90 | a disabled button changes nothing. An enabled one starts exactly one generation and the preview shows the loading view. At most one callback is ever pending |
| Generation.DocumentationForm.Complete | src/components/CreateDocumentation.tsx:30-41 | commits the document for the values captured at click time, clears the flag and raises one success notification. The document code then has content and the description is non-empty. The preview shows the content view with that description, and the subtitle reads "Generated…" |
| Toasts.Stamp | src/composables/useToast.ts:25-28 | `{ id, ...toast }`: all caller properties kept; `id` added, and equal to the counter value unless the caller gave an `id` |
| Toasts.WithType | src/composables/useToast.ts:44-49 | `{ type, ...toast }`: all caller properties kept; `type` defaults to the helper's kind |
| Toasts.Field | src/composables/useToast.ts:32 | `toast[key]`: the property's value when present, and a value other than `undefined` only when the property is present |
| Toasts.Truthy | src/composables/useToast.ts:32 | the value is falsy exactly when it is `undefined`, `null`, `0`, `''` or `false` |
| Toasts.ExpiryDelay | src/composables/useToast.ts:30-32 | `duration` when truthy, else 5000; always truthy |
| Toasts.ZeroDurationFallsBack | src/composables/useToast.ts:32 | a duration of 0 schedules expiry after 5000 |
| Toasts.FindIndex | src/composables/useToast.ts:38 | `findIndex`: the first position holding the id, or -1 exactly when none does |
| Toasts.Cut | src/composables/useToast.ts:40 | `splice(i, 1)` shortens the list by one |
| Toasts.Removed | src/composables/useToast.ts:37-42 | unchanged when no entry has the id. Otherwise the list without the first entry having it, the others in order |
| Toasts.FindIndexAppend | src/composables/useToast.ts:38 | an id found only in the appended entry is found at the old length |
| Toasts.AddThenRemove | src/composables/useToast.ts:23-42 | with the new id unused and no caller `id`, adding and then removing by the returned id restores the list |
| Toasts.Id | src/composables/useToast.ts:26 | a non-negative numeric id is the entry's `id` property |
| Toasts.IncreasingUnique | src/composables/useToast.ts:24 | increasing ids never repeat |
| Toasts.CutIndex | src/composables/useToast.ts:40 | the entries after a splice are the old ones shifted past the removed position |
| Toasts.CutKeepsOrder | src/composables/useToast.ts:40 | a splice keeps the ids increasing and below the counter |
| Toasts.CutRemovesId | src/composables/useToast.ts:40 | with unique ids, the spliced list holds no entry with the removed id |
| Toasts.CutKeepsOthers | src/composables/useToast.ts:40 | a splice keeps every entry at another position |
| Toasts.RemovedExactly | src/composables/useToast.ts:37-42 | with increasing ids, removal leaves no entry with the id, keeps every other entry, and keeps the order |
| Toasts.WithTypeKeepsDelay | src/composables/useToast.ts:44-70 | the kind helpers do not change the expiry delay |
| Toasts.StoredType | src/composables/useToast.ts:44-70 | a stored toast's `type` is the caller's when given, otherwise the helper's kind |
| Toasts.ToastStore.constructor | src/composables/useToast.ts:19-20 | empty list, counter 0, no timers |
| Toasts.ToastStore.AddToast | src/composables/useToast.ts:23-35 | returns the counter before incrementing it. Appends exactly the stamped toast after the unchanged old entries. Schedules its expiry with the derived delay. Keeps the order invariant when the caller gives no `id` |
| Toasts.ToastStore.RemoveToast | src/composables/useToast.ts:37-42 | the list becomes `Removed`; the counter and timers are unchanged; the invariant is kept; afterwards no entry has the id |
| Toasts.ToastStore.Expire | src/composables/useToast.ts:30-32 | a pending timer fires: it is dropped and its toast's id is removed; nothing else changes |
| Toasts.ToastStore.Success | src/composables/useToast.ts:44-49 | `addToast` of the toast with `type` defaulting to `success` |
| Toasts.ToastStore.Error | src/composables/useToast.ts:51-56 | `addToast` of the toast with `type` defaulting to `error` |
| Toasts.ToastStore.Info | src/composables/useToast.ts:58-63 | `addToast` of the toast with `type` defaulting to `info` |
| Toasts.ToastStore.Warning | src/composables/useToast.ts:65-70 | `addToast` of the toast with `type` defaulting to `warning` |

## Left out

- Text.IsSpace: characters are Unicode code points, not UTF-16 code units, so lengths, indices and the character count differ from JavaScript for text outside the Basic Multilingual Plane. White space is the set of code points ECMA-262 classifies as WhiteSpace or LineTerminator, which both `\s` and `trim` use. No Unicode database of further space separators is modelled.
- Text.UpperAscii: `toUpperCase` maps only `a`–`z`. Other letters (for example `é`, `ß`) are left unchanged, where JavaScript would upper-case them.
- Patterns: only the four regular expressions the code uses are modelled, as search functions. There is no general regular-expression engine.
- Toasts.Value: numbers are unbounded integers. Fractional, NaN and infinite values are not modelled, and ids past 2^53 do not lose precision as JavaScript doubles would. Objects are references equal only to themselves.
- Toasts.ToastStore.AddToast: the argument is always an object, modelled as a map. A direct call with no argument, `undefined` or `null` would spread nothing and push `{ id }`, advance the counter, then throw a TypeError when reading `toast.duration` (`src/composables/useToast.ts:32`): no expiry timer, no returned id, and the entry never expires. That throwing path is not modelled. The four kind helpers always pass an object, because `{ type, ...toast }` is one.
- Toasts.ToastStore.Expire: the timer that fires is any pending one, picked by its position. That timers fire in order of their delays is not modelled.
- Toasts.ToastStore.Valid: ids are unique and increasing only while callers do not pass an `id` property of their own. The spread lets a caller's `id` override the counter, and then nothing is promised about order.
- CodeEditing.CodeEditor.HandleKeyDown: the caret is placed in the same step as the value change. The real code places it in a zero-delay timeout after `onChange`.
- The text area's own editing (typing, the `onChange` at `src/components/CodeEditor.tsx:72`), the focus ring, and the auto-resize through the DOM's `scrollHeight` (`src/components/CodeEditor.tsx:21-28`).
- React and Vue scheduling: effects, batching and re-rendering are atomic method calls. The stale closure of the delayed callback is modelled by capturing code and description at request time (`Generation.DocumentationForm.pending`).
- The notification service used by the form (`@/components/ui/use-toast`) is not part of this model. Its calls are entries appended to `Generation.DocumentationForm.notifications`.
- The real delays (1500 ms for generation, the toast duration) are not modelled. Only the delay value handed to each scheduled expiry is recorded.
- Rendering: the markup of the props and events lists, the loading spinner, header and layout components, animations, styles, and the toast store's template and CSS.
- `ToastPlugin.install` (`src/composables/useToast.ts:83-87`), the router and the static pages: they hold no logic of their own.
