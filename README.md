# purse-styles core, modelled in Dafny

purse-styles turns nested style objects into content-hashed CSS class names
and rule strings. A reference-counted registry then inserts each distinct
rule set once and retracts it only when its last user releases it. This
project models that core and proves its properties:

- **Declaration compiler** (`src/purse.tsx`):
  - `compileDeclarations` renders `prop:value;` text. It adds `px` to numbers unless the kebab property is in `UNITLESS_NUMBER_PROPS`.
  - `mergeCSSProperties`, `groupEntriesBy` and `groupCSSProperties` build dictionaries in loops. Each is a Dafny method proved equal to a fold that states one loop step.
  - `compileCSS` emits the base rule, at-rules and `&`-substituted selector rules.
  - `style` and `styleElementToRules` build and flatten compositions.
  - JavaScript objects are association lists in insertion order (module `Props`). Style keys are never integer-like, so that is the order `for…in` and `Object.entries` use.
- **Content hasher** (`src/hashObject.ts`):
  - the djb2-xor fold over UTF-16 code units, last unit first, as a `bv32` computation;
  - the base-52 class name, keeping the loop guard `x > 52` as written;
  - `JSON.stringify` of the flat string map the hasher is given, with QuoteJSONString escaping (ECMAScript 2024, section 25.5.2.3).
- **Registry and in-memory sink** (`createInMemoryStyleApi`):
  - module `Registry` states the registry as functions on its state: the class-name map of counts and destructors, and the live rule list. It proves the counting and release theorems.
  - class `InMemory.InMemoryStyleApi` holds the same state in fields that its methods update in place. Each method is proved to move the state exactly as the `Registry` functions say.
  - A destructor is the list of rule texts it retracts (module `Destructors`). Invoking it filters every copy of each text out of the rule list, in order.
- **Helpers**:
  - `hyphenateStyleName`, with its memo cache as a class;
  - `clsx`;
  - `joinDestructors`;
  - `createCssVar`.

Two behaviours of the code are modelled as written:

- **`tabSize`.** The unit-less list holds the camel-case `tabSize`, but it is compared with kebab names, so a numeric `tabSize` renders as `tab-size:<n>px;`. See `Compile.TabSizeGetsPixels`.
- **The `x > 52` guard.** The name loop stops at `x > 52`, so 52 and 0 both render as `a`. See `HashObject.FiftyTwoCollides`; this is the only pair of inputs whose names collide (`HashObject.AlphabeticNameCollision`).

## Model

| member | source | states |
|---|---|---|
| CssVar.CreateCssVar | src/cssVar.ts:3-5 | the reference is `var(--` + name + `)`: seven characters longer than the name, with that prefix and suffix around it |
| CssVar.ParseCreate | src/cssVar.ts:3-5 | stripping the 6-character prefix and the `)` of a created reference gives back the name |
| CssVar.CreateCssVarInjective | src/cssVar.ts:3-5 | different names give different references |
| Clsx.Kept | src/clsx.ts:2 | `filter(Boolean)` keeps no empty string and never more arguments than given |
| Clsx.KeptIsFilter | src/clsx.ts:2 | an argument is kept exactly when it is a non-empty string, in argument order (undefined, null, false and "" are dropped) |
| Clsx.ClsxSmall | src/clsx.ts:1-3 | with nothing kept the result is ""; with one kept string the result is that string |
| Clsx.SplitJoin | src/clsx.ts:2 | joining non-empty space-free names with " " and splitting on " " gives the names back |
| Clsx.ClsxSplit | src/clsx.ts:2 | splitting the class list on " " gives exactly the kept arguments, in order |
| Clsx.KeptSpaceFree | src/clsx.ts:2 | filtering keeps space-free arguments space-free |
| Hyphenate.ToLower | src/hyphenateStyleName.ts:5-7 | an upper-case ASCII letter maps to a lower-case one |
| Hyphenate.ReplaceUpperShape | src/hyphenateStyleName.ts:14 | the replacement adds one character per upper-case letter and leaves no upper-case letter |
| Hyphenate.ReplaceUpperAppend | src/hyphenateStyleName.ts:14 | the global replacement works character by character (it distributes over concatenation) |
| Hyphenate.HyphenateStyleNameShape | src/hyphenateStyleName.ts:14-15 | the kebab name has no A–Z; its length is the name's plus the upper-case count plus one when the `ms-` fix-up fires, which prepends a single `-` |
| Hyphenate.ReplaceUpperNoUpper | src/hyphenateStyleName.ts:14 | a name without upper-case letters is unchanged by the replacement |
| Hyphenate.MsFixUp | src/hyphenateStyleName.ts:15 | `ms<Upper>…` becomes `-ms-<lower>…` |
| Hyphenate.MsCollision | src/hyphenateStyleName.ts:14-15 | `MsX` and `msX` both become `-ms-x`: the conversion is not injective |
| Hyphenate.CamelizeReplaceUpper | src/hyphenateStyleName.ts:14 | on dash-free names the replacement is undone by camelizing |
| Hyphenate.HyphenateRoundTrip | src/hyphenateStyleName.ts:9-16 | a dash-free name not starting with an upper-case letter is recovered from its kebab form |
| Hyphenate.StyleNameCache.constructor | src/hyphenateStyleName.ts:3 | the cache starts empty |
| Hyphenate.StyleNameCache.Hyphenate | src/hyphenateStyleName.ts:9-16 | the result equals the uncached conversion; afterwards the cache maps the name to it; a hit returns the cached value and leaves the cache unchanged; every cached value stays the conversion of its key |
| Hyphenate.LowerWordHyphenates | src/hyphenateStyleName.ts:14-15 | a lower-case word is its own kebab name |
| Hyphenate.OneUpper | src/hyphenateStyleName.ts:5-14 | one upper-case letter in front of a name without any becomes `-` and its lower case |
| Hyphenate.TwoWordsHyphenate | src/hyphenateStyleName.ts:14-15 | `abcXyz` becomes `abc-xyz` when the first word cannot start `ms-` |
| Destructors.RemoveRuleMembers | src/purse.tsx:124-127 | after a rule's destructor, exactly the other texts are left and the list does not grow |
| Destructors.RemoveRuleAbsent | src/purse.tsx:124-127 | retracting a text the list does not hold changes nothing |
| Destructors.RemoveRuleAppend | src/purse.tsx:124-127 | the filter distributes over concatenation |
| Destructors.JoinDestructorsAppend | src/destructors.ts:3-7 | joining one more destructor appends its retractions |
| Destructors.ApplySequential | src/destructors.ts:4-6 | running retractions a then b is running a, then running b |
| Destructors.JoinRunsEachInOrder | src/destructors.ts:3-7 | invoking the joined destructor invokes every component once, in array order; building it retracts nothing |
| Destructors.JoinEmptyIsNoOp | src/destructors.ts:5 | joining no destructors gives a no-op |
| Destructors.ApplyMembers | src/purse.tsx:124-127 | after a destructor runs, exactly the rules it does not name are left |
| Destructors.ApplyAppend | src/purse.tsx:121-128 | retracting texts absent from the front of the list only touches the rest |
| Destructors.RunJoined | src/destructors.ts:4-6 | the `forEach` loop gives the same list as invoking each component in order and as the joined destructor |
| Json.HexDigit | src/hashObject.ts:25 | a `\u00XX` escape digit is a lower-case hexadecimal digit |
| Json.QuoteChar | src/hashObject.ts:25 | characters needing no escape are copied; the others become a backslash escape |
| Json.QuoteBodyPlain | src/hashObject.ts:25 | a string with nothing to escape is quoted verbatim |
| Json.QuoteBodyClean | src/hashObject.ts:25 | a quoted body holds no control character, and every `"` in it is escaped |
| Json.StringifyEmpty | src/hashObject.ts:25 | `{}` serializes to `{}` |
| HashObject.CodeUnits | src/hashObject.ts:19 | a string has at least as many UTF-16 code units as characters |
| HashObject.CodeUnitsAppend | src/hashObject.ts:19 | the units of a text are those of its characters, in order |
| HashObject.CodeUnitsChar | src/hashObject.ts:19 | a BMP character is the one unit equal to its code; any other is a high then a low surrogate that decode back to its code |
| HashObject.PhashAppend | src/hashObject.ts:15-22 | the fold consumes units from the end: a suffix is folded before the part in front of it |
| HashObject.PhashSmall | src/hashObject.ts:15-22 | the empty text leaves the seed unchanged; one unit is one step `(h*33) ^ code` |
| HashObject.ToPhash | src/hashObject.ts:15-22 | the while loop computes the fold over the UTF-16 units of `x`; with `>>> 0` the result is in [0, 2^32) |
| HashObject.AlphabeticIndex | src/hashObject.ts:1-3 | a letter stands for a digit below 52 |
| HashObject.AlphabeticCharDigit | src/hashObject.ts:1-3 | 0–25 map to `a`–`z`, 26–51 to `A`–`Z`, and each letter reads back as its digit |
| HashObject.ToAlphabeticName | src/hashObject.ts:5-13 | the for loop builds the name of repeated division by 52, most significant letter first |
| HashObject.AlphabeticNameLetters | src/hashObject.ts:5-13 | a name is non-empty and made of ASCII letters |
| HashObject.AlphabeticNameLengthBound | src/hashObject.ts:9-12 | values below the n-letter bound get at most n letters |
| HashObject.AlphabeticNameAtMostSix | src/hashObject.ts:9-12 | every unsigned 32-bit value gets at most six letters |
| HashObject.LeadingQuotient | src/hashObject.ts:9 | the loop stops at a value of at most 52 |
| HashObject.AlphabeticNameValue | src/hashObject.ts:5-13 | away from the 52 edge, the name read as a base-52 numeral is the input |
| HashObject.AlphabeticNameInjective | src/hashObject.ts:5-13 | equal names come from equal inputs, except for the pair 0 and 52 |
| HashObject.AlphabeticNameCollision | src/hashObject.ts:5-13 | the only two inputs with the same name are 0 and 52 |
| HashObject.FiftyTwoCollides | src/hashObject.ts:9-12 | 52 and 0 both render as `a` |
| HashObject.HashText | src/hashObject.ts:24-25 | the class name of a text has 1 to 6 ASCII letters |
| HashObject.HashObject | src/hashObject.ts:24-25 | `hashObject` of the compiled groups has 1 to 6 ASCII letters |
| HashObject.HashObjectDeterministic | src/hashObject.ts:24-25 | the name depends only on the serialized text |
| Props.Keys | src/purse.tsx:354 | the keys of an object, one per entry, in order |
| Props.Get | src/purse.tsx:389 | a lookup finds a value exactly when the key is present |
| Props.GetIndex | src/purse.tsx:389 | with distinct keys, a lookup returns the entry holding that key |
| Props.SetKeys | src/purse.tsx:398 | writing a present key keeps the key order; writing a new key appends it |
| Props.SetGet | src/purse.tsx:398 | after a write the key reads the new value and every other key is unchanged |
| Props.SetDistinct | src/purse.tsx:398 | a write keeps keys distinct |
| Props.SetAbsent | src/purse.tsx:359 | writing a new key appends the entry |
| Props.SetFirst | src/purse.tsx:428 | writing the first key replaces it in place |
| Props.SpreadGet | src/purse.tsx:391-394 | in `{...a, ...b}` the keys of b take b's values and the others keep a's |
| Props.SpreadKeys | src/purse.tsx:391-394 | the spread has the keys of a (in a's order, first) and of b, each once |
| Props.SpreadOntoEmpty | src/purse.tsx:420-423 | spreading onto `{}` copies the object |
| Props.SpreadAppendAbsent | src/purse.tsx:391-394 | spreading new keys appends them in order |
| Props.DeleteOnly | src/purse.tsx:435 | `delete` removes exactly that key's entry and keeps the rest in order |
| Props.DeleteAbsent | src/purse.tsx:435 | deleting an absent key changes nothing |
| Merge.MergeCSSProperties | src/purse.tsx:378-404 | the nested for loops compute the fold of one-key steps over the groups |
| Merge.MergeGroupKeys | src/purse.tsx:381-401 | merging one group keeps earlier keys in place, appends the new ones and repeats none |
| Merge.MergeGroupGet | src/purse.tsx:382-400 | within one group a scalar overwrites, a nested object is spread over the earlier nested declarations, and absent keys are untouched |
| Merge.MergedDistinct | src/purse.tsx:378-404 | the merge holds each key once |
| Merge.MergedLastGroup | src/purse.tsx:378-404 | a later scalar overwrites the earlier one and keeps its position; a later nested object is spread over the earlier one; other keys are unchanged |
| Merge.MergedNestedWins | src/purse.tsx:386-394 | under a nested key, a later group's inner declaration wins |
| Merge.MergedNestedDistinct | src/purse.tsx:386-394 | nested objects in the merge hold each key once |
| Merge.GroupEntriesBy | src/purse.tsx:348-366 | the for-in loop computes the fold that adds each entry to its group, creating the group if new |
| Merge.GroupEntriesByContents | src/purse.tsx:348-366 | each group holds exactly the entries sent to it, in object order; a group exists exactly when some entry is sent to it |
| Merge.GroupCSSProperties | src/purse.tsx:406-440 | the grouping loop and the deletion loop compute "group, then drop empty groups" |
| Merge.CollectBySelector | src/purse.tsx:407-430 | the grouping loop, with its base group `""`, computes the grouping specification `GroupAll` |
| Merge.DeleteEmptyGroups | src/purse.tsx:432-437 | over distinct selectors, the deletion loop removes exactly the groups with no declarations, keeping the order of the rest |
| Merge.DeleteEmptyFind | src/purse.tsx:432-437 | each step of the deletion loop reads the current group's declarations |
| Merge.DeleteEmptyStep | src/purse.tsx:432-437 | each step of the deletion loop deletes the current group exactly when it is empty |
| Merge.GroupAllDistinct | src/purse.tsx:407-430 | the grouping loop keeps group keys distinct and the base group `""` first |
| Merge.DropEmptyAppend | src/purse.tsx:432-437 | dropping empty groups distributes over concatenation |
| Merge.DropEmptyKeys | src/purse.tsx:432-437 | no group is invented and every kept group is non-empty |
| GroupSpec.NonEmptyNestedDrop | src/purse.tsx:432-437 | dropping empty nested groups leaves the non-empty ones in order |
| GroupSpec.GroupAllShape | src/purse.tsx:409-430 | the grouping loop gives the base group (non-null scalars in order) followed by each nested key's object, in input order |
| GroupSpec.GroupedSpec | src/purse.tsx:406-440 | the result is the base group if non-empty, then every non-empty nested group in input order; null and undefined are dropped |
| GroupSpec.GroupedNothingDeclared | src/purse.tsx:406-440 | an object whose values are all null, undefined or empty nested objects has no groups, whatever its keys |
| GroupSpec.GroupedShape | src/purse.tsx:406-440 | for every input, groups are non-empty with distinct keys, and `""` can only be first |
| GroupSpec.DropEmptyDistinct | src/purse.tsx:432-437 | deleting groups keeps keys distinct |
| Compile.CompileDeclarationsAppend | src/purse.tsx:330-346 | the output is the in-order concatenation of the declarations' texts |
| Compile.DeclarationUnits | src/purse.tsx:333-343 | a number gets `px` exactly when its kebab property is not listed; a string never does |
| Compile.ListedLowerWord | src/purse.tsx:333-343 | a listed lower-case property renders its number without a unit |
| Compile.UnlistedLowerWord | src/purse.tsx:333-343 | an unlisted lower-case property renders its number in pixels |
| Compile.WidthGetsPixels | src/purse.tsx:335-340 | `width: 10` compiles to `width:10px;` |
| Compile.WidthNotListed | src/purse.tsx:17-61 | `width` is not in the unit-less list |
| Compile.OpacityIsUnitless | src/purse.tsx:330-346 | a numeric `opacity` renders as `opacity:<n>;` |
| Compile.OpacityListed | src/purse.tsx:44 | `opacity` is in the unit-less list |
| Compile.TabSizeGetsPixels | src/purse.tsx:47 | because the list holds the camel-case `tabSize`, a numeric `tabSize` renders as `tab-size:<n>px;` |
| Compile.TabSizeNotListed | src/purse.tsx:17-61 | the kebab `tab-size` is not in the list |
| Compile.CompiledByGroup | src/purse.tsx:449-452 | `mapValues` compiles each group's declarations and keeps group order |
| Compile.ReplaceAmpersandSpec | src/purse.tsx:465 | every `&` is replaced and nothing else changes |
| Compile.ReplaceAmpersandRemovesAll | src/purse.tsx:465 | no `&` is left when the replacement holds none |
| Compile.RuleTexts | src/purse.tsx:455-469 | one rule per group, in group order |
| Compile.CompileCSSSpec | src/purse.tsx:442-472 | no fragment exactly when the object has no keys; otherwise the class name is the hash of the compiled groups (1–6 letters) and rule i is group i in its shape (`.C{…}`, `@…{.C{…}}`, or the selector with `&` replaced) |
| Compile.CompileCSSRuleCount | src/purse.tsx:442-472 | the rule count is the number of non-empty groups |
| Compile.CompileCSSContentAddressed | src/purse.tsx:449-454 | equal compiled groups give equal class names and rules |
| Compile.NestedRuleHasNoAmpersand | src/purse.tsx:463-467 | a nested rule keeps no `&` |
| Compile.AllNullStillOwned | src/purse.tsx:442-454 | an object with keys whose values are all null, undefined or empty nested objects still compiles to a fragment: no rules, and the hash of `{}` |
| Style.Elements | src/purse.tsx:480-486 | an element is collected exactly when it is an argument, so no more elements than arguments |
| Style.CssGroups | src/purse.tsx:480-486 | a CSS object is collected exactly when it is an argument, so no more objects than arguments |
| Style.ComposedClassNames | src/purse.tsx:491 | one class-name argument per composed element, in order |
| Style.InputsSplit | src/purse.tsx:477-486 | each argument goes to exactly one of the two lists, and both keep argument order |
| Style.SingleInput | src/purse.tsx:480-486 | an element lands in `composed` only, a CSS object in the groups only |
| Style.MergedEmpty | src/purse.tsx:378-404 | the merge has no keys exactly when no group has one |
| Style.StyleOwnsIffSomeKey | src/purse.tsx:474-500 | `style` owns a fragment exactly when some CSS argument has a key |
| Style.StyleOfEmptyObjects | src/purse.tsx:474-500 | `style({}, {})` has no composed elements, no fragment and class name "" |
| Style.StyleClassList | src/purse.tsx:491-492 | for every argument list, the class list is the non-empty composed class names, in order, then the own class name if any, joined with single spaces |
| Style.StyleClassTokens | src/purse.tsx:491-492 | when the composed class names are space-free, the class list splits into the non-empty composed class names, in order, then the own class name if any |
| Style.RulesAreThoseOfOwns | src/purse.tsx:502-506 | `styleElementToRules` lists the rules of the fragments children first (in order), then the element's own |
| Style.RulesOfAllAreThoseOfOwns | src/purse.tsx:503 | the flatMap over composed elements lists their fragments' rules in order |
| Registry.InsertAllAppend | src/purse.tsx:157-160 | adding the fragments of a list is adding those of each part in turn |
| Registry.RemoveAllAppend | src/purse.tsx:130-133 | removing the fragments of a list is removing those of each part in turn |
| Registry.InsertOwnValid | src/purse.tsx:162-181 | adding a fragment keeps every stored count ≥ 1 and registers its class |
| Registry.RemoveOwnValid | src/purse.tsx:135-154 | removing keeps every stored count ≥ 1: an entry reaching 0 is deleted |
| Registry.InsertAllValid | src/purse.tsx:157-185 | adding an element keeps every stored count ≥ 1 |
| Registry.RemoveAllValid | src/purse.tsx:130-155 | removing an element keeps every stored count ≥ 1 |
| Registry.WarmInsertAppendsNothing | src/purse.tsx:167-172 | re-adding registered classes appends no rule, keeps the keys and destructors, and adds one to a count per visit |
| Registry.ColdInsertAppendsRules | src/purse.tsx:173-181 | adding new, distinct classes appends their rules once each, in order, and adds exactly the entries `NewEntries` of those fragments |
| Registry.NewEntriesSpec | src/purse.tsx:173-181 | for distinct classes, the new entries are keyed by exactly their class names, each with count 1 and a destructor for exactly its own rules |
| Registry.FreshInsertAppendsElementRules | src/purse.tsx:157-185 | adding an element whose fragments are new and distinct appends exactly its `styleElementToRules` |
| Registry.RemoveAllInsertAll | src/purse.tsx:130-185 | removing the fragments just added, in the same order, restores the registry and the rule list, given that the rules of new classes were not already live |
| Registry.RemoveInsert | src/purse.tsx:130-185 | `removeStyleElement` after `addStyleElement` of the same element restores the state, under the same condition |
| Registry.InsertRepeat | src/purse.tsx:162-181 | n additions of a new fragment append its rules once and store count n |
| Registry.RemoveRepeat | src/purse.tsx:142-153 | each release before the last only lowers the count |
| Registry.NthRelease | src/purse.tsx:130-185 | after n additions the rules stay through n−1 releases; the n-th release restores the state before the first addition |
| InMemory.InMemoryStyleApi.constructor | src/purse.tsx:111-119 | the sink starts with no rules and no registered class |
| InMemory.InMemoryStyleApi.AddStyleRule | src/purse.tsx:121-128 | the rule is pushed; its destructor filters every copy of that text out of the list |
| InMemory.InMemoryStyleApi.RunDestructor | src/purse.tsx:124-127 | invoking a destructor runs its retractions in order on the rule list and touches nothing else |
| InMemory.InMemoryStyleApi.AddOwned | src/purse.tsx:162-181 | the own-fragment step of `addStyleElement` moves the state as `Registry.InsertOwn` and keeps counts ≥ 1 |
| InMemory.InMemoryStyleApi.RemoveOwned | src/purse.tsx:135-154 | the own-fragment step of `removeStyleElement` moves the state as `Registry.RemoveOwn` and keeps counts ≥ 1 |
| InMemory.InMemoryStyleApi.AddStyleElement | src/purse.tsx:157-185 | composed elements first, then the own fragment: the new state is `Registry.Insert` of the old one |
| InMemory.InMemoryStyleApi.RemoveStyleElement | src/purse.tsx:130-155 | composed elements first, then the own fragment: the new state is `Registry.Remove` of the old one |

## Left out

- `PurseProvider`'s DOM work (`<style>` nodes, text nodes, and the development-mode throw or warning): this is browser I/O, and its registry logic repeats `createInMemoryStyleApi`, which is modelled.
- React hooks and context (`useStyles`, `useInjectGlobalStyles`, `PurseContext`, `useRequiredContext`): these are framework plumbing, with no logic of their own beyond the calls modelled here.
- JavaScript number-to-string formatting: a numeric value carries the text JavaScript renders it as (`Props.Num`), because the formatting is floating-point.
- The `__style__` symbol tag and `isStyleElement`: an argument of `style` is tagged by the `Style.StyleInput` datatype instead.
- `Merge.Existing`: when a later group makes nested a key whose earlier merged value was a non-empty string, JavaScript spreads that string's characters under keys "0", "1", …; the model spreads `{}` instead. This case lies outside the declared types.
- Keys named after `Object.prototype` members, such as `constructor` or `toString`: `group in groupedEntries` and `merged[selector] || {}` would see the inherited member. The model treats every object as having only its own keys.
- Hyphenate.StyleNameCache: the cache is keyed by style names like any object. After `hyphenateStyleName("hasOwnProperty")` stores a string under `hasOwnProperty`, every later call of `cache.hasOwnProperty(name)` throws. The model's cache has no inherited members, so it does not capture this.
- `JSON.stringify` is modelled only for the flat string-to-string objects the hasher receives. Lone surrogates cannot occur, because a Dafny `char` is a Unicode scalar value.
- `HashObject.ToAlphabeticName`: inputs of 2^32 and above are not modelled. They cover `Math.abs` of negatives and a possible `| 0` wrap-around. The only caller passes a `>>> 0` value, and below 2^32 the quotient stays under 2^31, so `| 0` never wraps there.
- The closure `addStyleElement` returns is `InMemory.InMemoryStyleApi.RemoveStyleElement` applied to the same element, and is not a separate member. `addGlobalStyle` is the same function as `AddStyleRule`.
- The hyphenation cache is a module-level object in the source. Here it is an explicit `Hyphenate.StyleNameCache` object, and the pure conversion is used everywhere else: every cached value equals it, apart from the `hasOwnProperty` case above.
- GroupSpec.GroupedSpec: proved only for inputs without a `""` key and with distinct keys at every depth. A `""` key holding an object would be merged into the base group. `GroupSpec.GroupedShape` covers every input, with weaker conclusions.
- Compile.CompileCSSRuleCount: proved under the same restriction as `GroupSpec.GroupedSpec`.
- Style.StyleClassTokens: the split form needs space-free composed class names, so it does not cover an element that composes others, whose class list holds spaces. `Style.StyleClassList` states the joined class list for every argument list.
- Clsx.ClsxSplit: needs at least one kept argument, because splitting "" gives `[""]` and not the empty list.
- HashObject.AlphabeticNameValue: excludes inputs whose final quotient is 52. For those the `x > 52` guard leaves 52 as the leading digit, which renders as `a` and reads back as 0, so the name is not the base-52 numeral of the input. Such names still collide only for 52 itself (`HashObject.AlphabeticNameCollision`).
- Hyphenate.HyphenateRoundTrip: limited to names without `-` whose first letter is not upper case, because the conversion is not injective (see `Hyphenate.MsCollision`).
- Registry.RemoveInsert: needs the rules of classes new to the registry to be absent from the live list. Retraction filters every copy of a text, so an equal rule already live would be lost, and restoring the list is then impossible.
