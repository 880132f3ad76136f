# eslint-plugin-preact-i18n, modelled in Dafny

A model of the core of eslint-plugin-preact-i18n. This ESLint plugin
checks Preact code that uses preact-i18n against the project's
translation dictionaries. The model covers:

- **The utilities.** Dot-path lookup in a dictionary (`get`, `has`,
  `recursiveGet`). Loading of the configured language files through a
  cache with a time to live (`getLangConfig`). Recognising an i18n
  component and reading its id, plural and fields attributes
  (`getI18NComponent`, `getI18nAttributeNodes`). The decision whether a
  node holds untranslated text (`isDisallowedTextNode`). The utilities
  exist in two generations:
  - `lib/utils.js`, where components are given as an ordered list of
    name patterns with their own attribute names;
  - `src/utils.js`, with one name pattern per kind and the fixed
    attribute names `id`, `plural` and `fields`.
- **The no-unknown-key rule.** A key used by a `<Text>`-like element, or
  named in a `withText(...)` call, must be in every language's dictionary,
  with the right shape for a plural attribute. Both generations share
  `checkForMissingKey` and the call check word for word (module
  `UnknownKey`). Their element handlers differ (`SrcUnknownKeyRule`,
  `LibUnknownKeyRule`).
- **The no-missing-template-field rule.** A dictionary value with a
  `{{...}}` placeholder needs a `fields` attribute, and a `fields`
  attribute needs such a value.
- **The no-text-as-children rule.** No plain text as children of
  elements, except under markup-text components.
- **The no-text-as-attribute rule.** No plain text in the checked
  attributes.

The `lib/rules` copies of the last three rules are transpilations of the
`src/rules` ones, with the same branches and messages. Each is modelled
once, and its rows below cite one of the two copies.

JavaScript behaviour that matters to the rules is written out explicitly:

- **Exceptions.** A `TypeError` is a `Thrown` result (`Base.Js`). A rule
  handler yields its findings in report order, plus whether an exception
  cut it short (`Base.Run`). The throws that are modelled:
  - reading a member of `null` while walking a key path;
  - `split` or `trim` of a non-string key;
  - `value.type` of an id attribute written without a value;
  - `Object.values` of `undefined` or `null`.
- **Values.** JavaScript truthiness, `typeof null === 'object'`, and
  property access on arrays and strings (`length`, index names).
- **Coercion.** A regular-expression test coerces its argument with
  `String(...)`: an element whose name is a member expression, such as
  `<a.b>`, has no `name` string and is tested as `"undefined"`.
- **Text handling.** The line-break removal and `trim` of
  ECMAScript 2015.

Configured regular expressions are predicates on strings. The file
system, `JSON.parse` and the clock are parameters: a loader function and
an explicit time.

## Model

| member | source | states |
|---|---|---|
| `KeyPath.Has` | src/utils.js:64 | `has` throws on a `null` dictionary and exactly when `get` throws; a key without a dot is present in an object exactly when the object has that member, whatever its value, and otherwise present exactly when the lookup finds a value |
| `KeyPath.WalkAppend` | src/utils.js:44-50 | reading one more path segment extends the walk by one step: nothing once a value on the way is not of type object, a throw when it is `null` |
| `KeyPath.GetMember` | src/utils.js:77 | looking up `key.p` reads member `p` of what `key` resolves to (same code at lib/utils.js:106) |
| `KeyPath.GetSegment` | src/utils.js:44-47 | a key without a dot is one property access, and throws on a `null` dictionary |
| `KeyPath.GetNest` | lib/utils.js:106 | round trip: a value stored under a path of dot-free segments is found by `get` at the dot-joined path, and `has` reports it |
| `KeyPath.EmptyStringIsPresent` | lib/utils.js:90 | an empty string counts as present: `has` tests for `undefined`, not truthiness |
| `KeyPath.GetTwoLevels` | src/utils.js:44-47 | in a two-level dictionary, `a.b` finds what is stored under `b` inside `a` |
| `KeyPath.GetTwoLevelsAbsent` | src/utils.js:44-47 | in a two-level dictionary, `a.c` is `undefined` when the inner object holds only a different key `b` |
| `KeyPath.GetExamples` | test/src/utils/utils.spec.js:217-229 | `get` finds `foobar` at `foo.bar` and nothing in an empty object |
| `KeyPath.HasPresentExample` | test/src/utils/utils.spec.js:234-242 | `has` finds `foo.bar-baz` |
| `KeyPath.HasAbsentExample` | test/src/utils/utils.spec.js:244-252 | `has` does not find `foo.buzz` |
| `KeyPath.HasEmptyStringExample` | test/src/utils/utils.spec.js:254-262 | `has` finds a key whose value is the empty string |
| `KeyPath.NullOnPathThrows` | lib/utils.js:74 | walking through a `null` member throws |
| `Strings.JoinSplit` | src/utils.js:77 | splitting a key on the separator loses nothing: joining the pieces gives the key back |
| `Strings.SplitJoin` | lib/utils.js:90 | round trip: splitting the join of separator-free pieces gives the pieces back |
| `Strings.Trim` | src/rules/no-unknown-key.js:111 | the result of `trim` is no longer than its input, has no white space or line terminator at either end, and is empty exactly when the input is all blank |
| `Strings.TrimIsMiddleSlice` | src/rules/no-unknown-key.js:111 | `trim` keeps a contiguous slice of its input, with only white space and line terminators before and after it |
| `Strings.TrimChars` | src/utils.js:21 | `trim` keeps only characters of its input |
| `Strings.TrimIdempotent` | src/rules/no-unknown-key.js:117 | trimming twice is trimming once |
| `Strings.TrimAround` | src/utils.js:21 | trimming removes exactly blank margins around a middle that does not begin or end with a blank |
| `Strings.RemoveLineBreaks` | src/utils.js:21 | removing the line breaks keeps every other character and no line terminator |
| `JsonValues.IndexOfNumeral` | src/utils.js:46 | the decimal numeral of n names array index n |
| `JsonValues.NumeralOfIndex` | lib/utils.js:71 | an array-index property name is the decimal numeral of its index |
| `TemplatePattern.TemplateTest` | src/rules/no-missing-template-field.js:5 | the scan answers true exactly when some `{{` is followed, later on the same line, by `}}` |
| `TemplatePattern.PlaceholderExample` | lib/rules/no-missing-template-field.js:14 | `Hello {{name}}` has a placeholder and `Hello` does not |
| `TemplatePattern.LineBreakExample` | src/rules/no-missing-template-field.js:5 | a line break between `{{` and `}}` defeats the match |
| `AttributeNodes.ScanThrows` | src/utils.js:119-134 | the attribute scan throws exactly when some id attribute is written without a value |
| `AttributeNodes.ScanId` | src/utils.js:122-127 | the id node comes from the last id attribute: its literal, or false for a non-literal; it is undefined exactly when there is none |
| `AttributeNodes.ScanPlural` | lib/utils.js:213-214 | the plural node is the raw value of the last plural attribute, unset exactly when there is none; a plural name equal to the id name is never captured |
| `AttributeNodes.ScanFields` | lib/utils.js:215-216 | the fields node is the raw value of the last fields attribute; a fields name equal to the id or plural name is never captured |
| `AttributeNodes.SpreadIgnored` | src/utils.js:120 | spread attributes never change what is captured |
| `LibUtils.OrDefault` | lib/utils.js:160-162 | a configured attribute name wins, and an empty one gives the default |
| `LibUtils.FindFrom` | lib/utils.js:155-157 | `find` returns the first matching pattern, and none when no pattern matches |
| `LibUtils.GetI18NComponent` | lib/utils.js:149-164 | no component for an element without a name; otherwise a component exactly when some pattern matches, built from the first match with defaults filled in |
| `LibUtils.Classify` | lib/utils.js:174-191 | an element is classified exactly when its name is non-empty and some text or markup-text pattern matches it; the component comes from the first matching text pattern, and from the first matching markup-text pattern only when no text pattern matches |
| `LibUtils.GetI18nAttributeNodes` | lib/utils.js:168-224 | nothing is captured for an unclassified element. Otherwise, under the component's own names: the scan throws exactly on a bare id attribute; the id node comes from the last id attribute and is undefined exactly when there is none; the plural and fields nodes are the raw values of the last attributes so named, unless an earlier-tested name claims that name |
| `LibUtils.IsDisallowedTextNode` | lib/utils.js:28-58 | text is reported exactly when the node offers text and, if a markup list is given, no ancestor is an element the list recognises |
| `LibUtils.FirstPatternWins` | lib/utils.js:155-163 | an earlier matching pattern wins over a later one |
| `LibUtils.MarkupOnlyAsFallback` | lib/utils.js:182-194 | the markup list does not matter when a text pattern matches, and an element neither list recognises captures nothing |
| `LibUtils.AliasedAttributesExample` | test/src/utils/utils.spec.js:174-192 | `<Dialog title count data>` is read through the Dialog pattern's attribute names |
| `LibUtils.UnknownElementExample` | lib/utils.js:194 | an element no list recognises yields `{}` |
| `LibUtils.MarkupParentExample` | lib/utils.js:48-55 | text directly under a recognised markup-text element is exempt |
| `SrcUtils.GetI18nAttributeNodes` | src/utils.js:111-137 | under the names `id`, `plural` and `fields`: it throws exactly on a bare id attribute, and otherwise captures the last attribute of each name, unset exactly when there is none |
| `SrcUtils.IsDisallowedTextNode` | src/utils.js:15-36 | text is reported exactly when the node offers text and, if a markup pattern is given, no ancestor is an element it matches |
| `SrcUtils.MarkupAncestorExempts` | src/utils.js:27-33 | a markup-text element anywhere on the ancestor chain exempts the text |
| `SrcUtils.AttributeExample` | src/utils.js:119-136 | `<Text id="greeting" plural={n} fields={f}/>` captures the literal and the two raw values |
| `SrcUtils.NonLiteralIdIsFalse` | src/utils.js:126 | an id given by a non-literal expression makes the id node false |
| `TextCheck.CandidateText` | src/utils.js:17-22 | only a string literal, possibly in an expression container, offers text: its cleaned form, non-empty and not ignored; every such literal offers it |
| `TextCheck.CleanFixed` | lib/utils.js:39 | cleaning leaves a text without line breaks and without blank ends unchanged |
| `TextCheck.NoLineBreakInClean` | src/utils.js:21 | cleaned text holds no line terminator |
| `TextCheck.CleanIdempotent` | src/utils.js:21 | cleaning twice is cleaning once |
| `TextCheck.ReportedTextIsStable` | src/utils.js:21 | the reported text, offered again as a literal, is reported unchanged |
| `TextCheck.BlankTextIsNoText` | src/utils.js:22 | text made only of white space and line breaks is never reported |
| `TextCheck.ContainerTransparent` | src/utils.js:17-19 | an expression container around a literal is looked through |
| `TextCheck.CleanAround` | lib/utils.js:39 | cleaning keeps exactly the middle of a text with blank margins |
| `TextCheck.CleanExample` | test/src/utils/utils.spec.js:15 | cleaning the test string gives `some stuff` |
| `TextCheck.CandidateExamples` | test/src/utils/utils.spec.js:14-20 | the test string offers `some stuff`, bare and inside an expression container |
| `TextCheck.IgnoredExample` | test/src/utils/utils.spec.js:22-27 | the test string offers nothing when the ignore pattern matches `some stuff` |
| `TextCheck.LiteralText` | src/utils.js:17-22 | a string literal whose cleaned text is not empty offers that text, bare or in an expression container, when nothing is ignored |
| `TextCheck.IgnoredLiteral` | src/utils.js:22 | a string literal whose cleaned text the ignore pattern matches offers nothing |
| `TextCheck.WordIsText` | src/utils.js:21-22 | a non-empty text without line breaks or blank ends is its own candidate text |
| `TextCheck.NonLiteralHasNoText` | src/utils.js:21 | a node that is not a literal offers no text |
| `TextCheck.ExemptFrom` | src/utils.js:28-33 | the walk up the chain answers true exactly when some ancestor from there on is exempting |
| `TextCheck.Disallowed` | lib/utils.js:39-57 | no candidate text gives no report; with no exemption configured the candidate is reported; otherwise it is suppressed exactly when some ancestor is exempting |
| `LangCache.Delay` | lib/utils.js:119 | the timer delay is 500 by default, the configured value when a Node.js timer accepts it, and 1 otherwise |
| `LangCache.Fresh` | src/utils.js:94-107 | a fresh load keeps the language name, and the translation is `null` when the file cannot be read or parsed |
| `LangCache.LoadOne` | src/utils.js:87-107 | caching on and key stored: the stored entry, nothing read. Otherwise: the file is read, a deletion timer is set, and the entry is stored only with caching on and a successful load |
| `LangCache.LoadAll` | src/utils.js:86 | one entry per configured file, the clock unchanged |
| `LangCache.GetLangConfigAsWritten` | src/utils.js:86-109 | the function as written, with the dash-joined key: it throws exactly when `languageFiles` is missing, and otherwise returns one entry per file |
| `LangCache.GetLangConfig` | lib/utils.js:116-141 | corrected: the same with the (name, path) key in place of the dash-joined one |
| `LangCache.Pending` | src/utils.js:92 | the timers still pending after time t are exactly those due later |
| `LangCache.Advance` | src/utils.js:92 | letting time pass deletes exactly the entries whose timer has come due, and changes no other entry |
| `LangCache.NamesInOrder` | src/utils.js:86-109 | with the pair key, the result carries the configured names in order, and every stored entry sits under its own name |
| `LangCache.CacheIsTransparent` | src/utils.js:89-101 | while the files do not change, every entry returned is what loading the file afresh gives |
| `LangCache.AdvanceKeepsInvariants` | lib/utils.js:128 | the timer deletions keep both cache invariants |
| `LangCache.DisabledCacheNeverStores` | src/utils.js:90-99 | with `disableCache`, nothing is stored, every file is read in order, and every entry is fresh |
| `LangCache.OnlyLoadedFilesStored` | src/utils.js:99 | only files that loaded successfully are ever stored |
| `LangCache.AllCachedNoRead` | src/utils.js:89-90 | when every file is stored and caching is on, nothing is read and the cache is unchanged |
| `LangCache.LoadSingle` | src/utils.js:84-101 | the `map` over a single language file is that file's handling |
| `LangCache.TtlCycle` | test/src/utils/utils.spec.js:357-416 | a file loaded at t0 is served from the cache until one tick before t0 plus the delay, and read again from then on |
| `LangCache.TtlExamples` | src/utils.js:86 | default delay 500; a configured 300 is used as given |
| `LangCache.DisableThenEnable` | test/src/utils/utils.spec.js:330-354 | an uncached call stores nothing, the next cached call reads, and the one after does not |
| `LangCache.DashKeyCollision` | src/utils.js:88 | as written: the files ("en-x", "y") and ("en", "x-y") share a key, so the second gets the first's entry, name and contents |
| `LangCache.GetLangConfigFaithful` | lib/utils.js:125 | corrected: with the pair key, every entry carries its own configured name, and equals its own file's contents when the cache is consistent |
| `LangCache.PairKeySeparates` | src/utils.js:88 | corrected: the two colliding files keep their own names |
| `UnknownKey.FilterHas` | src/rules/no-unknown-key.js:59-61 | the filter keeps at most the forms it is given |
| `UnknownKey.KeepSpec` | lib/rules/no-unknown-key.js:68-70 | the kept forms are exactly the forms whose presence is as wanted; all are kept exactly when every form qualifies, none exactly when none does |
| `UnknownKey.FilterHasOnObject` | src/rules/no-unknown-key.js:59 | on a key that resolves to an object, the `has` filter is membership in that object |
| `UnknownKey.FilterHasOnScalar` | src/rules/no-unknown-key.js:61 | on a missing, numeric or boolean value, no form is present |
| `UnknownKey.FilterHasOnNull` | src/rules/no-unknown-key.js:59 | on a `null` value, the filter throws |
| `UnknownKey.FormsDotFree` | src/rules/no-unknown-key.js:5-8 | the plural forms are non-empty, and no form name contains a dot |
| `UnknownKey.ScanForms` | src/rules/no-unknown-key.js:58-73 | every finding of the form loop names this key and language |
| `UnknownKey.FormsOnObjectFrom` | lib/rules/no-unknown-key.js:67-83 | on an object value, the form loop computes the reference verdict on the object's members |
| `UnknownKey.FormsVerdictCases` | src/rules/no-unknown-key.js:58-73 | silent exactly when some form is complete and every earlier one absent; it lists the missing members exactly when the first non-absent form is partial; unrecognised exactly when every form is absent |
| `UnknownKey.PluralFormsOnObject` | src/rules/no-unknown-key.js:58-73 | the same three characterisations for the two forms `[singular, plural]` and `[none, one, many]` |
| `UnknownKey.FormsOnScalarFrom` | src/rules/no-unknown-key.js:70-73 | a missing, numeric or boolean value is an unrecognised plural format |
| `UnknownKey.CheckLanguage` | src/rules/no-unknown-key.js:11-75 | checks one language in the source's order: a falsy dictionary; then without a plural attribute, absence and non-string values; then with a truthy one, strings and arrays of other than two items. Non-string keys and `null` on the path throw |
| `UnknownKey.MissingKeyWithPlural` | src/rules/no-unknown-key.js:40-73 | with a plural attribute, a missing key is an unrecognised plural format rather than a missing key |
| `UnknownKey.NullPluralValueThrows` | lib/rules/no-unknown-key.js:68 | with a plural attribute, a `null` value throws in the form loop |
| `Base.EachFindings` | src/rules/no-unknown-key.js:11 | a `forEach` of steps that each report at most one finding stops exactly when a step throws, and every finding is one step's own |
| `Base.EachConcat` | src/rules/no-missing-template-field.js:47 | the `forEach` over a concatenation is the loop over the first part, then over the second unless it threw |
| `Base.EachOne` | src/rules/no-unknown-key.js:11 | the `forEach` over one element is that element's step |
| `UnknownKey.CheckForMissingKey` | lib/rules/no-unknown-key.js:13-86 | at most one finding per language |
| `UnknownKey.CheckConcat` | src/rules/no-unknown-key.js:11 | checking a concatenation of language lists is checking the first, then the second unless it threw |
| `UnknownKey.CheckFindingsFromLanguages` | src/rules/no-unknown-key.js:11-76 | the handler stops exactly when some language's check throws, and every finding is one language's own verdict |
| `UnknownKey.WithTextKeys` | src/rules/no-unknown-key.js:111 | one key per comma-separated piece |
| `UnknownKey.WithTextKeysOfJoin` | lib/rules/no-unknown-key.js:116-121 | round trip: comma-joined keys come back in order, each trimmed |
| `UnknownKey.CheckKeys` | src/rules/no-unknown-key.js:111 | at most one finding per key and language |
| `UnknownKey.CheckKeysConcat` | src/rules/no-unknown-key.js:111 | the keys are checked independently, in order, stopping at a throw |
| `UnknownKey.CheckKeysFindings` | lib/rules/no-unknown-key.js:116 | the call check stops exactly when one key's check throws, and every finding comes from one key |
| `UnknownKey.CheckProp` | src/rules/no-unknown-key.js:115-119 | a spread member throws, a non-literal value is skipped, a non-string literal throws on `trim` |
| `UnknownKey.PropKeys` | src/rules/no-unknown-key.js:117 | the trimmed string values of the properties, in order |
| `UnknownKey.CheckPropsAsKeys` | src/rules/no-unknown-key.js:114-120 | an object argument with string values is checked as the list of its trimmed values |
| `UnknownKey.NonLiteralPropsSkipped` | lib/rules/no-unknown-key.js:126 | properties that do not hold literals are skipped |
| `UnknownKey.CheckArgument` | src/rules/no-unknown-key.js:109-121 | a non-string literal argument throws on `split`; an argument that is neither a literal nor an object is skipped |
| `UnknownKey.CheckCall` | src/rules/no-unknown-key.js:107-123 | only calls whose callee passes the `withText` pattern are checked, and such a call with no argument throws |
| `UnknownKey.OneLanguageFlatKey` | src/rules/no-unknown-key.js:21-37 | a key absent from a dictionary is reported once as missing, and a present string key not at all |
| `UnknownKey.OneLanguageKeys` | src/rules/no-unknown-key.js:110-112 | against one dictionary of strings, exactly the absent keys are reported, in order |
| `UnknownKey.PlainKeysOfJoin` | src/rules/no-unknown-key.js:111 | round trip: plain keys written comma-separated come back exactly, in order |
| `UnknownKey.TrimPlainKey` | src/rules/no-unknown-key.js:111 | a key without blanks or commas is its own trimmed form |
| `UnknownKey.TwoPropsAsKeys` | src/rules/no-unknown-key.js:115-117 | an object argument with two plain-key string properties is checked as those two keys, in order |
| `UnknownKey.TwoKeysChecked` | src/rules/no-unknown-key.js:11-37 | against one dictionary, a present string key and an absent key give one finding, for the absent key |
| `UnknownKey.ObjectArgumentTwoKeys` | test/src/rules/no-unknown-key.spec.js:201-208 | `withText({a, b})` with `b` missing reports `b` only |
| `UnknownKey.ThreeKeysSplit` | src/rules/no-unknown-key.js:111 | `a,b,c` names the keys a, b and c |
| `UnknownKey.ThreeKeysChecked` | lib/rules/no-unknown-key.js:116-121 | with b and c missing, exactly b and c are reported, in order |
| `UnknownKey.StringArgumentThreeKeys` | test/src/rules/no-unknown-key.spec.js:188-199 | `withText("a,b,c")` with b and c missing reports b and c |
| `UnknownKey.WithTextExamples` | test/src/rules/no-unknown-key.spec.js:188-208 | the test calls `withText("helloWorld,foo,bar")` and `withText({a: "helloWorld", b: "foo"})` report the missing keys |
| `UnknownKey.PartialPluralVerdict` | src/rules/no-unknown-key.js:58-67 | with only `one` present, the first form set is absent and the second partly present, so the verdict names `none` and `many` |
| `UnknownKey.PartialPluralExample` | test/src/rules/no-unknown-key.spec.js:161-168 | a plural entry with only `one` reports `none` and `many` as missing |
| `SrcUnknownKeyRule.CheckElement` | src/rules/no-unknown-key.js:124-138 | elements outside both patterns are ignored, and so are elements without an id or with a non-literal id; a bare id throws; otherwise the last id literal is checked with the last plural attribute, or with none |
| `SrcUnknownKeyRule.TextElementExample` | test/src/rules/no-unknown-key.spec.js:88-95 | `<Text id="key"/>` with the key missing reports it once |
| `LibUnknownKeyRule.CheckElement` | lib/rules/no-unknown-key.js:139-160 | the same, with classification as the only gate and the component's own id and plural names; a plural name equal to the id name counts as no plural |
| `LibUnknownKeyRule.DialogTitleExample` | test/src/rules/no-unknown-key.spec.js:107-114 | `<Dialog title="key"/>` is checked through the id name `title` |
| `TemplateField.ObjectValues` | src/rules/no-missing-template-field.js:57 | `Object.values` throws exactly on `undefined` and `null`; it gives an object's member values, a string's one-character strings, and nothing for numbers and booleans |
| `TemplateField.PluralStringHasNoTemplate` | src/rules/no-missing-template-field.js:56-58 | a pluralized string value is searched character by character, so it never holds a placeholder |
| `TemplateField.PluralStringVerdict` | src/rules/no-missing-template-field.js:56-79 | with a plural attribute, a string value (templated or not) makes a fields attribute "not required" and reports nothing without one, in both the as-written and the corrected check |
| `TemplateField.AnyTemplate` | src/rules/no-missing-template-field.js:63 | `some` over the candidates answers true exactly when one of them, written as a string, has a placeholder |
| `TemplateField.CheckLanguageAsWritten` | src/rules/no-missing-template-field.js:47-80 | as written: a falsy dictionary is skipped; non-string keys, `null` on the path and `Object.values` of a missing value throw. Otherwise: fields missing exactly when the as-written missing-fields test holds and there is a placeholder; not required exactly when a fields node is given and there is no placeholder |
| `TemplateField.CheckLanguage` | src/rules/no-missing-template-field.js:47-80 | corrected: a falsy dictionary is skipped; non-string keys, `null` on the path and `Object.values` of a missing value throw. Otherwise: fields missing exactly when there are no fields and a placeholder; not required exactly when fields are given and no placeholder; silent exactly when neither |
| `TemplateField.TemplateExactlyWithFields` | src/rules/no-missing-template-field.js:63-79 | outside `fields={undefined}`, a language passes exactly when it has a placeholder if and only if a fields attribute is given |
| `TemplateField.SingleCandidate` | src/rules/no-missing-template-field.js:60 | without a plural attribute the one candidate is the looked-up value, and a missing key has no placeholder |
| `TemplateField.PluralMissingThrows` | src/rules/no-missing-template-field.js:57 | with a plural attribute, a missing or `null` value throws |
| `TemplateField.ArrayCandidates` | lib/rules/no-missing-template-field.js:63 | a pluralized array is searched item by item |
| `TemplateField.NoBraceNoTemplate` | src/rules/no-missing-template-field.js:5 | a string without `{` has no placeholder |
| `TemplateField.CheckLanguagesWith` | src/rules/no-missing-template-field.js:47-80 | at most one finding per language |
| `TemplateField.LanguageFindingsAsWritten` | src/rules/no-missing-template-field.js:47-80 | as written, the handler stops exactly when some language throws, and every finding is one language's own as-written verdict |
| `TemplateField.LanguageFindings` | lib/rules/no-missing-template-field.js:52-84 | corrected: the handler stops exactly when some language throws, and every finding is one language's own corrected verdict |
| `TemplateField.AsWrittenAgrees` | src/rules/no-missing-template-field.js:63 | for one language, the as-written and the corrected checks agree on every fields value except `fields={undefined}` |
| `TemplateField.LanguagesAgree` | src/rules/no-missing-template-field.js:47-80 | the same for the whole run over the languages |
| `TemplateField.CheckElement` | src/rules/no-missing-template-field.js:33-81 | as written: elements outside both patterns are ignored, and so are elements without an id or with a non-literal id; a bare id throws; otherwise the languages are checked under the last id literal with the raw values of the last plural and fields attributes |
| `TemplateField.CheckElementCorrected` | src/rules/no-missing-template-field.js:33-81 | corrected: the same, with the corrected check of each language |
| `TemplateField.HandlersAgree` | src/rules/no-missing-template-field.js:63 | the two handlers give the same result unless the last fields attribute is `fields={undefined}` |
| `TemplateField.NameTestIsDead` | src/rules/no-missing-template-field.js:63 | the as-written name test never holds for a value that is not an identifier |
| `TemplateField.FieldsUndefinedSlipsThrough` | lib/rules/no-missing-template-field.js:68 | as written, `fields={undefined}` on a templated value reports nothing; the corrected check reports the fields missing |
| `TemplateField.FieldsUndefinedExample` | src/rules/no-missing-template-field.js:63-71 | the same for the value `Hello {{name}}` |
| `TemplateField.FieldsUndefinedElementExample` | src/rules/no-missing-template-field.js:33-81 | on `<Text id="k" fields={undefined}/>` with the value `Hello {{name}}`, the as-written handler reports nothing and the corrected one reports the fields missing |
| `TextAsChildren.ChildrenAgainstTexts` | src/rules/no-text-as-children.js:42-52 | under a chain with a markup-text element no child is reported; under any other chain, exactly the children's own texts are reported, in order |
| `TextAsChildren.TextsFromChildren` | src/rules/no-text-as-children.js:43-45 | each reported text is some child's non-empty, cleaned, not-ignored text, and there are no more texts than children |
| `TextAsChildren.TextsAppend` | lib/rules/no-text-as-children.js:58 | children are checked independently: the texts of a concatenation are the texts of its parts |
| `TextAsChildren.QuietChildren` | src/rules/no-text-as-children.js:43-45 | blank or non-literal children report nothing |
| `TextAsChildren.CheckElement` | src/rules/no-text-as-children.js:39-52 | text-component elements are left alone; nothing is reported in a markup-text element or below one; outside text and markup-text elements exactly the children's own texts are reported, in order |
| `AttributeNodes.LastSlot` | src/utils.js:119-134 | the raw value of the last attribute of a name, unset exactly when there is none |
| `TextAsChildren.LoneChild` | src/rules/no-text-as-children.js:40-50 | a lone child with text under a plain top-level element is reported |
| `TextAsChildren.DivExample` | test/src/rules/no-text-as-children.spec.js:36-43 | the padded text child of a plain element is reported once, trimmed |
| `TextAsAttribute.Checklist` | src/rules/no-text-as-attribute.js:37-38 | the configured attribute list replaces the default `alt`, `aria-label`, `placeholder`, `title` |
| `TextAsAttribute.CheckAttribute` | src/rules/no-text-as-attribute.js:42-58 | attributes off the checklist are ignored; a checked bare attribute throws; a checked value is reported exactly when it offers text, with no markup exemption |
| `TextAsAttribute.DefaultChecklistExample` | test/src/rules/no-text-as-attribute.spec.js:44-61 | with the defaults, `title="foo"` is reported and an expression value is not |

## Left out

- File access, `process.cwd()` and `JSON.parse`. They are one loader
  function, which answers `None` where any of them throws. A file holding
  `null` and a file that fails to load both give a `null` translation,
  as in the source.
- Regular expressions. The configured patterns are predicates on
  strings. Only the rule's own `/\{\{.*\}\}/` is modelled
  (`TemplatePattern`).
- ESLint plumbing:
  - rule metadata and the option schemas;
  - `context.report` nodes and severities;
  - the `ignoreFiles` glob (minimatch);
  - building regular expressions from settings.

  A handler's result is its findings in report order.
- Each handler is given one list of loaded languages. The source calls
  `getLangConfig` once per checked key. The cache is modelled on its own
  (`LangCache`), with an explicit clock.
- lib/constants.js is not part of this model. The default attribute
  names `id`, `plural` and `fields` are the ones the utility tests rely
  on. The default component patterns are parameters.
- Mixing the two generations. Two transpiled rules call lib/utils.js in
  ways it does not accept:
  - lib/rules/no-missing-template-field.js:42 passes the element itself,
    where lib/utils.js:168-172 expects an object of options;
  - lib/rules/no-text-as-children.js:59-64 passes `markupNodeNameRE`,
    which lib/utils.js:28-33 does not read.

  Both rules are modelled as their `src` originals describe them.
- Options the rules do not read in the modelled files: `scopes` and
  `ignorePluralFormat`, which appear in the rule tests.
- The order of `Object.values`. The template rule only asks whether
  *some* value has a placeholder, so the values are a set.
- Numbers in dictionaries are integers. Floating point does not affect
  any branch the rules take.
- Inherited properties (`toString`, `constructor`, ...) of dictionary
  objects. A key that names one is treated as absent.
- UTF-16. Strings are sequences of Unicode code points, while JavaScript
  strings count UTF-16 code units. So `length` and index lookups on a
  string value (`Member`) differ from the source on characters outside
  the Basic Multilingual Plane. This only shows when a translation is
  itself a JSON string, since a key path never descends into a string
  member: for the translation `"\u{1F600}"` the key `1` is missing in the
  model and present (a lone surrogate) in the source, and `length` is 1
  rather than 2. `Object.values` of a pluralized string splits it the
  same way, which changes no verdict, as no single character holds a
  placeholder.
- Namespaced element names such as `<svg:rect>`. Their
  `openingElement.name.name` is a node, not a string, so the source tests
  the string `"[object Object]"` against the name patterns
  (src/rules/no-text-as-children.js:40,
  src/rules/no-missing-template-field.js:37,
  src/rules/no-unknown-key.js:128), and lib/utils.js:157 calls `match` on
  that node and throws. An element's name is modelled as a string or as
  absent, which cannot express either.
- `UnknownKey.Message`, `TemplateField.Message`, `TextAsChildren.Message`,
  `TextAsAttribute.Message`: the message texts are written out but no
  property is stated about them. The findings are compared as data.
- `UnknownKey.CheckLanguage`: its own contract leaves the plural-form loop
  on objects to `UnknownKey.PluralFormsOnObject` and
  `UnknownKey.FormsOnScalarFrom`.

## Findings

| source | as written | input that shows it | evidently intended | confidence | as-written member | corrected member |
|---|---|---|---|---|---|---|
| src/utils.js:88 | the cache key is the language name and the file path joined by a dash | languages ("en-x", path "y") and ("en", path "x-y") share the key `en-x-y`, so the second is served the first one's entry, with the wrong name and contents | a key that keeps name and path apart | high (not executed) | `LangCache.DashKeyCollision` | `LangCache.GetLangConfigFaithful` |
| src/rules/no-missing-template-field.js:63 | fields count as missing when there is no fields node or the node's own `name` is `undefined`; no attribute value has a `name`, so the second test never holds | `<Text id="k" fields={undefined}/>` with the value `Hello {{name}}` reports nothing | `fields={undefined}` reported like a missing fields attribute | medium (not executed) | `TemplateField.FieldsUndefinedSlipsThrough` | `TemplateField.CheckLanguage` |

Both behaviours are modelled side by side. The cache model has
`LangCache.GetLangConfigAsWritten` with the dash-joined key and the
corrected `LangCache.GetLangConfig` with the (name, path) key; the rule
handlers take their languages as a parameter, so neither loader is
called by them. The template rule has its handler as written,
`TemplateField.CheckElement`, and the corrected
`TemplateField.CheckElementCorrected`; `TemplateField.HandlersAgree`
shows that they differ only on `fields={undefined}`. The corrected check applies the
`fields={undefined}` test only to the missing-fields report. The second
report, "doesn't require any template field data", still fires for any
truthy fields node, as in the source.

Two places where the code is followed over its documentation:

- **`has` and empty strings.** The doc comment of `has` (lib/utils.js:85)
  says an empty string is absent. The code and the utility tests treat it
  as present; see `KeyPath.EmptyStringIsPresent`.
- **Partial plural forms.** The rule reports the first plural form that
  is partially present, not the one with the fewest missing keys; see
  `UnknownKey.FormsVerdictCases`.
