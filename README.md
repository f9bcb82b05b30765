# scrape-generate-preview: section addressing and DOM patches, in Dafny

scrape-generate-preview copies a web page and prepares it for edits made from natural
language. The scraper swaps every image for a coloured SVG placeholder with a cycling
lorem label. The optimiser purges unused CSS, rewrites every link to `#` and normalises
style declarations. The tagger then gives every candidate section a `data-section` key
and a `data-targets` catalog of relative CSS paths. The edit API turns a language model's
reply into a canonical list of edits and falls back to heuristics when the reply has
none. The demo page then applies the edits to the live document in an iframe.

This project models that pipeline in Dafny:

- **TagElements**
  - `cssEscape` over UTF-16 code units, with what CSS's own unescaping makes of it.
  - The section key of an element.
  - The relative path builder's climb, as a `while` loop proved against a recursive
    specification.
  - Candidate picking with first-seen de-duplication.
  - The per-section target catalog.
  - The tagging loop with its `usedCounts` map, as a method on a `Document` class whose
    node list it rewrites.
- **EditApi**
  - The three readings of the reply (`JSON.parse` is a parameter).
  - `normalizeEdits`.
  - The absolute selector builder. It is proved equal to the relative one on trees whose
    ids need no escaping.
  - The class + ordinal heuristic, with its two regular expressions modelled as
    leftmost-match scanners.
  - The fallback chain.
- **DemoApp**
  - `normalizeCssPropName`.
  - The executor, as a `LiveDocument` class holding every node's attributes, style and
    content, the number of picsum URLs it has built, and its log.
  - `querySelector`, `CSS.escape`, which property names and values the browser accepts,
    which attribute names `setAttribute` accepts, and the random token are oracles in a
    `Context` value.
- **Optimize**
  - `normalizeCssDeclarations`, with its order independence and idempotence.
  - The safelist, selector simplification and the rule purge over a postcss-like tree.
  - The link rewrite.
- **Scrape**
  - The hex colour codec, with both round trips.
  - The labels and `esc`.
  - The placeholder loop.
- **Yaml**: the `toYaml` writer that three files carry verbatim.
- **Infrastructure**: `Dom` (a cheerio-like tree in document order, selection,
  `nth-of-type`), `Text` (JavaScript string operations), `JsValue` (JSON values and
  truthiness), `Sorting` (the default string sort) and `Wrappers`.

## Model

| member | source | states |
|---|---|---|
| TagElements.CssEscape | src/TagElements.js:24-54 | the `charCodeAt` loop returns every UTF-16 code unit escaped (safe units kept, a space as `\ `, any other unit as backslash, upper-case hex and a space), with a leading digit `d` then rewritten as `\3d ` |
| TagElements.CssEscapeAlphabet | src/TagElements.js:27-52 | the escape never starts with a digit and holds only safe units, backslashes and spaces |
| TagElements.PlainIdentUnchanged | src/TagElements.js:27-52 | a string of safe units that does not start with a digit is returned unchanged |
| TagElements.CssEscapeRoundTrip | src/TagElements.js:24-54 | for a string without U+0000 whose characters all lie below U+10000, resolving the escape's backslash escapes gives the input back |
| TagElements.CssEscapeDecodes | src/TagElements.js:24-54 | for any string the escape decodes, unit by unit, to what each UTF-16 code unit decodes to: the unit itself, or U+FFFD for U+0000 and for a surrogate |
| TagElements.AstralEscapeLost | src/TagElements.js:27-48 | a character above U+FFFF is escaped as its two surrogates, which decode to two U+FFFD instead of the character |
| TagElements.CodePointEscapeRoundTrip | src/TagElements.js:24-54 | the same escape taken over code points instead of code units decodes back to any string without U+0000 |
| TagElements.EscapeValueDecodes | src/TagElements.js:30-47 | the escape of one value decodes to the code point of that value, whatever text follows |
| TagElements.EscapeValuesDecode | src/TagElements.js:27-48 | the concatenated escapes decode value by value |
| TagElements.HexEscapeDecodes | src/TagElements.js:46-47 | `\HEX ` decodes to the code point its value names, whatever text follows |
| TagElements.LeadingDigitKeepsDecode | src/TagElements.js:50-52 | the leading-digit rewrite never changes what the escape decodes to |
| TagElements.LeadingDigitRoundTrip | src/TagElements.js:50-52 | the `\3d ` rewrite of a leading digit decodes to that digit |
| TagElements.UpperHexValue | src/TagElements.js:46 | the upper-case hex rendering consists of hex digits whose value is the code unit |
| TagElements.ValueHexLength | src/TagElements.js:46 | a value below 0x110000 has at most six hex digits, the most a CSS escape may hold |
| TagElements.ElementKey | src/TagElements.js:56-64 | the key is never empty, so the `continue` on an empty key never fires |
| TagElements.ElementKeyChoice | src/TagElements.js:56-64 | the key is the id when there is one, else the first class word (which has no white space), else the tag name or `*` |
| Dom.Words | src/TagElements.js:60 | `split(/\s+/).filter(Boolean)` yields only non-empty words |
| Dom.WordsNoSpace | src/TagElements.js:60 | every class word is a non-empty run without white space |
| Dom.WordsOfWord | src/TagElements.js:60 | a single word splits into itself |
| Dom.IndexOfType | src/TagElements.js:84-95 | the sibling loop returns 1 plus the number of earlier element siblings of type "tag" with the same name |
| Dom.NthOfType | src/TagElements.js:86-95 | the `nth-of-type` index is at least 1 |
| Dom.NthOfTypeStrictlyIncreasing | src/TagElements.js:84-97 | among same-named element siblings the index strictly increases with position |
| TagElements.RelativePathBasics | src/TagElements.js:72-82 | the path of the ancestor itself is empty, a named target has a non-empty path, and a target with an id is exactly `#` + its escaped id |
| TagElements.ClimbStepsUnfold | src/TagElements.js:73-99 | one climb step: a nameless node ends the climb, an id ends it with `#id`, any other node pushes `tag:nth-of-type(k)` and climbs to its parent |
| TagElements.PathWithinStep | src/TagElements.js:84-103 | an id-less node's path is its parent's path, then ` > `, then its own fragment |
| TagElements.JoinReversedEndsWithFirst | src/TagElements.js:102-103 | the reversed, joined fragments end with the target's own fragment |
| TagElements.SiblingFragmentsDiffer | src/TagElements.js:84-97 | two distinct same-named element siblings never get the same fragment |
| TagElements.ComputePathFromAncestor | src/TagElements.js:66-104 | the guarded `while` loop returns the specified relative path |
| TagElements.CandidateList | src/TagElements.js:120-131 | the four queries yield node ids of the document |
| TagElements.Dedupe | src/TagElements.js:133-142 | the de-duplicated list holds the same nodes, none twice |
| TagElements.DedupeKeepsFirstSeenOrder | src/TagElements.js:133-142 | the kept nodes are in the order of their first occurrence |
| TagElements.DedupeInOrder | src/TagElements.js:134-141 | the loop over `seenEls` returns the de-duplicated list |
| TagElements.Candidates | src/TagElements.js:119-143 | every candidate is a node of the document |
| TagElements.PickSectionCandidates | src/TagElements.js:119-143 | returns the candidates: the four groups' matches, first occurrences only |
| TagElements.CandidatesCoverGroups | src/TagElements.js:122-131 | a node is a candidate if it is an element that is a landmark, has an id, has a layout class or is a child of `body`; every candidate is an element |
| Dom.Select | src/TagElements.js:149-151 | `find(selector)`: the matching nodes in scope |
| Dom.SelectSound | src/TagElements.js:149-151 | the selection holds exactly the matching nodes in scope, each once, in document order |
| Dom.SelectRank | src/TagElements.js:160 | the `k`-th match has exactly `k` matches before it |
| TagElements.FirstPathIsFirstMatch | src/TagElements.js:159-163 | the title is absent exactly when nothing matches, else it is the path of the earliest match |
| TagElements.FirstPathOf | src/TagElements.js:159-163 | `firstPath` returns the first match's path |
| TagElements.NonEmpty | src/TagElements.js:153 | the `if (rel)` filter never lengthens the list |
| TagElements.NonEmptySound | src/TagElements.js:153 | the filter keeps exactly the non-empty paths |
| TagElements.PathsSound | src/TagElements.js:147-156 | the kept paths are exactly the non-empty relative paths of the matches |
| TagElements.BuildPathsLoop | src/TagElements.js:147-156 | `buildPaths` returns the matches' non-empty relative paths, in order |
| TagElements.EachPath | src/TagElements.js:151-154 | the `.each` loop pushes every non-empty relative path |
| TagElements.BuildPathsListsMatch | src/TagElements.js:147-156 | a match inside the section with a non-empty path is listed |
| TagElements.BuildEach | src/TagElements.js:168-186 | the eleven `buildPaths` calls give one list per target kind |
| TagElements.CollectTargetsWithin | src/TagElements.js:145-190 | returns the section's catalog: title and the eleven lists |
| TagElements.CatalogListsEveryImage | src/TagElements.js:176 | every named `img` strictly inside the section is among its `images` |
| TagElements.NextKey | src/TagElements.js:214-226 | an id is the key and leaves `usedCounts` alone; any other key is suffixed `-n` with its previous count `n > 0` and its count goes up by one |
| TagElements.NextKeySameSources | src/TagElements.js:214-225 | the key depends on the element only through its id and its base key |
| TagElements.SetAttrKeepsKeySources | src/TagElements.js:229-235 | writing `data-section`/`data-targets` leaves everything a later key is computed from unchanged |
| TagElements.MarkSection | src/TagElements.js:229-238 | the element gets `data-section` = its key and a `data-targets` value; every other attribute and every other node is kept |
| TagElements.KeyUpTo | src/TagElements.js:211-226 | the loop has handed out one key per candidate processed |
| TagElements.MarkUpTo | src/TagElements.js:213-239 | marking keeps the document's size and every key source |
| TagElements.MarkAll | src/TagElements.js:213-239 | the fully marked document keeps every key source |
| TagElements.TagSections | src/TagElements.js:192-244 | the document ends up with every candidate marked with its key and catalog |
| TagElements.TagCandidates | src/TagElements.js:211-239 | the loop with its `usedCounts` map marks each candidate in turn with the key `KeyAll` hands it |
| TagElements.KeyUpToPrefix | src/TagElements.js:213-226 | later candidates never change keys already handed out |
| TagElements.SectionKeyRule | src/TagElements.js:211-226 | the `j`-th key is the id, or the base key suffixed with the number of earlier id-less candidates sharing it; `usedCounts` counts the id-less candidates per base key |
| TagElements.SameBaseKeysDiffer | src/TagElements.js:219-225 | two id-less candidates with the same base key get different keys |
| TagElements.TaggedKeys | src/TagElements.js:228-229 | every processed candidate carries exactly its own key in `data-section` |
| TagElements.KeyStays | src/TagElements.js:213-239 | a candidate's key survives the marking of every later candidate |
| TagElements.UntaggedKept | src/TagElements.js:213-239 | nodes that are not candidates are left as they were |
| TagElements.MarkedStep | src/TagElements.js:229-235 | marking one candidate gives it its key and changes no other node |
| TagElements.SuffixMeetsKey | src/TagElements.js:219-225 | two id-less `base` candidates then one `base-1` candidate get `base`, `base-1`, `base-1` |
| TagElements.KeysCanCollide | src/TagElements.js:214-228 | as written, with classes `card`, `card`, `card-1` the second and third sections get the same key |
| TagElements.IdMeetsClass | src/TagElements.js:214-228 | as written, an element with id `card` and an id-less one with class `card` both get the key `card` |
| TagElements.FreshKey | src/TagElements.js:219-225 | the corrected key is never one already taken, and is the base key whenever that is free |
| TagElements.UniqueKeysDistinct | src/TagElements.js:211-228 | with the corrected key choice no key is handed out twice, so keys are unique per document as the comment at line 228 says |
| TagElements.UniqueKeysPrefix | src/TagElements.js:213-226 | with the corrected key choice later candidates never change keys already handed out |
| TagElements.FreeBaseKept | src/TagElements.js:213-226 | with the corrected key choice a candidate whose base key is still free gets exactly that key |
| TagElements.ClassDivKey | src/TagElements.js:59-62 | an id-less element with class `c` is keyed `c` |
| EditApi.NormalizeContent | api/edit.js:40 | the result has no carriage return, byte order mark or zero-width space, and is no longer than the input |
| EditApi.NormalizeContentClean | api/edit.js:40 | text without those units is unchanged |
| EditApi.NormalizeContentIdempotent | api/edit.js:40 | normalising twice equals normalising once |
| EditApi.SpaceEnd | api/edit.js:44 | `\s*` consumes exactly the run of white space |
| EditApi.FenceSpan | api/edit.js:44 | the fenced capture lies within the text |
| EditApi.TryParseEditPayload | api/edit.js:38-56 | the result is `{raw: content}` or a value `JSON.parse` gives for a slice of the normalised text |
| EditApi.TryFence | api/edit.js:43-55 | the same for the second and third readings |
| EditApi.TryBraces | api/edit.js:48-55 | the same for the third reading |
| EditApi.UnparsedReading | api/edit.js:42 | a reply that does not parse whole goes on to the fenced reading |
| EditApi.UnfencedReading | api/edit.js:44-45 | text without a fence goes straight to the braced reading |
| EditApi.BracesRead | api/edit.js:49-54 | with the first `{` before the last `}` the third reading parses exactly that span, else gives `{raw}` |
| EditApi.FencedPayload | api/edit.js:44-47 | a payload in a ```` ```json ```` fence parses as the unwrapped payload |
| EditApi.BracedPayload | api/edit.js:49-54 | a braced payload inside prose without braces parses as that payload |
| EditApi.EditListSources | api/edit.js:59-66 | the list is the array itself, else `.edits`, else `.operations`, else empty |
| EditApi.Canonical | api/edit.js:67-73 | every record has exactly the fields section, path, op, attr, prop, value, in that order |
| EditApi.CanonicalFallbacks | api/edit.js:68-73 | `path` falls back to `selector`, `op` to `operation`; absent fields are null |
| EditApi.CanonicalGet | api/edit.js:67-73 | the record's fields read back as the values they were built from |
| EditApi.CanonicalUsable | api/edit.js:74 | a record is kept iff `op` is truthy and `path` or `section` is truthy |
| EditApi.KeepUsable | api/edit.js:74 | the filter keeps exactly the usable records and never lengthens the list |
| EditApi.KeepUsableAppend | api/edit.js:74 | filtering distributes over concatenation, so input order is kept |
| EditApi.Records | api/edit.js:67-73 | one canonical record per entry, in order |
| EditApi.NormalizeEdits | api/edit.js:58-75 | it fails iff a list entry is null; otherwise the result is no longer than the list and holds exactly its usable records |
| EditApi.AbsoluteSelectorBasics | api/edit.js:78-101 | a non-element gets `""`; an element with an id gets `#id` alone; any element gets a non-empty selector |
| EditApi.BuildAbsoluteSelector | api/edit.js:78-101 | the guarded loop returns the specified absolute selector |
| EditApi.PartsAgree | api/edit.js:82-97 | the absolute climb pushes the same fragments as the relative one when no id needs escaping |
| EditApi.ForksAgree | api/edit.js:85 | on such trees the absolute selector equals the path relative to the root |
| EditApi.CaptureEnd | api/edit.js:106-107 | the backtracking capture ends at the last position after which the marker follows |
| EditApi.FirstCapture | api/edit.js:106-107 | the leftmost match: no earlier start matches, and the capture is a run followed by the marker |
| EditApi.Capture | api/edit.js:106-107 | a captured group is a non-empty run of the pattern's characters |
| EditApi.OrdinalCaptureIsWholeRun | api/edit.js:106 | the ordinal capture is a whole run of digits |
| EditApi.HalfWidth | api/edit.js:110 | the intended conversion: a full-width digit becomes the half-width digit of the same value |
| EditApi.HalfWidthDigits | api/edit.js:110 | the intended conversion maps every digit of the run that way |
| EditApi.HalfWidthValue | api/edit.js:110 | with the intended conversion the parsed value is the number the mixed-width run denotes |
| EditApi.MixedRunValue | api/edit.js:110 | with the intended conversion `４` and `3４` read as 4 and 34 |
| EditApi.FullWidthReplacement | api/edit.js:110 | as written, the callback turns every full-width digit into `-1`: the lookup string holds half-width digits only |
| EditApi.ParseDecimalInt | api/edit.js:110 | `parseInt(s, 10)` is `NaN` exactly when no digit follows the leading white space and sign, and is negative only after a `-` |
| EditApi.OrdinalReadingCases | api/edit.js:106-110 | as written, a run that starts with a half-width digit reads as its leading half-width digits only, and one that starts with a full-width digit reads as a negative number |
| EditApi.FullWidthFourReading | api/edit.js:110 | as written, `４` reads as -1 |
| EditApi.MixedRunReading | api/edit.js:110 | as written, `3４` reads as 3 |
| EditApi.FullWidthOrdinalIgnored | api/edit.js:104-111 | as written, an instruction whose ordinal starts with a full-width digit gets no edit |
| EditApi.DivChildren | api/edit.js:119 | `find('> div')` yields element `div` children of the container |
| EditApi.ImageTarget | api/edit.js:119-122 | the target, if any, is a node of the document |
| EditApi.ImageTargetSound | api/edit.js:118-122 | the target is an `img` in the N-th `div` child, or otherwise in the container |
| EditApi.ApplyClassOrdinalHeuristic | api/edit.js:104-129 | the method with its early returns computes the heuristic's edits |
| EditApi.ClassOrdinalCases | api/edit.js:104-129 | at most one edit; none without an ordinal or a class marker, or when the ordinal reads below 1; else a `setAttr src` edit on the target's absolute selector |
| EditApi.Closest | api/edit.js:202 | the element found carries the attribute |
| EditApi.SectionOf | api/edit.js:203-204 | a section id found is non-empty |
| EditApi.FirstHero | api/edit.js:212 | the first hero match in document order |
| EditApi.ResolveFinalEdits | api/edit.js:193-228 | the reply's edits win; else the background rule; else the class-ordinal edits with the message kept unless empty; else nothing |
| DemoApp.KebabCase | demo/app.js:17 | no ASCII capital remains, nothing gets shorter, and a name without capitals is unchanged |
| DemoApp.KebabDashes | demo/app.js:17 | every dash the rewrite inserts is followed by a lower-case letter |
| DemoApp.NormalizeCssPropName | demo/app.js:12-18 | `--` names are unchanged, others lose every ASCII capital, and only the empty name normalises to empty |
| DemoApp.NormalizeCssPropNameIdempotent | demo/app.js:12-18 | normalising twice equals normalising once |
| DemoApp.NormalizeWithoutDash | demo/app.js:15-17 | a name without a dash is kebab-cased |
| DemoApp.CamelHumpToKebab | demo/app.js:16-17 | a hump becomes `-` and the letter in lower case, and the rest is kept |
| DemoApp.PathSelector | demo/app.js:137 | a blank or falsy path is absent, a truthy non-string path throws, else the trimmed path |
| DemoApp.PathKept | demo/app.js:137 | an unpadded path is used as it is |
| DemoApp.ScopedSelector | demo/app.js:139-154 | without a section the path is used as it is; a section without a path gives the bare section selector |
| DemoApp.ScopedSelectorPrefixes | demo/app.js:147-150 | any other path is prefixed with the section selector |
| DemoApp.ScopedIdPath | demo/app.js:142-146 | a `#<section>` prefix and one `>` are removed, leaving the section selector alone when nothing remains |
| DemoApp.IdPrefixRewrite | demo/app.js:142-146 | `#<section> > rest` becomes `[data-section="…"] rest` |
| DemoApp.IdOnlyRewrite | demo/app.js:142-146 | a path of just `#<section>` addresses the section element |
| DemoApp.ScopedChildPath | demo/app.js:143-146 | the same rewrite for a path already trimmed |
| DemoApp.AfterIdPrefix | demo/app.js:144-145 | what remains after the prefix is trimmed |
| DemoApp.Target | demo/app.js:155-159 | a truthy non-string path throws; a node found is in the frame; with none found, the raw path found nothing |
| DemoApp.TargetFound | demo/app.js:155-159 | the scoped query's node, else the raw path's retry when `path` is truthy |
| DemoApp.WithContent | demo/app.js:163-169 | the element's content is replaced and its children leave the tree; nothing else changes |
| DemoApp.ClosestPicture | demo/app.js:181 | the node found is a `picture` that is the element or one of its ancestors |
| DemoApp.WithoutSources | demo/app.js:183 | exactly the `source` nodes of the picture leave the tree |
| DemoApp.ReplaceImage | demo/app.js:172-185 | the lazy-load attributes go, `src` is a fresh picsum URL, and one more token is used |
| DemoApp.ReplaceImageSet | demo/app.js:186-191 | `src` is a fresh picsum URL, and `srcset` and `sizes` go; nothing else changes |
| DemoApp.AttrEffect | demo/app.js:170-196 | a non-string truthy `attr` throws and a falsy one does nothing; a name `setAttribute` rejects throws unless it is `src`/`srcset` on an `img`; a throw changes nothing |
| DemoApp.SetProperty | demo/app.js:200 | in the style map only the named property can change: set to a non-empty value, removed by an empty one |
| DemoApp.SetPropertiesOthers | demo/app.js:202-205 | in the style map, properties none of the calls names keep their values |
| DemoApp.ParseDeclaration | demo/app.js:209-213 | a declaration read has a non-empty name and value |
| DemoApp.SplitDeclaration | demo/app.js:209-213 | the same for a split at a given colon |
| DemoApp.Declarations | demo/app.js:208-215 | every declaration of the string has a non-empty name and value |
| DemoApp.ParsedNonEmpty | demo/app.js:213 | pieces that fail to parse contribute nothing |
| DemoApp.DeclarationTextRoundTrip | demo/app.js:206-216 | `name:value;…` of plain declarations reads back as those declarations, in order |
| DemoApp.EntryDeclarations | demo/app.js:202-205 | one `setProperty` per object entry, with normalised names |
| DemoApp.StyleEffect | demo/app.js:197-218 | `setStyle` changes only the element's style |
| DemoApp.EditEffect | demo/app.js:134-221 | one edit keeps the frame, and an edit that throws changes nothing |
| DemoApp.ApplyAll | demo/app.js:133-222 | the batch keeps the frame |
| DemoApp.ApplyPayload | demo/app.js:130-223 | a falsy result or a non-array `edits` does nothing |
| DemoApp.NoTargetNoMutation | demo/app.js:161 | an edit whose target is not found changes nothing and does not stop the batch |
| DemoApp.UnknownOpWarnsOnce | demo/app.js:219-220 | an unknown `op` changes no node and logs exactly one warning |
| DemoApp.ContentEdits | demo/app.js:163-169 | `setText`/`setHTML` put `value ?? ""` into the target and leave every other node's attributes, style and content alone |
| DemoApp.ReplaceImageSources | demo/app.js:176-185 | replacing an image's `src` removes exactly the `source` nodes of its nearest picture |
| DemoApp.ApplyAllAppend | demo/app.js:133 | edits are applied strictly in list order |
| DemoApp.ThrownStays | demo/app.js:133-137 | after an edit throws, no later edit is applied |
| DemoApp.InvalidAttrNameEndsBatch | demo/app.js:133-194 | a `setAttr` whose name `setAttribute` rejects ends the batch: the state is the one before it and no later edit is applied |
| DemoApp.LiveDocument.Resolve | demo/app.js:137-159 | returns the specified target |
| DemoApp.LiveDocument.Scope | demo/app.js:139-154 | the reassignments of `selector` compute the scoped selector |
| DemoApp.LiveDocument.RemoveSources | demo/app.js:181-184 | the nodes become the document without the picture's sources |
| DemoApp.LiveDocument.SetAttr | demo/app.js:170-196 | the new state and the throw are those `AttrEffect` specifies |
| DemoApp.LiveDocument.StyleSetProperty | demo/app.js:200 | only the element's style changes, by one `setProperty` |
| DemoApp.LiveDocument.SetPropertiesOf | demo/app.js:202-205 | the `for … of` loop applies the calls in order |
| DemoApp.LiveDocument.SetDeclarationText | demo/app.js:206-216 | the element's style gets the string's declarations in order |
| DemoApp.LiveDocument.SetParsedDeclarations | demo/app.js:208-215 | the `forEach` sets the declarations read, in order |
| DemoApp.LiveDocument.SetIfParsed | demo/app.js:209-214 | a piece read as a declaration is set, any other skipped |
| DemoApp.LiveDocument.SetStyle | demo/app.js:197-218 | the new state is the one `StyleEffect` specifies |
| DemoApp.LiveDocument.ApplyEdit | demo/app.js:134-221 | one iteration gives the state and throw `EditEffect` specifies |
| DemoApp.LiveDocument.ApplyEditsToIframe | demo/app.js:130-223 | the whole call gives the state and throw `ApplyPayload` specifies |
| JsValue.DomString | demo/app.js:165 | `value ?? ""` gives a string unchanged and null as the empty string |
| JsValue.Entries | demo/app.js:202 | `Object.entries`: entries of the object, keys distinct |
| Optimize.NormalizeSplitsAtFirstColon | src/optimize.js:34-37 | a declaration splits at its first colon and later colons stay in the value |
| Optimize.NormalizeWithoutColon | src/optimize.js:35-36 | without a colon the piece is the name and the value is empty |
| Optimize.NormalizedIsNormal | src/optimize.js:32-37 | a normalised declaration is its own normal form, unpadded and without `;` |
| Optimize.NormalizeCssDeclarationsIdempotent | src/optimize.js:29-40 | normalising twice equals normalising once |
| Optimize.NormalizeSortedNormal | src/optimize.js:29-40 | a sorted list of normal declarations normalises to itself |
| Optimize.NormalizeCssDeclarationsOrderFree | src/optimize.js:38 | the order in which two groups of declarations are written does not matter |
| Sorting.Sort | src/optimize.js:38 | the sorted list is a permutation of the input |
| Sorting.SortSorted | src/optimize.js:38 | the result is in the order of UTF-16 code units, the default order of `sort` |
| Sorting.LexLeIsUnitOrder | src/optimize.js:38 | the character comparison the sort uses is exactly the comparison of the strings' UTF-16 code units |
| Sorting.SortedUnique | src/optimize.js:38 | two sorted permutations of each other are equal, so any correct sort gives this result |
| Sorting.SortOfSorted | src/optimize.js:38 | sorting a sorted list changes nothing |
| Sorting.SortPermutation | src/optimize.js:38 | the sort depends only on the multiset of strings |
| Text.TrimmedPiecesShape | src/optimize.js:31-33 | the pieces are unpadded and hold no separator |
| Text.TrimmedPiecesAppend | src/optimize.js:31-33 | pieces of `a;b` are the pieces of `a` then those of `b` |
| Text.Split | src/optimize.js:31 | at least one piece, none holding the separator |
| Text.JoinSplit | src/optimize.js:35-36 | joining the pieces with the separator gives the string back |
| Text.SplitJoin | src/optimize.js:35-36 | splitting a join of separator-free pieces gives the pieces back |
| Text.Trim | demo/app.js:137 | the result is a slice of the input with no white space at either end |
| Text.TrimIdempotent | demo/app.js:137 | trimming twice equals trimming once |
| Text.NatToDecimalInjective | src/TagElements.js:223 | different counts give different suffixes |
| Text.Utf16 | src/TagElements.js:27-28 | one code unit, the character itself, below U+10000; otherwise a high and a low surrogate that encode the character |
| Text.CodeUnitsBound | src/TagElements.js:28 | every code unit `charCodeAt` gives is below 0x10000 |
| Text.BmpCodeUnits | src/TagElements.js:27-28 | for characters below U+10000 the code units are the code points |
| Text.UnitsOfDistinct | src/optimize.js:38 | two different characters compare by their code units in the order of their ranks, whatever follows them |
| Optimize.SafelistedWithin | src/optimize.js:92-94 | a selector containing a safelisted one is safelisted |
| Optimize.CollapseSpaces | src/optimize.js:104 | runs of white space become single spaces, and the result is no longer than the input |
| Optimize.CollapseKeepsVisible | src/optimize.js:104 | the characters other than white space are kept, in order |
| Optimize.CollapsedTrim | src/optimize.js:104 | trimming keeps white space collapsed |
| Optimize.SimplifySelectorForMatch | src/optimize.js:96-106 | never empty for a non-empty selector: either the original, or a trimmed, collapsed result |
| Optimize.KeptSelectors | src/optimize.js:152-156 | exactly the trimmed non-empty selectors that are safelisted or match |
| Optimize.PurgeNode | src/optimize.js:149-182 | one node yields at most one output node |
| Optimize.Purge | src/optimize.js:148-183 | the output has no more nodes than the container |
| Optimize.ProcessContainer | src/optimize.js:148-183 | the recursive walk appends the purged nodes |
| Optimize.RuleSurvival | src/optimize.js:150-162 | a rule survives iff one selector is kept, and then holds only the kept selectors joined by `, ` and the whole body |
| Optimize.SafelistedRuleKept | src/optimize.js:156 | a rule with a safelisted selector always survives |
| Optimize.PurgeDropsEmptyMedia | src/optimize.js:164-169 | no empty `@media` block is written, at any depth |
| Optimize.PurgeKeepsComments | src/optimize.js:177-178 | every comment is copied, in order, and no other is written |
| Optimize.PurgeCopiesOthers | src/optimize.js:170-181 | other at-rules and comments are copied unchanged; stray declarations are dropped |
| Optimize.LinksHashed | src/optimize.js:42-49 | every `a[href]` gets `href="#"` and nothing else changes |
| Optimize.LinksHashedIdempotent | src/optimize.js:42-49 | afterwards every link is `#`, and a second rewrite changes nothing |
| Optimize.ReplaceAllLinksWithHash | src/optimize.js:42-49 | the loop leaves the document with its links hashed |
| Scrape.HexToRgb | src/scrape.js:95-101 | null iff fewer than six expanded digits remain; otherwise every component is in 0..255 |
| Scrape.HexPrefix | src/scrape.js:99 | `parseInt` reads the longest prefix of hex digits |
| Scrape.ParseHexInt | src/scrape.js:99 | the value parsed is bounded by the digits read |
| Scrape.Components | src/scrape.js:100 | shifting and masking give components in 0..255 |
| Scrape.Doubled | src/scrape.js:97 | each character is doubled in place |
| Scrape.ShortFormDoubled | src/scrape.js:97 | a three-digit form reads as its doubled six-digit form |
| Scrape.OnlySixDigitsRead | src/scrape.js:99 | characters after the first six digits are ignored |
| Scrape.HexByteDigits | src/scrape.js:103 | a byte is written as exactly two digits |
| Scrape.RgbToHexShape | src/scrape.js:102-105 | `#` and three two-digit lower-case groups, one per component |
| Scrape.RgbHexRoundTrip | src/scrape.js:95-105 | a colour with byte components is read back unchanged |
| Scrape.HexRgbRoundTrip | src/scrape.js:95-105 | six digits read and written again are the digits in lower case |
| Scrape.LoremLabel | src/scrape.js:201-213 | every label is one of the eight phrases |
| Scrape.LabelsCycle | src/scrape.js:212 | two counters get the same label iff they agree modulo 8 |
| Scrape.PhrasesDistinct | src/scrape.js:202-211 | the eight phrases are distinct |
| Scrape.ReplaceAll | src/scrape.js:191 | the output holds only replacement characters or kept characters other than the replaced one |
| Scrape.Escape | src/scrape.js:191 | the escaped text holds no `<` and no `>` |
| Scrape.EscapeRoundTrip | src/scrape.js:191 | reading the references back gives the text |
| Scrape.LabelsNeedNoEscape | src/scrape.js:191-212 | the labels pass through `esc` unchanged |
| Scrape.LabelReadBack | src/scrape.js:192-196 | the SVG text element's content reads back as the label |
| Scrape.FontSize | src/scrape.js:195 | `Math.round(min(w, h) * 0.12)` is the nearest whole number |
| Scrape.PlaceholderFontSize | src/scrape.js:195 | a 600 by 400 placeholder uses font size 48 |
| Scrape.DataUri | src/scrape.js:197 | the URI starts with `data:image/svg+xml;charset=utf-8,` |
| Scrape.PlaceholderUriResidues | src/scrape.js:300-310 | an image's placeholder depends only on its counter modulo the palette size and modulo 8 |
| Scrape.Placeheld | src/scrape.js:311-314 | `src` is set, `srcset` and `sizes` are gone, `alt` is `placeholder`, and every other attribute is kept |
| Scrape.WithPlaceholders | src/scrape.js:298-315 | every image gets the placeholder of its counter and every other node is kept |
| Scrape.PlaceholderOfImage | src/scrape.js:299-311 | the `k`-th image in document order gets the placeholder for counter `k` |
| Scrape.OnlyImagesChange | src/scrape.js:299 | nodes that are not images are unchanged |
| Scrape.PlaceholdersIdempotent | src/scrape.js:298-315 | running the loop a second time changes nothing |
| Scrape.AssignPlaceholders | src/scrape.js:298-315 | the loop leaves the document with every image placeheld |
| Scrape.PlacedStep | src/scrape.js:299-315 | one more turn writes the next image with the current counter |
| Scrape.PlacedAll | src/scrape.js:299-315 | after the last turn the document is the specified one |
| Scrape.PlaceOne | src/scrape.js:311-314 | the four attribute writes on one image |
| Yaml.Pad | src/optimize.js:221 | `n` spaces |
| Yaml.Scalar | src/optimize.js:242-246 | `''` for the empty string, a JSON literal when the string has `:`, `#`, `-` or a `\n`, else the string; never a `\n` (the same rule as src/collectFeatures.js:35-38 and src/aiSegment.js:29-32) |
| Yaml.FixedSpellings | src/optimize.js:222-231 | `null`, `[]`, `{}` and `''` for null, the empty array, the empty object and the empty string (also src/collectFeatures.js:19-26 and src/aiSegment.js:13-20) |
| Yaml.ItemLines | src/optimize.js:225-227 | one line group per array item |
| Yaml.ItemLinesIndex | src/collectFeatures.js:22 | item `i` is the dash at the indent and the item's rendering without its leading white space |
| Yaml.EntryLines | src/optimize.js:232-240 | one line group per object entry |
| Yaml.CorrectedLayout | src/optimize.js:232-240 | with the intended test a non-empty container is a block indented at its level with content on its first line, and any other value fits on one line |
| Yaml.OriginalMisplacesEmpty | src/optimize.js:235-236 | as written, `{k: []}` at indent 2 puts `[]` below the key at the left margin |
| Yaml.OriginalMisplacesBlock | src/aiSegment.js:23-25 | as written, `{a: {b: 1}}` writes the inner entry on the key's line |

## Left out

- File-system reads and writes, process arguments and logging (`main`, `readText`, `writeText`, console output).
- Puppeteer sessions, page loading and stylesheet collection in the scraper.
- Colour extraction, luminance and palette choice (`collectCssColors`, `choosePalette`, `relativeLuminance`): floating point. The palette is a parameter, and each swatch carries only whether it is light.
- The 1x1 GIF fallback when placeholder generation throws.
- The final `$("video, source").remove()` of the scraper.
- `encodeURIComponent`: a parameter of the data-URI builder.
- The HTTP handlers of the edit API, the prompt building and the catalog of targets and sections it sends, the language model call and `runNode`.
- In the demo page: the iframe loading, the chat form, the log view and the pane resizer.
- `anonymizeTextNodes`, `buildStructuredOutline`, the width/height backfill, `collectLeadingComments` and the postcss printing of the purge.
- `uniqueElements` in src/TagElements.js: it is never called.
- The HTML parser and serialiser. The document is a node list whose index order is document order.
- The CSS selector engines. The tagger and scraper use `Dom.Select`, which covers only the selector forms they pass. The browser's `querySelector` is an oracle in the demo's `Context`, and cheerio's match count in the purge is an oracle in `PurgeEnv`.
- `JSON.parse`: a parameter returning an optional value. A throw is `None`.
- `JSON.stringify` in `tagSections`: a string catalog always serialises, so the `catch` branch is not modelled.
- TagElements.CssEscape: the result is proved to decode back to the input, not to be a valid identifier: a leading `-` is kept as it is, so `-1` and `-` come back unchanged and `#-1` is not a valid ID selector.
- `CSS.escape` in the demo: an oracle (`Context.escape`). The tagger's own `cssEscape` is modelled in full.
- DemoApp.SetProperty / DemoApp.SetPropertiesOthers: the style is a flat map from property names to values. The browser's shorthand expansion is not modelled: a shorthand such as `background`, `margin` or `font` sets or removes its longhands, so in the page the order of declarations within one edit can matter and an unnamed longhand can change. Value serialisation is not modelled either, and a custom property (`--x`) is stored without the browser's check that its value is a valid declaration value.
- Whether the browser knows a property and accepts a value for it: oracles (`Context.supports`, `Context.parses`). `SetProperty` then either writes or removes the property, or leaves the style unchanged.
- The picsum token (`Date.now` and `Math.random`): the oracle `Context.token`, read at a counter that grows with every URL built.
- Strings are sequences of Unicode characters. Where code units matter (`cssEscape`'s `charCodeAt` loop and the default `sort`), a character above U+FFFF is taken as its two surrogates (`Text.Utf16`). Lone surrogates in a string are not represented. Case mapping is ASCII-only, which is all the modelled code needs.
- JsValue.Json: numbers are integers; fractional numbers (an `opacity` of `0.5`, a value in a reply) are not represented, and neither are `NaN` or the infinities.
- DemoApp.WithContent / DemoApp.Target: `setHTML` parses its value into new elements in the live page; the model keeps the frame's nodes fixed, so elements created by `setHTML` are not added and a later edit in the same batch cannot target them.
- DemoApp.AttrEffect: which attribute names `setAttribute` accepts is the oracle `Context.validName`; the XML name production is not modelled.
- Object key order (`Object.entries`) is insertion order with duplicate keys resolved as `JSON.parse` resolves them. Integer-like keys are not moved to the front.
- EditApi.ForksAgree: proved only for climbs that meet named elements of type "tag" whose ids need no escaping, within the 2048-step guard. Elsewhere the two builders differ: the relative one escapes ids and the absolute one stops at the root.
- TagElements.MarkSection: the `data-targets` value is taken from a function parameter; `TagSections` passes the catalog's JSON.
- DemoApp.ClosestPicture: the climb is bounded by the number of nodes, which a tree without cycles never exceeds.
- Optimize.SimplifySelectorForMatch: the two regular-expression removals are the parameter `strip`. Only the white-space collapse and the non-empty guarantee are modelled.
- Scrape.HexToRgb: its length tests and slices (`h.length === 3`, `split("")`, `h.length < 6`, `slice(0, 6)`) count characters, not UTF-16 code units; the two differ only for characters above U+FFFF, and the scraper passes only ASCII hex colours.
- Scrape.ParseHexInt: models `parseInt(s, 16)` on the characters the scraper can pass, including a sign and a `0x` prefix. Precision limits of doubles are not modelled.
- Sorting.Sort: an insertion sort stands for the engine's sort. `Sorting.SortedUnique` shows every correct sort gives the same list.
- Yaml.Scalar: only `\n` makes the writer quote a string, as the source's test does. A string holding another line break, such as `\r`, is written raw and breaks the line in the YAML output; the contract promises only that no `\n` is written.
- Yaml.Scalar: non-string scalars are integers and booleans; floating-point numbers are not modelled.
- Yaml: keys containing line breaks are not considered by the layout lemmas.

## Findings

| source | as written | input that shows it | evidently intended | confidence | as-written member | corrected member |
|---|---|---|---|---|---|---|
| src/optimize.js:235 (copied at src/collectFeatures.js:30 and src/aiSegment.js:24) | an entry's value goes below its key when its rendering starts with `{` or `[` or has a line break | `{"k": []}` at indent 2 renders as `  k:` then `[]` at the left margin; `{"a": {"b": 1}}` renders as `a:   b: 1` | a value goes below its key exactly when it is a non-empty array or object | medium, not executed | Yaml.OriginalMisplacesEmpty | Yaml.CorrectedLayout |
| api/edit.js:110 | each full-width digit is replaced by `String('0123456789'.indexOf(s))`, and the lookup string holds only half-width digits, so every full-width digit becomes `-1` | `３つ目の画像` gives the run `３`, read as -1, so no edit; `3４` reads as 3 | each full-width digit becomes the half-width digit of the same value | high, not executed | EditApi.FullWidthFourReading | EditApi.HalfWidthValue |
| src/TagElements.js:27-48 | `cssEscape` escapes UTF-16 code units one at a time, so a character above U+FFFF becomes two `\D8xx `-style escapes of its surrogates | `"😀"` escapes to `\D83D \DE00 `, which CSS decodes as two U+FFFD | the character is copied or escaped as one code point | medium, not executed | TagElements.AstralEscapeLost | TagElements.CodePointEscapeRoundTrip |
| src/TagElements.js:214-228 | only id-less keys are counted, and a suffixed key is not checked against keys already given, although line 228 says keys are unique per document | classes `card`, `card`, `card-1` give `card`, `card-1`, `card-1`; an id `card` next to a class `card` gives `card` twice | every section gets a key no earlier section has | high, not executed | TagElements.KeysCanCollide | TagElements.UniqueKeysDistinct |
