# Yokai flashcards, modelled in Dafny

The repository has two parts, and both are modelled here.

- **The scraper** (`scripts/scrape.ts`) reads four catalogue pages of the Mizuki Shigeru Memorial Museum site and turns each yokai section into a record: id, name, image URL, location, description and reading. It pools the page results and sorts them by id.
- **The web app** (`web/src/App.tsx`) shows those records as flashcards. It has a search filter and a shuffle. Before the card is turned over, the app hides the yokai's names (taken from an alias table too) inside the description.

The model is split into these modules:

| module | file | what it models |
|---|---|---|
| `Wrappers` | `wrappers.dfy` | `T \| null` as `Option`, and two list scans: collect the present results in order (the `.each` + `push` loops), and take the first present result |
| `JsText` | `jstext.dfy` | JavaScript's `\s` class, `trim`, `replace(/\s+/g, "")`, `startsWith`, `includes` |
| `Heading` | `heading.dfy` | `normalizeName`, the id taken from the heading, and the numbering-prefix strip (`^\s*(?:[0-9０-９]+\s*[\.:：:．、・]?\s*){1,3}`) modelled as its unique greedy parse |
| `Extractor` | `extractor.dfy` | `parseYokaiFromSection` (a pure `Extract` plus the method with its reading loop) and `scrapePage` |
| `Aggregator` | `aggregator.dfy` | `main`'s pooling and its stable sort with the `-1 → 1` key |
| `Masking` | `masking.dfy` | `escapeRegExp`, `buildSpacedInsensitiveRegex`, `maskMatchedPreservingSpaces`, `maskNamesInText` |
| `Deck` | `deck.dfy` | the `filtered` memo, `shuffleArray`, and the card state machine (`FlashcardApp`) |

How each module is built:

- **HTML.** The HTML is not modelled. A section arrives as the texts that the scraper's selectors read from it (`Extractor.Section`).
- **Platform services.** NFKC normalisation and `new URL(src, base)` are platform services. They are passed in as the function-typed fields of `Extractor.Host`.
- **Regular expressions.** A name's pattern source is compiled by a compiler for exactly the fragment of regular-expression syntax the app produces. The compiled pattern is run by a backtracking matcher with JavaScript's greedy-first order. The global `replace` becomes a leftmost scan.
- **React state.** The React state hooks and effects become the fields and methods of the class `Deck.FlashcardApp`.

Points where the code behaves in ways a reader may not expect:

- **Entries without a number.** Their key is 1, so they sort together with the entries numbered 1, in pool order. They are placed before entry 2, not at the end (`Aggregator.SortExample`).
- **The reading search.** It stops only once a non-empty reading has been found. A reading-labelled line that yields nothing does not end the search (`Extractor.ReadingOf`, `Extractor.ScanReading`).
- **The location.** It is read from the first `p.border_text` paragraph only, whatever that paragraph's label is (`Extractor.LocationOf`).
- **Case.** `buildSpacedInsensitiveRegex` builds a case-sensitive pattern; its only flag is `g`.

## Model

| member | source | states |
|---|---|---|
| JsText.Trim | scripts/scrape.ts:60 | the result is empty exactly when the text is all whitespace; otherwise both of its ends are non-whitespace; text without whitespace is unchanged (the slice property is `JsText.TrimStripsEnds`) |
| JsText.TrimStripsEnds | scripts/scrape.ts:60 | the trim is a slice of the text with only whitespace before and after it, so nothing inside is removed |
| JsText.TrimUnique | scripts/scrape.ts:60 | a slice with only whitespace around it that is empty or has non-whitespace ends is the trim, so these properties determine `trim` |
| JsText.RemoveSpaces | scripts/scrape.ts:48 | the result holds no whitespace and is no longer than the input |
| JsText.RemoveSpacesAppend | scripts/scrape.ts:48 | deleting whitespace distributes over concatenation |
| JsText.RemoveSpacesEmpty | scripts/scrape.ts:48 | only text made of whitespace disappears |
| JsText.RemoveSpacesIdempotent | scripts/scrape.ts:48-49 | deleting whitespace twice is deleting it once |
| JsText.RemoveSpacesOfTrim | scripts/scrape.ts:94-95 | trimming before deleting whitespace changes nothing |
| Heading.NormalizeName | scripts/scrape.ts:45-50 | the name holds no whitespace and is the NFKC form with every whitespace character deleted (the final `trim` is a no-op) |
| Heading.NormalizeNameIdempotent | scripts/scrape.ts:45-50 | with a normalisation that fixes its own output, normalising a name again changes nothing |
| Heading.HeadingId | scripts/scrape.ts:61-67 | the id is -1 exactly when the normalised heading does not start with an ASCII digit; otherwise it is the value of the maximal leading digit run |
| Heading.DecimalRoundTrip | scripts/scrape.ts:66 | reading back the decimal numeral of `n` gives `n` |
| Heading.HeadingIdOfNumeral | scripts/scrape.ts:64-66 | a heading that starts with the numeral of `n`, followed by a non-digit, gets id `n` |
| Heading.HeadingIdExamples | scripts/scrape.ts:63-67 | `149. ばけぞうり` gives 149, `007` gives 7, `名前のみ` gives -1 |
| Heading.ParseGroup | scripts/scrape.ts:69 | the number group found at a digit is a well-formed split (digits, whitespace, optional separator, whitespace) in which every part is maximal |
| Heading.ParseGroupUnique | scripts/scrape.ts:69 | any maximal split of a number group is the one found, so the greedy parse is unique |
| Heading.StripGroups | scripts/scrape.ts:69 | at most `budget` back-to-back greedy groups are taken; none exactly when the budget is 0 or no digit follows; stopping early means no digit follows |
| Heading.HeadingGroups | scripts/scrape.ts:69 | the groups `{1,3}` takes after the leading whitespace, with the three-group budget; what they are is `Heading.StripGroups`'s contract |
| Heading.StripHeadingRemovesNumbering | scripts/scrape.ts:68-69 | the strip removes leading whitespace and one to three groups, or nothing when no digit follows the leading whitespace; the heading is that prefix followed by the result; the result never starts with whitespace; it starts with a digit only when all three groups were used |
| Heading.StripEnd | scripts/scrape.ts:69 | where the removed prefix ends: after the leading whitespace and the groups, or 0 when the pattern does not match (`Heading.StripHeadingRemovesNumbering`) |
| Heading.StripHeading | scripts/scrape.ts:69 | the heading without its numbering; `Heading.StripHeadingRemovesNumbering` states what is removed and what remains |
| Heading.LastGroupGreedy | scripts/scrape.ts:69 | no whitespace follows the last removed group |
| Heading.StripHeadingExample | scripts/scrape.ts:69 | `149. ばけぞうり` is split as one group and leaves `ばけぞうり` |
| Heading.StripHeadingWideExample | scripts/scrape.ts:69 | full-width digits and `．` are stripped too: `１４９．妖怪名` leaves `妖怪名` |
| Heading.StripHeadingFourGroups | scripts/scrape.ts:69 | only three groups are removed: `1 2 3 4 名` leaves `4 名` |
| Heading.StripHeadingDigitsOnly | scripts/scrape.ts:69 | a heading that is only a number leaves nothing |
| Extractor.AbsoluteUrl | scripts/scrape.ts:36-43 | a missing or empty `src` gives no URL; otherwise the result is `src` resolved against the page URL, which may fail |
| Extractor.NonEmptyTrimmed | scripts/scrape.ts:73 | the results are all non-empty; the list is empty exactly when every text trims to nothing |
| Extractor.NonEmptyTrimmedOne | scripts/scrape.ts:73 | one text gives its trim, or nothing when that trim is empty; with `Extractor.NonEmptyTrimmedAppend` this fixes the result as the non-empty trims in order |
| Extractor.NonEmptyTrimmedAppend | scripts/scrape.ts:73 | trimming and filtering work element by element, keeping order |
| Extractor.CondenseIsTrimThenRemove | scripts/scrape.ts:79-81 | the condensed line is the trimmed line with its whitespace deleted |
| Extractor.Condense | scripts/scrape.ts:79-81 | the line with every whitespace character deleted, which is the trimmed line condensed (`Extractor.CondenseIsTrimThenRemove`) |
| Extractor.FirstLabelAt | scripts/scrape.ts:82 | the label found at a position is one of the alternatives and matches there; none is found exactly when no alternative matches there |
| Extractor.MatchPosition | scripts/scrape.ts:82 | the position found is where the field pattern first matches; the pattern matches nowhere before it |
| Extractor.Capture | scripts/scrape.ts:82-83 | a captured value is never empty |
| Extractor.CaptureNoneIffNoMatch | scripts/scrape.ts:82-83 | nothing is captured exactly when no label followed by a separator and at least one further character occurs anywhere |
| Extractor.CaptureIsLeftmost | scripts/scrape.ts:82-83 | the value is everything after the separator of a match at which no label matches earlier |
| Extractor.FieldValue | scripts/scrape.ts:73-84 | the value is non-empty; it is the last non-empty `<strong>` text when there is one, otherwise the capture from the condensed line |
| Extractor.LocationOf | scripts/scrape.ts:72-84 | no location without info lines; otherwise it is the field value of the first info line under the label `出現地` |
| Extractor.ReadingValue | scripts/scrape.ts:96-107 | a line yields a reading only if its condensed text starts with `読み` or `よみ`, and that reading is non-empty; such a line yields its field value |
| Extractor.ReadingOfNone | scripts/scrape.ts:89-109 | there is no reading exactly when no info line yields one |
| Extractor.ReadingOfIsFirst | scripts/scrape.ts:89-109 | the reading is the value of the first line that yields one |
| Extractor.ReadingOf | scripts/scrape.ts:89-109 | the first reading any info line yields, or none (`Extractor.ReadingOfNone`, `Extractor.ReadingOfIsFirst`) |
| Extractor.ScanReading | scripts/scrape.ts:90-109 | the loop with its early return computes the first reading any line yields |
| Extractor.PlainText | scripts/scrape.ts:86 | a paragraph is kept by the description selector exactly when it is not an info line |
| Extractor.NonEmpty | scripts/scrape.ts:86-87 | no description exactly when the text is all whitespace; otherwise it is the trimmed text, with non-whitespace ends |
| Extractor.DescriptionIsFirstPlain | scripts/scrape.ts:86-87 | the description comes from the first paragraph that is not an info line |
| Extractor.DescriptionWithoutPlain | scripts/scrape.ts:86-87 | a section whose paragraphs are all info lines has no description |
| Extractor.DescriptionOf | scripts/scrape.ts:86-87 | the trimmed text of the first paragraph that is not an info line, absent when it is blank or missing (`Extractor.DescriptionIsFirstPlain`, `Extractor.DescriptionWithoutPlain`) |
| Extractor.NameOf | scripts/scrape.ts:60-70 | the trimmed heading without its numbering, normalised; `Extractor.Extract` states that it holds no whitespace and that an empty one gives no entry |
| Extractor.IdOf | scripts/scrape.ts:60-67 | the id of the NFKC form of the trimmed heading; `Extractor.IdOfNumberedHeading` states it for a numbered heading |
| Extractor.Extract | scripts/scrape.ts:52-122 | no entry exactly when the name comes out empty; otherwise every field is as specified: a non-empty name without whitespace, an id of at least -1, the page URL as source |
| Extractor.ParseYokaiFromSection | scripts/scrape.ts:52-122 | the method with its reading loop returns exactly `Extract`'s result |
| Extractor.ExtractAllAppend | scripts/scrape.ts:128-132 | a page's entries are collected section by section, in document order |
| Extractor.ExtractAllFromSections | scripts/scrape.ts:128-132 | every entry of a page comes from one of its sections, names that page, and has a non-empty name |
| Extractor.ExtractAllKeepsEntries | scripts/scrape.ts:128-132 | every section that yields an entry contributes it |
| Extractor.ExtractAll | scripts/scrape.ts:128-132 | the entries of a page's sections in document order, skipping sections without one (`Extractor.ExtractAllAppend`, `Extractor.ExtractAllFromSections`, `Extractor.ExtractAllKeepsEntries`) |
| Extractor.ScrapePage | scripts/scrape.ts:124-134 | the push loop returns exactly the entries of the sections that yield one, in order |
| Extractor.LocationExample | scripts/scrape.ts:79-83 | `出現地： 鳥取県` without `<strong>` gives `鳥取県` |
| Extractor.LocationSlashExample | scripts/scrape.ts:79-83 | `出現地／伊勢（三重県）` without `<strong>` gives `伊勢（三重県）` |
| Extractor.LocationPrefersStrong | scripts/scrape.ts:73-77 | with `<strong>` texts `鳥取県`, `境港市` and a blank one, the location is `境港市` |
| Extractor.ExtractExample | scripts/scrape.ts:60-70 | the heading `149. ばけぞうり` gives entry 149 named `ばけぞうり` |
| Extractor.ExtractDigitsOnly | scripts/scrape.ts:111 | a heading that is only a number gives no entry |
| Extractor.IdOfNumberedHeading | scripts/scrape.ts:61-67 | when NFKC turns the heading into the numeral of `n` followed by a non-digit, the id is `n` |
| Aggregator.WithKey | scripts/scrape.ts:145 | the entries with a given sort key, never more than the whole pool |
| Aggregator.SortKey | scripts/scrape.ts:145 | the comparator's key, with `-1` counting as 1 (`Aggregator.SortByKeySorted`, `Aggregator.SortExample`) |
| Aggregator.Insert | scripts/scrape.ts:145 | one insertion step of the stable sort (`Aggregator.InsertSorted`, `Aggregator.InsertMultiset`) |
| Aggregator.SortByKey | scripts/scrape.ts:145 | the stable sort by key (`Aggregator.SortByKeySorted`, `Aggregator.SortByKeyStable`, `Aggregator.SortByKeyIsTheStableSort`) |
| Aggregator.InsertSorted | scripts/scrape.ts:145 | inserting into a sorted run keeps it sorted and adds exactly that entry |
| Aggregator.InsertMultiset | scripts/scrape.ts:145 | inserting adds exactly the inserted entry to the multiset of entries, whatever the order |
| Aggregator.SortByKeySorted | scripts/scrape.ts:145 | the sorted pool is in non-decreasing key order, with `-1` counting as 1, and is a permutation of the pool |
| Aggregator.SortByKeyStable | scripts/scrape.ts:145 | for every key, the entries with that key keep their pool order |
| Aggregator.SortedUnique | scripts/scrape.ts:145 | two key-ordered sequences with the same entries per key, in the same order, are equal |
| Aggregator.SortByKeyIsTheStableSort | scripts/scrape.ts:145 | any key-ordered arrangement that keeps each key's pool order is the model's result, so a stable sort has exactly one result |
| Aggregator.InFlatten | scripts/scrape.ts:139-143 | an entry is pooled exactly when some page produced it |
| Aggregator.Flatten | scripts/scrape.ts:139-143 | the pool the `push` calls build, page after page (`Aggregator.InFlatten`) |
| Aggregator.Aggregate | scripts/scrape.ts:136-145 | appending each page's entries and then sorting gives a key-ordered permutation of the pool that is stable per key |
| Aggregator.SortExample | scripts/scrape.ts:145 | ids `[5, -1, 2, -1, 1]` named `a`..`e` come out as `b, d, e, c, a`: the two unnumbered entries and entry 1 share key 1 and keep their pool order |
| Masking.MaskMatched | web/src/App.tsx:69-71 | the length is kept; whitespace stays in place; every other character becomes `◯` |
| Masking.MaskMatchedIdempotent | web/src/App.tsx:69-71 | masking a masked text changes nothing |
| Masking.EscapeRegExp | web/src/App.tsx:58-60 | escaping never shortens the text |
| Masking.PatternSource | web/src/App.tsx:62-65 | the escaped characters joined by `[\s\u3000]*`; `Masking.PatternSourceCompiles` states what it compiles to |
| Masking.Compile | web/src/App.tsx:66 | `new RegExp` on the fragment of the syntax the sources use; `Masking.PatternSourceCompiles` states its result for every pattern source |
| Masking.BuildRegex | web/src/App.tsx:62-67 | `buildSpacedInsensitiveRegex`: always compiles, to the spaced atoms of the name (`Masking.PatternSourceCompiles`) |
| Masking.SpacedAtoms | web/src/App.tsx:62-67 | a non-empty name's pattern starts with its first character as a literal |
| Masking.PatternSourceCompiles | web/src/App.tsx:58-67 | the pattern source of any name compiles to its characters as literals, with a whitespace gap between neighbours; metacharacters are matched literally |
| Masking.MatchEnd | web/src/App.tsx:62-67 | a match that is found ends inside the text, at or after its start |
| Masking.MatchEndSound | web/src/App.tsx:62-67 | what the backtracking matcher finds is a match of the pattern |
| Masking.MatchEndComplete | web/src/App.tsx:62-67 | wherever the pattern can match, the matcher finds a match |
| Masking.MatchesExactlySpacedForms | web/src/App.tsx:62-67 | a name's pattern matches at a position exactly when the text there spells the name with whitespace runs between its characters |
| Masking.SpacedMatchIff | web/src/App.tsx:62-67 | for a whitespace-free name, the pattern matches a stretch exactly when the stretch starts and ends with a non-whitespace character and reads as the name once its whitespace is deleted |
| Masking.MatchNonEmpty | web/src/App.tsx:62-67 | a match of a pattern that starts with a literal is never empty |
| Masking.ReplaceFrom | web/src/App.tsx:79 | the global replace keeps the text's length |
| Masking.CoveredInMatch | web/src/App.tsx:79 | every position the replace masks lies inside a real match of the pattern |
| Masking.ReplaceFromPointwise | web/src/App.tsx:79 | character by character, the replace masks the non-whitespace characters inside the matches it finds and keeps everything else |
| Masking.ReplaceAllKeepsOutside | web/src/App.tsx:73-82 | one name's replace keeps the length and all whitespace; it leaves every character outside every match unchanged; a changed character is `◯` |
| Masking.MatchStartCovered | web/src/App.tsx:79 | the scan covers the first character of every match from its start on, because it either lands there and masks the match or passes it inside an earlier masked match |
| Masking.UnstraddledMatchCovered | web/src/App.tsx:79 | when no earlier match straddles a match's start, the scan lands on that start and covers the whole stretch the matcher finds there |
| Masking.NameMatchIsMasked | web/src/App.tsx:62-79 | every occurrence of a name, spaced or not, has its first character masked by that name's replace |
| Masking.UnoverlappedNameMatchIsMasked | web/src/App.tsx:62-79 | an occurrence of a name that no earlier occurrence straddles (the first one, and every later one that does not overlap an earlier one) is masked whole: every non-whitespace character of the stretch matched there becomes `◯` |
| Masking.MaskedTrans | web/src/App.tsx:76-80 | masking a masked text is still a masking of the original text |
| Masking.ReplaceAllMasked | web/src/App.tsx:79 | one name's replace is a masking of the text |
| Masking.ReplaceAll | web/src/App.tsx:79 | one name's global replace: it masks the start of every match (`Masking.NameMatchIsMasked`) and the whole of every match no earlier one straddles (`Masking.UnoverlappedNameMatchIsMasked`), and changes nothing else (`Masking.ReplaceFromPointwise`, `Masking.ReplaceAllKeepsOutside`, `Masking.ReplaceAllMasked`) |
| Masking.MaskNames | web/src/App.tsx:73-82 | the result is present exactly when the text is; it is a masking of the text; a missing or empty text, or an empty name list, is returned unchanged |
| Masking.MaskOneName | web/src/App.tsx:73-82 | with a single non-empty name, the result is exactly that name's global replace, so `Masking.NameMatchIsMasked` and `Masking.UnoverlappedNameMatchIsMasked` apply to it |
| Masking.MaskAllNamesGrows | web/src/App.tsx:76-80 | the names after the first `p` only mask further: the result is a masking of the text after the first `p` names |
| Masking.MaskedKeepsSettled | web/src/App.tsx:76-80 | a character already masked, or whitespace, stays as it is under any further masking |
| Masking.FirstOfListIsMasked | web/src/App.tsx:73-82 | whatever names follow, each occurrence of the first name keeps its first character masked, and an occurrence no earlier one straddles stays masked whole |
| Masking.MaskAllNamesMasked | web/src/App.tsx:76-80 | masking every (non-empty) name in turn keeps the length and the whitespace, and only ever writes `◯` |
| Masking.MaskAllNames | web/src/App.tsx:76-80 | the loop's result after every name, skipping empty ones (`Masking.MaskAllNamesMasked`, `Masking.MaskNamesInText`) |
| Masking.MaskNamesInText | web/src/App.tsx:73-82 | the loop, which skips empty names, computes `MaskNames` |
| Masking.MaskExample | web/src/App.tsx:73-82 | the name `ぬら` in `ぬ らの` is masked to `◯ ◯の`, and the space is kept |
| Deck.Filtered | web/src/App.tsx:36-43 | the filter never adds cards |
| Deck.FilteredBlank | web/src/App.tsx:37-39 | a query of whitespace only keeps every card, in order |
| Deck.FilteredAppend | web/src/App.tsx:36-43 | the filter works card by card: it keeps the order and distributes over concatenation |
| Deck.FilteredOne | web/src/App.tsx:39-42 | a single card is kept exactly when its name, location and description, joined by spaces, contain the trimmed query |
| Deck.FilteredMembers | web/src/App.tsx:36-43 | a card is kept exactly when it was loaded and matches the trimmed query |
| Deck.Haystack | web/src/App.tsx:40 | name, location and description joined by single spaces, a missing field counting as empty (`Deck.FilteredOne`) |
| Deck.Matches | web/src/App.tsx:39-41 | an empty trimmed query keeps every card; otherwise the haystack must contain it (`Deck.FilteredOne`, `Deck.FilteredBlank`) |
| Deck.KeepIf | web/src/App.tsx:38-42 | the filter's callback as a partial map (`Deck.FilteredOne`, `Deck.FilteredMembers`) |
| Deck.ShuffleArray | web/src/App.tsx:98-105 | whatever index is drawn at each step, the result is a permutation of the input; the input is a value and is not changed |
| Deck.Click | web/src/App.tsx:88-96 | one click on the view (`Deck.FlashcardApp.HandleCardClick`, `Deck.TwoClicksAdvance`) |
| Deck.Clicks | web/src/App.tsx:88-96 | a run of clicks (`Deck.TwoClicksAdvance`, `Deck.DeckCycles`, `Deck.ClicksOnEmptyDeck`) |
| Deck.TwoClicksAdvance | web/src/App.tsx:88-96 | on a non-empty deck, `2t` clicks from a face-down card move `t` cards on, face down |
| Deck.DeckCycles | web/src/App.tsx:56 | `2 * size` clicks bring the same card back |
| Deck.AddSizeMod | web/src/App.tsx:56 | moving a deck's length ahead lands on the same position modulo the deck size |
| Deck.ClicksOnEmptyDeck | web/src/App.tsx:89 | clicks with no card on show change nothing |
| Deck.FlashcardApp.constructor | web/src/App.tsx:16-21 | the first render: nothing loaded, an empty query, the first position, face down, an empty deck |
| Deck.FlashcardApp.Current | web/src/App.tsx:56 | there is a current card exactly when the deck is non-empty; it is the card at the position taken modulo the deck size, so it is a card of the deck |
| Deck.FlashcardApp.Counter | web/src/App.tsx:171 | the counter shows exactly when the deck is non-empty; it is the position modulo the deck size plus one, lies in `1..deck.length` and points at the current card |
| Deck.FlashcardApp.CurrentMatchesQuery | web/src/App.tsx:36-56 | the current card was loaded and matches the trimmed query |
| Deck.FlashcardApp.NamesToMask | web/src/App.tsx:84 | no names without a card; otherwise the current card's name followed by its aliases from the table, or the name alone when the table has no entry for it |
| Deck.FlashcardApp.DescriptionToShow | web/src/App.tsx:85-86 | nothing without a card; the back shows the description; the front shows the description with the names masked |
| Deck.FlashcardApp.FrontHidesOnlyCharacters | web/src/App.tsx:84-86 | the front shows a description exactly when the card has one, and it is a masking of that description |
| Deck.FlashcardApp.FrontMasksOwnName | web/src/App.tsx:84-86 | on the front, whatever the aliases, each occurrence of the card's own name in the description starts with `◯`, and an occurrence no earlier one straddles is masked whole, whitespace apart |
| Deck.FlashcardApp.HandleCardClick | web/src/App.tsx:88-96 | with no card, nothing changes; a face-down card is turned over at the same position; a turned card gives way to the next one, face down; the deck invariant is kept |
| Deck.FlashcardApp.SetQuery | web/src/App.tsx:45-54 | a new query puts the newly filtered cards on show from the first position, face down; the same query changes nothing; the deck invariant is kept |
| Deck.FlashcardApp.LoadYokai | web/src/App.tsx:23-27 | loaded cards are filtered and put on show from the first position, face down |
| Deck.FlashcardApp.LoadAliases | web/src/App.tsx:29-34 | a missing or unreadable alias table counts as empty; nothing else changes |
| Deck.FlashcardApp.ShuffleDeck | web/src/App.tsx:107-111 | the deck becomes a permutation of the deck on show, or of the filtered cards when the deck is empty; the position resets to the first card, face down; the deck invariant is kept |

## Left out

- `fetchHtml` (scripts/scrape.ts:24-34) is not modelled. It is HTTP I/O with headers and a timeout. Pages arrive as the section records the selectors would read.
- Cheerio parsing and the CSS selectors are not modelled. The model starts from what they return: the first `h3.simple` text, the image `src`, the `p.border_text` paragraphs with their `<strong>` texts, and the `div.text_area > p` paragraphs. Missing text counts as the empty string, as in `String(... \|\| "")`.
- `new URL(src, base)` (scripts/scrape.ts:39) is WHATWG URL parsing. It is the caller-supplied partial function `Host.resolveUrl`, so no claim is made that a resolved URL is absolute.
- Unicode NFKC (scripts/scrape.ts:47, 61) needs the Unicode tables. It is the caller-supplied `Host.nfkc`. `Extractor.IdOfNumberedHeading` states what a full-width heading needs from it.
- `Heading.HeadingId` computes `parseInt` as an unbounded integer. JavaScript numbers lose precision above 2^53.
- The `PQueue` concurrency and the fixed `TARGET_PAGES` list (scripts/scrape.ts:17-22, 137-143) are not modelled. The page results arrive in completion order as a given sequence, so the pooled order is not deterministic across runs.
- `Aggregator.Aggregate` models `all.sort` on sequences, not as an in-place array sort. A stable sort has exactly one result (`Aggregator.SortByKeyIsTheStableSort`).
- Writing `data/yokai.json`, the console output and the exit path (scripts/scrape.ts:147-156) are not modelled.
- Strings are sequences of Unicode scalar values; JavaScript strings are UTF-16 code units. Only characters outside the Basic Multilingual Plane behave differently. Masking one of them writes two `◯` in the app and one here, and such a character can fall apart in the app's regular expressions.
- The React machinery is not modelled: rendering, `fetch` of the JSON files and the JSX styling (web/src/App.tsx:23-34, 113-181). Each effect's state change is part of the method for the event that triggers it.
- Display-only details outside the state are not modelled: the `？？？` title, the image and reading shown only on the back, and the `出現地／` prefix removed from the displayed location (web/src/App.tsx:140-163).
- `Math.random` (web/src/App.tsx:101) is a nondeterministic choice of `0 <= j <= i`.
- Deck.ShuffleArray: proves that the result is a permutation for every sequence of choices. It does not claim the uniform distribution that a uniform `Math.random` would give.
- Masking.MaskNames: for a list of names it states that the result is a masking of the text, and that the first name of the list stays masked whatever follows (`Masking.FirstOfListIsMasked`; in the app that is the card's own name, `Deck.FlashcardApp.FrontMasksOwnName`). It does not state that an alias's occurrences are masked, because the app does not guarantee it: each later name is matched against the text the earlier names have already masked. With the names `b` and `ab` and the text `ab`, the first replace gives `a◯`, the alias no longer matches, and `a` stays visible.
- Masking.ReplaceAll: for an occurrence that an earlier occurrence straddles, only its first character is stated masked. The app masks no more than that for certain: the scan resumes at the end of the earlier match and masks what follows only if a new match starts there, as `Masking.ReplaceFromPointwise` states position by position. With the name `aba` and the text `ababa`, the occurrence at 2 keeps its last two characters.
- Masking.SpacedMatchIff: holds only for whitespace-free names (the main name always is one). For an alias that contains whitespace, `Masking.MatchesExactlySpacedForms` is the characterisation.
