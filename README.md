# Hanzi: a verified model of the decomposition, dictionary, segmenter and wubi cores

This project is a Dafny model of the core of the `hanzi` Node.js library.
That library decomposes Chinese characters, looks up CC-CEDICT entries, scores
phonetic regularity, segments text and returns wubi keystroke codes. The
model covers the following parts.

- **Decomposition engine** (`lib/hanzidecomposer.js`).
  - The component table maps a character to its decomposition: either atomic
    (kind `c`) or a list of components. When a character appears on several
    lines, the last line wins.
  - The table has three views:
    - the *once* view: the immediate components, with numeric placeholders
      replaced by `No glyph available`;
    - the *radical* view: splits recursively until it reaches a radical;
    - the *graphical* view: splits all the way down and resolves numeric
      placeholders.
  - On top of the views sit `decompose` and `decomposeMany`.
  - `compileAllComponents` builds a reverse index from component to
    characters. `getCharactersWithComponent` reads it, widening a radical to
    every radical that has the same meaning.
  - Module `Decomposer` holds the pure part, and `ComponentIndex` the index
    specification. Class `HanziState.HanziDecomposer` holds the module-level
    state and the loops that fill it.
  - `CjkDecomp` parses one line of the decomposition data.
- **Dictionary** (`lib/dictionary.js`).
  - Loading:
    - CC-CEDICT lines are parsed into entries.
    - Consecutive lines with the same traditional and simplified forms form
      a group.
    - Each group is appended to the list under its simplified form and to
      the list under its traditional form.
    - The irregular-pronunciation table and the character frequency table
      are read alongside.
  - Queries:
    - `definitionLookup`, steered by the script, and `determineIfSimplified`;
    - `dictionarySearch`;
    - `getPinyin`, a five-step fallback chain;
    - `getRegularityScale`, built on the `PinyinSyllable` split into
      syllable, initial and final;
    - `determinePhoneticRegularity`, with its nested loops over components,
      character readings and component readings;
    - `getCharacterFrequency`;
    - the exported `segment`, which is the segmenter over `definitionLookup`.
  - Where the code lives:
    - `Cedict`: line parsing and table building;
    - `Pinyin`: syllables and the regularity scale;
    - `Dictionary`: the queries, plus class `HanziDictionary` for the
      module-level tables.
- **Segmenter** (`lib/segmenter.js`, module `Segmenter`): a greedy
  longest-prefix segmenter over a dictionary predicate.
- **Wubi** (`lib/wubi.js`, module `Wubi`): a parser for the table between its
  `BEGIN_TABLE` and `END_TABLE` markers. A lookup returns the code for the
  whole string, or else the per-character codes joined by spaces.
- **Prototype decomposer** (`hanzidecomposer.js`, module
  `PrototypeDecomposer`): an array of parsed rows and a first-match linear
  lookup.

`JsStrings`, `Objects` and `Wrappers` model the JavaScript built-ins the source
relies on:
- `indexOf`, `lastIndexOf`, `substring`, `split`, `join` and
  `replace(/\s/g, '')`;
- objects with their key order;
- `undefined`, modelled with `Option`.

Strings are sequences of characters. JavaScript reads a missing key as
`undefined`; the model returns `None` or an empty list there.

The decomposition table must be acyclic for the recursion to end. A ghost
`rank` map stands for this: every component ranks below the character it
belongs to (`Decomposer.Ranked`). The recursive views are decreasing in that
rank.

## Model

| member | source | states |
|---|---|---|
| CjkDecomp.ParseRow | lib/hanzidecomposer.js:18-30 | a table line gives a character without a colon and at least one component |
| CjkDecomp.ParseFormat | lib/hanzidecomposer.js:18-26 | the character is the text before `:`, the kind is the text between `:` and the first `(`, and the components are the comma-split text between the brackets; a well-formed row survives being written and parsed back |
| CjkDecomp.BracketFields | lib/hanzidecomposer.js:21-25 | the two `substring` calls around the first `(` and first `)` give back the kind and the component text |
| CjkDecomp.ParseFields | lib/hanzidecomposer.js:18-26 | `character:kind(j)` parses to the character, the kind and the comma-split `j` when no field holds a character that would end it early |
| CjkDecomp.LineSplit | lib/hanzidecomposer.js:18-19 | a line `character:kind(j)` without other colons splits at its colon into the character and `kind(j)` |
| CjkDecomp.JoinNeutral | lib/hanzidecomposer.js:21-25 | a comma-joined component list without `:`, `(` and `)` holds none of them |
| Decomposer.Rows | lib/hanzidecomposer.js:17-26 | one parsed row per line, in line order |
| Decomposer.EntryOf | lib/hanzidecomposer.js:27-30 | a line of kind `c` is stored as atomic; any other kind keeps its component list |
| Decomposer.LoadTable | lib/hanzidecomposer.js:17-31 | the table after storing each parsed line under its character in turn (its properties are LoadTableKeeps, LoadTableLastWins and LoadTableGrow) |
| Decomposer.ComponentExists | lib/hanzidecomposer.js:273-275 | the exported `ifComponentExists`: true exactly when the table holds an entry for the string |
| Decomposer.IsNumericId | lib/hanzidecomposer.js:176-210 | `isNaN(x) == false`, restricted as stated under Left out: every character is an ASCII digit |
| Decomposer.IsRadical | lib/hanzidecomposer.js:245-251 | `isRadical`: true exactly when the radical list has a meaning for the string |
| Decomposer.LoadTableKeeps | lib/hanzidecomposer.js:17-31 | a character that no line names keeps its earlier entry, or stays absent |
| Decomposer.LoadTableLastWins | lib/hanzidecomposer.js:27-30 | a character holds the entry of the last line that names it |
| Decomposer.NoGlyphIsNotNumeric | lib/hanzidecomposer.js:187-199 | the `No glyph available` marker is not itself a numeric id, so replacing is final |
| Decomposer.GetRadicalMeaning | lib/hanzidecomposer.js:265-271 | a radical's meaning from the radical list, `N/A` for anything else |
| Decomposer.GetComponents | lib/hanzidecomposer.js:253-263 | the stored components of a composed character; the character itself, character by character, when it is absent or atomic |
| Decomposer.Replaced | lib/hanzidecomposer.js:187-199 | same length and order; each numeric id becomes `No glyph available`, every other entry is unchanged, and no numeric id remains |
| Decomposer.ReplacedKeeps | lib/hanzidecomposer.js:187-199 | a list without numeric ids is left as it is |
| Decomposer.ReplaceNumbers | lib/hanzidecomposer.js:187-199 | the loop yields, position by position, `No glyph available` for a numeric id and the entry otherwise |
| Decomposer.OnceDecomposition | lib/hanzidecomposer.js:146-149 | as many entries as the stored components; an unknown single character gives itself, or `No glyph available` if numeric; never a numeric id |
| Decomposer.OncePair | lib/hanzidecomposer.js:146-149 | a two-component character gives its two components with numeric ids replaced |
| Decomposer.RadicalDecomposition | lib/hanzidecomposer.js:151-166 | every leaf is `No glyph available`, a radical, or something that does not split in two; never a numeric id |
| Decomposer.ResolvedFrom | lib/hanzidecomposer.js:204-212 | the loop over a placeholder's components never emits a numeric id |
| Decomposer.Resolved | lib/hanzidecomposer.js:201-215 | a resolved placeholder never contains a numeric id |
| Decomposer.ResolveNumber | lib/hanzidecomposer.js:201-215 | the loop equals the recursive resolution, and never emits a numeric id |
| Decomposer.ComponentsDecrease | lib/hanzidecomposer.js:151-215 | every component the recursive views descend into ranks below the character, or ranks the same and is shorter; so the recursion on an acyclic table ends |
| Decomposer.GraphicalDecomposition | lib/hanzidecomposer.js:168-184 | when the recursion ends, no leaf is a numeric id |
| Decomposer.BareDigitOverflows | lib/hanzidecomposer.js:176-179 | a single digit that is not in the table resolves to itself forever, so the graphical view never returns |
| Decomposer.Decompose | lib/hanzidecomposer.js:110-142 | `Invalid Input` exactly for blank input; no mode gives the three views of the whitespace-stripped input; the numbers 1, 2 and 3 give the one view; any other number gives undefined; the overflow case is exactly the one where the graphical view does not end |
| Decomposer.BlankIsInvalid | lib/hanzidecomposer.js:111-114 | empty or all-whitespace input is `Invalid Input` in every mode |
| Decomposer.UnknownIsIdentity | lib/hanzidecomposer.js:118-124 | a non-numeric character missing from the table decomposes to itself in all three views |
| Decomposer.DecomposeMany | lib/hanzidecomposer.js:90-108 | `Invalid Input` exactly for blank input; otherwise one key per distinct character in first-occurrence order, each holding `decompose` of that character with the same mode |
| Decomposer.DecomposeEach | lib/hanzidecomposer.js:99-106 | the loop records each character once, in first-occurrence order, with its decomposition |
| Decomposer.DecomposeNext | lib/hanzidecomposer.js:100-105 | one round skips a character already stored and otherwise stores its decomposition; the key order stays the first-occurrence order of the characters so far, every stored value is that key's decomposition, and the round fails exactly when the character's decomposition does not end |
| Decomposer.Truthy | lib/hanzidecomposer.js:103 | the truthiness test on a stored decomposition: present unless it is `undefined`, the result of an unknown mode; objects and the `Invalid Input` string are truthy |
| Decomposer.RecordedPut | lib/hanzidecomposer.js:103-105 | storing a character's decomposition keeps every stored value equal to that character's decomposition |
| ComponentIndex.AddOnceViewKeys | lib/hanzidecomposer.js:49-58 | after the once-view loop a key is present iff it was before or is an indexed component of the character |
| ComponentIndex.AddOnceViewClosed | lib/hanzidecomposer.js:49-58 | the once-view loop appends the character once per occurrence of each component other than `No glyph available` |
| ComponentIndex.AddRadicalViewClosed | lib/hanzidecomposer.js:60-76 | the radical-view loop appends the character to each component's list, skipping `No glyph available`, the single-stroke primitives, and lists that already hold it |
| ComponentIndex.Lookup | lib/hanzidecomposer.js:51-57 | the list stored under a component, or the empty list where the source starts a new one |
| ComponentIndex.AddOnceView | lib/hanzidecomposer.js:49-58 | the index after the once-view loop over one character (properties: AddOnceViewKeys, AddOnceViewClosed) |
| ComponentIndex.AddRadicalView | lib/hanzidecomposer.js:60-76 | the index after the radical-view loop over one character (property: AddRadicalViewClosed) |
| ComponentIndex.HasPrimitive | lib/hanzidecomposer.js:64-71 | `component.search(/[一丨丶⺀丿乙⺃乚⺄亅丷]/g) != -1`: some character of the component is one of the single-stroke primitives |
| ComponentIndex.IndexCharacter | lib/hanzidecomposer.js:45-77 | one round of the corpus loop: the once view, then the radical view (properties: IndexCharacterGrows, IndexCharacterMembers) |
| ComponentIndex.IndexAll | lib/hanzidecomposer.js:44-78 | the index after every corpus character in turn (property: IndexAllMembers) |
| ComponentIndex.BuildIndex | lib/hanzidecomposer.js:40-79 | `compileAllComponents` over the corpus lines' characters (property: BuildIndexMembers) |
| ComponentIndex.CorpusCharacter | lib/hanzidecomposer.js:45-46 | the character of a corpus line is its second tab field |
| ComponentIndex.SplitSecond | lib/hanzidecomposer.js:45-46 | the second piece of a split is the text after the first separator up to the next one |
| ComponentIndex.Corpus | lib/hanzidecomposer.js:41-46 | one character per corpus line, in order |
| ComponentIndex.Items | lib/hanzidecomposer.js:44-47 | each corpus character paired with its decomposition |
| ComponentIndex.IndexCharacterGrows | lib/hanzidecomposer.js:44-77 | indexing a character only appends to existing lists |
| ComponentIndex.IndexCharacterMembers | lib/hanzidecomposer.js:44-77 | after indexing a character, a list holds that character iff one of its views names the key |
| ComponentIndex.NoGlyphNeverIndexed | lib/hanzidecomposer.js:52-70 | `No glyph available` never becomes a key |
| ComponentIndex.IndexAllMembers | lib/hanzidecomposer.js:44-77 | after the corpus loop, a character is listed under a component iff it was before or some corpus character with that component is it |
| ComponentIndex.BuildIndexMembers | lib/hanzidecomposer.js:40-79 | the finished index lists exactly the corpus characters whose once or radical view has the component |
| ComponentIndex.Unique | lib/hanzidecomposer.js:81-88 | true iff the token is not in the list |
| ComponentIndex.SameMeaning | lib/hanzidecomposer.js:234-243 | exactly the radicals that share the given radical's meaning, in radical-list order |
| ComponentIndex.SameMeaningAppend | lib/hanzidecomposer.js:234-243 | the selection of a concatenated key list is the selections one after the other, so the radicals come in the radical list's order |
| ComponentIndex.SameMeaningOne | lib/hanzidecomposer.js:234-243 | a single key is selected exactly when it is a radical with the same meaning |
| ComponentIndex.SameMeaningHasItself | lib/hanzidecomposer.js:234-243 | a radical is among its own same-meaning radicals |
| ComponentIndex.GatheredMembers | lib/hanzidecomposer.js:221-225 | the concatenated lists hold exactly the characters listed under one of the components |
| ComponentIndex.Gathered | lib/hanzidecomposer.js:221-225 | the lists of the same-meaning radicals concatenated in order (property: GatheredMembers) |
| ComponentIndex.CharactersWithComponent | lib/hanzidecomposer.js:217-232 | a non-radical gives its list, or `component + ' not found'` when it is not indexed; the message appears exactly for an unindexed non-radical |
| ComponentIndex.RadicalCharacters | lib/hanzidecomposer.js:217-226 | for a radical, exactly the characters listed under any radical of the same meaning (possibly none) |
| HanziState.HanziDecomposer.constructor | lib/hanzidecomposer.js:2-4 | the tables start empty |
| HanziState.HanziDecomposer.Start | lib/hanzidecomposer.js:7-38 | the table is the lines loaded over the old one, the radical list is installed, and the index is built over the corpus |
| HanziState.HanziDecomposer.LoadCharacters | lib/hanzidecomposer.js:17-31 | the loop stores each parsed line, the last line winning |
| HanziState.HanziDecomposer.StoreRow | lib/hanzidecomposer.js:27-30 | one round stores the row's entry under its character, growing the loaded table by that row; nothing else changes |
| HanziState.HanziDecomposer.CompileAllComponents | lib/hanzidecomposer.js:40-79 | the index becomes the old one with every corpus character indexed in turn; the tables are unchanged |
| HanziState.HanziDecomposer.IndexCorpusLine | lib/hanzidecomposer.js:44-77 | one round on corpus line `i` extends the index over the items before it to the index over the items up to it |
| HanziState.HanziDecomposer.IndexCorpusCharacter | lib/hanzidecomposer.js:47-76 | the character is indexed under its once view, then its radical view; the tables are unchanged |
| HanziState.HanziDecomposer.IndexOnceView | lib/hanzidecomposer.js:49-58 | the index becomes the once-view update, nothing else changes |
| HanziState.HanziDecomposer.IndexRadicalView | lib/hanzidecomposer.js:60-76 | the index becomes the radical-view update, nothing else changes |
| HanziState.HanziDecomposer.FindSameMeaningRadicals | lib/hanzidecomposer.js:234-243 | the loop over the radical list returns the same-meaning radicals |
| HanziState.HanziDecomposer.GetCharactersWithComponent | lib/hanzidecomposer.js:217-232 | the loop returns the specified lookup result |
| JsStrings.StripWhitespace | lib/hanzidecomposer.js:94 | no whitespace remains, nothing is added, and the string does not grow |
| JsStrings.StripWhitespaceKeeps | lib/hanzidecomposer.js:111 | a string without whitespace is unchanged |
| JsStrings.StripWhitespaceIdempotent | lib/hanzidecomposer.js:111 | stripping twice equals stripping once |
| JsStrings.StripWhitespaceBlank | lib/hanzidecomposer.js:111-114 | an all-whitespace string strips to the empty string |
| JsStrings.StripWhitespaceFilter | lib/hanzidecomposer.js:91 | stripping is a filter: the strip of a concatenation is the strips one after the other, and a single character is kept exactly when it is not white space, so the other characters stay, in order |
| JsStrings.Split | lib/dictionary.js:92 | at least one part; no part holds the separator; the first part ends at the first separator |
| JsStrings.JoinSplit | lib/dictionary.js:92 | joining the parts of a split with the separator gives back the string |
| JsStrings.SplitJoin | lib/wubi.js:44-47 | splitting a join of separator-free parts gives back the parts |
| JsStrings.ToLower | lib/dictionary.js:490-491 | lower-casing maps `A`–`Z` to `a`–`z` character by character and leaves every other character as it is (see Left out for the other letters) |
| JsStrings.Find | lib/dictionary.js:554 | the first occurrence of a pattern, or -1 when there is none |
| JsStrings.IndexOf | lib/dictionary.js:86-88 | the first position of the character, or -1 exactly when it does not occur |
| JsStrings.LastIndexOf | lib/dictionary.js:89 | the last position of the character, or -1 exactly when it does not occur |
| JsStrings.Clamp | lib/dictionary.js:90-91 | a `substring` bound is clamped into the string and kept when it is already inside |
| JsStrings.JoinSeparators | lib/wubi.js:44-47 | joining separator-free parts puts exactly one separator between neighbours |
| JsStrings.Chars | lib/hanzidecomposer.js:100 | a string read one character at a time, in order |
| JsStrings.ConcatChars | lib/hanzidecomposer.js:253-263 | the one-character strings of a string concatenate back to it |
| JsStrings.ToLowerIdempotent | lib/dictionary.js:490-491 | lower-casing twice equals lower-casing once |
| JsStrings.RemoveFirstPrefix | lib/dictionary.js:552-556 | `replace(initial, '')` on a syllable that starts with the initial leaves the rest |
| JsStrings.RemoveFirst | lib/dictionary.js:554 | `replace(pattern, '')` with a string pattern: the first occurrence removed, the string unchanged when there is none |
| Objects.Put | lib/hanzidecomposer.js:105 | storing under a key updates the value and appends the key only when it is new |
| Objects.DedupMembers | lib/hanzidecomposer.js:99-106 | the first-occurrence order holds exactly the elements of the list |
| Objects.DedupDistinct | lib/hanzidecomposer.js:99-106 | no element occurs twice in the first-occurrence order |
| Objects.DedupNext | lib/hanzidecomposer.js:103-105 | storing the next character keeps an object keyed in first-occurrence order, and a character already stored changes nothing |
| Objects.DedupFromDedup | lib/dictionary.js:36-61 | storing keys one by one after the first-occurrence order of a list gives the first-occurrence order of the list followed by those keys |
| Objects.DedupFromSkip | lib/dictionary.js:36-61 | storing keys that are already present leaves the key order as it is |
| Objects.PutValid | lib/dictionary.js:44-60 | storing a value keeps the key order listing exactly the stored keys, without repetitions |
| Objects.Get | lib/dictionary.js:37 | a value exactly when the key is stored, `undefined` otherwise |
| Objects.Empty | lib/dictionary.js:3-4 | `{}` has no keys and no values |
| Pinyin.PinyinSyllable.Syllable | lib/dictionary.js:535-538 | the raw syllable without its last character (the tone) |
| Pinyin.PinyinSyllable.Initial | lib/dictionary.js:540-550 | the first two characters when the second is `h`, otherwise the first one |
| Pinyin.PinyinSyllable.Final | lib/dictionary.js:552-556 | the syllable with the first occurrence of its initial removed (property: InitialFinal) |
| Pinyin.InitialFinal | lib/dictionary.js:552-556 | the initial followed by the final is the tone-less syllable |
| Pinyin.RegularityScale | lib/dictionary.js:485-516 | null exactly when either reading is null; otherwise a value from 0 to 4 |
| Pinyin.RegularityLadder | lib/dictionary.js:493-513 | compared lower-cased: 1 iff the raw syllables are equal; 2 iff the tone-less syllables are equal but the raw ones differ; 4 iff the syllables differ but the finals agree; 3 iff only the initials agree; 0 otherwise |
| Pinyin.RegularitySymmetric | lib/dictionary.js:485-516 | swapping the readings does not change the score |
| Pinyin.RegularityIgnoresCase | lib/dictionary.js:490-491 | lower-casing either reading does not change the score |
| Pinyin.RegularityReflexive | lib/dictionary.js:497-501 | a reading scores 1 against itself |
| Pinyin.RegularityOfDiAgainstRen | test/decomposer.js:243-262 | `di1` against `ren2` scores 0 |
| Pinyin.RegularityOfDiAgainstDi | test/decomposer.js:243-262 | `di1` against `di1` scores 1 and against `di3` scores 2 |
| Pinyin.RegularityOfDiAgainstShi | test/decomposer.js:243-262 | `di1` against `shi4` scores 4 |
| Pinyin.RegularityOfDiAgainstZhi | test/decomposer.js:243-262 | `di1` against `zhi1` scores 4 |
| Pinyin.RegularityOfDiAgainstZhu | test/decomposer.js:243-262 | `di1` against `zhu3` scores 0 |
| Pinyin.RegularityOfDiAgainstDian | test/decomposer.js:243-262 | `di1` against `dian3` scores 3 |
| Pinyin.ScoreParts | lib/dictionary.js:485-516 | for readings spelled initial + final + tone, the score compares those parts directly |
| Pinyin.ScoreLower | lib/dictionary.js:497-513 | on lower-case readings, the score is the priority ladder over syllable, final and initial |
| Pinyin.Spelled | lib/dictionary.js:535-556 | a reading spelled initial + final + tone splits back into that syllable, initial and final |
| Cedict.GetElements | lib/dictionary.js:85-101 | the traditional form is the text up to the first space; the simplified form is present exactly when the line has a space |
| Cedict.PinyinField | lib/dictionary.js:86-90 | the text between the first `[` and the first `]`, with `substring`'s clamping (property: FormatPinyin) |
| Cedict.DefinitionField | lib/dictionary.js:88-91 | the text between the first and the last `/`, with `substring`'s clamping (property: FormatDefinition) |
| Cedict.GetElementsFormat | lib/dictionary.js:85-101 | a CC-CEDICT line built from an entry parses back to that entry |
| Cedict.GetElementsNoSpace | lib/dictionary.js:92-94 | a line without a space is all traditional form and has no simplified form |
| Cedict.FormatFields | lib/dictionary.js:92-94 | the first two space-separated fields are the traditional and simplified forms |
| Cedict.FormatPinyin | lib/dictionary.js:86-90 | the pinyin is the text between the first `[` and the first `]` |
| Cedict.FormatDefinition | lib/dictionary.js:88-91 | the definition is the text between the first and last `/` |
| Cedict.GetElementsBlank | lib/dictionary.js:85-101 | an empty line gives empty fields and no simplified form |
| Cedict.Entries | lib/dictionary.js:85-101 | one entry per line, in order |
| Cedict.NextKeyAt | lib/dictionary.js:67-83 | the next-line lookahead reads the two forms of the next entry, and `''` past the end |
| Cedict.NextKey | lib/dictionary.js:67-83 | `nextCharTraditional` and `nextCharSimplified`: the first two space fields of line `j`, and `''` past the end |
| Cedict.SimplifiedKey | lib/dictionary.js:36-47 | the key an entry is filed under in the simplified table; an entry without a simplified form is filed under `undefined`, as a JavaScript object key would be |
| Cedict.KeyOf | lib/dictionary.js:36-47 | a missing simplified form becomes the object key `undefined` |
| Cedict.GroupEnd | lib/dictionary.js:28-34 | the grouping loop ends at or after where it started, inside the file |
| Cedict.GroupEndKeys | lib/dictionary.js:28-34 | every entry up to the end of the group has the first entry's two forms, and the entry after the group does not |
| Cedict.GroupSameKeys | lib/dictionary.js:28-34 | every entry of a group has the simplified and the traditional form of its first entry |
| Cedict.GroupSplit | lib/dictionary.js:28-34 | a group is a run of entries sharing one key, and the rest follows it |
| Cedict.Lookup | lib/dictionary.js:37-39 | a table's list under a key, empty when the key is absent |
| Cedict.InsertGroupLookup | lib/dictionary.js:36-61 | after inserting a group, each key's list gains exactly the group's entries that have that form |
| Cedict.InsertGroup | lib/dictionary.js:36-61 | storing one group: appended to the list under its simplified form and under its traditional form, or stored as a new list (property: InsertGroupLookup, InsertGroupKeys) |
| Cedict.WithSimplified | lib/dictionary.js:36-47 | the reference contents of a simplified list: the entries with that form, in file order (properties: WithSimplifiedMembers, WithSimplifiedAppend) |
| Cedict.WithTraditional | lib/dictionary.js:49-61 | the reference contents of a traditional list: the entries with that form, in file order (properties: WithTraditionalMembers, WithTraditionalAppend) |
| Cedict.Body | lib/dictionary.js:25-26 | the entries the loop reads: those from line 30 on, and none for a file of 30 lines or fewer |
| Cedict.Load | lib/dictionary.js:26-65 | the grouping loop from line `i`: store the same-key run, then go on after it (properties: LoadLookup, LoadFromEmpty, LoadKeysFromEmpty) |
| Dictionary.LoadKeyed | lib/dictionary.js:26-65 | loading keeps each table's key order listing exactly the keys that hold a list |
| Dictionary.KeysHave | lib/dictionary.js:26-65 | a form is among the entries' forms exactly when some entry has it |
| Dictionary.LoadedHas | lib/dictionary.js:26-65 | after loading from empty tables, a table has a key exactly when some entry after the header has that form |
| Cedict.WithSimplifiedMembers | lib/dictionary.js:36-47 | the entries filed under a simplified form are exactly those with that form |
| Cedict.WithTraditionalMembers | lib/dictionary.js:49-61 | the entries filed under a traditional form are exactly those with that form |
| Cedict.LoadLookup | lib/dictionary.js:26-65 | loading from line `i` appends to each key's list exactly the later entries with that form, in file order |
| Cedict.LoadSimplifiedLookup | lib/dictionary.js:36-47 | loading from line `i` appends to each simplified list exactly the later entries with that simplified form, in file order |
| Cedict.LoadTraditionalLookup | lib/dictionary.js:49-61 | loading from line `i` appends to each traditional list exactly the later entries with that traditional form, in file order |
| Cedict.GroupSimplifiedLookup | lib/dictionary.js:36-47 | storing one group and then the entries after it gives each simplified list the entries from the group's start on that carry its form |
| Cedict.GroupTraditionalLookup | lib/dictionary.js:49-61 | the same for the traditional lists |
| Cedict.SimplifiedStep | lib/dictionary.js:26-47 | one round of the grouping loop keeps the simplified list plus the entries still to come unchanged |
| Cedict.TraditionalStep | lib/dictionary.js:26-61 | one round of the grouping loop keeps the traditional list plus the entries still to come unchanged |
| Cedict.WithSimplifiedAppend | lib/dictionary.js:36-47 | filtering by simplified form distributes over concatenation |
| Cedict.WithTraditionalAppend | lib/dictionary.js:49-61 | filtering by traditional form distributes over concatenation |
| Cedict.WithSimplifiedGroup | lib/dictionary.js:36-47 | a group whose entries share one key is kept whole under its simplified form and not at all under any other |
| Cedict.WithTraditionalGroup | lib/dictionary.js:49-61 | a group whose entries share one key is kept whole under its traditional form and not at all under any other |
| Cedict.LoadFromEmpty | lib/dictionary.js:25-65 | from empty tables, each key lists exactly the entries from line 30 on that have that form, in file order |
| Cedict.LoadSimplifiedKeys | lib/dictionary.js:36-47 | the simplified table's keys are the distinct simplified forms in first-occurrence order |
| Cedict.LoadTraditionalKeys | lib/dictionary.js:49-61 | the traditional table's keys are the distinct traditional forms in first-occurrence order |
| Cedict.InsertGroupKeys | lib/dictionary.js:36-61 | storing a group appends its simplified and traditional forms to the key orders unless they are there, and keeps each order in step with the stored keys |
| Cedict.LoadSimplifiedOrder | lib/dictionary.js:26-47 | loading from line `i` extends the simplified key order group by group, each group adding its form unless present |
| Cedict.LoadTraditionalOrder | lib/dictionary.js:26-61 | loading from line `i` extends the traditional key order group by group, each group adding its form unless present |
| Cedict.SimplifiedOrderKeys | lib/dictionary.js:28-47 | the group-by-group simplified order equals storing the simplified forms entry by entry |
| Cedict.TraditionalOrderKeys | lib/dictionary.js:28-61 | the group-by-group traditional order equals storing the traditional forms entry by entry |
| Cedict.SimplifiedGroupKeys | lib/dictionary.js:28-47 | adding a group's simplified form at once equals adding it for each entry of the group |
| Cedict.TraditionalGroupKeys | lib/dictionary.js:28-61 | adding a group's traditional form at once equals adding it for each entry of the group |
| Cedict.SimplifiedGroupIn | lib/dictionary.js:28-47 | after the group's simplified form is added, every entry of the group has its form in the order |
| Cedict.TraditionalGroupIn | lib/dictionary.js:28-61 | after the group's traditional form is added, every entry of the group has its form in the order |
| Cedict.DedupPut | lib/dictionary.js:44-60 | storing under a key extends the first-occurrence order by that key |
| Cedict.LoadKeysFromEmpty | lib/dictionary.js:25-65 | from empty tables, the key orders are the distinct forms of the entries from line 30 on |
| CedictAliased.InsertGroupAliased | lib/dictionary.js:36-61 | as written: the group's array is stored, or pushed onto an existing array, under each form, and every key still refers to an allocated array |
| CedictAliased.SharedWhenNew | lib/dictionary.js:45-61 | as written: a group whose two forms are both new is stored as one array under both keys |
| CedictAliased.LoadAliased | lib/dictionary.js:26-65 | as written: the loading loop over shared arrays keeps every key pointing to an allocated array |
| CedictAliased.AliasingCounterexample | lib/dictionary.js:36-61 | the loop as written files 乾 gān under simplified 乾 next to 乾 qián; the intended tables list only qián there |
| Dictionary.IrregularLastWins | lib/dictionary.js:309-318 | a character holds the text after the first colon of the last line that names it, and is absent if that line has no colon |
| Dictionary.IrregularAfter | lib/dictionary.js:309-318 | the irregular table after reading each line in turn (property: IrregularLastWins) |
| JsStrings.SplitPair | lib/dictionary.js:313-315 | a `character:pinyin` line (and the `character:rest` split of a decomposition line) splits into exactly those two fields when neither holds the separator |
| Dictionary.Field | lib/dictionary.js:290-300 | a field is present exactly when the line has that many tab fields |
| Dictionary.FreqLine | lib/dictionary.js:289-301 | a six-field line is filed under its second field with all six fields |
| Dictionary.CharFreqLastWins | lib/dictionary.js:289-304 | a character holds the record of the last line whose second field it is |
| Dictionary.FreqKey | lib/dictionary.js:289-301 | a frequency line is filed under its second tab field |
| Dictionary.FreqRecordOf | lib/dictionary.js:289-301 | the six tab fields of a frequency line, a missing one read as `undefined` (property: FreqLine) |
| Dictionary.CharFreqAfter | lib/dictionary.js:289-304 | the frequency table after reading each line in turn (property: CharFreqLastWins) |
| Dictionary.DetermineIfSimplified | lib/dictionary.js:260-267 | true iff the word is a simplified key; false iff it is only a traditional key; undefined otherwise |
| Dictionary.DefinitionLookup | lib/dictionary.js:104-119 | script `s` reads the simplified table, any other script the traditional one; with no script, simplified when present there, else traditional, and undefined iff the word is in neither |
| Dictionary.DefinitionLookupLoaded | lib/dictionary.js:104-119 | after loading, a lookup with a script lists exactly the entries with that form in file order, and is `undefined` exactly when there are none |
| Dictionary.DefinitionLookupDefault | lib/dictionary.js:104-119 | after loading, a lookup without a script lists the entries with that simplified form when there are any, otherwise those with that traditional form, and is `undefined` exactly when there are neither |
| Dictionary.Pinyins | lib/dictionary.js:325-327 | the pinyin of each entry, in entry order |
| Dictionary.PinyinOf | lib/dictionary.js:320-351 | null exactly when the character is in neither table nor the irregular table, has no stroke character and is not numeric |
| Dictionary.HasStroke | lib/dictionary.js:341-345 | `character.search(strokes) != -1`: some character of the string is one of the listed strokes |
| Dictionary.PinyinLoaded | lib/dictionary.js:322-329 | after loading, a character with simplified entries gets their pinyin in file order |
| Dictionary.RecordOf | lib/dictionary.js:378-404 | the three arrays have equal length and list the comparisons in order |
| Dictionary.Block | lib/dictionary.js:386-404 | a component pushes one cell when it has no reading, and one cell per reading otherwise |
| Dictionary.BlockCells | lib/dictionary.js:386-404 | each cell names the component; a component without reading gives `(component, null, null)`; otherwise the j-th cell holds the j-th reading and its score, which lies from 0 to 4 |
| Dictionary.Pushed | lib/dictionary.js:388-403 | pushing cells keeps the character and grows the arrays by the number of cells |
| Dictionary.PushedAppend | lib/dictionary.js:386-404 | pushing two batches equals pushing them together |
| Dictionary.PushedFresh | lib/dictionary.js:378-383 | pushing onto a fresh record gives the record of those cells |
| Dictionary.RecordOfSnoc | lib/dictionary.js:395-404 | the record of some cells is that of all but the last, with the last one's fields pushed onto the three arrays |
| Dictionary.CellsAppend | lib/dictionary.js:369-447 | the cells of `components1 + components2` are those of `components1` followed by those of `components2` |
| Dictionary.CellsSound | lib/dictionary.js:369-447 | every cell names a component of the list; its reading is null iff the component has none, and so is its score; otherwise the reading is one of the component's and the score is its regularity against the character's reading, from 0 to 4 |
| Dictionary.CellsMember | lib/dictionary.js:369-447 | every cell belongs to the repeated block of one of the components |
| Dictionary.TimesSound | lib/dictionary.js:386-404 | every cell of a repeated block names the block's component; it is null iff the component has no reading, and otherwise scores one of its readings from 0 to 4 |
| Dictionary.TimesCells | lib/dictionary.js:372-406 | a block repeated once per occurrence of a reading holds only cells of that block |
| Dictionary.Times | lib/dictionary.js:372-406 | a block pushed once per occurrence of the reading among the character's readings (properties: TimesCells, TimesSound) |
| Dictionary.Cells | lib/dictionary.js:369-447 | the cells pushed under one reading for a component list, components in order (properties: CellsSound, CellsMember, CellsAppend) |
| Dictionary.AddComponentHas | lib/dictionary.js:373-384 | after one component's pass, a reading has a record iff it had one or is a reading of the character |
| Dictionary.AddComponent | lib/dictionary.js:373-406 | the loop over the character's readings for one component keeps the object's key order in step with its keys, without repetitions |
| Dictionary.AddComponents | lib/dictionary.js:369-447 | the component loops keep the object's key order in step with its keys, without repetitions |
| Dictionary.AddComponentAt | lib/dictionary.js:373-406 | a reading's record gains the component's cells once per occurrence of that reading among the character's readings |
| Dictionary.AddComponentLast | lib/dictionary.js:373-406 | the record under the last reading gains the cells once per occurrence of that reading |
| Dictionary.AddComponentBefore | lib/dictionary.js:373-406 | before the last reading, its record has gained the cells once per earlier occurrence |
| Dictionary.AddComponentKeys | lib/dictionary.js:376-384 | record keys are created in first-occurrence order of the readings |
| Dictionary.DedupAbsorb | lib/dictionary.js:376-384 | readings that already have a record create no new key |
| Dictionary.AddComponentsKeys | lib/dictionary.js:369-447 | the keys are the distinct readings of the character, or none when there are no components |
| Dictionary.AddComponentsAt | lib/dictionary.js:369-447 | each reading's record lists the cells of every component, each repeated as often as the reading occurs |
| Dictionary.AddComponentsAppend | lib/dictionary.js:369-447 | running the `components2` loop after the `components1` loop equals one loop over both lists |
| Dictionary.Regularity | lib/dictionary.js:360-364 | null exactly when the character has no pinyin |
| Dictionary.RegularityRecords | lib/dictionary.js:353-449 | null iff the character has no pinyin; otherwise one record per distinct reading (none without components), each listing every component's cells, `components1` before `components2`, in parallel arrays of equal length |
| Dictionary.Matching | lib/dictionary.js:141-147 | the scan keeps at most one list per key |
| Dictionary.OnlyOf | lib/dictionary.js:126-136 | the `only` pattern `^[q]+$`: a non-empty word made only of query characters |
| Dictionary.AnyOf | lib/dictionary.js:126-136 | the default pattern `[q]`: a word with some query character |
| Dictionary.Matches | lib/dictionary.js:138-153 | `word.search(re) != -1` for the pattern the search type selects |
| Dictionary.MatchingMembers | lib/dictionary.js:141-147 | a list is kept iff it is stored under a key that matches the query |
| Dictionary.SearchResult | lib/dictionary.js:140-158 | the simplified matches when there are any; otherwise the traditional matches |
| Dictionary.OnlyWithinAny | lib/dictionary.js:126-147 | on one table the `only` scan (`^[q]+$`) keeps no more lists than the default scan (`[q]`), and every list it keeps the default scan keeps too |
| Dictionary.CharacterFrequency | lib/dictionary.js:451-478 | the record of the first entry's simplified form when there is one, else the character's own record, and `Character not found` exactly when neither exists |
| Dictionary.SegmentWords | lib/dictionary.js:10 | the exported segmenter's pieces concatenate to the input, and each is a dictionary word or a single character |
| Dictionary.KnownWord | lib/dictionary.js:9-10 | the segmenter's dictionary: a word is known when `definitionLookup` without a script finds it |
| Dictionary.HanziDictionary.constructor | lib/dictionary.js:3-4 | all tables start empty |
| Dictionary.HanziDictionary.Start | lib/dictionary.js:12-65 | the irregular and frequency tables are read, and the CC-CEDICT tables become the grouped load from line 30 |
| Dictionary.HanziDictionary.LoadIrregularPhonetics | lib/dictionary.js:309-318 | the loop stores each line's reading under its character; nothing else changes |
| Dictionary.HanziDictionary.LoadFrequencyData | lib/dictionary.js:286-304 | the loop stores each line's record under its second field; nothing else changes |
| Dictionary.HanziDictionary.LoadDictionary | lib/dictionary.js:25-65 | the two tables become the grouped load of the lines from line 30 on |
| Dictionary.HanziDictionary.LoadEntries | lib/dictionary.js:26-65 | the grouping loop equals the specified load |
| Dictionary.HanziDictionary.LoadGroupAt | lib/dictionary.js:27-61 | one round of the loop stores the group at the loop position and moves past it, keeping the loop on course for the specified load |
| Dictionary.HanziDictionary.ReadGroup | lib/dictionary.js:27-34 | the inner while loop collects exactly the run of entries sharing the first one's forms |
| Dictionary.HanziDictionary.StoreGroup | lib/dictionary.js:36-61 | the group is appended under both of its forms |
| Dictionary.HanziDictionary.GetPinyin | lib/dictionary.js:320-351 | the fallback chain; for a simplified key, one pinyin per entry in entry order |
| Dictionary.HanziDictionary.DeterminePhoneticRegularity | lib/dictionary.js:353-449 | the two component loops compute the specified records |
| Dictionary.HanziDictionary.CompareComponents | lib/dictionary.js:369-407 | the loop over a component list computes the specified fold |
| Dictionary.CompareComponent | lib/dictionary.js:372-406 | the loop over the character's readings pushes the component's cells under each |
| Dictionary.PushComparisons | lib/dictionary.js:395-404 | the loop over the component's readings pushes one cell per reading |
| Dictionary.PushAll | lib/dictionary.js:40-42 | pushing the group onto a list gives the list followed by the group |
| Dictionary.PinyinArray | lib/dictionary.js:323-328 | the index loop fills one pinyin per entry |
| Dictionary.HanziDictionary.DictionarySearch | lib/dictionary.js:121-161 | the simplified scan, then the traditional scan if the first found nothing |
| Dictionary.SearchTable | lib/dictionary.js:141-147 | the `for ... in` scan keeps the lists of matching keys in key order |
| Dictionary.GroupGrows | lib/dictionary.js:28-33 | while the lookahead matches, the next entry extends the group |
| Segmenter.Substr | lib/segmenter.js:15 | `substr(0, i)` is the prefix of length `i`, or the whole string when it is shorter |
| Segmenter.LongestUpTo | lib/segmenter.js:14-20 | the longest accepted prefix no longer than `n`, or nothing iff no such prefix is accepted |
| Segmenter.LongestMatch | lib/segmenter.js:10-23 | an accepted prefix with no longer accepted prefix, or nothing iff no prefix is accepted |
| Segmenter.LongestExact | lib/segmenter.js:14-18 | the longest match is the accepted prefix beyond which nothing is accepted |
| Segmenter.NextSegment | lib/segmenter.js:31-34 | a non-empty prefix that is a word or a single character; a longer segment has no longer accepted prefix |
| Segmenter.SegmentationConcat | lib/segmenter.js:25-39 | the segments concatenate to the input |
| Segmenter.Segmentation | lib/segmenter.js:25-39 | the segments the loop cuts off in turn (properties: SegmentationConcat, SegmentationWords, SegmentationCount, SegmentationNoWords) |
| Segmenter.SegmentationWords | lib/segmenter.js:30-37 | every segment is non-empty and is a word or a single character |
| Segmenter.SegmentationCount | lib/segmenter.js:30-37 | there are never more segments than characters |
| Segmenter.SegmentationNoWords | lib/segmenter.js:25-39 | with no words, every character is its own segment |
| Segmenter.LongestMatchSegmenter.constructor | lib/segmenter.js:4-8 | the segmenter keeps the dictionary it is given |
| Segmenter.LongestMatchSegmenter.GetLongestMatch | lib/segmenter.js:10-23 | the downward scan from max(8, length) returns the longest accepted prefix, and undefined iff none is accepted |
| Segmenter.LongestMatchSegmenter.Segment | lib/segmenter.js:25-39 | the loop returns the segmentation: it concatenates to the input, and each piece is non-empty and a word or a single character |
| Segmenter.LongestMatchSegmenter.NextCut | lib/segmenter.js:31-34 | one round cuts off the specified next segment: the longest match, or the first character when there is none |
| Wubi.FirstAt | lib/wubi.js:18-25 | the first line at or after a position that holds the marker |
| Wubi.FirstAtFirst | lib/wubi.js:18-25 | no line between the start and the first marker holds the marker |
| Wubi.FirstAtIs | lib/wubi.js:18-25 | a marker with none before it from the start is the first one |
| Wubi.FirstAtStop | lib/wubi.js:27-35 | a scan that has not passed the first marker and stands on a marker stands on the first one |
| Wubi.RowCode | lib/wubi.js:31-32 | a code holds no tab |
| Wubi.RowHanzi | lib/wubi.js:31-32 | the hanzi of a table line: its second tab field, or `undefined` when there is none |
| Wubi.BuildTable | lib/wubi.js:27-35 | the table after storing each row's code under its hanzi in turn (properties: BuildTableKeeps, BuildTableLastWins, BuildTableCodes) |
| Wubi.HasMarkers | lib/wubi.js:19-29 | the file has a `BEGIN_TABLE` line and an `END_TABLE` line after the first one, which both loops need to stop |
| Wubi.TableRows | lib/wubi.js:13-38 | the lines strictly between the first `BEGIN_TABLE` and the first `END_TABLE` after it (property: TableRowsOfFile) |
| Wubi.BuildTableKeeps | lib/wubi.js:27-35 | a hanzi that no row names keeps its earlier code, or stays absent |
| Wubi.BuildTableLastWins | lib/wubi.js:31-32 | a hanzi holds the code of the last row that names it |
| Wubi.BuildTableCodes | lib/wubi.js:31-32 | no stored code holds a tab |
| Wubi.TableRowsOfFile | lib/wubi.js:13-38 | everything up to the first `BEGIN_TABLE` and from the next `END_TABLE` on is ignored |
| Wubi.SkipHeader | lib/wubi.js:18-25 | the first loop stops just after the first `BEGIN_TABLE` |
| Wubi.ReadRows | lib/wubi.js:27-35 | the second loop stores every row up to the first `END_TABLE` |
| Wubi.GetTable | lib/wubi.js:13-38 | the table holds the rows between the markers, stored in turn |
| Wubi.CharCodes | lib/wubi.js:44-47 | one code per character, in order |
| Wubi.CharCode | lib/wubi.js:44-47 | a character's own code, or `''` for an unknown character, as `join` treats `undefined` |
| Wubi.GetWubi | lib/wubi.js:40-49 | the whole-string entry when there is one |
| Wubi.GetWubiFallback | lib/wubi.js:44-47 | without a whole-string entry there are length−1 spaces, and splitting at them gives back the per-character codes |
| Wubi.GetWubiUnknownChar | lib/wubi.js:44-47 | a single unknown character has the empty code |
| Wubi.WubiKeys.constructor | lib/wubi.js:3 | the table starts empty |
| Wubi.WubiKeys.Start | lib/wubi.js:5-11 | the table becomes the rows of the file between the markers |
| PrototypeDecomposer.Prototype.constructor | hanzidecomposer.js:2 | the row array starts empty |
| PrototypeDecomposer.Prototype.Start | hanzidecomposer.js:4-31 | row `i` becomes the parse of line `i`; rows beyond the new lines stay from an earlier load |
| PrototypeDecomposer.StartFresh | hanzidecomposer.js:4-31 | on a fresh decomposer, exactly one row per line, in line order |
| PrototypeDecomposer.Prototype.Decompose | hanzidecomposer.js:33-39 | the components of the first row with the character, and undefined iff no row has it |

## Left out

- **File loading and logging**:
  - Reading the data files (`data.loadCJK`, `loadJunda`, `loadCCEDICT`, `loadLeiden`, `loadWubi`, `fs.readFileSync`) and `require` of the radical list are not modelled. Their contents are parameters: lines, or the parsed radical list.
  - All `console.log` calls are left out.
- **Deep copy**: the `JSON.stringify`/`JSON.parse` copy in `decompose` is taken as the identity.
- **Dictionary features not modelled**:
  - `getExamples` is not modelled, because its point is floating-point mean, variance and `Math.sqrt` bucketing.
  - `getPhoneticSet` is not modelled, because it only returns the contents of data modules that are not part of this model.
  - The `wordfreq` table and `characterFrequencyCountIndex` are not modelled.
  - `getCharacterInFrequencyListByPosition` is not modelled, because it only composes `characterFrequencyCountIndex` with `getCharacterFrequency`.
- **Regular expressions**:
  - The stroke test in `getPinyin` is modelled as membership in a fixed set of characters (`Dictionary.Strokes`).
  - The single-stroke primitive test of the index is modelled the same way (`ComponentIndex.Primitives`).
  - `dictionarySearch` is modelled as "every character of the word is a query character" (`only`) and "some character of the word is a query character" (default).
  - Query characters that are special in a regular expression or in a character class (`]`, `\`, `^`, `-`, `|`, `(`) are not modelled.
- **UTF-16**: strings are sequences of characters. JavaScript's `length`, `substring` and `split('')` count UTF-16 code units, so astral characters such as 𠂇 behave differently in the source.
- **`isNaN`**: `isNaN(x) == false` is modelled as `Decomposer.IsNumericId`: every character is an ASCII digit, including the empty string. Forms such as ` 1`, `1e3` or `0x1F`, which `Number` also accepts, are not modelled.
- **Inherited object keys**: keys inherited from `Object.prototype` (`constructor`, `toString`, …) are not modelled. JavaScript's key order, which puts integer-like keys first, is not modelled either; object keys keep insertion order.
- **Inputs the source fails on**: these are stated as `requires`.
  - A decomposition line without `:` is a `TypeError` (`CjkDecomp.Parsable`).
  - A corpus line without a tab makes the character `undefined` (`ComponentIndex.CorpusLines`).
  - A corpus character that is blank, or whose graphical view never ends, makes `compileAllComponents` fail (`ComponentIndex.Indexable`). A blank character decomposes to `Invalid Input`, and reading `components1.length` of that string throws a `TypeError` (lib/hanzidecomposer.js:47-49). An endless graphical view overflows the stack. `HanziState.HanziDecomposer.Start`, `CompileAllComponents` and `IndexCorpusLine` require it.
  - A wubi file without its markers loops forever or reads past the end (`Wubi.HasMarkers`).
  - A CC-CEDICT file whose last line has empty traditional and simplified fields makes the grouping loop read past the end (`Cedict.EndsCleanly`).
  - An `only` search for the empty string builds the invalid pattern `^(` (`Dictionary.HanziDictionary.DictionarySearch`).
- **Non-terminating recursion**: `Decomposer.GraphicalDecomposition` and `Decomposer.Decompose` model a graphical decomposition that never ends (a stack overflow in the source) as `None` and `Overflow`. They do not model the exception itself.
- **Dictionary.HanziDictionary.DeterminePhoneticRegularity**: takes an already decomposed character. Passing a bare string makes the source call `decompose` first; that path is `Decomposer.Decompose` followed by this method.
- **Dictionary.HanziDictionary.LoadDictionary**: parses every line into an entry before grouping, where the source parses lines as it goes. `getElements` depends on the line alone, so the tables are the same.
- Decomposer.Decompose and Decomposer.DecomposeMany: the mode is a number or absent. The source compares it with loose `==` (lib/hanzidecomposer.js:118-136), so the strings `'1'`, `'2'`, `'3'` and the value `true` also select a view there. Those non-number modes are not modelled.
- JsStrings.ToLower: lowers only the ASCII letters `A`–`Z`. JavaScript's `toLowerCase` lowers every Unicode letter (`Ü` becomes `ü`) and can make a string longer (`İ` becomes two code units). CC-CEDICT and the irregular table write pinyin with ASCII letters and tone digits, so the model covers the readings the data holds. `Pinyin.RegularityScale` and `Pinyin.RegularityIgnoresCase` inherit this restriction.
- **Dictionary.DefinitionLookup**: the script is a string or absent. Loose `==` comparisons with non-string scripts are not modelled.
- **Dictionary.HanziDictionary.Start**: the phonetic-set `require`s are left out (see `getPhoneticSet`).
- **Other files**: `lib/module.js` (export wiring) and `lib/data/index.js` (file loading) are not part of this model. Neither are the test files; their expected values appear only as the `Pinyin.RegularityOf…` lemmas.
- Cedict.Load, Cedict.InsertGroup, Cedict.LoadFromEmpty, Dictionary.HanziDictionary.StoreGroup, Dictionary.HanziDictionary.LoadDictionary and Dictionary.HanziDictionary.Start: these model the CC-CEDICT tables with a separate list under each key, the intended behaviour. The source stores one shared array under both forms of a new group (lib/dictionary.js:44-61). Those shared arrays, and the entries that leak through them, are modelled only in `CedictAliased` (see Findings).

## Findings

| source | as written | input that shows it | evidently intended | confidence | as-written member | corrected member |
|---|---|---|---|---|---|---|
| lib/dictionary.js:44-61 | When a group's simplified and traditional forms are both new, the same `multiplearray` object is stored in both tables. Later groups are pushed onto it in place through either table, so a group filed under a traditional form also appears under an unrelated simplified form. | 30 header lines, then `乾 乾 [qian2] /surname Qian/` and `乾 干 [gan1] /dry/`. The second group is pushed onto the array under traditional 乾, which is also the array under simplified 乾. So simplified 乾 lists both qián and gān. | Each table lists under a key exactly the entries that have that form. Simplified 乾 lists only qián. | not executed | CedictAliased.AliasingCounterexample | Cedict.LoadFromEmpty |
