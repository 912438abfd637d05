/** The module-level state of lib/dictionary.js and the queries over it: the
    two CC-CEDICT tables (by simplified and by traditional form), the
    irregular-pronunciation table and the character frequency table, filled
    by `start`; the pronunciation lookup `getPinyin`, the phonetic
    regularity of a decomposed character, `definitionLookup`,
    `dictionarySearch` and `getCharacterFrequency`. */
module Dictionary {
  import opened Wrappers
  import opened JsStrings
  import opened Objects
  import opened Cedict
  import opened Pinyin
  import Decomposer
  import Segmenter
  import Seqs

  // ---------------------------------------------------------------------
  // The irregular-pronunciation table: lines `character:pinyin`.

  /** The table after reading each line in turn: the text after the first
      colon (up to a second one) is stored under the text before it. A line
      without a colon stores `undefined`, which every lookup reads as
      absent. */
  function IrregularAfter(m: map<string, string>, lines: seq<string>): map<string, string> {
    if |lines| == 0 then m
    else
      var prev := IrregularAfter(m, lines[..|lines| - 1]);
      var splits := Split(lines[|lines| - 1], ':');
      if |splits| >= 2 then prev[splits[0] := splits[1]] else prev - {splits[0]}
  }

  /** A character's entry is decided by the last line that names it: the
      pronunciation on that line, or none when that line has no colon. */
  lemma {:induction false} IrregularLastWins(m: map<string, string>, lines: seq<string>, c: string, i: nat)
    requires i < |lines| && Split(lines[i], ':')[0] == c
    requires forall j :: i < j < |lines| ==> Split(lines[j], ':')[0] != c
    ensures var f := Split(lines[i], ':');
      && (|f| >= 2 ==> c in IrregularAfter(m, lines) && IrregularAfter(m, lines)[c] == f[1])
      && (|f| < 2 ==> c !in IrregularAfter(m, lines))
  {
    if i < |lines| - 1 {
      IrregularLastWins(m, lines[..|lines| - 1], c, i);
    }
  }

  // ---------------------------------------------------------------------
  // The character frequency table: tab-separated lines
  // `number, character, count, percentage, pinyin, meaning`.

  /** One `charfreq` record. A field the line does not have is `undefined`. */
  datatype FreqRecord = FreqRecord(number: string, character: Option<string>, count: Option<string>,
                                   percentage: Option<string>, pinyin: Option<string>, meaning: Option<string>)

  /** `splits[k]` */
  function Field(fields: seq<string>, k: nat): (r: Option<string>)
    ensures r.Some? <==> k < |fields|
    ensures r.Some? ==> r.value == fields[k]
  {
    if k < |fields| then Some(fields[k]) else None
  }

  /** The record of a frequency line. */
  function FreqRecordOf(line: string): FreqRecord {
    var s := Split(line, '\t');
    FreqRecord(s[0], Field(s, 1), Field(s, 2), Field(s, 3), Field(s, 4), Field(s, 5))
  }

  /** The key a frequency line is stored under: its second field. */
  function FreqKey(line: string): string {
    KeyOf(Field(Split(line, '\t'), 1))
  }

  /** The table after reading each line in turn; a later line for the same
      character replaces an earlier one. */
  function CharFreqAfter(m: map<string, FreqRecord>, lines: seq<string>): map<string, FreqRecord> {
    if |lines| == 0 then m
    else
      var line := lines[|lines| - 1];
      CharFreqAfter(m, lines[..|lines| - 1])[FreqKey(line) := FreqRecordOf(line)]
  }

  /** Reading a six-field line gives back its fields, under its character. */
  lemma FreqLine(number: string, character: string, count: string, percentage: string, pinyin: string, meaning: string)
    requires forall f :: f in [number, character, count, percentage, pinyin, meaning] ==> '\t' !in f
    ensures var line := Join([number, character, count, percentage, pinyin, meaning], '\t');
      && FreqKey(line) == character
      && FreqRecordOf(line) == FreqRecord(number, Some(character), Some(count), Some(percentage), Some(pinyin), Some(meaning))
  {
    var fields := [number, character, count, percentage, pinyin, meaning];
    assert forall i :: 0 <= i < |fields| ==> fields[i] in fields;
    SplitJoin(fields, '\t');
  }

  /** A character holds the record of the last line that names it. */
  lemma {:induction false} CharFreqLastWins(m: map<string, FreqRecord>, lines: seq<string>, c: string, i: nat)
    requires i < |lines| && FreqKey(lines[i]) == c
    requires forall j :: i < j < |lines| ==> FreqKey(lines[j]) != c
    ensures c in CharFreqAfter(m, lines) && CharFreqAfter(m, lines)[c] == FreqRecordOf(lines[i])
  {
    if i < |lines| - 1 {
      CharFreqLastWins(m, lines[..|lines| - 1], c, i);
    }
  }

  // ---------------------------------------------------------------------
  // definitionLookup

  /** `determineIfSimplified`: true for a word of the simplified table,
      false for a word only of the traditional one, `undefined` for a word
      of neither. */
  function DetermineIfSimplified(d: Tables, word: string): (r: Option<bool>)
    ensures r == Some(true) <==> word in d.simplified.values
    ensures r == Some(false) <==> word !in d.simplified.values && word in d.traditional.values
  {
    if word in d.simplified.values then Some(true)
    else if word in d.traditional.values then Some(false)
    else None
  }

  /** `definitionLookup(word, scripttype)`: `s` reads the simplified table,
      any other script the traditional one; with no script, the simplified
      table when it has the word and the traditional table otherwise.
      `None` is `undefined`. */
  function DefinitionLookup(d: Tables, word: string, scripttype: Option<string>): (r: Option<seq<DictEntry>>)
    ensures scripttype == Some("s") ==> r == d.simplified.Get(word)
    ensures scripttype.Some? && scripttype != Some("s") ==> r == d.traditional.Get(word)
    ensures scripttype.None? && word in d.simplified.values ==> r == d.simplified.Get(word)
    ensures scripttype.None? && word !in d.simplified.values ==> r == d.traditional.Get(word)
    ensures scripttype.None? ==> (r.None? <==> word !in d.simplified.values && word !in d.traditional.values)
  {
    if scripttype.None? then
      if DetermineIfSimplified(d, word) == Some(true) then d.simplified.Get(word)
      else d.traditional.Get(word)
    else if scripttype.value == "s" then d.simplified.Get(word)
    else d.traditional.Get(word)
  }

  /** Loading keeps each table's key order listing exactly its stored keys. */
  lemma {:induction false} LoadKeyed(d: Tables, es: seq<DictEntry>, i: nat)
    requires d.simplified.Keyed() && d.traditional.Keyed()
    ensures Load(d, es, i).simplified.Keyed() && Load(d, es, i).traditional.Keyed()
    decreases |es| - i
  {
    if i < |es| {
      var e := GroupEnd(es, i, i);
      var next := InsertGroup(d, es[i..e + 1]);
      InsertGroupKeys(d, es[i..e + 1]);
      LoadKeyed(next, es, e + 1);
      assert Load(d, es, i) == Load(next, es, e + 1);
    }
  }

  /** A form is among the entries' forms exactly when some entry has it. */
  lemma {:induction false} KeysHave(es: seq<DictEntry>, k: string)
    ensures k in SimplifiedKeys(es) <==> WithSimplified(es, k) != []
    ensures k in TraditionalKeys(es) <==> WithTraditional(es, k) != []
  {
    if |es| > 0 {
      KeysHave(es[1..], k);
    }
  }

  /** From empty tables, a table holds a key exactly when some entry after
      the header has that form. */
  lemma LoadedHas(es: seq<DictEntry>, k: string)
    ensures var d := Load(Tables(Empty(), Empty()), es, StartingLine);
      && (k in d.simplified.values <==> WithSimplified(Body(es), k) != [])
      && (k in d.traditional.values <==> WithTraditional(Body(es), k) != [])
  {
    LoadKeyed(Tables(Empty(), Empty()), es, StartingLine);
    LoadKeysFromEmpty(es);
    DedupMembers(SimplifiedKeys(Body(es)));
    DedupMembers(TraditionalKeys(Body(es)));
    KeysHave(Body(es), k);
  }

  /** After `start` from empty tables, a simplified lookup answers exactly
      the entries with that simplified form, in file order, and a
      traditional lookup those with that traditional form; a lookup is
      `undefined` exactly when no entry has the form. */
  lemma DefinitionLookupLoaded(es: seq<DictEntry>, word: string, script: string)
    ensures var d := Load(Tables(Empty(), Empty()), es, StartingLine);
      var r := DefinitionLookup(d, word, Some(script));
      var expected := if script == "s" then WithSimplified(Body(es), word) else WithTraditional(Body(es), word);
      && (r.Some? ==> r.value == expected)
      && (r.None? <==> expected == [])
  {
    LoadFromEmpty(es, word);
    LoadedHas(es, word);
  }

  /** After `start` from empty tables, a lookup without a script (the one
      `segment` and `getCharacterFrequency` make) answers the entries with
      that simplified form when there are any, otherwise those with that
      traditional form, and is `undefined` when there are neither. */
  lemma DefinitionLookupDefault(es: seq<DictEntry>, word: string)
    ensures var r := DefinitionLookup(Load(Tables(Empty(), Empty()), es, StartingLine), word, None);
      var s, t := WithSimplified(Body(es), word), WithTraditional(Body(es), word);
      && (s != [] ==> r == Some(s))
      && (s == [] && t != [] ==> r == Some(t))
      && (r.None? <==> s == [] && t == [])
  {
    LoadFromEmpty(es, word);
    LoadedHas(es, word);
  }

  // ---------------------------------------------------------------------
  // getPinyin

  /** The stroke and component forms `getPinyin` answers `_stroke` for: the
      character class of its pattern. */
  const Strokes: set<char> := {
    '㇐', '㇇', '㇚', '𤴓', '𠂇', '㇒', '㇑', '⺊', '阝', '㇟', '⺀', '㇓', '㇝', '𪜋', '⺁', '𠮛', '㇔',
    '龶', '㇃', '丆', '㇏', '⺌', '⺹', '⺆', '㇛', '㇠', '㇆', '⺧', '⺮', '龸', '⺈', '㇗', '龴', '㇕',
    '㇈', '㇖', '⺤', '㇎', '⺺', '䧹', '㇂', '㇉', '⺪', '㇀'}

  /** `character.search(pattern) != -1` */
  predicate HasStroke(s: string) {
    exists i :: 0 <= i < |s| && s[i] in Strokes
  }

  /** The pronunciations of some entries, in entry order. */
  function Pinyins(entries: seq<DictEntry>): (r: seq<string>)
    ensures |r| == |entries|
    ensures forall i :: 0 <= i < |entries| ==> r[i] == entries[i].pinyin
  {
    seq(|entries|, i requires 0 <= i < |entries| => entries[i].pinyin)
  }

  /** The pronunciations `getPinyin` gives a character, or `None` (null). */
  function PinyinOf(d: Tables, irregular: map<string, string>, c: string): (r: Option<seq<string>>)
    ensures r.None? <==> c !in d.simplified.values && c !in d.traditional.values && c !in irregular
                         && !HasStroke(c) && !Decomposer.IsNumericId(c)
  {
    if c in d.simplified.values then Some(Pinyins(d.simplified.values[c]))
    else if c in d.traditional.values then Some(Pinyins(d.traditional.values[c]))
    else if c in irregular then Some([irregular[c]])
    else if HasStroke(c) then Some(["_stroke"])
    else if Decomposer.IsNumericId(c) then Some(["_number"])
    else None
  }

  /** After `start`, a character of the simplified table is read with the
      pronunciations of its entries, in file order. */
  lemma PinyinLoaded(es: seq<DictEntry>, irregular: map<string, string>, c: string)
    requires WithSimplified(Body(es), c) != []
    ensures PinyinOf(Load(Tables(Empty(), Empty()), es, StartingLine), irregular, c) == Some(Pinyins(WithSimplified(Body(es), c)))
  {
    LoadFromEmpty(es, c);
  }

  // ---------------------------------------------------------------------
  // Phonetic regularity

  /** One comparison: the component, the component pronunciation compared
      (null when the component has none) and the score (null likewise). */
  datatype Cell = Cell(component: string, phonetic: Option<string>, score: Option<int>)

  /** The record kept under one pronunciation of the character: three
      parallel arrays. */
  datatype Record = Record(character: string, component: seq<string>, phoneticpinyin: seq<Option<string>>,
                           regularity: seq<Option<int>>)

  /** The record whose arrays list the given comparisons in order. */
  function RecordOf(ch: string, cells: seq<Cell>): (r: Record)
    ensures r.character == ch
    ensures |r.component| == |cells| && |r.phoneticpinyin| == |cells| && |r.regularity| == |cells|
    ensures forall i :: 0 <= i < |cells| ==>
      r.component[i] == cells[i].component && r.phoneticpinyin[i] == cells[i].phonetic && r.regularity[i] == cells[i].score
  {
    Record(ch, seq(|cells|, i requires 0 <= i < |cells| => cells[i].component),
               seq(|cells|, i requires 0 <= i < |cells| => cells[i].phonetic),
               seq(|cells|, i requires 0 <= i < |cells| => cells[i].score))
  }

  /** The comparisons of one component against one pronunciation `p` of the
      character: one per pronunciation of the component, scored; a single
      `(component, null, null)` when the component has none. */
  function Block(p: string, comp: string, ph: Option<seq<string>>): (r: seq<Cell>)
    ensures |r| == if ph.None? then 1 else |ph.value|
  {
    if ph.None? then [Cell(comp, None, None)]
    else seq(|ph.value|, i requires 0 <= i < |ph.value| => Cell(comp, Some(ph.value[i]), RegularityScale(Some(p), Some(ph.value[i]))))
  }

  /** Each comparison of a block names the component; it is null when the
      component has no pronunciation, and otherwise scores `p` against the
      component's pronunciations in turn, from 0 to 4. */
  lemma BlockCells(p: string, comp: string, ph: Option<seq<string>>)
    ensures var r := Block(p, comp, ph);
      && (forall i :: 0 <= i < |r| ==> r[i].component == comp)
      && (ph.None? ==> forall i :: 0 <= i < |r| ==> r[i].phonetic.None? && r[i].score.None?)
      && (ph.Some? ==> forall i :: 0 <= i < |r| ==>
            (r[i].phonetic == Some(ph.value[i]) && r[i].score == RegularityScale(Some(p), Some(ph.value[i]))
             && 0 <= r[i].score.value <= 4))
  {
  }

  /** `b` repeated `n` times. */
  function Times(b: seq<Cell>, n: nat): seq<Cell> {
    if n == 0 then [] else Times(b, n - 1) + b
  }

  /** The comparisons recorded under pronunciation `p` for the components
      in order, each component's block repeated once per occurrence of `p`
      among the character's pronunciations (`m`). */
  function Cells(d: Tables, irregular: map<string, string>, p: string, comps: seq<string>, m: nat): seq<Cell> {
    if |comps| == 0 then []
    else
      var last := comps[|comps| - 1];
      Cells(d, irregular, p, comps[..|comps| - 1], m) + Times(Block(p, last, PinyinOf(d, irregular, last)), m)
  }

  /** A record with some comparisons pushed onto its three arrays. */
  function Pushed(rec: Record, cells: seq<Cell>): (r: Record)
    ensures r.character == rec.character
    ensures |r.component| == |rec.component| + |cells|
  {
    if |cells| == 0 then rec
    else
      var r := Pushed(rec, cells[..|cells| - 1]);
      var c := cells[|cells| - 1];
      Record(r.character, r.component + [c.component], r.phoneticpinyin + [c.phonetic], r.regularity + [c.score])
  }

  /** The record stored under `p`, or a fresh empty one when there is none
      yet. */
  function RecordAt(acc: Object<Record>, ch: string, p: string): Record {
    if p in acc.values then acc.values[p] else Record(ch, [], [], [])
  }

  /** The loop over the character's pronunciations `cp` for one component
      whose pronunciations are `ph`: under each pronunciation, its
      comparisons are pushed onto the record there (created when missing). */
  function AddComponent(acc: Object<Record>, ch: string, cp: seq<string>, comp: string, ph: Option<seq<string>>): (r: Object<Record>)
    ensures acc.Valid() ==> r.Valid()
  {
    if |cp| == 0 then acc
    else
      var prev := AddComponent(acc, ch, cp[..|cp| - 1], comp, ph);
      var p := cp[|cp| - 1];
      prev.Put(p, Pushed(RecordAt(prev, ch, p), Block(p, comp, ph)))
  }

  /** The component loops, one component after the other. */
  function AddComponents(d: Tables, irregular: map<string, string>, acc: Object<Record>, ch: string, cp: seq<string>,
                         comps: seq<string>): (r: Object<Record>)
    ensures acc.Valid() ==> r.Valid()
  {
    if |comps| == 0 then acc
    else
      var comp := comps[|comps| - 1];
      AddComponent(AddComponents(d, irregular, acc, ch, cp, comps[..|comps| - 1]), ch, cp, comp, PinyinOf(d, irregular, comp))
  }

  /** `determinePhoneticRegularity`: null when the character has no
      pronunciation; otherwise the object the component loops build from an
      empty one. */
  function Regularity(d: Tables, irregular: map<string, string>, ch: string, comps: seq<string>): (r: Option<Object<Record>>)
    ensures r.None? <==> PinyinOf(d, irregular, ch).None?
    ensures r.Some? ==> r.value.Valid()
  {
    var cp := PinyinOf(d, irregular, ch);
    if cp.None? then None else Some(AddComponents(d, irregular, Empty(), ch, cp.value, comps))
  }

  lemma TimesAppend(b: seq<Cell>, n: nat)
    ensures Times(b, n + 1) == Times(b, n) + b
  {
  }

  /** The comparisons of the first components come before those of the
      later ones, so the `components1` view's precede the `components2`
      view's. */
  lemma {:induction false} CellsAppend(d: Tables, irregular: map<string, string>, p: string, a: seq<string>, b: seq<string>, m: nat)
    ensures Cells(d, irregular, p, a + b, m) == Cells(d, irregular, p, a, m) + Cells(d, irregular, p, b, m)
  {
    if |b| == 0 {
      assert a + b == a;
    } else {
      var init := b[..|b| - 1];
      assert (a + b)[..|a + b| - 1] == a + init;
      CellsAppend(d, irregular, p, a, init, m);
    }
  }

  /** Every repetition of a block holds only comparisons of that block. */
  lemma {:induction false} TimesCells(b: seq<Cell>, n: nat, c: Cell)
    ensures c in Times(b, n) ==> c in b
  {
    if n > 0 {
      TimesCells(b, n - 1, c);
    }
  }

  /** Each recorded comparison names one of the components; it is null
      exactly when that component has no pronunciation, and otherwise a
      score from 0 to 4 against one of the component's pronunciations. */
  lemma {:induction false} CellsSound(d: Tables, irregular: map<string, string>, p: string, comps: seq<string>, m: nat, c: Cell)
    requires c in Cells(d, irregular, p, comps, m)
    ensures c.component in comps
    ensures c.phonetic.None? <==> PinyinOf(d, irregular, c.component).None?
    ensures c.score.None? <==> c.phonetic.None?
    ensures c.phonetic.Some? ==>
      (c.phonetic.value in PinyinOf(d, irregular, c.component).value
       && c.score == RegularityScale(Some(p), c.phonetic) && 0 <= c.score.value <= 4)
  {
    CellsMember(d, irregular, p, comps, m, c);
    TimesSound(p, c.component, PinyinOf(d, irregular, c.component), m, c);
  }

  /** Each recorded comparison belongs to the repeated block of one of the
      components. */
  lemma {:induction false} CellsMember(d: Tables, irregular: map<string, string>, p: string, comps: seq<string>, m: nat, c: Cell)
    requires c in Cells(d, irregular, p, comps, m)
    ensures c.component in comps
    ensures c in Times(Block(p, c.component, PinyinOf(d, irregular, c.component)), m)
  {
    var init := comps[..|comps| - 1];
    var last := comps[|comps| - 1];
    var b := Block(p, last, PinyinOf(d, irregular, last));
    if c in Cells(d, irregular, p, init, m) {
      CellsMember(d, irregular, p, init, m, c);
    } else {
      assert c in Times(b, m);
      TimesSound(p, last, PinyinOf(d, irregular, last), m, c);
    }
  }

  /** Each comparison of a repeated block names the block's component; it
      is null exactly when the component has no pronunciation, and
      otherwise a score from 0 to 4 against one of them. */
  lemma TimesSound(p: string, comp: string, ph: Option<seq<string>>, m: nat, c: Cell)
    requires c in Times(Block(p, comp, ph), m)
    ensures c.component == comp
    ensures c.phonetic.None? <==> ph.None?
    ensures c.score.None? <==> c.phonetic.None?
    ensures c.phonetic.Some? ==>
      (c.phonetic.value in ph.value && c.score == RegularityScale(Some(p), c.phonetic) && 0 <= c.score.value <= 4)
  {
    var b := Block(p, comp, ph);
    TimesCells(b, m, c);
    BlockCells(p, comp, ph);
    var i :| 0 <= i < |b| && b[i] == c;
  }

  /** Pushing in two rounds is pushing everything at once. */
  lemma {:induction false} PushedAppend(rec: Record, xs: seq<Cell>, ys: seq<Cell>)
    ensures Pushed(Pushed(rec, xs), ys) == Pushed(rec, xs + ys)
  {
    if |ys| > 0 {
      assert (xs + ys)[..|xs + ys| - 1] == xs + ys[..|ys| - 1];
      assert (xs + ys)[|xs + ys| - 1] == ys[|ys| - 1];
      PushedAppend(rec, xs, ys[..|ys| - 1]);
    } else {
      assert xs + ys == xs;
    }
  }

  /** A fresh record with comparisons pushed lists exactly them. */
  lemma {:induction false} PushedFresh(ch: string, cells: seq<Cell>)
    ensures Pushed(Record(ch, [], [], []), cells) == RecordOf(ch, cells)
  {
    if |cells| > 0 {
      PushedFresh(ch, cells[..|cells| - 1]);
      RecordOfSnoc(ch, cells);
    }
  }

  /** The record of some comparisons is that of all but the last, with the
      last one's fields appended to the three arrays. */
  lemma RecordOfSnoc(ch: string, cells: seq<Cell>)
    requires |cells| > 0
    ensures var r := RecordOf(ch, cells[..|cells| - 1]);
      var c := cells[|cells| - 1];
      RecordOf(ch, cells) == Record(ch, r.component + [c.component], r.phoneticpinyin + [c.phonetic], r.regularity + [c.score])
  {
    var r := RecordOf(ch, cells[..|cells| - 1]);
    var c := cells[|cells| - 1];
    var full := RecordOf(ch, cells);
    assert full.component == r.component + [c.component];
    assert full.phoneticpinyin == r.phoneticpinyin + [c.phonetic];
    assert full.regularity == r.regularity + [c.score];
  }

  /** After the pronunciation loop for one component, a key is present
      when it was before or is one of the pronunciations. */
  lemma {:induction false} AddComponentHas(acc: Object<Record>, ch: string, cp: seq<string>, comp: string, ph: Option<seq<string>>, p: string)
    ensures p in AddComponent(acc, ch, cp, comp, ph).values <==> p in acc.values || p in cp
  {
    if |cp| > 0 {
      Seqs.Snoc(cp);
      AddComponentHas(acc, ch, cp[..|cp| - 1], comp, ph, p);
    }
  }

  /** After the pronunciation loop for one component, the record under `p`
      is the earlier one (or a fresh one) with the component's comparisons
      pushed once per occurrence of `p` among the pronunciations. */
  lemma {:induction false} AddComponentAt(acc: Object<Record>, ch: string, cp: seq<string>, comp: string, ph: Option<seq<string>>, p: string)
    requires p in acc.values || p in cp
    ensures p in AddComponent(acc, ch, cp, comp, ph).values
    ensures AddComponent(acc, ch, cp, comp, ph).values[p] == Pushed(RecordAt(acc, ch, p), Times(Block(p, comp, ph), Occurrences(cp, p)))
    decreases |cp|, 2
  {
    AddComponentHas(acc, ch, cp, comp, ph, p);
    if |cp| == 0 {
      return;
    }
    var init := cp[..|cp| - 1];
    var q := cp[|cp| - 1];
    assert cp == init + [q];
    if q == p {
      AddComponentLast(acc, ch, cp, comp, ph);
    } else {
      AddComponentAt(acc, ch, init, comp, ph, p);
    }
  }

  /** One more round of the pronunciation loop. */
  lemma AddComponentStep(acc: Object<Record>, ch: string, cp: seq<string>, i: nat, comp: string, ph: Option<seq<string>>)
    requires i < |cp|
    ensures var prev := AddComponent(acc, ch, cp[..i], comp, ph);
      AddComponent(acc, ch, cp[..i + 1], comp, ph) == prev.Put(cp[i], Pushed(RecordAt(prev, ch, cp[i]), Block(cp[i], comp, ph)))
  {
    Seqs.TakeTake(cp, i);
  }

  /** The step of `AddComponentAt` for the last pronunciation. */
  lemma AddComponentLast(acc: Object<Record>, ch: string, cp: seq<string>, comp: string, ph: Option<seq<string>>)
    requires |cp| > 0
    ensures var p := cp[|cp| - 1];
      AddComponent(acc, ch, cp, comp, ph).values[p] == Pushed(RecordAt(acc, ch, p), Times(Block(p, comp, ph), Occurrences(cp, p)))
    decreases |cp|, 1
  {
    var init := cp[..|cp| - 1];
    var p := cp[|cp| - 1];
    var b := Block(p, comp, ph);
    var m := Occurrences(init, p);
    var base := RecordAt(acc, ch, p);
    AddComponentBefore(acc, ch, cp, comp, ph);
    assert AddComponent(acc, ch, cp, comp, ph).values[p] == Pushed(Pushed(base, Times(b, m)), b);
    PushedAppend(base, Times(b, m), b);
    TimesAppend(b, m);
    assert Occurrences(cp, p) == m + 1;
  }

  /** The record the last pronunciation of `cp` finds when its turn comes. */
  lemma AddComponentBefore(acc: Object<Record>, ch: string, cp: seq<string>, comp: string, ph: Option<seq<string>>)
    requires |cp| > 0
    ensures var init, p := cp[..|cp| - 1], cp[|cp| - 1];
      RecordAt(AddComponent(acc, ch, init, comp, ph), ch, p)
        == Pushed(RecordAt(acc, ch, p), Times(Block(p, comp, ph), Occurrences(init, p)))
    decreases |cp|, 0
  {
    var init := cp[..|cp| - 1];
    var p := cp[|cp| - 1];
    if p in acc.values || p in init {
      AddComponentAt(acc, ch, init, comp, ph, p);
    } else {
      AddComponentHas(acc, ch, init, comp, ph, p);
    }
  }

  /** The pronunciation loop keeps the keys in first-assignment order. */
  lemma {:induction false} AddComponentKeys(acc: Object<Record>, ch: string, cp: seq<string>, comp: string, ph: Option<seq<string>>,
                                            xs: seq<string>)
    requires acc.Valid() && acc.keys == Dedup(xs)
    ensures AddComponent(acc, ch, cp, comp, ph).keys == Dedup(xs + cp)
  {
    if |cp| == 0 {
      assert xs + cp == xs;
    } else {
      var init := cp[..|cp| - 1];
      var q := cp[|cp| - 1];
      AddComponentKeys(acc, ch, init, comp, ph, xs);
      var prev := AddComponent(acc, ch, init, comp, ph);
      var v := Pushed(RecordAt(prev, ch, q), Block(q, comp, ph));
      assert AddComponent(acc, ch, cp, comp, ph) == prev.Put(q, v);
      DedupPut(prev, xs + init, q, v);
      Seqs.Snoc(cp);
      Seqs.AppendAssoc(xs, init, [q]);
    }
  }

  /** Appending elements that are already there leaves the distinct
      elements as they were. */
  lemma {:induction false} DedupAbsorb(xs: seq<string>, ys: seq<string>)
    requires forall y :: y in ys ==> y in xs
    ensures Dedup(xs + ys) == Dedup(xs)
  {
    if |ys| == 0 {
      assert xs + ys == xs;
    } else {
      var init := ys[..|ys| - 1];
      assert (xs + ys)[..|xs + ys| - 1] == xs + init;
      assert (xs + ys)[|xs + ys| - 1] == ys[|ys| - 1];
      DedupAbsorb(xs, init);
      DedupMembers(xs + init);
    }
  }

  /** The keys of the result: none without components, otherwise the
      distinct pronunciations of the character in their order. */
  lemma {:induction false} AddComponentsKeys(d: Tables, irregular: map<string, string>, ch: string, cp: seq<string>, comps: seq<string>)
    ensures AddComponents(d, irregular, Empty(), ch, cp, comps).keys == if |comps| == 0 then [] else Dedup(cp)
  {
    if |comps| > 0 {
      var init := comps[..|comps| - 1];
      var comp := comps[|comps| - 1];
      AddComponentsKeys(d, irregular, ch, cp, init);
      var prev := AddComponents(d, irregular, Empty(), ch, cp, init);
      if |init| == 0 {
        assert prev.keys == Dedup([]);
        AddComponentKeys(prev, ch, cp, comp, PinyinOf(d, irregular, comp), []);
        assert [] + cp == cp;
      } else {
        AddComponentKeys(prev, ch, cp, comp, PinyinOf(d, irregular, comp), cp);
        DedupAbsorb(cp, cp);
      }
    }
  }

  /** The record under a pronunciation `p` of the character lists, in
      order, the comparisons of every component against `p`, each
      component's repeated once per occurrence of `p`. */
  lemma {:induction false} AddComponentsAt(d: Tables, irregular: map<string, string>, ch: string, cp: seq<string>, comps: seq<string>, p: string)
    ensures p in AddComponents(d, irregular, Empty(), ch, cp, comps).values <==> p in cp && |comps| > 0
    ensures p in AddComponents(d, irregular, Empty(), ch, cp, comps).values ==>
      AddComponents(d, irregular, Empty(), ch, cp, comps).values[p] == RecordOf(ch, Cells(d, irregular, p, comps, Occurrences(cp, p)))
  {
    if |comps| > 0 {
      var init := comps[..|comps| - 1];
      var comp := comps[|comps| - 1];
      var ph := PinyinOf(d, irregular, comp);
      var prev := AddComponents(d, irregular, Empty(), ch, cp, init);
      AddComponentsAt(d, irregular, ch, cp, init, p);
      AddComponentHas(prev, ch, cp, comp, ph, p);
      if p in cp {
        AddComponentAt(prev, ch, cp, comp, ph, p);
      }
      var tail := Times(Block(p, comp, ph), Occurrences(cp, p));
      if p in cp {
        PushedAppend(Record(ch, [], [], []), Cells(d, irregular, p, init, Occurrences(cp, p)), tail);
        PushedFresh(ch, Cells(d, irregular, p, comps, Occurrences(cp, p)));
        if |init| > 0 {
          PushedFresh(ch, Cells(d, irregular, p, init, Occurrences(cp, p)));
        }
      }
    }
  }

  /** `determinePhoneticRegularity` in full: null exactly when the character
      has no pronunciation; otherwise no record without components, and
      else one record per distinct pronunciation `p` of the character, in
      first-occurrence order, holding the comparisons of every component
      against `p`. */
  lemma RegularityRecords(d: Tables, irregular: map<string, string>, ch: string, comps: seq<string>)
    ensures var r := Regularity(d, irregular, ch, comps);
      var cp := PinyinOf(d, irregular, ch);
      && (r.None? <==> cp.None?)
      && (r.Some? ==> r.value.keys == if |comps| == 0 then [] else Dedup(cp.value))
      && (r.Some? ==> forall p :: p in r.value.values <==> p in cp.value && |comps| > 0)
      && (r.Some? ==> forall p :: p in r.value.values ==>
            r.value.values[p] == RecordOf(ch, Cells(d, irregular, p, comps, Occurrences(cp.value, p))))
  {
    var cp := PinyinOf(d, irregular, ch);
    if cp.Some? {
      AddComponentsKeys(d, irregular, ch, cp.value, comps);
      forall p
        ensures p in AddComponents(d, irregular, Empty(), ch, cp.value, comps).values <==> p in cp.value && |comps| > 0
        ensures p in AddComponents(d, irregular, Empty(), ch, cp.value, comps).values ==>
          AddComponents(d, irregular, Empty(), ch, cp.value, comps).values[p]
            == RecordOf(ch, Cells(d, irregular, p, comps, Occurrences(cp.value, p)))
      {
        AddComponentsAt(d, irregular, ch, cp.value, comps, p);
      }
    }
  }

  // ---------------------------------------------------------------------
  // dictionarySearch

  /** The `only` pattern `^(c1|c2|...)+$`: a non-empty word made only of the
      query's characters. */
  predicate OnlyOf(word: string, query: string) {
    |word| > 0 && forall i :: 0 <= i < |word| ==> word[i] in query
  }

  /** The default pattern `[query]`: a word holding some character of the
      query. */
  predicate AnyOf(word: string, query: string) {
    exists i :: 0 <= i < |word| && word[i] in query
  }

  predicate Matches(word: string, query: string, only: bool) {
    if only then OnlyOf(word, query) else AnyOf(word, query)
  }

  /** The entry lists of the given keys of a table that match, in key
      order. */
  function Matching(o: Object<seq<DictEntry>>, keys: seq<string>, query: string, only: bool): (r: seq<seq<DictEntry>>)
    ensures |r| <= |keys|
  {
    if |keys| == 0 then []
    else
      var k := keys[|keys| - 1];
      Matching(o, keys[..|keys| - 1], query, only) + (if k in o.values && Matches(k, query, only) then [o.values[k]] else [])
  }

  /** A list is found exactly when it is the list of a matching key. */
  lemma {:induction false} MatchingMembers(o: Object<seq<DictEntry>>, keys: seq<string>, query: string, only: bool, x: seq<DictEntry>)
    ensures x in Matching(o, keys, query, only) <==>
      exists k :: k in keys && k in o.values && Matches(k, query, only) && o.values[k] == x
  {
    if |keys| > 0 {
      var init := keys[..|keys| - 1];
      var last := keys[|keys| - 1];
      assert keys == init + [last];
      MatchingMembers(o, init, query, only, x);
      if exists k :: k in keys && k in o.values && Matches(k, query, only) && o.values[k] == x {
        var k :| k in keys && k in o.values && Matches(k, query, only) && o.values[k] == x;
        if k != last {
          assert k in init;
        }
      }
    }
  }

  /** `dictionarySearch`: the matching lists of the simplified table, or,
      when there are none, those of the traditional table. */
  function SearchResult(d: Tables, query: string, only: bool): (r: seq<seq<DictEntry>>)
    ensures |Matching(d.simplified, d.simplified.keys, query, only)| > 0 ==> r == Matching(d.simplified, d.simplified.keys, query, only)
    ensures |Matching(d.simplified, d.simplified.keys, query, only)| == 0 ==> r == Matching(d.traditional, d.traditional.keys, query, only)
  {
    var found := Matching(d.simplified, d.simplified.keys, query, only);
    if |found| > 0 then found else Matching(d.traditional, d.traditional.keys, query, only)
  }

  /** On one table, the `only` scan keeps no more lists than the default
      scan, and each list it keeps the default scan keeps too: a word made
      only of query characters holds some query character. */
  lemma {:induction false} OnlyWithinAny(o: Object<seq<DictEntry>>, keys: seq<string>, query: string)
    ensures |Matching(o, keys, query, true)| <= |Matching(o, keys, query, false)|
    ensures forall x :: x in Matching(o, keys, query, true) ==> x in Matching(o, keys, query, false)
  {
    if |keys| > 0 {
      var k := keys[|keys| - 1];
      OnlyWithinAny(o, keys[..|keys| - 1], query);
      if OnlyOf(k, query) {
        assert k[0] in query;
      }
    }
  }

  // ---------------------------------------------------------------------
  // getCharacterFrequency

  /** What `getCharacterFrequency` returns: a record, or the message
      `'Character not found'`. */
  datatype FrequencyResult = Frequency(record: FreqRecord) | CharacterNotFound

  /** `getCharacterFrequency`: the record of the simplified form of the
      character's first dictionary entry when there is one, else the record
      of the character itself, else not found. */
  function CharacterFrequency(d: Tables, charfreq: map<string, FreqRecord>, character: string): (r: FrequencyResult)
    ensures var e := DefinitionLookup(d, character, None);
      var viaEntry := e.Some? && |e.value| > 0 && SimplifiedKey(e.value[0]) in charfreq;
      && (viaEntry ==> r == Frequency(charfreq[SimplifiedKey(e.value[0])]))
      && (!viaEntry && character in charfreq ==> r == Frequency(charfreq[character]))
      && (r == CharacterNotFound <==> !viaEntry && character !in charfreq)
  {
    var dictEntry := DefinitionLookup(d, character, None);
    if dictEntry.Some? && |dictEntry.value| > 0 then
      var key := SimplifiedKey(dictEntry.value[0]);
      if key in charfreq then Frequency(charfreq[key])
      else if character in charfreq then Frequency(charfreq[character])
      else CharacterNotFound
    else if character in charfreq then Frequency(charfreq[character])
    else CharacterNotFound
  }

  // ---------------------------------------------------------------------
  // segment: the longest-match segmenter over definitionLookup

  /** The dictionary the exported `segment` is built on: `definitionLookup`
      with no script, truthy when it finds a list. */
  function KnownWord(d: Tables): string -> bool {
    w => DefinitionLookup(d, w, None).Some?
  }

  /** The exported `segment` gives back its input when its pieces are
      concatenated, and every piece is a word of one of the two tables or a
      single character. */
  lemma SegmentWords(d: Tables, s: string)
    ensures Concat(Segmenter.Segmentation(KnownWord(d), s)) == s
    ensures var segs := Segmenter.Segmentation(KnownWord(d), s);
      forall i :: 0 <= i < |segs| ==>
        |segs[i]| == 1 || segs[i] in d.simplified.values || segs[i] in d.traditional.values
  {
    Segmenter.SegmentationConcat(KnownWord(d), s);
    Segmenter.SegmentationWords(KnownWord(d), s);
  }

  // ---------------------------------------------------------------------
  // The state

  class HanziDictionary {
    var dictionarysimplified: Object<seq<DictEntry>>
    var dictionarytraditional: Object<seq<DictEntry>>
    var irregularphonetics: map<string, string>
    var charfreq: map<string, FreqRecord>

    /** The two dictionary tables. */
    function Store(): Tables
      reads this
    {
      Tables(dictionarysimplified, dictionarytraditional)
    }

    /** The state before `start`: empty tables. */
    constructor ()
      ensures Store() == Tables(Empty(), Empty()) && irregularphonetics == map[] && charfreq == map[]
    {
      dictionarysimplified := Empty();
      dictionarytraditional := Empty();
      irregularphonetics := map[];
      charfreq := map[];
    }

    /** `start`: the irregular pronunciations and the frequency data are
        read, then the CC-CEDICT lines from line 30 on are grouped into the
        two tables. */
    method Start(cedictLines: seq<string>, irregularLines: seq<string>, frequencyLines: seq<string>)
      requires EndsCleanly(Entries(cedictLines))
      modifies this
      ensures irregularphonetics == IrregularAfter(old(irregularphonetics), irregularLines)
      ensures charfreq == CharFreqAfter(old(charfreq), frequencyLines)
      ensures Store() == Load(old(Store()), Entries(cedictLines), StartingLine)
    {
      LoadIrregularPhonetics(irregularLines);
      LoadFrequencyData(frequencyLines);
      LoadDictionary(cedictLines);
    }

    /** `loadIrregularPhonetics` */
    method LoadIrregularPhonetics(lines: seq<string>)
      modifies this
      ensures irregularphonetics == IrregularAfter(old(irregularphonetics), lines)
      ensures Store() == old(Store()) && charfreq == old(charfreq)
    {
      var i := 0;
      while i < |lines|
        invariant 0 <= i <= |lines|
        invariant irregularphonetics == IrregularAfter(old(irregularphonetics), lines[..i])
        invariant Store() == old(Store()) && charfreq == old(charfreq)
      {
        Seqs.TakeTake(lines, i);
        var splits := Split(lines[i], ':');
        if |splits| >= 2 {
          irregularphonetics := irregularphonetics[splits[0] := splits[1]];
        } else {
          irregularphonetics := irregularphonetics - {splits[0]};
        }
        i := i + 1;
      }
      Seqs.TakeAll(lines);
    }

    /** The character part of `loadFrequencyData`: each line's record is
        stored under its character. */
    method LoadFrequencyData(lines: seq<string>)
      modifies this
      ensures charfreq == CharFreqAfter(old(charfreq), lines)
      ensures Store() == old(Store()) && irregularphonetics == old(irregularphonetics)
    {
      var i := 0;
      while i < |lines|
        invariant 0 <= i <= |lines|
        invariant charfreq == CharFreqAfter(old(charfreq), lines[..i])
        invariant Store() == old(Store()) && irregularphonetics == old(irregularphonetics)
      {
        Seqs.TakeTake(lines, i);
        charfreq := charfreq[FreqKey(lines[i]) := FreqRecordOf(lines[i])];
        i := i + 1;
      }
      Seqs.TakeAll(lines);
    }

    /** The CC-CEDICT loop of `start`: from line 30 on, a run of lines with
        the same two forms is collected and appended to the list under its
        simplified form and to the list under its traditional form. Every
        line is read into its entry up front (`getElements` has no side
        effects), and the keys `nextCharTraditional` and
        `nextCharSimplified` read are those of the entries (`NextKeyAt`). */
    method LoadDictionary(lines: seq<string>)
      requires EndsCleanly(Entries(lines))
      modifies this
      ensures Store() == Load(old(Store()), Entries(lines), StartingLine)
      ensures irregularphonetics == old(irregularphonetics) && charfreq == old(charfreq)
    {
      var es := Entries(lines);
      LoadEntries(es);
    }

    /** The grouping loop over the entries of the lines. */
    method LoadEntries(es: seq<DictEntry>)
      requires EndsCleanly(es)
      modifies this
      ensures Store() == Load(old(Store()), es, StartingLine)
      ensures irregularphonetics == old(irregularphonetics) && charfreq == old(charfreq)
    {
      ghost var target := Load(Store(), es, StartingLine);
      var i := StartingLine;
      while i < |es|
        invariant StartingLine <= i
        invariant LoadsTo(Store(), es, i, target)
        invariant irregularphonetics == old(irregularphonetics) && charfreq == old(charfreq)
        decreases |es| - i
      {
        i := LoadGroupAt(es, i, target);
      }
      LoadEnd(Store(), es, i, target);
    }

    /** One round of the grouping loop: the group starting at entry `i` is
        read and stored, and the loop goes on after its last entry. */
    method LoadGroupAt(es: seq<DictEntry>, i: nat, ghost target: Tables) returns (next: nat)
      requires EndsCleanly(es) && StartingLine <= i < |es| && LoadsTo(Store(), es, i, target)
      modifies this
      ensures i < next && LoadsTo(Store(), es, next, target)
      ensures irregularphonetics == old(irregularphonetics) && charfreq == old(charfreq)
    {
      var multiplearray, last := ReadGroup(es, i);
      StoreGroup(multiplearray);
      LoadAdvance(old(Store()), Store(), es, i, last, multiplearray, target);
      next := last + 1;
    }

    /** The group of `start` beginning at entry `i`: that entry and each
        following one with the same two forms. */
    static method ReadGroup(es: seq<DictEntry>, i: nat) returns (multiplearray: seq<DictEntry>, last: nat)
      requires EndsCleanly(es) && StartingLine <= i < |es|
      ensures last == GroupEnd(es, i, i)
      ensures multiplearray == es[i..last + 1]
    {
      multiplearray := [es[i]];
      last := i;
      while EntryKey(multiplearray[0]) == KeyAt(es, last + 1)
        invariant i <= last < |es|
        invariant multiplearray == es[i..last + 1]
        invariant EntryKey(es[last]) == EntryKey(es[i])
        invariant GroupEnd(es, i, i) == GroupEnd(es, i, last)
        decreases |es| - last
      {
        GroupGrows(es, i, last);
        multiplearray := multiplearray + [es[last + 1]];
        last := last + 1;
      }
    }

    /** The two table updates of `start` for one group: it is appended to
        the list under its simplified form and to the list under its
        traditional form, each created when absent. */
    method StoreGroup(multiplearray: seq<DictEntry>)
      requires |multiplearray| > 0
      modifies this
      ensures Store() == InsertGroup(old(Store()), multiplearray)
      ensures irregularphonetics == old(irregularphonetics) && charfreq == old(charfreq)
    {
      var sk := SimplifiedKey(multiplearray[0]);
      if sk in dictionarysimplified.values {
        var newMultipleArray := PushAll(dictionarysimplified.values[sk], multiplearray);
        dictionarysimplified := dictionarysimplified.Put(sk, newMultipleArray);
      } else {
        assert Lookup(dictionarysimplified, sk) + multiplearray == multiplearray;
        dictionarysimplified := dictionarysimplified.Put(sk, multiplearray);
      }
      var tk := multiplearray[0].traditional;
      if tk in dictionarytraditional.values {
        var newMultipleArray := PushAll(dictionarytraditional.values[tk], multiplearray);
        dictionarytraditional := dictionarytraditional.Put(tk, newMultipleArray);
      } else {
        assert Lookup(dictionarytraditional, tk) + multiplearray == multiplearray;
        dictionarytraditional := dictionarytraditional.Put(tk, multiplearray);
      }
    }

    /** `getPinyin`: the pronunciations of the character's simplified
        entries, else of its traditional entries, else its irregular
        pronunciation, else `_stroke` or `_number`, else null. */
    method GetPinyin(character: string) returns (r: Option<seq<string>>)
      ensures r == PinyinOf(Store(), irregularphonetics, character)
      ensures character in dictionarysimplified.values ==>
        (r.Some? && |r.value| == |dictionarysimplified.values[character]|
         && forall i :: 0 <= i < |r.value| ==> r.value[i] == dictionarysimplified.values[character][i].pinyin)
    {
      if character in dictionarysimplified.values {
        var pinyinarray := PinyinArray(dictionarysimplified.values[character]);
        return Some(pinyinarray);
      }
      if character in dictionarytraditional.values {
        var pinyinarray := PinyinArray(dictionarytraditional.values[character]);
        return Some(pinyinarray);
      }
      if character in irregularphonetics {
        return Some([irregularphonetics[character]]);
      }
      if HasStroke(character) {
        return Some(["_stroke"]);
      }
      if Decomposer.IsNumericId(character) {
        return Some(["_number"]);
      }
      return None;
    }

    /** `determinePhoneticRegularity` on a decomposition object: every
        pronunciation of the character against every pronunciation of every
        component of the once view, then of the radical view. */
    method DeterminePhoneticRegularity(decomposition: Decomposer.Decomposition) returns (r: Option<Object<Record>>)
      requires decomposition.Views?
      ensures r == Regularity(Store(), irregularphonetics, decomposition.character,
                              decomposition.components1 + decomposition.components2)
    {
      var ch := decomposition.character;
      var charpinyin := GetPinyin(ch);
      if charpinyin.None? {
        return None;
      }
      var cp := charpinyin.value;
      var regularityarray: Object<Record> := Empty();
      regularityarray := CompareComponents(regularityarray, ch, cp, decomposition.components1);
      regularityarray := CompareComponents(regularityarray, ch, cp, decomposition.components2);
      AddComponentsAppend(Store(), irregularphonetics, Empty(), ch, cp, decomposition.components1, decomposition.components2);
      return Some(regularityarray);
    }

    /** One of the two component loops of `determinePhoneticRegularity`. */
    method CompareComponents(acc: Object<Record>, ch: string, cp: seq<string>, comps: seq<string>) returns (r: Object<Record>)
      ensures r == AddComponents(Store(), irregularphonetics, acc, ch, cp, comps)
    {
      r := acc;
      var k := 0;
      while k < |comps|
        invariant 0 <= k <= |comps|
        invariant r == AddComponents(Store(), irregularphonetics, acc, ch, cp, comps[..k])
      {
        var phoneticpinyin := GetPinyin(comps[k]);
        Seqs.TakeTake(comps, k);
        r := CompareComponent(r, ch, cp, comps[k], phoneticpinyin);
        k := k + 1;
      }
      Seqs.TakeAll(comps);
    }
    /** `dictionarySearch(character, type)`: type `only` keeps the words made
        only of the query's characters, any other type the words holding
        one of them; the traditional table is searched only when the
        simplified one gives nothing. */
    method DictionarySearch(character: string, searchType: Option<string>) returns (search: seq<seq<DictEntry>>)
      requires searchType == Some("only") ==> |character| > 0
      ensures search == SearchResult(Store(), character, searchType == Some("only"))
    {
      var only := searchType == Some("only");
      search := SearchTable(dictionarysimplified, character, only);
      if |search| == 0 {
        search := SearchTable(dictionarytraditional, character, only);
      }
    }
  }

  /** The grouping loop cannot run off the end of a file that ends
      cleanly: a key shared with the next line is the key of a real line. */
  lemma GroupGrows(es: seq<DictEntry>, i: nat, last: nat)
    requires EndsCleanly(es) && StartingLine <= i <= last < |es|
    requires EntryKey(es[last]) == EntryKey(es[i]) && KeyAt(es, last + 1) == EntryKey(es[i])
    ensures last + 1 < |es| && EntryKey(es[last + 1]) == EntryKey(es[i])
    ensures es[i..last + 2] == es[i..last + 1] + [es[last + 1]]
  {
  }

  /** The components of the once view and then those of the radical
      view. */
  lemma {:induction false} AddComponentsAppend(d: Tables, irregular: map<string, string>, acc: Object<Record>, ch: string, cp: seq<string>,
                                               a: seq<string>, b: seq<string>)
    ensures AddComponents(d, irregular, AddComponents(d, irregular, acc, ch, cp, a), ch, cp, b)
      == AddComponents(d, irregular, acc, ch, cp, a + b)
  {
    if |b| == 0 {
      assert a + b == a;
    } else {
      assert (a + b)[..|a + b| - 1] == a + b[..|b| - 1];
      AddComponentsAppend(d, irregular, acc, ch, cp, a, b[..|b| - 1]);
    }
  }

  /** The loop over the character's pronunciations for one component: the
      record of each pronunciation is created when missing and gets the
      component's comparisons, one per pronunciation of the component, or a
      null one when it has none. */
  method CompareComponent(acc: Object<Record>, ch: string, cp: seq<string>, comp: string, phoneticpinyin: Option<seq<string>>)
    returns (r: Object<Record>)
    ensures r == AddComponent(acc, ch, cp, comp, phoneticpinyin)
  {
    r := acc;
    var i := 0;
    while i < |cp|
      invariant 0 <= i <= |cp|
      invariant r == AddComponent(acc, ch, cp[..i], comp, phoneticpinyin)
    {
      Seqs.TakeTake(cp, i);
      var p := cp[i];
      var rec: Record;
      if p !in r.values {
        rec := Record(ch, [], [], []);
      } else {
        rec := r.values[p];
      }
      if phoneticpinyin.None? {
        assert Block(p, comp, phoneticpinyin)[..0] == [];
        rec := Record(rec.character, rec.component + [comp], rec.phoneticpinyin + [None], rec.regularity + [None]);
      } else {
        rec := PushComparisons(rec, p, comp, phoneticpinyin.value);
      }
      r := r.Put(p, rec);
      AddComponentStep(acc, ch, cp, i, comp, phoneticpinyin);
      i := i + 1;
    }
    Seqs.TakeAll(cp);
  }

  /** The innermost loop of `determinePhoneticRegularity`: one comparison
      of pronunciation `p` against each pronunciation of the component. */
  method PushComparisons(rec: Record, p: string, comp: string, phoneticpinyin: seq<string>) returns (r: Record)
    ensures r == Pushed(rec, Block(p, comp, Some(phoneticpinyin)))
  {
    ghost var b := Block(p, comp, Some(phoneticpinyin));
    r := rec;
    var j := 0;
    while j < |phoneticpinyin|
      invariant 0 <= j <= |phoneticpinyin|
      invariant r == Pushed(rec, b[..j])
    {
      Seqs.TakeTake(b, j);
      var ph := phoneticpinyin[j];
      var score := RegularityScale(Some(p), Some(ph));
      assert b[j] == Cell(comp, Some(ph), score);
      r := Record(r.character, r.component + [comp], r.phoneticpinyin + [Some(ph)], r.regularity + [score]);
      j := j + 1;
    }
    Seqs.TakeAll(b);
  }

  /** `push` of every element of `group`, one by one. */
  method PushAll(list: seq<DictEntry>, group: seq<DictEntry>) returns (r: seq<DictEntry>)
    ensures r == list + group
  {
    r := list;
    var j := 0;
    while j < |group|
      invariant 0 <= j <= |group|
      invariant r == list + group[..j]
    {
      Seqs.TakeTake(group, j);
      r := r + [group[j]];
      j := j + 1;
    }
    Seqs.TakeAll(group);
  }

  /** The index loop of `getPinyin` over some entries. */
  method PinyinArray(entries: seq<DictEntry>) returns (pinyinarray: seq<string>)
    ensures pinyinarray == Pinyins(entries)
  {
    pinyinarray := [];
    var i := 0;
    while i < |entries|
      invariant 0 <= i <= |entries|
      invariant |pinyinarray| == i
      invariant forall k :: 0 <= k < i ==> pinyinarray[k] == entries[k].pinyin
    {
      pinyinarray := pinyinarray + [entries[i].pinyin];
      i := i + 1;
    }
  }

  /** One scan of `dictionarySearch` over a table, in key order. */
  method SearchTable(o: Object<seq<DictEntry>>, query: string, only: bool) returns (search: seq<seq<DictEntry>>)
    ensures search == Matching(o, o.keys, query, only)
  {
    search := [];
    var i := 0;
    while i < |o.keys|
      invariant 0 <= i <= |o.keys|
      invariant search == Matching(o, o.keys[..i], query, only)
    {
      var word := o.keys[i];
      Seqs.TakeTake(o.keys, i);
      if word in o.values && Matches(word, query, only) {
        search := search + [o.values[word]];
      }
      i := i + 1;
    }
    Seqs.TakeAll(o.keys);
  }
}
