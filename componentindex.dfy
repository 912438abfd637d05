/** The reverse index of lib/hanzidecomposer.js (`characterswithcomponent`):
    for each component, the corpus characters that use it, as built by
    `compileAllComponents` and read by `getCharactersWithComponent`. */
module ComponentIndex {
  import opened Wrappers
  import opened JsStrings
  import opened Objects
  import opened Decomposer
  import Seqs

  /** Component to characters; only the order inside each list matters. */
  type Index = map<string, seq<string>>

  /** The list under a component, the empty list when there is none. */
  function Lookup(idx: Index, k: string): (r: seq<string>)
    ensures k in idx ==> r == idx[k]
    ensures k !in idx ==> r == []
  {
    if k in idx then idx[k] else []
  }

  /** The strokes the radical view never indexes: the character class of the
      source's `search` pattern. */
  const Primitives: set<char> := {'一', '丨', '丶', '⺀', '丿', '乙', '⺃', '乚', '⺄', '亅', '丷'}

  /** `component.search(pattern) != -1` */
  predicate HasPrimitive(s: string) {
    exists i :: 0 <= i < |s| && s[i] in Primitives
  }

  /** A component of the once view is indexed unless it is the no-glyph mark. */
  predicate OnceIndexed(k: string) {
    k != NoGlyph
  }

  /** A component of the radical view is indexed unless it is the no-glyph
      mark or contains a primitive stroke. */
  predicate RadicalIndexed(k: string) {
    k != NoGlyph && !HasPrimitive(k)
  }

  /** `n` copies of `x`. */
  function Repeat(x: string, n: nat): (r: seq<string>)
    ensures |r| == n
    ensures forall i :: 0 <= i < n ==> r[i] == x
  {
    if n == 0 then [] else Repeat(x, n - 1) + [x]
  }

  /** The first inner loop: every indexed component of the once view gets
      the character appended, once per occurrence. */
  function AddOnceView(idx: Index, comps: seq<string>, ch: string): Index {
    if |comps| == 0 then idx
    else
      var prev := AddOnceView(idx, comps[..|comps| - 1], ch);
      var k := comps[|comps| - 1];
      if OnceIndexed(k) then prev[k := Lookup(prev, k) + [ch]] else prev
  }

  /** The second inner loop: every indexed component of the radical view
      gets the character appended unless its list already holds it. */
  function AddRadicalView(idx: Index, comps: seq<string>, ch: string): Index {
    if |comps| == 0 then idx
    else
      var prev := AddRadicalView(idx, comps[..|comps| - 1], ch);
      var k := comps[|comps| - 1];
      if RadicalIndexed(k) && ch !in Lookup(prev, k) then prev[k := Lookup(prev, k) + [ch]] else prev
  }

  /** The once view adds exactly its indexed components as keys. */
  lemma {:induction false} AddOnceViewKeys(idx: Index, comps: seq<string>, ch: string, k: string)
    ensures k in AddOnceView(idx, comps, ch) <==> k in idx || (OnceIndexed(k) && k in comps)
  {
    if |comps| > 0 {
      var init := comps[..|comps| - 1];
      assert comps == init + [comps[|comps| - 1]];
      assert k in comps <==> k in init || k == comps[|comps| - 1];
      AddOnceViewKeys(idx, init, ch, k);
    }
  }


  /** The once view appends the character to each indexed component as often
      as the component occurs, and touches nothing else. */
  lemma {:induction false} AddOnceViewClosed(idx: Index, comps: seq<string>, ch: string, k: string)
    ensures Lookup(AddOnceView(idx, comps, ch), k) ==
      if OnceIndexed(k) then Lookup(idx, k) + Repeat(ch, Occurrences(comps, k)) else Lookup(idx, k)
  {
    if |comps| > 0 {
      var init := comps[..|comps| - 1];
      AddOnceViewClosed(idx, init, ch, k);
      if OnceIndexed(k) && k == comps[|comps| - 1] {
        assert Lookup(idx, k) + Repeat(ch, Occurrences(init, k)) + [ch] == Lookup(idx, k) + Repeat(ch, Occurrences(comps, k));
      }
    }
  }

  /** The radical view appends the character once to each indexed component
      it names whose list does not yet hold it, and touches nothing else. */
  lemma {:induction false} AddRadicalViewClosed(idx: Index, comps: seq<string>, ch: string, k: string)
    ensures k in AddRadicalView(idx, comps, ch) <==> k in idx || (RadicalIndexed(k) && k in comps)
    ensures Lookup(AddRadicalView(idx, comps, ch), k) ==
      if RadicalIndexed(k) && k in comps && ch !in Lookup(idx, k) then Lookup(idx, k) + [ch] else Lookup(idx, k)
  {
    if |comps| > 0 {
      var init := comps[..|comps| - 1];
      var last := comps[|comps| - 1];
      assert comps == init + [last];
      assert k in comps <==> k in init || k == last;
      AddRadicalViewClosed(idx, init, ch, k);
    }
  }

  /** The character a corpus line names: its second tab-separated field,
      the text after the first tab up to the next tab or the end. */
  function CorpusCharacter(line: string): (r: string)
    requires '\t' in line
    ensures '\t' !in r
    ensures r <= line[IndexOf(line, '\t') + 1..]
    ensures |r| < |line[IndexOf(line, '\t') + 1..]| ==> line[IndexOf(line, '\t') + 1..][|r|] == '\t'
  {
    SplitSecond(line, '\t');
    Split(line, '\t')[1]
  }

  /** The second piece of a split is the text after the first separator, up
      to the next one. */
  lemma SplitSecond(s: string, sep: char)
    requires sep in s
    ensures |Split(s, sep)| >= 2
    ensures Split(s, sep)[1] <= s[IndexOf(s, sep) + 1..]
    ensures |Split(s, sep)[1]| < |s[IndexOf(s, sep) + 1..]| ==> s[IndexOf(s, sep) + 1..][|Split(s, sep)[1]|] == sep
  {
    var k := IndexOf(s, sep);
    var rest := s[k + 1..];
    assert Split(s, sep) == [s[..k]] + Split(rest, sep);
    var r := Split(rest, sep)[0];
    assert Split(s, sep)[1] == r;
    if sep in rest {
      var j := IndexOf(rest, sep);
      assert r == rest[..j] && rest[j] == sep;
    } else {
      assert r == rest;
    }
  }

  /** Every corpus line has a tab; the source fails with a TypeError on a
      line without one. */
  predicate CorpusLines(lines: seq<string>) {
    forall i :: 0 <= i < |lines| ==> '\t' in lines[i]
  }

  /** The character of each corpus line, in order. */
  function Corpus(lines: seq<string>): (r: seq<string>)
    requires CorpusLines(lines)
    ensures |r| == |lines|
    ensures forall i :: 0 <= i < |lines| ==> r[i] == CorpusCharacter(lines[i])
  {
    seq(|lines|, i requires 0 <= i < |lines| && CorpusLines(lines) => CorpusCharacter(lines[i]))
  }

  /** Every character's full decomposition succeeds: the source fails with a
      TypeError on a blank character, and with a RangeError where the
      graphical recursion does not end. */
  ghost predicate Indexable(t: Table, radicals: Radicals, rank: map<string, nat>, chars: seq<string>)
    requires Ranked(t, rank)
  {
    forall i :: 0 <= i < |chars| ==> Decompose(t, radicals, rank, chars[i], None).Views?
  }

  /** A corpus character with its full decomposition. */
  type Item = (string, Decomposition)

  /** Each character paired with `decompose(character)`. */
  function Items(t: Table, radicals: Radicals, ghost rank: map<string, nat>, chars: seq<string>): (r: seq<Item>)
    requires Ranked(t, rank)
    ensures |r| == |chars|
    ensures forall i :: 0 <= i < |chars| ==> r[i] == (chars[i], Decompose(t, radicals, rank, chars[i], None))
  {
    seq(|chars|, i requires 0 <= i < |chars| && Ranked(t, rank) => (chars[i], Decompose(t, radicals, rank, chars[i], None)))
  }

  /** The component `k` is indexed for a decomposition: it is an indexed part
      of its once view or of its radical view. */
  predicate Indexes(d: Decomposition, k: string) {
    d.Views? && ((OnceIndexed(k) && k in d.components1) || (RadicalIndexed(k) && k in d.components2))
  }

  /** The index after one corpus character: both inner loops in turn. A
      character without views (which the source never reaches) leaves the
      index as it is. */
  function IndexCharacter(idx: Index, d: Decomposition, ch: string): Index {
    if d.Views? then AddRadicalView(AddOnceView(idx, d.components1, ch), d.components2, ch) else idx
  }

  /** The index after every item in order. */
  function IndexAll(idx: Index, items: seq<Item>): Index
  {
    if |items| == 0 then idx
    else
      var last := items[|items| - 1];
      IndexCharacter(IndexAll(idx, items[..|items| - 1]), last.1, last.0)
  }

  /** `compileAllComponents`: the index after every corpus character in
      order. */
  function BuildIndex(idx: Index, t: Table, radicals: Radicals, ghost rank: map<string, nat>, chars: seq<string>): Index
    requires Ranked(t, rank) && Indexable(t, radicals, rank, chars)
  {
    IndexAll(idx, Items(t, radicals, rank, chars))
  }

  /** No component list is ever shortened or reordered: lists only grow at
      their end. */
  lemma {:induction false} IndexCharacterGrows(idx: Index, d: Decomposition, ch: string, k: string)
    ensures Lookup(idx, k) <= Lookup(IndexCharacter(idx, d, ch), k)
  {
    if !d.Views? { return; }
    AddOnceViewClosed(idx, d.components1, ch, k);
    AddRadicalViewClosed(AddOnceView(idx, d.components1, ch), d.components2, ch, k);
  }

  /** After one character, a component's list holds that character if and
      only if the component was indexed in one of its two views, or the list
      held it already. */
  lemma {:induction false} IndexCharacterMembers(idx: Index, d: Decomposition, ch: string, k: string, x: string)
    ensures x in Lookup(IndexCharacter(idx, d, ch), k) <==> x in Lookup(idx, k) || (x == ch && Indexes(d, k))
  {
    if !d.Views? { return; }
    var mid := AddOnceView(idx, d.components1, ch);
    AddOnceViewClosed(idx, d.components1, ch, k);
    AddRadicalViewClosed(mid, d.components2, ch, k);
    if OnceIndexed(k) && k in d.components1 {
      assert Repeat(ch, Occurrences(d.components1, k))[0] == ch;
      assert ch in Lookup(mid, k);
    }
    if x in Lookup(mid, k) && OnceIndexed(k) {
      var r := Repeat(ch, Occurrences(d.components1, k));
      assert x in Lookup(idx, k) + r;
      assert x in Lookup(idx, k) || x in r;
    }
  }

  /** The no-glyph mark never becomes a key of the index. */
  lemma {:induction false} NoGlyphNeverIndexed(idx: Index, items: seq<Item>)
    requires NoGlyph !in idx
    ensures NoGlyph !in IndexAll(idx, items)
  {
    if |items| > 0 {
      var init := items[..|items| - 1];
      var last := items[|items| - 1];
      NoGlyphNeverIndexed(idx, init);
      var prev := IndexAll(idx, init);
      if !last.1.Views? { return; }
      AddOnceViewKeys(prev, last.1.components1, last.0, NoGlyph);
      AddRadicalViewClosed(AddOnceView(prev, last.1.components1, last.0), last.1.components2, last.0, NoGlyph);
    }
  }

  /** A string is listed under a component exactly when it was listed
      before, or it is the character of an item whose decomposition indexes
      that component. */
  lemma {:induction false} IndexAllMembers(idx: Index, items: seq<Item>, k: string, x: string)
    ensures x in Lookup(IndexAll(idx, items), k) <==>
      x in Lookup(idx, k) || exists i :: 0 <= i < |items| && items[i].0 == x && Indexes(items[i].1, k)
  {
    if |items| > 0 {
      var init := items[..|items| - 1];
      var last := items[|items| - 1];
      IndexAllMembers(idx, init, k, x);
      IndexCharacterMembers(IndexAll(idx, init), last.1, last.0, k, x);
      if exists i :: 0 <= i < |items| && items[i].0 == x && Indexes(items[i].1, k) {
        var i :| 0 <= i < |items| && items[i].0 == x && Indexes(items[i].1, k);
        if i < |init| {
          assert init[i] == items[i];
        }
      }
      if exists i :: 0 <= i < |init| && init[i].0 == x && Indexes(init[i].1, k) {
        var i :| 0 <= i < |init| && init[i].0 == x && Indexes(init[i].1, k);
        assert items[i] == init[i];
      }
    }
  }

  /** After the whole corpus, a character is listed under a component
      exactly when it is one of the corpus characters and the component is
      indexed in its once or radical view (or it was listed before). */
  lemma BuildIndexMembers(idx: Index, t: Table, radicals: Radicals, rank: map<string, nat>, chars: seq<string>, k: string, x: string)
    requires Ranked(t, rank) && Indexable(t, radicals, rank, chars)
    ensures x in Lookup(BuildIndex(idx, t, radicals, rank, chars), k) <==>
      x in Lookup(idx, k) || (x in chars && Indexes(Decompose(t, radicals, rank, x, None), k))
  {
    var items := Items(t, radicals, rank, chars);
    IndexAllMembers(idx, items, k, x);
    if x in chars && Indexes(Decompose(t, radicals, rank, x, None), k) {
      var i :| 0 <= i < |chars| && chars[i] == x;
      assert items[i].0 == x;
    }
  }

  /** `unique(array_list, token)` */
  method Unique(list: seq<string>, token: string) returns (unique: bool)
    ensures unique <==> token !in list
  {
    unique := true;
    var i := 0;
    while i < |list|
      invariant 0 <= i <= |list|
      invariant unique <==> token !in list[..i]
    {
      Seqs.TakeTake(list, i);
      if list[i] == token {
        unique := false;
      }
      i := i + 1;
    }
    Seqs.TakeAll(list);
  }

  /** The radicals, in the radical list's order, that have the same meaning
      as `radical`; none when `radical` is not a radical. */
  function SameMeaning(radicals: Radicals, keys: seq<string>, radical: string): (r: seq<string>)
    ensures forall x :: x in r <==> x in keys && x in radicals.values && radicals.Get(radical) == Some(radicals.values[x])
    ensures |r| <= |keys|
  {
    if |keys| == 0 then []
    else
      var prev := SameMeaning(radicals, keys[..|keys| - 1], radical);
      var x := keys[|keys| - 1];
      assert keys == keys[..|keys| - 1] + [x];
      if x in radicals.values && radicals.Get(radical) == Some(radicals.values[x]) then prev + [x] else prev
  }

  /** One more key of the list adds that key when it shares the meaning. */
  lemma SameMeaningGrow(radicals: Radicals, keys: seq<string>, i: nat, radical: string)
    requires i < |keys|
    ensures SameMeaning(radicals, keys[..i + 1], radical)
         == SameMeaning(radicals, keys[..i], radical)
            + if keys[i] in radicals.values && radicals.Get(radical) == Some(radicals.values[keys[i]]) then [keys[i]] else []
  {
    Seqs.TakeTake(keys, i);
  }

  /** The same-meaning radicals are a filter of the key list: the selection
      of a concatenation is the selections one after the other, so the
      radical list's order is kept. */
  lemma {:induction false} SameMeaningAppend(radicals: Radicals, a: seq<string>, b: seq<string>, radical: string)
    ensures SameMeaning(radicals, a + b, radical) == SameMeaning(radicals, a, radical) + SameMeaning(radicals, b, radical)
    decreases |b|
  {
    if |b| == 0 {
      assert a + b == a;
    } else {
      var init := b[..|b| - 1];
      assert (a + b)[..|a + b| - 1] == a + init;
      assert (a + b)[|a + b| - 1] == b[|b| - 1];
      SameMeaningAppend(radicals, a, init, radical);
    }
  }

  /** A single key is selected exactly when it shares the meaning. */
  lemma SameMeaningOne(radicals: Radicals, k: string, radical: string)
    ensures SameMeaning(radicals, [k], radical)
         == if k in radicals.values && radicals.Get(radical) == Some(radicals.values[k]) then [k] else []
  {
    assert [k][..0] == [];
  }

  /** A radical is among the radicals that share its meaning. */
  lemma SameMeaningHasItself(radicals: Radicals, radical: string)
    requires radicals.Valid() && IsRadical(radicals, radical)
    ensures radical in SameMeaning(radicals, radicals.keys, radical)
  {
  }

  /** The lists of the given components, one after the other; a component
      without a list adds nothing. */
  function Gathered(idx: Index, comps: seq<string>): seq<string> {
    if |comps| == 0 then []
    else Gathered(idx, comps[..|comps| - 1]) + Lookup(idx, comps[|comps| - 1])
  }

  /** A string is gathered exactly when one of the components lists it. */
  lemma {:induction false} GatheredMembers(idx: Index, comps: seq<string>, x: string)
    ensures x in Gathered(idx, comps) <==> exists i :: 0 <= i < |comps| && x in Lookup(idx, comps[i])
  {
    if |comps| > 0 {
      var init := comps[..|comps| - 1];
      GatheredMembers(idx, init, x);
      assert forall i :: 0 <= i < |init| ==> init[i] == comps[i];
      if exists i :: 0 <= i < |comps| && x in Lookup(idx, comps[i]) {
        var i :| 0 <= i < |comps| && x in Lookup(idx, comps[i]);
        if i < |init| {
          assert x in Lookup(idx, init[i]);
        }
      }
    }
  }

  /** What `getCharactersWithComponent` returns: a list of characters, or
      the message string for an unindexed component. */
  datatype Found = Characters(characters: seq<string>) | NotFound(message: string)

  /** `getCharactersWithComponent`: for a radical, the characters of every
      radical that shares its meaning (possibly none); otherwise the list of
      the component itself, or `component + ' not found'`. */
  function CharactersWithComponent(idx: Index, radicals: Radicals, component: string): (r: Found)
    ensures r.NotFound? <==> !IsRadical(radicals, component) && component !in idx
    ensures r.NotFound? ==> r.message == component + " not found"
    ensures !IsRadical(radicals, component) && component in idx ==> r == Characters(idx[component])
  {
    if IsRadical(radicals, component) then Characters(Gathered(idx, SameMeaning(radicals, radicals.keys, component)))
    else if component in idx then Characters(idx[component])
    else NotFound(component + " not found")
  }

  /** For a radical, a character is found exactly when it is listed under
      some radical with the same meaning. */
  lemma RadicalCharacters(idx: Index, radicals: Radicals, component: string, x: string)
    requires radicals.Valid() && IsRadical(radicals, component)
    ensures CharactersWithComponent(idx, radicals, component).Characters?
    ensures x in CharactersWithComponent(idx, radicals, component).characters <==>
      exists r :: r in radicals.values && radicals.values[r] == radicals.values[component] && x in Lookup(idx, r)
  {
    var same := SameMeaning(radicals, radicals.keys, component);
    GatheredMembers(idx, same, x);
    if x in Gathered(idx, same) {
      var i :| 0 <= i < |same| && x in Lookup(idx, same[i]);
      assert same[i] in same;
    }
    if exists r :: r in radicals.values && radicals.values[r] == radicals.values[component] && x in Lookup(idx, r) {
      var r :| r in radicals.values && radicals.values[r] == radicals.values[component] && x in Lookup(idx, r);
      assert r in same;
      var i :| 0 <= i < |same| && same[i] == r;
    }
  }
}
