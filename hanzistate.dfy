/** The module-level state of lib/hanzidecomposer.js: the component table,
    the radical list and the reverse index, filled by `start` and
    `compileAllComponents` and read by `getCharactersWithComponent`. The
    decomposition queries themselves are the functions of `Decomposer`,
    applied to `characters` and `radicals`. */
module HanziState {
  import opened Wrappers
  import opened JsStrings
  import opened Objects
  import opened CjkDecomp
  import opened Decomposer
  import opened ComponentIndex
  import Seqs

  class HanziDecomposer {
    var characters: Table
    var radicals: Radicals
    var characterswithcomponent: Index
    /** The witness that `characters` is acyclic. */
    ghost var rank: map<string, nat>

    /** The state before `start`: three empty objects. */
    constructor()
      ensures characters == map[] && radicals == Empty() && characterswithcomponent == map[]
    {
      characters := map[];
      radicals := Empty();
      characterswithcomponent := map[];
      rank := map[];
    }

    /** `start`: the decomposition data is parsed into `characters` line by
        line, the radical list is installed, and the corpus is indexed. */
    method Start(cjkLines: seq<string>, radicalList: Radicals, jundaLines: seq<string>, ghost newRank: map<string, nat>)
      requires forall i :: 0 <= i < |cjkLines| ==> Parsable(cjkLines[i])
      requires Ranked(LoadTable(characters, Rows(cjkLines)), newRank)
      requires CorpusLines(jundaLines)
      requires Indexable(LoadTable(characters, Rows(cjkLines)), radicalList, newRank, Corpus(jundaLines))
      modifies this
      ensures characters == LoadTable(old(characters), Rows(cjkLines))
      ensures radicals == radicalList && rank == newRank
      ensures characterswithcomponent == BuildIndex(old(characterswithcomponent), characters, radicals, rank, Corpus(jundaLines))
    {
      LoadCharacters(cjkLines);
      radicals := radicalList;
      rank := newRank;
      CompileAllComponents(jundaLines);
    }

    /** The loop of `start` over the decomposition data: each line's entry
        is stored under its character. */
    method LoadCharacters(lines: seq<string>)
      requires forall i :: 0 <= i < |lines| ==> Parsable(lines[i])
      modifies this
      ensures characters == LoadTable(old(characters), Rows(lines))
      ensures radicals == old(radicals) && rank == old(rank) && characterswithcomponent == old(characterswithcomponent)
    {
      var rows := Rows(lines);
      var i := 0;
      while i < |lines|
        invariant 0 <= i <= |lines|
        invariant characters == LoadTable(old(characters), rows[..i])
        invariant radicals == old(radicals) && rank == old(rank) && characterswithcomponent == old(characterswithcomponent)
      {
        StoreRow(rows, i, old(characters));
        i := i + 1;
      }
      Seqs.TakeAll(rows);
    }

    /** One round of the loop of `start`, on row `i`: its entry is stored
        under its character. */
    method StoreRow(rows: seq<Row>, i: nat, ghost t: Table)
      requires i < |rows| && characters == LoadTable(t, rows[..i])
      modifies this
      ensures characters == LoadTable(t, rows[..i + 1])
      ensures radicals == old(radicals) && rank == old(rank) && characterswithcomponent == old(characterswithcomponent)
    {
      var row := rows[i];
      LoadTableGrow(t, rows, i);
      characters := characters[row.character := EntryOf(row)];
    }

    /** `compileAllComponents`: every corpus character is decomposed and
        added to the index under the components of its once and radical
        views. */
    method CompileAllComponents(lines: seq<string>)
      requires Ranked(characters, rank) && CorpusLines(lines)
      requires Indexable(characters, radicals, rank, Corpus(lines))
      modifies this
      ensures characters == old(characters) && radicals == old(radicals) && rank == old(rank)
      ensures characterswithcomponent == BuildIndex(old(characterswithcomponent), characters, radicals, rank, Corpus(lines))
    {
      ghost var items := Items(characters, radicals, rank, Corpus(lines));
      var i := 0;
      while i < |lines|
        invariant 0 <= i <= |lines|
        invariant characters == old(characters) && radicals == old(radicals) && rank == old(rank)
        invariant characterswithcomponent == IndexAll(old(characterswithcomponent), items[..i])
      {
        IndexCorpusLine(lines, i, items, old(characterswithcomponent));
        i := i + 1;
      }
      Seqs.TakeAll(items);
    }

    /** One round of the corpus loop, on line `i`: the index over the items
        before it grows to the index over the items up to it. */
    method IndexCorpusLine(lines: seq<string>, i: nat, ghost items: seq<Item>, ghost idx: Index)
      requires Ranked(characters, rank) && CorpusLines(lines) && Indexable(characters, radicals, rank, Corpus(lines))
      requires items == Items(characters, radicals, rank, Corpus(lines)) && i < |lines|
      requires characterswithcomponent == IndexAll(idx, items[..i])
      modifies this
      ensures characters == old(characters) && radicals == old(radicals) && rank == old(rank)
      ensures characterswithcomponent == IndexAll(idx, items[..i + 1])
    {
      var character := CorpusCharacter(lines[i]);
      ItemStep(characters, radicals, rank, lines, items, i, idx);
      IndexCorpusCharacter(character);
    }

    /** One round of the corpus loop: the character is decomposed and
        indexed under the components of its once view, then under those of
        its radical view. */
    method IndexCorpusCharacter(character: string)
      requires Ranked(characters, rank) && Decompose(characters, radicals, rank, character, None).Views?
      modifies this
      ensures characters == old(characters) && radicals == old(radicals) && rank == old(rank)
      ensures characterswithcomponent ==
        IndexCharacter(old(characterswithcomponent), Decompose(characters, radicals, rank, character, None), character)
    {
      var decomposition := Decompose(characters, radicals, rank, character, None);
      IndexOnceView(decomposition.components1, character);
      IndexRadicalView(decomposition.components2, character);
    }

    /** The loop over `components1`: the character is appended under every
        component except the no-glyph mark. */
    method IndexOnceView(components: seq<string>, character: string)
      modifies this
      ensures characters == old(characters) && radicals == old(radicals) && rank == old(rank)
      ensures characterswithcomponent == AddOnceView(old(characterswithcomponent), components, character)
    {
      var j := 0;
      while j < |components|
        invariant 0 <= j <= |components|
        invariant characters == old(characters) && radicals == old(radicals) && rank == old(rank)
        invariant characterswithcomponent == AddOnceView(old(characterswithcomponent), components[..j], character)
      {
        var component := components[j];
        Seqs.TakeTake(components, j);
        if component !in characterswithcomponent {
          if component != NoGlyph {
            assert Lookup(characterswithcomponent, component) + [character] == [character];
            characterswithcomponent := characterswithcomponent[component := [character]];
          }
        } else if component != NoGlyph {
          characterswithcomponent := characterswithcomponent[component := characterswithcomponent[component] + [character]];
        }
        j := j + 1;
      }
      Seqs.TakeAll(components);
    }

    /** The loop over `components2`: the character is appended under every
        component that is neither the no-glyph mark nor holds a primitive
        stroke, unless that component's list already has it. */
    method IndexRadicalView(components: seq<string>, character: string)
      modifies this
      ensures characters == old(characters) && radicals == old(radicals) && rank == old(rank)
      ensures characterswithcomponent == AddRadicalView(old(characterswithcomponent), components, character)
    {
      var j := 0;
      while j < |components|
        invariant 0 <= j <= |components|
        invariant characters == old(characters) && radicals == old(radicals) && rank == old(rank)
        invariant characterswithcomponent == AddRadicalView(old(characterswithcomponent), components[..j], character)
      {
        var component := components[j];
        Seqs.TakeTake(components, j);
        if component !in characterswithcomponent {
          if component != NoGlyph && !HasPrimitive(component) {
            characterswithcomponent := characterswithcomponent[component := []];
            var isnew := Unique(characterswithcomponent[component], character);
            if isnew {
              characterswithcomponent := characterswithcomponent[component := characterswithcomponent[component] + [character]];
            }
          }
        } else if component != NoGlyph && !HasPrimitive(component) {
          var isnew := Unique(characterswithcomponent[component], character);
          if isnew {
            characterswithcomponent := characterswithcomponent[component := characterswithcomponent[component] + [character]];
          }
        }
        j := j + 1;
      }
      Seqs.TakeAll(components);
    }

    /** `findSameMeaningRadicals`: the radicals, in the list's order, whose
        meaning equals that of `radical`. */
    method FindSameMeaningRadicals(radical: string) returns (same: seq<string>)
      ensures same == SameMeaning(radicals, radicals.keys, radical)
    {
      same := [];
      var meaning := radicals.Get(radical);
      var keys := radicals.keys;
      var i := 0;
      while i < |keys|
        invariant 0 <= i <= |keys|
        invariant same == SameMeaning(radicals, keys[..i], radical)
      {
        SameMeaningGrow(radicals, keys, i, radical);
        var r := keys[i];
        if r in radicals.values && meaning == Some(radicals.values[r]) {
          same := same + [r];
        }
        i := i + 1;
      }
      Seqs.TakeAll(keys);
    }

    /** `getCharactersWithComponent` */
    method GetCharactersWithComponent(component: string) returns (r: Found)
      ensures r == CharactersWithComponent(characterswithcomponent, radicals, component)
    {
      if component in radicals.values {
        var components := FindSameMeaningRadicals(component);
        var found: seq<string> := [];
        var i := 0;
        while i < |components|
          invariant 0 <= i <= |components|
          invariant found == Gathered(characterswithcomponent, components[..i])
        {
          Seqs.TakeTake(components, i);
          if components[i] in characterswithcomponent {
            found := found + characterswithcomponent[components[i]];
          }
          i := i + 1;
        }
        Seqs.TakeAll(components);
        return Characters(found);
      } else if component in characterswithcomponent {
        return Characters(characterswithcomponent[component]);
      } else {
        return NotFound(component + " not found");
      }
    }
  }

  /** One step of the corpus loop: the item the loop handles next, and the
      index over one more item. */
  lemma ItemStep(t: Table, radicals: Radicals, rank: map<string, nat>, lines: seq<string>, items: seq<Item>, i: nat, idx: Index)
    requires Ranked(t, rank) && CorpusLines(lines) && Indexable(t, radicals, rank, Corpus(lines))
    requires items == Items(t, radicals, rank, Corpus(lines)) && i < |lines|
    ensures Decompose(t, radicals, rank, CorpusCharacter(lines[i]), None).Views?
    ensures IndexAll(idx, items[..i + 1]) ==
      IndexCharacter(IndexAll(idx, items[..i]), Decompose(t, radicals, rank, CorpusCharacter(lines[i]), None), CorpusCharacter(lines[i]))
  {
    Seqs.TakeTake(items, i);
  }
}
