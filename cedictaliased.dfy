/** The grouping loop of `start` in lib/dictionary.js as written, with the
    lists as shared arrays. A group whose simplified and traditional forms
    are both new is stored as ONE array under both keys, and the `push`
    loops later append to that array in place; so a group appended through
    one table also shows up in the other. `Cedict.Load` is the intended
    behaviour, with separate lists. */
module CedictAliased {
  import opened Wrappers
  import opened Cedict
  import Objects

  /** The arrays allocated so far, and the array each key of each table
      refers to. */
  datatype Heap = Heap(arrays: seq<seq<DictEntry>>, simplified: map<string, nat>, traditional: map<string, nat>) {
    /** Every key refers to an allocated array. */
    predicate Valid() {
      && (forall k :: k in simplified ==> simplified[k] < |arrays|)
      && (forall k :: k in traditional ==> traditional[k] < |arrays|)
    }
  }

  /** The list a table shows under a key. */
  function View(h: Heap, table: map<string, nat>, k: string): seq<DictEntry>
    requires h.Valid() && (table == h.simplified || table == h.traditional)
  {
    if k in table then h.arrays[table[k]] else []
  }

  /** One round of the loop: the group's array is allocated; under the
      simplified form the existing array gets the group pushed, or the
      group's array is stored; then the same under the traditional form. */
  function InsertGroupAliased(h: Heap, group: seq<DictEntry>): (r: Heap)
    requires h.Valid() && |group| > 0
    ensures r.Valid()
  {
    var m := |h.arrays|;
    var arrays := h.arrays + [group];
    var sk, tk := SimplifiedKey(group[0]), group[0].traditional;
    var (arrays1, simplified) :=
      if sk in h.simplified then (arrays[h.simplified[sk] := arrays[h.simplified[sk]] + group], h.simplified)
      else (arrays, h.simplified[sk := m]);
    if tk in h.traditional then
      Heap(arrays1[h.traditional[tk] := arrays1[h.traditional[tk]] + group], simplified, h.traditional)
    else Heap(arrays1, simplified, h.traditional[tk := m])
  }

  /** A group whose two forms are both new is stored as one array under
      both keys, and the array is the group. */
  lemma SharedWhenNew(h: Heap, group: seq<DictEntry>)
    requires h.Valid() && |group| > 0
    requires SimplifiedKey(group[0]) !in h.simplified && group[0].traditional !in h.traditional
    ensures var r := InsertGroupAliased(h, group);
      && r.simplified[SimplifiedKey(group[0])] == r.traditional[group[0].traditional]
      && View(r, r.simplified, SimplifiedKey(group[0])) == group
  {
  }

  /** The loop from entry `i` on, group by group. */
  function LoadAliased(h: Heap, es: seq<DictEntry>, i: nat): (r: Heap)
    requires h.Valid()
    ensures r.Valid()
    decreases |es| - i
  {
    if i >= |es| then h
    else
      var e := GroupEnd(es, i, i);
      LoadAliased(InsertGroupAliased(h, es[i..e + 1]), es, e + 1)
  }

  /** Nothing allocated, both tables empty. */
  const EmptyHeap: Heap := Heap([], map[], map[])

  /** A header line of the example file. */
  const Header: DictEntry := DictEntry("#", None, "", "")

  /** 乾 qián ("heaven"), whose simplified form is itself. */
  const Qian: DictEntry := DictEntry("乾", Some("乾"), "qian2", "surname Qian")

  /** 乾 gān ("dry"), whose simplified form is 干. */
  const Gan: DictEntry := DictEntry("乾", Some("干"), "gan1", "dry")

  /** A file of 30 header lines followed by the lines of 乾 qián and of
      乾/干 gān. */
  function Example(): (es: seq<DictEntry>)
    ensures |es| == StartingLine + 2 && es[StartingLine] == Qian && es[StartingLine + 1] == Gan
  {
    seq(StartingLine, _ => Header) + [Qian, Gan]
  }

  /** On the example the code as written lists 乾 gān under the simplified
      form 乾, because the qián group's array is shared with the
      traditional table and gān is pushed onto it there; the intended
      tables list only qián under simplified 乾. */
  lemma AliasingCounterexample()
    ensures var h := LoadAliased(EmptyHeap, Example(), StartingLine);
      View(h, h.simplified, "乾") == [Qian, Gan]
    ensures Lookup(Load(Tables(Objects.Empty(), Objects.Empty()), Example(), StartingLine).simplified, "乾") == [Qian]
  {
    var es := Example();
    assert EntryKey(es[StartingLine + 1]) != EntryKey(es[StartingLine]);
    assert GroupEnd(es, StartingLine, StartingLine) == StartingLine;
    assert GroupEnd(es, StartingLine + 1, StartingLine + 1) == StartingLine + 1;
    var h1 := InsertGroupAliased(EmptyHeap, [Qian]);
    assert es[StartingLine..StartingLine + 1] == [Qian];
    assert es[StartingLine + 1..StartingLine + 2] == [Gan];
    assert h1 == Heap([[Qian]], map["乾" := 0], map["乾" := 0]);
    var h2 := InsertGroupAliased(h1, [Gan]);
    assert SimplifiedKey(Gan) == "干" && "干" !in h1.simplified;
    assert Gan.traditional in h1.traditional && h1.traditional[Gan.traditional] == 0;
    assert [Qian] + [Gan] == [Qian, Gan];
    assert h2.arrays == [[Qian], [Gan]][0 := [Qian] + [Gan]];
    assert h2.arrays == [[Qian, Gan], [Gan]];
    assert h2.simplified["乾"] == 0;
    assert LoadAliased(EmptyHeap, es, StartingLine) == h2;
    LoadFromEmpty(es, "乾");
    assert Body(es) == [Qian, Gan];
    assert WithSimplified(Body(es), "乾") == [Qian];
  }
}
