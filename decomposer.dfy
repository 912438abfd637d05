/** The decomposition engine of lib/hanzidecomposer.js: the component table,
    the radical list, and the three decomposition views over them (the
    immediate pair, the recursion that stops at radicals, and the recursion
    down to drawable strokes), with `decompose` and `decomposeMany` on top. */
module Decomposer {
  import opened Wrappers
  import opened JsStrings
  import opened Objects
  import opened CjkDecomp
  import Seqs

  /** A table entry: kind `c` is atomic; every other kind lists components. */
  datatype Entry = Atomic | Composed(parts: seq<string>)

  /** The module-level `characters` table. */
  type Table = map<string, Entry>

  /** The radical list: each radical symbol with its meaning, in the order
      the radical list declares them. */
  type Radicals = Object<string>

  /** What the once and radical views show in place of a numeric placeholder. */
  const NoGlyph: string := "No glyph available"

  /** `isNaN(s) == false` for the table's placeholder ids: a string of decimal
      digits. The empty string counts, as `Number('')` is 0. */
  predicate IsNumericId(s: string) {
    forall i :: 0 <= i < |s| ==> '0' <= s[i] <= '9'
  }

  lemma NoGlyphIsNotNumeric()
    ensures !IsNumericId(NoGlyph)
  {
    assert NoGlyph[0] == 'N';
  }

  function EntryOf(row: Row): Entry {
    if row.kind == "c" then Atomic else Composed(row.components)
  }

  /** `start`: every parsed row is stored under its character, so a later
      row for the same character replaces an earlier one. */
  function LoadTable(t: Table, rows: seq<Row>): Table
  {
    if |rows| == 0 then t
    else
      var row := rows[|rows| - 1];
      LoadTable(t, rows[..|rows| - 1])[row.character := EntryOf(row)]
  }

  /** The rows up to row `i` are the rows before it, then row `i`. */
  lemma LoadTableGrow(t: Table, rows: seq<Row>, i: nat)
    requires i < |rows|
    ensures LoadTable(t, rows[..i + 1]) == LoadTable(t, rows[..i])[rows[i].character := EntryOf(rows[i])]
  {
    Seqs.TakeTake(rows, i);
  }

  /** Each line of the decomposition data parsed, in order. */
  function Rows(lines: seq<string>): (r: seq<Row>)
    requires forall i :: 0 <= i < |lines| ==> Parsable(lines[i])
    ensures |r| == |lines|
    ensures forall i :: 0 <= i < |lines| ==> r[i] == ParseRow(lines[i])
  {
    seq(|lines|, i requires 0 <= i < |lines| && Parsable(lines[i]) => ParseRow(lines[i]))
  }

  /** A character no row names keeps its earlier entry, or stays absent. */
  lemma {:induction false} LoadTableKeeps(t: Table, rows: seq<Row>, c: string)
    requires forall i :: 0 <= i < |rows| ==> rows[i].character != c
    ensures c in LoadTable(t, rows) <==> c in t
    ensures c in t ==> LoadTable(t, rows)[c] == t[c]
  {
    if |rows| > 0 {
      LoadTableKeeps(t, rows[..|rows| - 1], c);
    }
  }

  /** A character holds the entry of the last row that names it. */
  lemma {:induction false} LoadTableLastWins(t: Table, rows: seq<Row>, c: string, i: nat)
    requires i < |rows| && rows[i].character == c
    requires forall j :: i < j < |rows| ==> rows[j].character != c
    ensures c in LoadTable(t, rows)
    ensures LoadTable(t, rows)[c] == EntryOf(rows[i])
  {
    if i < |rows| - 1 {
      LoadTableLastWins(t, rows[..|rows| - 1], c, i);
    }
  }

  /** `ifComponentExists`: the table has an entry for the string. */
  predicate ComponentExists(t: Table, c: string) {
    c in t
  }

  predicate IsComposed(t: Table, s: string) {
    s in t && t[s].Composed?
  }

  /** `isRadical` */
  predicate IsRadical(radicals: Radicals, c: string) {
    c in radicals.values
  }

  /** `getRadicalMeaning` */
  function GetRadicalMeaning(radicals: Radicals, radical: string): (r: string)
    ensures IsRadical(radicals, radical) ==> r == radicals.values[radical]
    ensures !IsRadical(radicals, radical) ==> r == "N/A"
  {
    if IsRadical(radicals, radical) then radicals.values[radical] else "N/A"
  }

  /** `getComponents`: the listed components of a composed entry; for an
      atomic or absent character the source returns the string itself, and
      its callers index and measure that string, so it reads as the list of
      its characters. */
  function GetComponents(t: Table, c: string): (r: seq<string>)
    ensures IsComposed(t, c) ==> r == t[c].parts
    ensures !IsComposed(t, c) ==> r == Chars(c) && Concat(r) == c
  {
    if IsComposed(t, c) then t[c].parts
    else
      ConcatChars(c);
      Chars(c)
  }

  // ---------------------------------------------------------------------
  // Termination. The source trusts the table to be acyclic. The model asks
  // for a rank on the composed entries under which every component ranks
  // below its character; strings without a composed entry (whose components
  // are their own characters) rank just above their characters.

  ghost function CharRank(t: Table, rank: map<string, nat>, s: string): nat
  {
    if |s| == 0 then 0
    else
      var here := RankOfChar(t, rank, s[0]);
      var rest := CharRank(t, rank, s[1..]);
      if here < rest then rest else here
  }

  ghost function RankOfChar(t: Table, rank: map<string, nat>, ch: char): nat {
    if IsComposed(t, [ch]) && [ch] in rank then rank[[ch]] else 0
  }

  ghost function Measure(t: Table, rank: map<string, nat>, s: string): nat {
    if IsComposed(t, s) && s in rank then rank[s] else 1 + CharRank(t, rank, s)
  }

  /** The table is acyclic, as witnessed by `rank`. */
  ghost predicate Ranked(t: Table, rank: map<string, nat>) {
    forall k :: IsComposed(t, k) ==>
      k in rank && forall i :: 0 <= i < |t[k].parts| ==> Measure(t, rank, t[k].parts[i]) < rank[k]
  }

  lemma {:induction false} CharRankBound(t: Table, rank: map<string, nat>, s: string, i: nat)
    requires i < |s|
    ensures RankOfChar(t, rank, s[i]) <= CharRank(t, rank, s)
  {
    if i > 0 {
      CharRankBound(t, rank, s[1..], i - 1);
    }
  }

  /** Every component the recursion descends into is smaller. */
  lemma ComponentsDecrease(t: Table, rank: map<string, nat>, c: string, i: nat)
    requires Ranked(t, rank)
    requires i < |GetComponents(t, c)|
    requires IsComposed(t, c) || |c| != 1
    ensures var x := GetComponents(t, c)[i];
      Measure(t, rank, x) < Measure(t, rank, c)
      || (Measure(t, rank, x) == Measure(t, rank, c) && |x| < |c|)
  {
    if !IsComposed(t, c) {
      var x := GetComponents(t, c)[i];
      assert x == [c[i]];
      CharRankBound(t, rank, c, i);
      assert CharRank(t, rank, x) == RankOfChar(t, rank, c[i]) by {
        assert x[0] == c[i] && x[1..] == [];
      }
    }
  }

  // ---------------------------------------------------------------------
  // The three views.

  /** The list with every numeric placeholder replaced by `NoGlyph`, what
      `replaceNumbers` computes. */
  function Replaced(xs: seq<string>): (r: seq<string>)
    ensures |r| == |xs|
    ensures forall i :: 0 <= i < |xs| ==> r[i] == if IsNumericId(xs[i]) then NoGlyph else xs[i]
    ensures forall i :: 0 <= i < |r| ==> !IsNumericId(r[i])
  {
    NoGlyphIsNotNumeric();
    seq(|xs|, i requires 0 <= i < |xs| => if IsNumericId(xs[i]) then NoGlyph else xs[i])
  }

  /** A list without placeholders is left as it is. */
  lemma ReplacedKeeps(xs: seq<string>)
    requires forall i :: 0 <= i < |xs| ==> !IsNumericId(xs[i])
    ensures Replaced(xs) == xs
  {
  }

  /** `replaceNumbers`: the same length and order, every numeric entry
      replaced by `NoGlyph` and every other entry unchanged. */
  method ReplaceNumbers(characters: seq<string>) returns (finalreview: seq<string>)
    ensures |finalreview| == |characters|
    ensures forall i :: 0 <= i < |characters| ==>
      finalreview[i] == if IsNumericId(characters[i]) then NoGlyph else characters[i]
  {
    finalreview := [];
    var i := 0;
    while i < |characters|
      invariant 0 <= i <= |characters|
      invariant |finalreview| == i
      invariant forall k :: 0 <= k < i ==>
        finalreview[k] == if IsNumericId(characters[k]) then NoGlyph else characters[k]
    {
      if !IsNumericId(characters[i]) {
        finalreview := finalreview + [characters[i]];
      } else {
        finalreview := finalreview + [NoGlyph];
      }
      i := i + 1;
    }
  }

  /** `onceDecompose`: the immediate components, placeholders replaced. */
  function OnceDecomposition(t: Table, c: string): (r: seq<string>)
    ensures IsComposed(t, c) ==> |r| == |t[c].parts|
    ensures !IsComposed(t, c) && |c| == 1 ==> r == (if IsNumericId(c) then [NoGlyph] else [c])
    ensures forall i :: 0 <= i < |r| ==> !IsNumericId(r[i])
  {
    var comps := GetComponents(t, c);
    assert !IsComposed(t, c) && |c| == 1 ==> comps == [c] by {
      if !IsComposed(t, c) && |c| == 1 { assert c == [c[0]]; }
    }
    Replaced(comps)
  }

  /** `radicalDecomposition`: a radical stands for itself; a character with
      exactly two components is replaced by the decompositions of both; any
      other string is a leaf. Every result element is a radical, a leaf
      without a two-part decomposition, or `NoGlyph` in place of a numeric
      placeholder. */
  function RadicalDecomposition(t: Table, radicals: Radicals, ghost rank: map<string, nat>, c: string): (r: seq<string>)
    requires Ranked(t, rank)
    ensures forall i :: 0 <= i < |r| ==> !IsNumericId(r[i])
    ensures forall i :: 0 <= i < |r| ==>
      r[i] == NoGlyph || IsRadical(radicals, r[i]) || |GetComponents(t, r[i])| != 2
    decreases Measure(t, rank, c), |c|
  {
    if IsRadical(radicals, c) then Replaced([c])
    else
      var comps := GetComponents(t, c);
      if |comps| == 2 then
        ComponentsDecrease(t, rank, c, 0);
        ComponentsDecrease(t, rank, c, 1);
        var both := RadicalDecomposition(t, radicals, rank, comps[0]) + RadicalDecomposition(t, radicals, rank, comps[1]);
        ReplacedKeeps(both);
        Replaced(both)
      else Replaced([c])
  }

  /** Prefixing a resolution with the elements resolved so far. */
  function Prepend(xs: seq<string>, o: Option<seq<string>>): (r: Option<seq<string>>)
    ensures r.Some? <==> o.Some?
    ensures r.Some? ==> r.value == xs + o.value
  {
    if o.Some? then Some(xs + o.value) else None
  }

  lemma PrependNothing(o: Option<seq<string>>)
    ensures Prepend([], o) == o
  {
    if o.Some? {
      assert [] + o.value == o.value;
    }
  }

  /** Prefixing in two steps is prefixing once with both parts. */
  lemma PrependCat(xs: seq<string>, h: seq<string>, o: Option<seq<string>>)
    ensures Prepend(xs, Cat(Some(h), o)) == Prepend(xs + h, o)
  {
    if o.Some? {
      assert (xs + h) + o.value == xs + (h + o.value);
    }
  }

  /** The outcome of `resolveNumber`: the components of the placeholder, each
      numeric one resolved in turn. `None` where the source calls itself on
      its own argument again and never returns: a numeric single character
      without a composed entry. */
  function Resolved(t: Table, ghost rank: map<string, nat>, number: string): (r: Option<seq<string>>)
    requires Ranked(t, rank)
    ensures r.Some? ==> forall i :: 0 <= i < |r.value| ==> !IsNumericId(r.value[i])
    decreases Measure(t, rank, number), |number|, 1, 0
  {
    ResolvedFrom(t, rank, number, 0)
  }

  function ResolvedFrom(t: Table, ghost rank: map<string, nat>, number: string, i: nat): (r: Option<seq<string>>)
    requires Ranked(t, rank)
    requires i <= |GetComponents(t, number)|
    ensures r.Some? ==> forall k :: 0 <= k < |r.value| ==> !IsNumericId(r.value[k])
    decreases Measure(t, rank, number), |number|, 0, |GetComponents(t, number)| - i
  {
    var components := GetComponents(t, number);
    if i == |components| then Some([])
    else
      var x := components[i];
      var tail := ResolvedFrom(t, rank, number, i + 1);
      if !IsNumericId(x) then Cat(Some([x]), tail)
      else if x == number then None
      else
        ComponentsDecrease(t, rank, number, i);
        Cat(Resolved(t, rank, x), tail)
  }

  /** Both resolutions, one after the other; `None` if either is. */
  function Cat(a: Option<seq<string>>, b: Option<seq<string>>): (r: Option<seq<string>>)
    ensures r.Some? <==> a.Some? && b.Some?
    ensures r.Some? ==> r.value == a.value + b.value
  {
    if a.Some? && b.Some? then Some(a.value + b.value) else None
  }

  /** `resolveNumber`, a loop that pushes each non-numeric component and
      concatenates the resolution of each numeric one. */
  method ResolveNumber(t: Table, ghost rank: map<string, nat>, number: string) returns (r: Option<seq<string>>)
    requires Ranked(t, rank)
    ensures r == Resolved(t, rank, number)
    ensures r.Some? ==> forall i :: 0 <= i < |r.value| ==> !IsNumericId(r.value[i])
    decreases Measure(t, rank, number), |number|
  {
    var components := GetComponents(t, number);
    var numberscleared: seq<string> := [];
    var i := 0;
    PrependNothing(ResolvedFrom(t, rank, number, 0));
    while i < |components|
      invariant 0 <= i <= |components|
      invariant Resolved(t, rank, number) == Prepend(numberscleared, ResolvedFrom(t, rank, number, i))
    {
      var tail := ResolvedFrom(t, rank, number, i + 1);
      if !IsNumericId(components[i]) {
        assert ResolvedFrom(t, rank, number, i) == Cat(Some([components[i]]), tail);
        PrependCat(numberscleared, [components[i]], tail);
        numberscleared := numberscleared + [components[i]];
      } else if components[i] == number {
        // the source recurses on the same argument without end
        return None;
      } else {
        ComponentsDecrease(t, rank, number, i);
        var sub := ResolveNumber(t, rank, components[i]);
        assert ResolvedFrom(t, rank, number, i) == Cat(sub, tail);
        if sub.None? {
          return None;
        }
        PrependCat(numberscleared, sub.value, tail);
        numberscleared := numberscleared + sub.value;
      }
      i := i + 1;
    }
    assert ResolvedFrom(t, rank, number, i) == Some([]);
    assert numberscleared + [] == numberscleared;
    return Some(numberscleared);
  }

  /** `graphicalDecomposition`: two components are decomposed in turn
      regardless of radicals; a leaf is kept unless it is a numeric
      placeholder, which is resolved instead. No placeholder is ever
      emitted. `None` where the source's recursion does not end. */
  function GraphicalDecomposition(t: Table, ghost rank: map<string, nat>, c: string): (r: Option<seq<string>>)
    requires Ranked(t, rank)
    ensures r.Some? ==> forall i :: 0 <= i < |r.value| ==> !IsNumericId(r.value[i])
    decreases Measure(t, rank, c), |c|
  {
    var comps := GetComponents(t, c);
    if |comps| == 2 then
      ComponentsDecrease(t, rank, c, 0);
      ComponentsDecrease(t, rank, c, 1);
      Cat(GraphicalDecomposition(t, rank, comps[0]), GraphicalDecomposition(t, rank, comps[1]))
    else if !IsNumericId(c) then Some([c])
    else Resolved(t, rank, c)
  }

  /** A single numeric character without a composed entry cannot be
      resolved: the source's `resolveNumber` calls itself on it forever. */
  lemma BareDigitOverflows(t: Table, rank: map<string, nat>, d: string)
    requires Ranked(t, rank)
    requires |d| == 1 && IsNumericId(d) && !IsComposed(t, d)
    ensures GraphicalDecomposition(t, rank, d).None?
  {
    assert d == [d[0]];
    assert GetComponents(t, d) == [d];
    assert ResolvedFrom(t, rank, d, 0).None?;
  }

  // ---------------------------------------------------------------------
  // decompose and decomposeMany

  /** What `decompose` returns: the `'Invalid Input'` marker, the object with
      all three views, the object with the one requested view, `undefined`
      for an unknown mode, or the failure the source meets when the
      graphical recursion does not end (a RangeError, modelled as a value). */
  datatype Decomposition =
    | InvalidInput
    | Views(character: string, components1: seq<string>, components2: seq<string>, components3: seq<string>)
    | View(character: string, components: seq<string>)
    | NoResult
    | Overflow

  /** `decompose(character, typeOfDecomposition)`; the mode is `None` when
      no mode is passed. */
  function Decompose(t: Table, radicals: Radicals, ghost rank: map<string, nat>, input: string, mode: Option<int>): (r: Decomposition)
    requires Ranked(t, rank)
    ensures r.InvalidInput? <==> StripWhitespace(input) == ""
    ensures r.Views? ==> (mode.None? && r.character == StripWhitespace(input)
                          && r.components1 == OnceDecomposition(t, r.character)
                          && r.components2 == RadicalDecomposition(t, radicals, rank, r.character)
                          && Some(r.components3) == GraphicalDecomposition(t, rank, r.character))
    ensures r.View? ==> (mode.Some? && mode.value in {1, 2, 3} && r.character == StripWhitespace(input)
                         && (mode.value == 1 ==> r.components == OnceDecomposition(t, r.character))
                         && (mode.value == 2 ==> r.components == RadicalDecomposition(t, radicals, rank, r.character))
                         && (mode.value == 3 ==> Some(r.components) == GraphicalDecomposition(t, rank, r.character)))
    ensures r.NoResult? <==> StripWhitespace(input) != "" && mode.Some? && mode.value !in {1, 2, 3}
    ensures r.Overflow? <==> StripWhitespace(input) != "" && (mode.None? || mode.value == 3)
                             && GraphicalDecomposition(t, rank, StripWhitespace(input)).None?
  {
    var character := StripWhitespace(input);
    if character == "" then InvalidInput
    else if mode.None? then
      var g := GraphicalDecomposition(t, rank, character);
      if g.None? then Overflow
      else Views(character, OnceDecomposition(t, character), RadicalDecomposition(t, radicals, rank, character), g.value)
    else if mode.value == 1 then View(character, OnceDecomposition(t, character))
    else if mode.value == 2 then View(character, RadicalDecomposition(t, radicals, rank, character))
    else if mode.value == 3 then
      var g := GraphicalDecomposition(t, rank, character);
      if g.None? then Overflow else View(character, g.value)
    else NoResult
  }

  /** Empty or white-space-only input is rejected as invalid. */
  lemma BlankIsInvalid(t: Table, radicals: Radicals, rank: map<string, nat>, input: string, mode: Option<int>)
    requires Ranked(t, rank)
    requires forall i :: 0 <= i < |input| ==> IsWhitespace(input[i])
    ensures Decompose(t, radicals, rank, input, mode) == InvalidInput
  {
    StripWhitespaceBlank(input);
  }

  /** A character with no composed entry (absent from the table, or atomic)
      that is neither white space nor a digit decomposes to itself in all
      three views. */
  lemma UnknownIsIdentity(t: Table, radicals: Radicals, rank: map<string, nat>, c: string)
    requires Ranked(t, rank)
    requires |c| == 1 && !IsWhitespace(c[0]) && !IsNumericId(c) && !IsComposed(t, c)
    ensures Decompose(t, radicals, rank, c, None) == Views(c, [c], [c], [c])
  {
    StripWhitespaceKeeps(c);
    assert c == [c[0]];
    assert GetComponents(t, c) == [c];
  }

  /** A composed entry with two components has a once view of length 2 on
      which every placeholder became `NoGlyph`. */
  lemma OncePair(t: Table, c: string)
    requires IsComposed(t, c) && |t[c].parts| == 2
    ensures |OnceDecomposition(t, c)| == 2
    ensures forall i :: 0 <= i < 2 ==>
      OnceDecomposition(t, c)[i] == if IsNumericId(t[c].parts[i]) then NoGlyph else t[c].parts[i]
  {
  }

  /** What `decomposeMany` returns: `'Invalid Input'`, the failure of one of
      its `decompose` calls, or the object of decompositions. */
  datatype ManyResult =
    | ManyInvalid
    | ManyOverflow
    | Decomposed(decompositions: Object<Decomposition>)

  /** A value the `if (decomposearray[onechar])` test takes as present. */
  predicate Truthy(d: Decomposition) {
    !d.NoResult?
  }

  /** `decomposeMany`: white space is removed; the result has one key per
      distinct character, in first-occurrence order, holding that
      character's `decompose` result. */
  method DecomposeMany(t: Table, radicals: Radicals, ghost rank: map<string, nat>, characterstring: string, mode: Option<int>)
    returns (r: ManyResult)
    requires Ranked(t, rank)
    ensures r.ManyInvalid? <==> StripWhitespace(characterstring) == ""
    ensures r.ManyOverflow? <==> (StripWhitespace(characterstring) != ""
                                  && exists i :: 0 <= i < |StripWhitespace(characterstring)|
                                                 && Decompose(t, radicals, rank, [StripWhitespace(characterstring)[i]], mode).Overflow?)
    ensures r.Decomposed? ==> r.decompositions.Valid()
    ensures r.Decomposed? ==> r.decompositions.keys == Dedup(Chars(StripWhitespace(characterstring)))
    ensures r.Decomposed? ==> forall k :: k in r.decompositions.values ==>
                                r.decompositions.values[k] == Decompose(t, radicals, rank, k, mode)
  {
    var s := StripWhitespace(characterstring);
    if s == "" {
      return ManyInvalid;
    }
    var all := DecomposeEach(t, radicals, rank, s, mode);
    if all.None? {
      return ManyOverflow;
    }
    return Decomposed(all.value);
  }

  /** Every stored value is the decomposition of its key, and none failed. */
  ghost predicate Recorded(t: Table, radicals: Radicals, rank: map<string, nat>, mode: Option<int>, o: Object<Decomposition>)
    requires Ranked(t, rank)
  {
    forall k :: k in o.values ==> o.values[k] == Decompose(t, radicals, rank, k, mode) && !o.values[k].Overflow?
  }

  lemma RecordedPut(t: Table, radicals: Radicals, rank: map<string, nat>, mode: Option<int>, o: Object<Decomposition>, k: string)
    requires Ranked(t, rank)
    requires Recorded(t, radicals, rank, mode, o)
    requires !Decompose(t, radicals, rank, k, mode).Overflow?
    ensures Recorded(t, radicals, rank, mode, o.Put(k, Decompose(t, radicals, rank, k, mode)))
  {
  }

  /** The loop of `decomposeMany` over the white-space-free string: `None`
      when one of the characters cannot be decomposed. */
  method DecomposeEach(t: Table, radicals: Radicals, ghost rank: map<string, nat>, s: string, mode: Option<int>)
    returns (r: Option<Object<Decomposition>>)
    requires Ranked(t, rank)
    ensures r.None? <==> exists i :: 0 <= i < |s| && Decompose(t, radicals, rank, [s[i]], mode).Overflow?
    ensures r.Some? ==> r.value.Valid()
    ensures r.Some? ==> r.value.keys == Dedup(Chars(s))
    ensures r.Some? ==> forall k :: k in r.value.values ==> r.value.values[k] == Decompose(t, radicals, rank, k, mode)
  {
    var decomposearray: Object<Decomposition> := Empty();
    var i := 0;
    while i < |s|
      invariant 0 <= i <= |s|
      invariant decomposearray.Valid()
      invariant decomposearray.keys == Dedup(Chars(s)[..i])
      invariant Recorded(t, radicals, rank, mode, decomposearray)
      invariant forall j :: 0 <= j < i ==> !Decompose(t, radicals, rank, [s[j]], mode).Overflow?
    {
      var next := DecomposeNext(t, radicals, rank, s, mode, i, decomposearray);
      if next.None? {
        return None;
      }
      NoOverflowGrow(t, radicals, rank, s, mode, i);
      decomposearray := next.value;
      i := i + 1;
    }
    Seqs.TakeAll(Chars(s));
    return Some(decomposearray);
  }

  /** A character that decomposes extends the run of characters that do. */
  lemma NoOverflowGrow(t: Table, radicals: Radicals, rank: map<string, nat>, s: string, mode: Option<int>, i: nat)
    requires Ranked(t, rank) && i < |s|
    requires forall j :: 0 <= j < i ==> !Decompose(t, radicals, rank, [s[j]], mode).Overflow?
    requires !Decompose(t, radicals, rank, [s[i]], mode).Overflow?
    ensures forall j :: 0 <= j < i + 1 ==> !Decompose(t, radicals, rank, [s[j]], mode).Overflow?
  {
  }

  /** One round of the loop of `decomposeMany`, on character `i`: a
      character already decomposed is skipped, any other is decomposed and
      stored; `None` when it cannot be decomposed. */
  method DecomposeNext(t: Table, radicals: Radicals, ghost rank: map<string, nat>, s: string, mode: Option<int>, i: nat, decomposearray: Object<Decomposition>)
    returns (r: Option<Object<Decomposition>>)
    requires Ranked(t, rank) && i < |s|
    requires decomposearray.Valid() && decomposearray.keys == Dedup(Chars(s)[..i])
    requires Recorded(t, radicals, rank, mode, decomposearray)
    ensures r.None? <==> Decompose(t, radicals, rank, [s[i]], mode).Overflow?
    ensures r.Some? ==> r.value.Valid() && r.value.keys == Dedup(Chars(s)[..i + 1])
    ensures r.Some? ==> Recorded(t, radicals, rank, mode, r.value)
  {
    var onechar := [s[i]];
    assert Chars(s)[i] == onechar;
    if onechar in decomposearray.values && Truthy(decomposearray.values[onechar]) {
      DedupNext(decomposearray, Chars(s), i, decomposearray.values[onechar]);
      return Some(decomposearray);
    }
    var d := Decompose(t, radicals, rank, onechar, mode);
    if d.Overflow? {
      return None;
    }
    DedupNext(decomposearray, Chars(s), i, d);
    RecordedPut(t, radicals, rank, mode, decomposearray, onechar);
    return Some(decomposearray.Put(onechar, d));
  }
}
