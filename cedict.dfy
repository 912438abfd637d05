/** The CC-CEDICT side of lib/dictionary.js: a dictionary line
    `traditional simplified [pinyin] /definition/.../` is read into an entry,
    runs of consecutive lines with the same traditional and simplified
    forms are grouped, and each group is appended to the list under its
    simplified form and to the list under its traditional form. The first
    30 lines (the file's header) are skipped. */
module Cedict {
  import opened Wrappers
  import opened JsStrings
  import opened Objects
  import Seqs

  /** One entry. `simplified` is `None` when the line has no second
      space-separated field (`elements[1]` is `undefined`). */
  datatype DictEntry = DictEntry(traditional: string, simplified: Option<string>, pinyin: string, definition: string)

  /** The first line read. */
  const StartingLine: nat := 30

  /** The key a JavaScript object stores a value under when the key
      expression is `undefined`. */
  const UndefinedKey: string := "undefined"

  /** The key a simplified form is stored under. */
  function KeyOf(simplified: Option<string>): string {
    if simplified.Some? then simplified.value else UndefinedKey
  }

  /** The key of an entry in the simplified table. */
  function SimplifiedKey(e: DictEntry): string {
    KeyOf(e.simplified)
  }

  /** The pinyin field: between the first `[` and the first `]`. */
  function PinyinField(line: string): string {
    Substring(line, IndexOf(line, '[') + 1, IndexOf(line, ']'))
  }

  /** The definition field: between the first and the last `/`. */
  function DefinitionField(line: string): string {
    Substring(line, IndexOf(line, '/') + 1, LastIndexOf(line, '/'))
  }

  /** `getElements`: the traditional and simplified forms as the first two
      space-separated fields, then the pinyin and the definition. */
  function GetElements(line: string): (e: DictEntry)
    ensures ' ' !in e.traditional && IsPrefix(e.traditional, line)
    ensures e.simplified.Some? <==> ' ' in line
  {
    var elements := Split(line, ' ');
    DictEntry(elements[0], if |elements| >= 2 then Some(elements[1]) else None,
              PinyinField(line), DefinitionField(line))
  }

  /** A form or a pinyin field of a well-formed line: none of the delimiters
      a line is cut at; a form has no space either. */
  predicate PlainPinyin(p: string) {
    '[' !in p && ']' !in p && '/' !in p
  }

  predicate PlainForm(f: string) {
    PlainPinyin(f) && ' ' !in f
  }

  /** A well-formed CC-CEDICT line. */
  function FormatLine(e: DictEntry): string
    requires e.simplified.Some?
  {
    e.traditional + " " + e.simplified.value + " [" + e.pinyin + "] /" + e.definition + "/"
  }

  /** The first occurrence of `c` is at `k`. */
  lemma IndexOfAt(s: string, c: char, k: nat)
    requires k < |s| && s[k] == c && c !in s[..k]
    ensures IndexOf(s, c) == k
  {
  }

  /** Reading a well-formed line gives back its four fields, whatever the
      definition holds (slashes and brackets included). */
  lemma GetElementsFormat(e: DictEntry)
    requires e.simplified.Some? && PlainForm(e.traditional) && PlainForm(e.simplified.value)
    requires PlainPinyin(e.pinyin)
    ensures GetElements(FormatLine(e)) == e
  {
    FormatPinyin(e);
    FormatDefinition(e);
    FormatFields(e);
    GetElementsOf(FormatLine(e), e);
  }

  /** A line whose four fields, cut as `getElements` cuts them, are those
      of `e` reads as `e`. */
  lemma GetElementsOf(line: string, e: DictEntry)
    requires e.simplified.Some?
    requires var elements := Split(line, ' ');
      |elements| >= 2 && elements[0] == e.traditional && elements[1] == e.simplified.value
    requires PinyinField(line) == e.pinyin && DefinitionField(line) == e.definition
    ensures GetElements(line) == e
  {
  }

  lemma FormatFields(e: DictEntry)
    requires e.simplified.Some? && PlainForm(e.traditional) && PlainForm(e.simplified.value)
    ensures var elements := Split(FormatLine(e), ' ');
      |elements| >= 2 && elements[0] == e.traditional && elements[1] == e.simplified.value
  {
    var rest := "[" + e.pinyin + "] /" + e.definition + "/";
    assert FormatLine(e) == e.traditional + " " + e.simplified.value + " " + rest;
    SplitFields(FormatLine(e), e.traditional, e.simplified.value, rest);
  }

  /** A character absent from both parts is absent from their
      concatenation. */
  lemma NotInCat(a: string, b: string, c: char)
    requires c !in a && c !in b
    ensures c !in a + b
  {
    forall i | 0 <= i < |a + b| ensures (a + b)[i] != c {
      if i < |a| { assert (a + b)[i] == a[i]; } else { assert (a + b)[i] == b[i - |a|]; }
    }
  }

  lemma FormatPinyin(e: DictEntry)
    requires e.simplified.Some? && PlainForm(e.traditional) && PlainForm(e.simplified.value)
    requires PlainPinyin(e.pinyin)
    ensures PinyinField(FormatLine(e)) == e.pinyin
  {
    var t, s := e.traditional, e.simplified.value;
    var head := t + " " + s + " ";
    NotInCat(t, " ", '['); NotInCat(t + " ", s, '['); NotInCat(t + " " + s, " ", '[');
    NotInCat(t, " ", ']'); NotInCat(t + " ", s, ']'); NotInCat(t + " " + s, " ", ']');
    var tail := " /" + e.definition + "/";
    assert FormatLine(e) == head + "[" + e.pinyin + "]" + tail;
    BetweenBrackets(head, e.pinyin, tail);
  }

  /** The text between the first `[` and the first `]` of
      `head [p] tail`, when neither `head` nor `p` holds a bracket. */
  lemma BetweenBrackets(head: string, p: string, tail: string)
    requires '[' !in head && ']' !in head && ']' !in p
    ensures PinyinField(head + "[" + p + "]" + tail) == p
  {
    var line := head + "[" + p + "]" + tail;
    var upto := head + "[" + p;
    NotInCat(head, "[", ']');
    NotInCat(head + "[", p, ']');
    assert line == head + ("[" + p + "]" + tail);
    assert line == upto + ("]" + tail);
    FirstAfter(head, "[" + p + "]" + tail, '[');
    FirstAfter(upto, "]" + tail, ']');
    assert line[|head| + 1..|upto|] == p;
  }

  lemma FormatDefinition(e: DictEntry)
    requires e.simplified.Some? && PlainForm(e.traditional) && PlainForm(e.simplified.value)
    requires PlainPinyin(e.pinyin)
    ensures DefinitionField(FormatLine(e)) == e.definition
  {
    var line := FormatLine(e);
    var tail := e.traditional + " " + e.simplified.value + " [" + e.pinyin + "] ";
    var rest := "/" + e.definition + "/";
    assert line == tail + rest;
    FirstAfter(tail, rest, '/');
    var j := |line| - 1;
    assert line[j] == '/';
    assert LastIndexOf(line, '/') == j;
    assert IndexOf(line, '/') == |tail|;
    assert line[|tail| + 1..j] == rest[1..|rest| - 1] == e.definition;
    assert Clamp(|tail| + 1, |line|) == |tail| + 1 && Clamp(j, |line|) == j;
    assert Substring(line, |tail| + 1, j) == e.definition;
  }

  /** The first occurrence of `c` in `a + b`, when `a` lacks it and `b`
      starts with it. */
  lemma FirstAfter(a: string, b: string, c: char)
    requires c !in a && |b| > 0 && b[0] == c
    ensures IndexOf(a + b, c) == |a|
  {
    assert (a + b)[..|a|] == a;
    IndexOfAt(a + b, c, |a|);
  }

  /** The first two space-separated fields of a line `t s rest`. */
  lemma SplitFields(line: string, t: string, s: string, rest: string)
    requires ' ' !in t && ' ' !in s && line == t + " " + s + " " + rest
    ensures var elements := Split(line, ' '); |elements| >= 2 && elements[0] == t && elements[1] == s
  {
    IndexOfAt(line, ' ', |t|);
    var tail := line[|t| + 1..];
    assert tail == s + " " + rest;
    IndexOfAt(tail, ' ', |s|);
    assert tail[..|s|] == s;
  }

  /** A blank line, such as the one after a final line break, reads as an
      empty traditional form with no simplified form. */
  lemma GetElementsBlank()
    ensures GetElements("") == DictEntry("", None, "", "")
  {
    GetElementsNoSpace("");
    BlankFields();
  }

  /** A line without a space is all traditional form. */
  lemma GetElementsNoSpace(line: string)
    requires ' ' !in line
    ensures GetElements(line) == DictEntry(line, None, PinyinField(line), DefinitionField(line))
  {
  }

  lemma BlankFields()
    ensures PinyinField("") == "" && DefinitionField("") == ""
  {
    var blank: string := [];
    assert IndexOf(blank, '[') == -1 && IndexOf(blank, ']') == -1;
    assert IndexOf(blank, '/') == -1 && LastIndexOf(blank, '/') == -1;
    assert Substring(blank, 0, -1) == blank;
  }

  /** The two fields `nextCharTraditional` and `nextCharSimplified` read from
      line `j`: the first two space-separated fields, and two empty strings
      past the end of the file. */
  function NextKey(lines: seq<string>, j: nat): (string, Option<string>) {
    if j < |lines| then
      var elements := Split(lines[j], ' ');
      (elements[0], if |elements| >= 2 then Some(elements[1]) else None)
    else ("", Some(""))
  }

  /** The key of an entry: its two forms. */
  function EntryKey(e: DictEntry): (string, Option<string>) {
    (e.traditional, e.simplified)
  }

  /** The entries read from some lines, in order. */
  function Entries(lines: seq<string>): (r: seq<DictEntry>)
    ensures |r| == |lines|
    ensures forall k :: 0 <= k < |lines| ==> r[k] == GetElements(lines[k])
  {
    seq(|lines|, k requires 0 <= k < |lines| => GetElements(lines[k]))
  }

  /** The key of entry `j`, and that of the missing line past the end. */
  function KeyAt(es: seq<DictEntry>, j: nat): (string, Option<string>) {
    if j < |es| then EntryKey(es[j]) else ("", Some(""))
  }

  /** The two fields read from a line are those of its entry. */
  lemma NextKeyAt(lines: seq<string>, j: nat)
    ensures NextKey(lines, j) == KeyAt(Entries(lines), j)
  {
  }

  /** The grouping loop runs off the end of the file, and reads the missing
      line after the last one, exactly when the last entry of a file past the
      header has an empty traditional and an empty simplified form (as a
      line that starts with two spaces has). */
  predicate EndsCleanly(es: seq<DictEntry>) {
    |es| > StartingLine ==> EntryKey(es[|es| - 1]) != ("", Some(""))
  }

  /** The last entry of the group that starts at entry `i`, searched from
      entry `j` on: the run of consecutive entries with the key of entry
      `i`. */
  function GroupEnd(es: seq<DictEntry>, i: nat, j: nat): (r: nat)
    requires i <= j < |es|
    ensures j <= r < |es|
    decreases |es| - j
  {
    if j + 1 < |es| && EntryKey(es[j + 1]) == EntryKey(es[i]) then GroupEnd(es, i, j + 1) else j
  }

  /** The entries after `j` up to the end of the group share the key of
      entry `i`, and the entry after the group does not. */
  lemma {:induction false} GroupEndKeys(es: seq<DictEntry>, i: nat, j: nat)
    requires i <= j < |es|
    ensures forall k {:trigger EntryKey(es[k])} :: j < k <= GroupEnd(es, i, j) ==> EntryKey(es[k]) == EntryKey(es[i])
    ensures GroupEnd(es, i, j) + 1 < |es| ==> EntryKey(es[GroupEnd(es, i, j) + 1]) != EntryKey(es[i])
    decreases |es| - j
  {
    if j + 1 < |es| && EntryKey(es[j + 1]) == EntryKey(es[i]) {
      GroupEndKeys(es, i, j + 1);
    }
  }

  /** The two tables, each keyed in first-insertion order. */
  datatype Tables = Tables(simplified: Object<seq<DictEntry>>, traditional: Object<seq<DictEntry>>) {
    ghost predicate Valid() {
      simplified.Valid() && traditional.Valid()
    }
  }

  /** `table[key]`, with an absent key read as the empty list. */
  function Lookup(o: Object<seq<DictEntry>>, key: string): (r: seq<DictEntry>)
    ensures key !in o.values ==> r == []
    ensures key in o.values ==> r == o.values[key]
  {
    if key in o.values then o.values[key] else []
  }

  /** A group is appended to the list under its simplified form and to the
      list under its traditional form, each list being created when absent. */
  function InsertGroup(d: Tables, group: seq<DictEntry>): Tables
    requires |group| > 0
  {
    var sk, tk := SimplifiedKey(group[0]), group[0].traditional;
    Tables(d.simplified.Put(sk, Lookup(d.simplified, sk) + group),
           d.traditional.Put(tk, Lookup(d.traditional, tk) + group))
  }

  /** The grouping loop from entry `i` on, group by group. */
  function Load(d: Tables, es: seq<DictEntry>, i: nat): Tables
    decreases |es| - i
  {
    if i >= |es| then d
    else
      var e := GroupEnd(es, i, i);
      Load(InsertGroup(d, es[i..e + 1]), es, e + 1)
  }

  /** One round of the grouping loop. */
  lemma LoadStep(d: Tables, es: seq<DictEntry>, i: nat)
    requires i < |es|
    ensures var e := GroupEnd(es, i, i);
      Load(d, es, i) == Load(InsertGroup(d, es[i..e + 1]), es, e + 1)
  {
  }

  /** Loading from entry `i` on turns `d` into `target`. */
  predicate LoadsTo(d: Tables, es: seq<DictEntry>, i: nat, target: Tables) {
    Load(d, es, i) == target
  }

  /** Storing the group that starts at `i` leaves the rest of the loop to
      do from the entry after the group. */
  lemma LoadAdvance(before: Tables, after: Tables, es: seq<DictEntry>, i: nat, last: nat, g: seq<DictEntry>, target: Tables)
    requires i < |es| && last == GroupEnd(es, i, i) && g == es[i..last + 1]
    requires after == InsertGroup(before, g) && LoadsTo(before, es, i, target)
    ensures LoadsTo(after, es, last + 1, target)
  {
    LoadStep(before, es, i);
  }

  /** Past the last entry there is nothing left to do. */
  lemma LoadEnd(d: Tables, es: seq<DictEntry>, i: nat, target: Tables)
    requires i >= |es| && LoadsTo(d, es, i, target)
    ensures d == target
  {
  }

  /** The entries the grouping loop reads: those after the header. */
  function Body(es: seq<DictEntry>): (r: seq<DictEntry>)
    ensures |es| <= StartingLine ==> r == []
    ensures |es| > StartingLine ==> r == es[StartingLine..]
  {
    if |es| <= StartingLine then [] else es[StartingLine..]
  }

  /** The entries with a given simplified key, in order. */
  function WithSimplified(es: seq<DictEntry>, key: string): (r: seq<DictEntry>)
    ensures |r| <= |es|
  {
    if |es| == 0 then []
    else (if SimplifiedKey(es[0]) == key then [es[0]] else []) + WithSimplified(es[1..], key)
  }

  /** The entries with a given traditional form, in order. */
  function WithTraditional(es: seq<DictEntry>, key: string): (r: seq<DictEntry>)
    ensures |r| <= |es|
  {
    if |es| == 0 then []
    else (if es[0].traditional == key then [es[0]] else []) + WithTraditional(es[1..], key)
  }

  /** An entry is kept exactly when it carries the key. */
  lemma {:induction false} WithSimplifiedMembers(es: seq<DictEntry>, key: string, e: DictEntry)
    ensures e in WithSimplified(es, key) <==> e in es && SimplifiedKey(e) == key
  {
    if |es| > 0 {
      WithSimplifiedMembers(es[1..], key, e);
      assert es == [es[0]] + es[1..];
    }
  }

  lemma {:induction false} WithTraditionalMembers(es: seq<DictEntry>, key: string, e: DictEntry)
    ensures e in WithTraditional(es, key) <==> e in es && e.traditional == key
  {
    if |es| > 0 {
      WithTraditionalMembers(es[1..], key, e);
      assert es == [es[0]] + es[1..];
    }
  }

  lemma {:induction false} WithSimplifiedAppend(a: seq<DictEntry>, b: seq<DictEntry>, key: string)
    ensures WithSimplified(a + b, key) == WithSimplified(a, key) + WithSimplified(b, key)
  {
    if |a| > 0 {
      assert (a + b)[1..] == a[1..] + b;
      WithSimplifiedAppend(a[1..], b, key);
    } else {
      assert a + b == b;
    }
  }

  lemma {:induction false} WithTraditionalAppend(a: seq<DictEntry>, b: seq<DictEntry>, key: string)
    ensures WithTraditional(a + b, key) == WithTraditional(a, key) + WithTraditional(b, key)
  {
    if |a| > 0 {
      assert (a + b)[1..] == a[1..] + b;
      WithTraditionalAppend(a[1..], b, key);
    } else {
      assert a + b == b;
    }
  }

  /** Every entry of `g` has the key `key`. */
  predicate SameKey(g: seq<DictEntry>, key: (string, Option<string>)) {
    forall k {:trigger EntryKey(g[k])} :: 0 <= k < |g| ==> EntryKey(g[k]) == key
  }

  /** The entries after the first of a group share its key too. */
  lemma SameKeyTail(g: seq<DictEntry>, key: (string, Option<string>))
    requires |g| > 0 && SameKey(g, key)
    ensures EntryKey(g[0]) == key && SameKey(g[1..], key)
  {
    forall k | 0 <= k < |g| - 1
      ensures EntryKey(g[1..][k]) == key
    {
      assert g[1..][k] == g[k + 1];
      assert EntryKey(g[k + 1]) == key;
    }
  }

  lemma {:induction false} WithSimplifiedGroup(g: seq<DictEntry>, key: (string, Option<string>), k: string)
    requires SameKey(g, key)
    ensures WithSimplified(g, k) == if KeyOf(key.1) == k then g else []
  {
    if |g| > 0 {
      SameKeyTail(g, key);
      WithSimplifiedGroup(g[1..], key, k);
    }
  }

  lemma {:induction false} WithTraditionalGroup(g: seq<DictEntry>, key: (string, Option<string>), k: string)
    requires SameKey(g, key)
    ensures WithTraditional(g, k) == if key.0 == k then g else []
  {
    if |g| > 0 {
      SameKeyTail(g, key);
      WithTraditionalGroup(g[1..], key, k);
    }
  }

  /** The group starting at entry `i` and the entries after it. */
  lemma GroupSplit(es: seq<DictEntry>, i: nat, e: nat)
    requires i < |es| && e == GroupEnd(es, i, i)
    ensures es[i..] == es[i..e + 1] + es[e + 1..]
    ensures SameKey(es[i..e + 1], EntryKey(es[i]))
  {
    Seqs.DropSplit(es, i, e + 1);
    GroupEndKeys(es, i, i);
    var g := es[i..e + 1];
    forall k | 0 <= k < |g|
      ensures EntryKey(g[k]) == EntryKey(es[i])
    {
      assert g[k] == es[i + k];
    }
  }

  /** Inserting a group appends to each list the group's entries that
      carry its key. */
  lemma InsertGroupLookup(d: Tables, g: seq<DictEntry>, k: string)
    requires |g| > 0 && SameKey(g, EntryKey(g[0]))
    ensures Lookup(InsertGroup(d, g).simplified, k) == Lookup(d.simplified, k) + WithSimplified(g, k)
    ensures Lookup(InsertGroup(d, g).traditional, k) == Lookup(d.traditional, k) + WithTraditional(g, k)
  {
    WithSimplifiedGroup(g, EntryKey(g[0]), k);
    WithTraditionalGroup(g, EntryKey(g[0]), k);
    assert Lookup(d.simplified, k) + [] == Lookup(d.simplified, k);
    assert Lookup(d.traditional, k) + [] == Lookup(d.traditional, k);
  }

  /** Each list holds the entries with its key, in file order, after
      whatever it held before. */
  lemma LoadLookup(d: Tables, es: seq<DictEntry>, i: nat, k: string)
    requires i <= |es|
    ensures Lookup(Load(d, es, i).simplified, k) == Lookup(d.simplified, k) + WithSimplified(es[i..], k)
    ensures Lookup(Load(d, es, i).traditional, k) == Lookup(d.traditional, k) + WithTraditional(es[i..], k)
  {
    LoadSimplifiedLookup(d, es, i, k);
    LoadTraditionalLookup(d, es, i, k);
  }

  lemma {:induction false} LoadSimplifiedLookup(d: Tables, es: seq<DictEntry>, i: nat, k: string)
    requires i <= |es|
    ensures Lookup(Load(d, es, i).simplified, k) == Lookup(d.simplified, k) + WithSimplified(es[i..], k)
    decreases |es| - i
  {
    if i < |es| {
      var d', e := SimplifiedStep(d, es, i, k);
      LoadSimplifiedLookup(d', es, e + 1, k);
    } else {
      SimplifiedEnd(d, es, i, k);
    }
  }

  /** After the last entry the simplified list is what it was. */
  lemma SimplifiedEnd(d: Tables, es: seq<DictEntry>, i: nat, k: string)
    requires i == |es|
    ensures Lookup(Load(d, es, i).simplified, k) == Lookup(d.simplified, k) + WithSimplified(es[i..], k)
  {
    assert Load(d, es, i) == d;
    Seqs.DropAll(es, i);
    Seqs.AppendNothing(Lookup(d.simplified, k));
  }

  /** One round of the grouping loop, as seen from the simplified list: the
      list plus the entries still to come stay the same. */
  lemma SimplifiedStep(d: Tables, es: seq<DictEntry>, i: nat, k: string) returns (d': Tables, e: nat)
    requires i < |es|
    ensures i <= e < |es| && Load(d, es, i) == Load(d', es, e + 1)
    ensures Lookup(d'.simplified, k) + WithSimplified(es[e + 1..], k) == Lookup(d.simplified, k) + WithSimplified(es[i..], k)
  {
    e := GroupEnd(es, i, i);
    d' := InsertGroup(d, es[i..e + 1]);
    LoadStep(d, es, i);
    GroupSimplifiedLookup(d, es, i, e, k);
  }

  lemma {:induction false} LoadTraditionalLookup(d: Tables, es: seq<DictEntry>, i: nat, k: string)
    requires i <= |es|
    ensures Lookup(Load(d, es, i).traditional, k) == Lookup(d.traditional, k) + WithTraditional(es[i..], k)
    decreases |es| - i
  {
    if i < |es| {
      var d', e := TraditionalStep(d, es, i, k);
      LoadTraditionalLookup(d', es, e + 1, k);
    } else {
      TraditionalEnd(d, es, i, k);
    }
  }

  /** After the last entry the traditional list is what it was. */
  lemma TraditionalEnd(d: Tables, es: seq<DictEntry>, i: nat, k: string)
    requires i == |es|
    ensures Lookup(Load(d, es, i).traditional, k) == Lookup(d.traditional, k) + WithTraditional(es[i..], k)
  {
    assert Load(d, es, i) == d;
    Seqs.DropAll(es, i);
    Seqs.AppendNothing(Lookup(d.traditional, k));
  }

  /** One round of the grouping loop, as seen from the traditional list. */
  lemma TraditionalStep(d: Tables, es: seq<DictEntry>, i: nat, k: string) returns (d': Tables, e: nat)
    requires i < |es|
    ensures i <= e < |es| && Load(d, es, i) == Load(d', es, e + 1)
    ensures Lookup(d'.traditional, k) + WithTraditional(es[e + 1..], k) == Lookup(d.traditional, k) + WithTraditional(es[i..], k)
  {
    e := GroupEnd(es, i, i);
    d' := InsertGroup(d, es[i..e + 1]);
    LoadStep(d, es, i);
    GroupTraditionalLookup(d, es, i, e, k);
  }

  /** Inserting the group that starts at entry `i`, then the entries after
      it, appends to the simplified list the entries from `i` on that carry
      its key. */
  lemma GroupSimplifiedLookup(d: Tables, es: seq<DictEntry>, i: nat, e: nat, k: string)
    requires i < |es| && e == GroupEnd(es, i, i)
    ensures var d' := InsertGroup(d, es[i..e + 1]);
      Lookup(d'.simplified, k) + WithSimplified(es[e + 1..], k) == Lookup(d.simplified, k) + WithSimplified(es[i..], k)
  {
    var g, rest := es[i..e + 1], es[e + 1..];
    GroupSplit(es, i, e);
    InsertGroupLookup(d, g, k);
    WithSimplifiedAppend(g, rest, k);
    Seqs.AppendAssoc(Lookup(d.simplified, k), WithSimplified(g, k), WithSimplified(rest, k));
  }

  /** The same for the traditional list. */
  lemma GroupTraditionalLookup(d: Tables, es: seq<DictEntry>, i: nat, e: nat, k: string)
    requires i < |es| && e == GroupEnd(es, i, i)
    ensures var d' := InsertGroup(d, es[i..e + 1]);
      Lookup(d'.traditional, k) + WithTraditional(es[e + 1..], k) == Lookup(d.traditional, k) + WithTraditional(es[i..], k)
  {
    var g, rest := es[i..e + 1], es[e + 1..];
    GroupSplit(es, i, e);
    InsertGroupLookup(d, g, k);
    WithTraditionalAppend(g, rest, k);
    Seqs.AppendAssoc(Lookup(d.traditional, k), WithTraditional(g, k), WithTraditional(rest, k));
  }

  /** From empty tables, each list holds exactly the entries after the
      header that carry its key, in file order. */
  lemma LoadFromEmpty(es: seq<DictEntry>, k: string)
    ensures Lookup(Load(Tables(Empty(), Empty()), es, StartingLine).simplified, k) == WithSimplified(Body(es), k)
    ensures Lookup(Load(Tables(Empty(), Empty()), es, StartingLine).traditional, k) == WithTraditional(Body(es), k)
  {
    if |es| > StartingLine {
      LoadLookup(Tables(Empty(), Empty()), es, StartingLine, k);
    }
  }

  /** The simplified keys of some entries, in order, and their traditional
      forms. */
  function SimplifiedKeys(es: seq<DictEntry>): (r: seq<string>)
    ensures |r| == |es|
  {
    if |es| == 0 then [] else [SimplifiedKey(es[0])] + SimplifiedKeys(es[1..])
  }

  function TraditionalKeys(es: seq<DictEntry>): (r: seq<string>)
    ensures |r| == |es|
  {
    if |es| == 0 then [] else [es[0].traditional] + TraditionalKeys(es[1..])
  }

  /** Key `n` of the sequences is the key of entry `n`. */
  lemma {:induction false} KeysAt(es: seq<DictEntry>, n: nat)
    requires n < |es|
    ensures SimplifiedKeys(es)[n] == SimplifiedKey(es[n])
    ensures TraditionalKeys(es)[n] == es[n].traditional
  {
    if n > 0 {
      KeysAt(es[1..], n - 1);
    }
  }

  /** Storing under a key extends the first-occurrence order by that key. */
  lemma DedupPut<V>(o: Object<V>, xs: seq<string>, k: string, v: V)
    requires o.Keyed() && o.keys == Dedup(xs)
    ensures o.Put(k, v).keys == Dedup(xs + [k])
  {
    assert (xs + [k])[..|xs|] == xs;
  }

  lemma {:induction false} KeysAppend(a: seq<DictEntry>, b: seq<DictEntry>)
    ensures SimplifiedKeys(a + b) == SimplifiedKeys(a) + SimplifiedKeys(b)
    ensures TraditionalKeys(a + b) == TraditionalKeys(a) + TraditionalKeys(b)
  {
    if |a| > 0 {
      assert (a + b)[1..] == a[1..] + b;
      KeysAppend(a[1..], b);
      Seqs.AppendAssoc([SimplifiedKey(a[0])], SimplifiedKeys(a[1..]), SimplifiedKeys(b));
      Seqs.AppendAssoc([a[0].traditional], TraditionalKeys(a[1..]), TraditionalKeys(b));
    } else {
      assert a + b == b;
    }
  }

  /** The keys from entry `i` on are the keys of the entries from `i` on. */
  lemma KeysDrop(es: seq<DictEntry>, i: nat)
    requires i <= |es|
    ensures SimplifiedKeys(es)[i..] == SimplifiedKeys(es[i..])
    ensures TraditionalKeys(es)[i..] == TraditionalKeys(es[i..])
  {
    assert es == es[..i] + es[i..];
    KeysAppend(es[..i], es[i..]);
  }

  /** Storing a group adds its simplified and traditional forms to the key
      orders unless they are there already. */
  lemma InsertGroupKeys(d: Tables, g: seq<DictEntry>)
    requires |g| > 0
    ensures d.simplified.Keyed() ==> InsertGroup(d, g).simplified.Keyed()
    ensures d.traditional.Keyed() ==> InsertGroup(d, g).traditional.Keyed()
    ensures d.simplified.Keyed() ==>
      InsertGroup(d, g).simplified.keys == AddKey(d.simplified.keys, SimplifiedKey(g[0]))
    ensures d.traditional.Keyed() ==>
      InsertGroup(d, g).traditional.keys == AddKey(d.traditional.keys, g[0].traditional)
  {
    var sk, tk := SimplifiedKey(g[0]), g[0].traditional;
    d.simplified.PutValid(sk, Lookup(d.simplified, sk) + g);
    d.traditional.PutValid(tk, Lookup(d.traditional, tk) + g);
  }

  /** Every entry of the group that starts at `i` has the simplified and
      traditional forms of entry `i`. */
  lemma GroupSameKeys(es: seq<DictEntry>, i: nat)
    requires i < |es|
    ensures forall m :: i < m <= GroupEnd(es, i, i) ==>
      SimplifiedKey(es[m]) == SimplifiedKey(es[i]) && es[m].traditional == es[i].traditional
    ensures es[i..GroupEnd(es, i, i) + 1][0] == es[i]
  {
    GroupEndKeys(es, i, i);
    forall m | i < m <= GroupEnd(es, i, i)
      ensures SimplifiedKey(es[m]) == SimplifiedKey(es[i]) && es[m].traditional == es[i].traditional
    {
      assert EntryKey(es[m]) == EntryKey(es[i]);
    }
  }

  /** The simplified key order after loading the groups from entry `i` on,
      starting from the order `acc`: each group adds its simplified form
      unless the order holds it already. */
  function SimplifiedOrder(acc: seq<string>, es: seq<DictEntry>, i: nat): seq<string>
    decreases |es| - i
  {
    if i >= |es| then acc
    else SimplifiedOrder(AddKey(acc, SimplifiedKey(es[i])), es, GroupEnd(es, i, i) + 1)
  }

  /** The simplified table's key order after loading from entry `i`. */
  lemma {:induction false} LoadSimplifiedOrder(d: Tables, es: seq<DictEntry>, i: nat)
    requires i <= |es| && d.simplified.Keyed()
    ensures Load(d, es, i).simplified.keys == SimplifiedOrder(d.simplified.keys, es, i)
    decreases |es| - i
  {
    if i < |es| {
      var e := GroupEnd(es, i, i);
      InsertGroupKeys(d, es[i..e + 1]);
      assert es[i..e + 1][0] == es[i];
      LoadSimplifiedOrder(InsertGroup(d, es[i..e + 1]), es, e + 1);
    }
  }

  /** Group by group or entry by entry, the order is the same: the later
      entries of a group repeat the form of its first. */
  lemma {:induction false} SimplifiedOrderKeys(acc: seq<string>, es: seq<DictEntry>, ks: seq<string>, i: nat)
    requires i <= |es| == |ks| && forall m :: i <= m < |es| ==> ks[m] == SimplifiedKey(es[m])
    ensures SimplifiedOrder(acc, es, i) == DedupFrom(acc, ks, i)
    decreases |es| - i
  {
    if i < |es| {
      var e := GroupEnd(es, i, i);
      var acc' := AddKey(acc, SimplifiedKey(es[i]));
      SimplifiedOrderKeys(acc', es, ks, e + 1);
      SimplifiedGroupKeys(acc, es, ks, i);
    }
  }

  /** The later entries of a group leave the entrywise order unchanged. */
  lemma SimplifiedGroupKeys(acc: seq<string>, es: seq<DictEntry>, ks: seq<string>, i: nat)
    requires i < |es| == |ks| && forall m :: i <= m < |es| ==> ks[m] == SimplifiedKey(es[m])
    ensures DedupFrom(AddKey(acc, SimplifiedKey(es[i])), ks, GroupEnd(es, i, i) + 1) == DedupFrom(acc, ks, i)
  {
    var acc' := AddKey(acc, SimplifiedKey(es[i]));
    SimplifiedGroupIn(acc, es, ks, i);
    DedupFromSkip(acc', ks, i + 1, GroupEnd(es, i, i) + 1);
    assert DedupFrom(acc, ks, i) == DedupFrom(acc', ks, i + 1);
  }

  /** The key of every entry of a group is in the order once the group's
      first entry is. */
  lemma SimplifiedGroupIn(acc: seq<string>, es: seq<DictEntry>, ks: seq<string>, i: nat)
    requires i < |es| == |ks| && forall m :: i <= m < |es| ==> ks[m] == SimplifiedKey(es[m])
    ensures forall m :: i <= m <= GroupEnd(es, i, i) ==> ks[m] in AddKey(acc, SimplifiedKey(es[i]))
  {
    GroupSameKeys(es, i);
  }

  /** The traditional key order after loading the groups from entry `i` on,
      starting from the order `acc`: each group adds its traditional form
      unless the order holds it already. */
  function TraditionalOrder(acc: seq<string>, es: seq<DictEntry>, i: nat): seq<string>
    decreases |es| - i
  {
    if i >= |es| then acc
    else TraditionalOrder(AddKey(acc, es[i].traditional), es, GroupEnd(es, i, i) + 1)
  }

  /** The traditional table's key order after loading from entry `i`. */
  lemma {:induction false} LoadTraditionalOrder(d: Tables, es: seq<DictEntry>, i: nat)
    requires i <= |es| && d.traditional.Keyed()
    ensures Load(d, es, i).traditional.keys == TraditionalOrder(d.traditional.keys, es, i)
    decreases |es| - i
  {
    if i < |es| {
      var e := GroupEnd(es, i, i);
      InsertGroupKeys(d, es[i..e + 1]);
      assert es[i..e + 1][0] == es[i];
      LoadTraditionalOrder(InsertGroup(d, es[i..e + 1]), es, e + 1);
    }
  }

  /** Group by group or entry by entry, the order is the same: the later
      entries of a group repeat the form of its first. */
  lemma {:induction false} TraditionalOrderKeys(acc: seq<string>, es: seq<DictEntry>, ks: seq<string>, i: nat)
    requires i <= |es| == |ks| && forall m :: i <= m < |es| ==> ks[m] == es[m].traditional
    ensures TraditionalOrder(acc, es, i) == DedupFrom(acc, ks, i)
    decreases |es| - i
  {
    if i < |es| {
      var e := GroupEnd(es, i, i);
      var acc' := AddKey(acc, es[i].traditional);
      TraditionalOrderKeys(acc', es, ks, e + 1);
      TraditionalGroupKeys(acc, es, ks, i);
    }
  }

  /** The later entries of a group leave the entrywise order unchanged. */
  lemma TraditionalGroupKeys(acc: seq<string>, es: seq<DictEntry>, ks: seq<string>, i: nat)
    requires i < |es| == |ks| && forall m :: i <= m < |es| ==> ks[m] == es[m].traditional
    ensures DedupFrom(AddKey(acc, es[i].traditional), ks, GroupEnd(es, i, i) + 1) == DedupFrom(acc, ks, i)
  {
    var acc' := AddKey(acc, es[i].traditional);
    TraditionalGroupIn(acc, es, ks, i);
    DedupFromSkip(acc', ks, i + 1, GroupEnd(es, i, i) + 1);
    assert DedupFrom(acc, ks, i) == DedupFrom(acc', ks, i + 1);
  }

  /** The key of every entry of a group is in the order once the group's
      first entry is. */
  lemma TraditionalGroupIn(acc: seq<string>, es: seq<DictEntry>, ks: seq<string>, i: nat)
    requires i < |es| == |ks| && forall m :: i <= m < |es| ==> ks[m] == es[m].traditional
    ensures forall m :: i <= m <= GroupEnd(es, i, i) ==> ks[m] in AddKey(acc, es[i].traditional)
  {
    GroupSameKeys(es, i);
  }

  /** The simplified table lists its keys in the order the entries first
      name them. */
  lemma LoadSimplifiedKeys(d: Tables, es: seq<DictEntry>, i: nat, xs: seq<string>)
    requires i <= |es| && d.simplified.Keyed() && d.simplified.keys == Dedup(xs)
    ensures Load(d, es, i).simplified.keys == Dedup(xs + SimplifiedKeys(es[i..]))
  {
    LoadSimplifiedOrder(d, es, i);
    forall m | 0 <= m < |es|
      ensures SimplifiedKeys(es)[m] == SimplifiedKey(es[m])
    {
      KeysAt(es, m);
    }
    SimplifiedOrderKeys(d.simplified.keys, es, SimplifiedKeys(es), i);
    DedupFromDedup(xs, SimplifiedKeys(es), i);
    KeysDrop(es, i);
  }

  /** The traditional table lists its keys in the order the entries first
      name them. */
  lemma LoadTraditionalKeys(d: Tables, es: seq<DictEntry>, i: nat, xs: seq<string>)
    requires i <= |es| && d.traditional.Keyed() && d.traditional.keys == Dedup(xs)
    ensures Load(d, es, i).traditional.keys == Dedup(xs + TraditionalKeys(es[i..]))
  {
    LoadTraditionalOrder(d, es, i);
    forall m | 0 <= m < |es|
      ensures TraditionalKeys(es)[m] == es[m].traditional
    {
      KeysAt(es, m);
    }
    TraditionalOrderKeys(d.traditional.keys, es, TraditionalKeys(es), i);
    DedupFromDedup(xs, TraditionalKeys(es), i);
    KeysDrop(es, i);
  }

  /** From empty tables, both key orders are the first-occurrence orders of
      the entries after the header. */
  lemma LoadKeysFromEmpty(es: seq<DictEntry>)
    ensures Load(Tables(Empty(), Empty()), es, StartingLine).simplified.keys == Dedup(SimplifiedKeys(Body(es)))
    ensures Load(Tables(Empty(), Empty()), es, StartingLine).traditional.keys == Dedup(TraditionalKeys(Body(es)))
  {
    if |es| > StartingLine {
      var none: seq<string> := [];
      LoadSimplifiedKeys(Tables(Empty(), Empty()), es, StartingLine, none);
      LoadTraditionalKeys(Tables(Empty(), Empty()), es, StartingLine, none);
      Seqs.AppendNothing(SimplifiedKeys(Body(es)));
      Seqs.AppendNothing(TraditionalKeys(Body(es)));
    }
  }
}
