/** The wubi keystroke table of lib/wubi.js: the table file lists, between a
    `BEGIN_TABLE` line and an `END_TABLE` line, one `code<TAB>hanzi...` line
    per entry; a lookup answers the code of a whole string when the table
    has it, and otherwise the codes of its characters joined by spaces. */
module Wubi {
  import opened JsStrings
  import Seqs

  const BeginMarker: string := "BEGIN_TABLE"
  const EndMarker: string := "END_TABLE"

  /** The key a JavaScript object stores a value under when the key
      expression is `undefined`. */
  const UndefinedKey: string := "undefined"

  /** The first position at or after `from` that holds `marker`. */
  function FirstAt(lines: seq<string>, marker: string, from: nat): (r: nat)
    requires exists k :: from <= k < |lines| && lines[k] == marker
    ensures from <= r < |lines| && lines[r] == marker
    decreases |lines| - from
  {
    if lines[from] == marker then from else FirstAt(lines, marker, from + 1)
  }

  /** No line between `from` and the first marker holds the marker. */
  lemma {:induction false} FirstAtFirst(lines: seq<string>, marker: string, from: nat, k: nat)
    requires exists k :: from <= k < |lines| && lines[k] == marker
    requires from <= k < FirstAt(lines, marker, from)
    ensures lines[k] != marker
    decreases |lines| - from
  {
    if k > from {
      FirstAtFirst(lines, marker, from + 1, k);
    }
  }

  /** The table file has a `BEGIN_TABLE` line and, after the first one, an
      `END_TABLE` line. Without them the source loops forever or fails on
      a missing line. */
  predicate HasMarkers(lines: seq<string>) {
    && (exists k :: 0 <= k < |lines| && lines[k] == BeginMarker)
    && exists k :: FirstAt(lines, BeginMarker, 0) < k < |lines| && lines[k] == EndMarker
  }

  /** The lines strictly between the first `BEGIN_TABLE` and the first
      `END_TABLE` after it. */
  function TableRows(lines: seq<string>): seq<string>
    requires HasMarkers(lines)
  {
    var b := FirstAt(lines, BeginMarker, 0);
    lines[b + 1..FirstAt(lines, EndMarker, b + 1)]
  }

  /** The hanzi of a table line, its second tab field (`undefined` when the
      line has no tab). */
  function RowHanzi(line: string): string {
    var fields := Split(line, '\t');
    if |fields| >= 2 then fields[1] else UndefinedKey
  }

  /** The wubi code of a table line, its first tab field. */
  function RowCode(line: string): (r: string)
    ensures '\t' !in r
  {
    Split(line, '\t')[0]
  }

  /** The table after storing every row in turn, the code under the hanzi. */
  function BuildTable(m: map<string, string>, rows: seq<string>): map<string, string> {
    if |rows| == 0 then m
    else
      var row := rows[|rows| - 1];
      BuildTable(m, rows[..|rows| - 1])[RowHanzi(row) := RowCode(row)]
  }

  /** A hanzi that no row names keeps its earlier code, or stays absent. */
  lemma {:induction false} BuildTableKeeps(m: map<string, string>, rows: seq<string>, h: string)
    requires forall i :: 0 <= i < |rows| ==> RowHanzi(rows[i]) != h
    ensures h in BuildTable(m, rows) <==> h in m
    ensures h in m ==> BuildTable(m, rows)[h] == m[h]
  {
    if |rows| > 0 {
      BuildTableKeeps(m, rows[..|rows| - 1], h);
    }
  }

  /** A hanzi holds the code of the last row that names it. */
  lemma {:induction false} BuildTableLastWins(m: map<string, string>, rows: seq<string>, h: string, i: nat)
    requires i < |rows| && RowHanzi(rows[i]) == h
    requires forall j :: i < j < |rows| ==> RowHanzi(rows[j]) != h
    ensures h in BuildTable(m, rows) && BuildTable(m, rows)[h] == RowCode(rows[i])
  {
    if i < |rows| - 1 {
      BuildTableLastWins(m, rows[..|rows| - 1], h, i);
    }
  }

  /** No code holds a tab. */
  lemma {:induction false} BuildTableCodes(m: map<string, string>, rows: seq<string>)
    requires forall h :: h in m ==> '\t' !in m[h]
    ensures forall h :: h in BuildTable(m, rows) ==> '\t' !in BuildTable(m, rows)[h]
  {
    if |rows| > 0 {
      BuildTableCodes(m, rows[..|rows| - 1]);
    }
  }

  /** The header before the first `BEGIN_TABLE` and everything from the
      first `END_TABLE` after it on are ignored. */
  lemma TableRowsOfFile(header: seq<string>, body: seq<string>, trailer: seq<string>)
    requires BeginMarker !in header && EndMarker !in body
    ensures var lines := header + [BeginMarker] + body + [EndMarker] + trailer;
      HasMarkers(lines) && TableRows(lines) == body
  {
    var lines := header + [BeginMarker] + body + [EndMarker] + trailer;
    var b := |header|;
    assert lines[b] == BeginMarker;
    assert forall k :: 0 <= k < b ==> lines[k] == header[k] && header[k] in header;
    FirstAtIs(lines, BeginMarker, 0, b);
    var e := b + 1 + |body|;
    assert lines[e] == EndMarker;
    assert forall k :: b + 1 <= k < e ==> lines[k] == body[k - b - 1] && body[k - b - 1] in body;
    FirstAtIs(lines, EndMarker, b + 1, e);
    assert lines[b + 1..e] == body;
  }

  /** The first position of a marker is the one before which it does not
      occur. */
  lemma {:induction false} FirstAtIs(lines: seq<string>, marker: string, from: nat, at: nat)
    requires from <= at < |lines| && lines[at] == marker
    requires forall k :: from <= k < at ==> lines[k] != marker
    ensures FirstAt(lines, marker, from) == at
    decreases at - from
  {
    if from < at {
      FirstAtIs(lines, marker, from + 1, at);
    }
  }

  /** The first loop of `get_table`: the position just after the first
      `BEGIN_TABLE`. */
  method SkipHeader(lines: seq<string>) returns (i: nat)
    requires exists k :: 0 <= k < |lines| && lines[k] == BeginMarker
    ensures i == FirstAt(lines, BeginMarker, 0) + 1
  {
    ghost var b := FirstAt(lines, BeginMarker, 0);
    i := 0;
    while true
      invariant i <= b
      decreases b - i
    {
      if lines[i] == BeginMarker {
        if i < b {
          FirstAtFirst(lines, BeginMarker, 0, i);
        }
        i := i + 1;
        break;
      }
      i := i + 1;
    }
  }

  /** `get_table`: skip to the line after `BEGIN_TABLE`, then store each
      line's code under its hanzi until `END_TABLE`. */
  method GetTable(lines: seq<string>) returns (result: map<string, string>)
    requires HasMarkers(lines)
    ensures result == BuildTable(map[], TableRows(lines))
  {
    var i := SkipHeader(lines);
    result := ReadRows(lines, i);
  }

  /** The second loop of `get_table`: the rows from `start` up to the first
      `END_TABLE`, stored in turn. */
  method ReadRows(lines: seq<string>, start: nat) returns (result: map<string, string>)
    requires exists k :: start <= k < |lines| && lines[k] == EndMarker
    ensures result == BuildTable(map[], lines[start..FirstAt(lines, EndMarker, start)])
  {
    ghost var e := FirstAt(lines, EndMarker, start);
    result := map[];
    var i := start;
    while lines[i] != EndMarker
      invariant start <= i <= e
      invariant result == BuildTable(map[], lines[start..i])
      decreases e - i
    {
      BuildTableGrow(lines, start, i);
      result := result[RowHanzi(lines[i]) := RowCode(lines[i])];
      i := i + 1;
    }
    FirstAtStop(lines, EndMarker, start, i);
  }

  /** A scan that starts at `from`, has not passed the first marker and
      stands on a marker stands on the first one. */
  lemma FirstAtStop(lines: seq<string>, marker: string, from: nat, i: nat)
    requires exists k :: from <= k < |lines| && lines[k] == marker
    requires from <= i <= FirstAt(lines, marker, from) && lines[i] == marker
    ensures i == FirstAt(lines, marker, from)
  {
    if i < FirstAt(lines, marker, from) {
      FirstAtFirst(lines, marker, from, i);
    }
  }

  /** The rows up to line `i` are the rows before it, then line `i`. */
  lemma BuildTableGrow(lines: seq<string>, start: nat, i: nat)
    requires start <= i < |lines|
    ensures BuildTable(map[], lines[start..i + 1]) == BuildTable(map[], lines[start..i])[RowHanzi(lines[i]) := RowCode(lines[i])]
  {
    Seqs.SliceGrow(lines, start, i);
  }

  /** The code the per-character fallback uses for one character: its table
      entry, or the empty string that `join` makes of `undefined`. */
  function CharCode(table: map<string, string>, c: char): string {
    if [c] in table then table[[c]] else ""
  }

  /** The per-character codes of a string, in order. */
  function CharCodes(table: map<string, string>, hanzi: string): (r: seq<string>)
    ensures |r| == |hanzi|
    ensures forall i :: 0 <= i < |hanzi| ==> r[i] == CharCode(table, hanzi[i])
  {
    seq(|hanzi|, i requires 0 <= i < |hanzi| => CharCode(table, hanzi[i]))
  }

  /** `getWubi`: the entry for the whole string when there is one, otherwise
      the per-character codes joined by single spaces. */
  function GetWubi(table: map<string, string>, hanzi: string): (r: string)
    ensures hanzi in table ==> r == table[hanzi]
  {
    if hanzi in table then table[hanzi] else Join(CharCodes(table, hanzi), ' ')
  }

  /** Without a whole-string entry, the answer for a non-empty string has
      one space fewer than the string has characters, and splitting it at
      the spaces gives back the per-character codes, as long as no code
      holds a space. */
  lemma GetWubiFallback(table: map<string, string>, hanzi: string)
    requires hanzi !in table && |hanzi| > 0
    requires forall h :: h in table ==> ' ' !in table[h]
    ensures Count(GetWubi(table, hanzi), ' ') == |hanzi| - 1
    ensures Split(GetWubi(table, hanzi), ' ') == CharCodes(table, hanzi)
  {
    var codes := CharCodes(table, hanzi);
    assert forall i :: 0 <= i < |codes| ==> ' ' !in codes[i];
    JoinSeparators(codes, ' ');
    SplitJoin(codes, ' ');
  }

  /** A single character without an entry has the empty code. */
  lemma GetWubiUnknownChar(table: map<string, string>, c: char)
    requires [c] !in table
    ensures GetWubi(table, [c]) == ""
  {
  }

  /** The module-level `table` of lib/wubi.js. */
  class WubiKeys {
    var table: map<string, string>

    constructor ()
      ensures table == map[]
    {
      table := map[];
    }

    /** `start`: the table file, split at line breaks, is read into
        `table`. */
    method Start(text: string)
      requires HasMarkers(Split(text, '\n'))
      modifies this
      ensures table == BuildTable(map[], TableRows(Split(text, '\n')))
    {
      var lines := Split(text, '\n');
      table := GetTable(lines);
    }
  }
}
