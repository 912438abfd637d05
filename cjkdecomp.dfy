/** The line format of the character decomposition table,
    `character:kind(component,component,...)`, and the parser that both
    decomposers use for it. */
module CjkDecomp {
  import opened JsStrings
  import Seqs

  /** One parsed line: the character, the text between `:` and the first
      `(`, and the comma-separated text between the first `(` and the first
      `)`. */
  datatype Row = Row(character: string, kind: string, components: seq<string>)

  /** A line the parser can read without failing: it has a `:`, so the part
      after the colon is defined. */
  predicate Parsable(line: string) {
    ':' in line
  }

  /** The line parser: split at `:`, then cut the kind and the component list
      out of the part after the first colon. */
  function ParseRow(line: string): (r: Row)
    requires Parsable(line)
    ensures |r.components| >= 1
    ensures ':' !in r.character
  {
    var colonsplit := Split(line, ':');
    var decomposition := colonsplit[1];
    var open := IndexOf(decomposition, '(');
    var close := IndexOf(decomposition, ')');
    Row(colonsplit[0], Substring(decomposition, 0, open), Split(Substring(decomposition, open + 1, close), ','))
  }

  /** The text of a table line for a row. */
  function FormatRow(r: Row): string
  {
    r.character + ":" + r.kind + "(" + Join(r.components, ',') + ")"
  }

  /** Rows whose fields the line format can carry unambiguously. */
  predicate WellFormedRow(r: Row) {
    && ':' !in r.character
    && ':' !in r.kind && '(' !in r.kind && ')' !in r.kind
    && |r.components| >= 1
    && forall i :: 0 <= i < |r.components| ==> NeutralComponent(r.components[i])
  }

  predicate NeutralComponent(c: string) {
    ':' !in c && ',' !in c && '(' !in c && ')' !in c
  }

  /** A component list joined with commas holds no `:`, `(` or `)`. */
  lemma {:induction false} JoinNeutral(parts: seq<string>)
    requires forall i :: 0 <= i < |parts| ==> NeutralComponent(parts[i])
    ensures ':' !in Join(parts, ',') && '(' !in Join(parts, ',') && ')' !in Join(parts, ',')
  {
    if |parts| > 1 {
      JoinNeutral(parts[1..]);
    }
  }

  /** Text without a given character keeps that property inside a longer
      string built from pieces without it. */
  lemma ColonFree(kind: string, j: string)
    requires ':' !in kind && ':' !in j
    ensures ':' !in kind + "(" + j + ")"
  {
    var rest := kind + "(" + j + ")";
    forall i | 0 <= i < |rest| ensures rest[i] != ':' {
      if i < |kind| { assert rest[i] == kind[i]; }
      else if i == |kind| {}
      else if i < |kind| + 1 + |j| { assert rest[i] == j[i - |kind| - 1]; }
    }
  }

  /** In `kind(j)`, the kind is the text before the first `(` and `j` the text
      between it and the first `)`. */
  lemma BracketFields(kind: string, j: string)
    requires '(' !in kind && ')' !in kind && ')' !in j
    ensures var rest := kind + "(" + j + ")";
      && Substring(rest, 0, IndexOf(rest, '(')) == kind
      && Substring(rest, IndexOf(rest, '(') + 1, IndexOf(rest, ')')) == j
  {
    var rest := kind + "(" + j + ")";
    assert rest[|kind|] == '(';
    assert IndexOf(rest, '(') == |kind| by {
      forall i | 0 <= i < |kind| ensures rest[i] != '(' { assert rest[i] == kind[i]; }
    }
    assert rest[|kind| + 1 + |j|] == ')';
    assert IndexOf(rest, ')') == |kind| + 1 + |j| by {
      forall i | 0 <= i < |kind| + 1 + |j| ensures rest[i] != ')' {
        if i < |kind| { assert rest[i] == kind[i]; }
        else if i > |kind| { assert rest[i] == j[i - |kind| - 1]; }
      }
    }
    assert rest[..|kind|] == kind;
    assert rest[|kind| + 1..|kind| + 1 + |j|] == j;
  }

  /** Parsing the text of a well-formed row gives the row back: the character
      is the text before the colon, the kind the text up to the first `(`,
      the components the comma-split text up to the first `)`. */
  lemma ParseFormat(r: Row)
    requires WellFormedRow(r)
    ensures Parsable(FormatRow(r)) && ParseRow(FormatRow(r)) == r
  {
    var j := Join(r.components, ',');
    JoinNeutral(r.components);
    ParseFields(r.character, r.kind, j);
    SplitJoin(r.components, ',');
  }

  /** The line `character:kind(j)` parses to the character, the kind and
      the comma-split `j`, when none of them holds a character that would
      end its field early. */
  lemma ParseFields(character: string, kind: string, j: string)
    requires ':' !in character && ':' !in kind && '(' !in kind && ')' !in kind
    requires ':' !in j && ')' !in j
    ensures var line := character + ":" + kind + "(" + j + ")";
      Parsable(line) && ParseRow(line) == Row(character, kind, Split(j, ','))
  {
    var rest := kind + "(" + j + ")";
    var line := character + ":" + kind + "(" + j + ")";
    LineSplit(character, kind, j);
    BracketFields(kind, j);
    ParseParts(line, character, rest, kind, j);
  }

  /** The line `character:kind(j)` splits at its one colon into the
      character and `kind(j)`. */
  lemma LineSplit(character: string, kind: string, j: string)
    requires ':' !in character && ':' !in kind && ':' !in j
    ensures Split(character + ":" + kind + "(" + j + ")", ':') == [character, kind + "(" + j + ")"]
  {
    var head := character + ":";
    ColonFree(kind, j);
    Seqs.AppendAssoc(head, kind, "(");
    Seqs.AppendAssoc(head, kind + "(", j);
    Seqs.AppendAssoc(head, kind + "(" + j, ")");
    SplitPair(character, kind + "(" + j + ")", ':');
  }

  /** The parse of a line that splits at its colon into the character and
      a rest, from which the kind and the component text are cut. */
  lemma ParseParts(line: string, character: string, rest: string, kind: string, j: string)
    requires Split(line, ':') == [character, rest]
    requires Substring(rest, 0, IndexOf(rest, '(')) == kind
    requires Substring(rest, IndexOf(rest, '(') + 1, IndexOf(rest, ')')) == j
    ensures Parsable(line) && ParseRow(line) == Row(character, kind, Split(j, ','))
  {
    assert |Split(line, ':')| == 2;
    assert Split(line, ':')[1] == rest;
  }
}
