/** The first, array-based decomposer: the table is a list of rows, one per
    line, and a lookup scans it for the first row with the requested
    character. */
module PrototypeDecomposer {
  import opened Wrappers
  import opened CjkDecomp

  class Prototype {
    /** The module-level `characters` array: row `i` of the last load. */
    var characters: seq<Row>

    constructor ()
      ensures characters == []
    {
      characters := [];
    }

    /** Reads the table lines into rows. Row `i` is overwritten by line `i`;
        rows beyond the new lines, left from an earlier load, stay. */
    method Start(lines: seq<string>)
      requires forall i :: 0 <= i < |lines| ==> Parsable(lines[i])
      modifies this
      ensures |characters| == if |lines| < |old(characters)| then |old(characters)| else |lines|
      ensures forall i :: 0 <= i < |lines| ==> characters[i] == ParseRow(lines[i])
      ensures forall i :: |lines| <= i < |characters| ==> characters[i] == old(characters)[i]
    {
      var i := 0;
      while i < |lines|
        invariant 0 <= i <= |lines|
        invariant |characters| == if i < |old(characters)| then |old(characters)| else i
        invariant forall k :: 0 <= k < i ==> characters[k] == ParseRow(lines[k])
        invariant forall k :: i <= k < |characters| ==> characters[k] == old(characters)[k]
      {
        var row := ParseRow(lines[i]);
        if i < |characters| {
          characters := characters[i := row];
        } else {
          characters := characters + [row];
        }
        i := i + 1;
      }
    }

    /** The components of the first row whose character is `character`, or
        nothing (`undefined`) when no row has it. */
    method Decompose(character: string) returns (r: Option<seq<string>>)
      ensures r.None? <==> forall i :: 0 <= i < |characters| ==> characters[i].character != character
      ensures r.Some? ==> exists i :: 0 <= i < |characters| && characters[i].character == character
                                      && r.value == characters[i].components
                                      && forall j :: 0 <= j < i ==> characters[j].character != character
    {
      var i := 0;
      while i < |characters|
        invariant 0 <= i <= |characters|
        invariant forall j :: 0 <= j < i ==> characters[j].character != character
      {
        if characters[i].character == character {
          return Some(characters[i].components);
        }
        i := i + 1;
      }
      return None;
    }
  }

  /** A load into the empty table holds one row per line, in line order. */
  method StartFresh(lines: seq<string>) returns (p: Prototype)
    requires forall i :: 0 <= i < |lines| ==> Parsable(lines[i])
    ensures fresh(p)
    ensures |p.characters| == |lines|
    ensures forall i :: 0 <= i < |lines| ==> p.characters[i] == ParseRow(lines[i])
  {
    p := new Prototype();
    p.Start(lines);
  }
}
