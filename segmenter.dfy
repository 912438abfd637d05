/** The greedy longest-match word segmenter of lib/segmenter.js. The
    segmenter holds a dictionary predicate (`dict`, truthy for a known
    word); at each step it cuts off the longest prefix of the remaining text
    the dictionary accepts, or a single character when it accepts none. */
module Segmenter {
  import opened Wrappers
  import opened JsStrings
  import Seqs

  /** `max_word_len`. The scan starts at the larger of this and the input's
      length, so it is not a cap on the words found. */
  const MaxWordLen: nat := 8

  /** `input_str.substr(0, i)`: the first `i` characters, or the whole
      string when it is shorter. */
  function Substr(s: string, i: nat): (r: string)
    ensures IsPrefix(r, s)
    ensures |r| == if i < |s| then i else |s|
  {
    if i < |s| then s[..i] else s
  }

  /** The longest prefix of `s` no longer than `n` characters that `dict`
      accepts, or nothing. */
  function LongestUpTo(dict: string -> bool, s: string, n: nat): (r: Option<string>)
    requires n <= |s|
    ensures r.Some? ==> IsPrefix(r.value, s) && |r.value| <= n && dict(r.value)
    ensures r.Some? ==> forall m :: |r.value| < m <= n ==> !dict(s[..m])
    ensures r.None? <==> forall m :: 0 <= m <= n ==> !dict(s[..m])
  {
    if dict(s[..n]) then Some(s[..n])
    else if n == 0 then None
    else LongestUpTo(dict, s, n - 1)
  }

  /** The longest prefix of `s` that `dict` accepts (the empty prefix
      included), or nothing when it accepts none. */
  function LongestMatch(dict: string -> bool, s: string): (r: Option<string>)
    ensures r.Some? ==> IsPrefix(r.value, s) && dict(r.value)
    ensures r.Some? ==> forall m :: |r.value| < m <= |s| ==> !dict(s[..m])
    ensures r.None? <==> forall m :: 0 <= m <= |s| ==> !dict(s[..m])
  {
    LongestUpTo(dict, s, |s|)
  }

  /** The segment cut off the front of a non-empty `s`: the longest match,
      or the first character when there is none or it is the empty string
      (both falsy). */
  function NextSegment(dict: string -> bool, s: string): (seg: string)
    requires |s| > 0
    ensures 0 < |seg| <= |s| && IsPrefix(seg, s)
    ensures dict(seg) || |seg| == 1
    ensures |seg| > 1 ==> forall m :: |seg| < m <= |s| ==> !dict(s[..m])
  {
    var m := LongestMatch(dict, s);
    if m.None? || m.value == "" then s[..1] else m.value
  }

  /** The segmentation of `s`: segments cut off the front one by one. */
  function Segmentation(dict: string -> bool, s: string): seq<string>
    decreases |s|
  {
    if |s| == 0 then []
    else
      var seg := NextSegment(dict, s);
      [seg] + Segmentation(dict, s[|seg|..])
  }

  /** The segments concatenate back to the input. */
  lemma {:induction false} SegmentationConcat(dict: string -> bool, s: string)
    ensures Concat(Segmentation(dict, s)) == s
    decreases |s|
  {
    if |s| > 0 {
      var seg := NextSegment(dict, s);
      SegmentationConcat(dict, s[|seg|..]);
      assert [seg] + Segmentation(dict, s[|seg|..]) == Segmentation(dict, s);
      assert s == seg + s[|seg|..];
    }
  }

  /** Every segment is non-empty, and is a word of the dictionary or a
      single character. */
  lemma {:induction false} SegmentationWords(dict: string -> bool, s: string)
    ensures forall i :: 0 <= i < |Segmentation(dict, s)| ==>
      |Segmentation(dict, s)[i]| > 0 && (dict(Segmentation(dict, s)[i]) || |Segmentation(dict, s)[i]| == 1)
    decreases |s|
  {
    if |s| > 0 {
      var seg := NextSegment(dict, s);
      SegmentationWords(dict, s[|seg|..]);
    }
  }

  /** There are never more segments than characters. */
  lemma {:induction false} SegmentationCount(dict: string -> bool, s: string)
    ensures |Segmentation(dict, s)| <= |s|
    decreases |s|
  {
    if |s| > 0 {
      SegmentationCount(dict, s[|NextSegment(dict, s)|..]);
    }
  }

  /** With a dictionary that accepts nothing, every character is its own
      segment. */
  lemma {:induction false} SegmentationNoWords(dict: string -> bool, s: string)
    requires forall w :: !dict(w)
    ensures Segmentation(dict, s) == Chars(s)
    decreases |s|
  {
    if |s| > 0 {
      assert NextSegment(dict, s) == s[..1];
      SegmentationNoWords(dict, s[1..]);
      assert s[..1] == [s[0]];
      assert Chars(s) == [s[..1]] + Chars(s[1..]);
    }
  }

  class LongestMatchSegmenter {
    /** The dictionary: true for a string it knows as a word. */
    const dict: string -> bool

    constructor (dict: string -> bool)
      ensures this.dict == dict
    {
      this.dict := dict;
    }

    /** `getLongestMatch`: prefixes are tried from the longer of 8 and the
        input's length down to the empty one; the first the dictionary
        accepts is returned, and nothing (`undefined`) if none is. */
    method GetLongestMatch(input_str: string) returns (r: Option<string>)
      ensures r.Some? ==> IsPrefix(r.value, input_str) && dict(r.value)
      ensures r.Some? ==> forall m :: |r.value| < m <= |input_str| ==> !dict(input_str[..m])
      ensures r.None? <==> forall m :: 0 <= m <= |input_str| ==> !dict(input_str[..m])
      ensures r == LongestMatch(dict, input_str)
    {
      var i: int := if MaxWordLen > |input_str| then MaxWordLen else |input_str|;
      while i >= 0
        invariant -1 <= i
        invariant forall m :: i < m <= |input_str| ==> !dict(input_str[..m])
      {
        var slice := Substr(input_str, i);
        if dict(slice) {
          LongestExact(dict, input_str, |slice|);
          return Some(slice);
        }
        i := i - 1;
      }
      assert forall m :: 0 <= m <= |input_str| ==> !dict(input_str[..m]);
      return None;
    }

    /** `segment`: the longest match is cut off the front of the remaining
        text, or its first character when there is no match, until nothing
        remains. */
    method Segment(input: string) returns (segments: seq<string>)
      ensures segments == Segmentation(dict, input)
      ensures Concat(segments) == input
      ensures forall i :: 0 <= i < |segments| ==> |segments[i]| > 0 && (dict(segments[i]) || |segments[i]| == 1)
    {
      var input_str := input;
      segments := [];
      while |input_str| > 0
        invariant segments + Segmentation(dict, input_str) == Segmentation(dict, input)
        decreases |input_str|
      {
        var cut := NextCut(input_str);
        assert Segmentation(dict, input_str) == [cut] + Segmentation(dict, input_str[|cut|..]);
        Seqs.AppendAssoc(segments, [cut], Segmentation(dict, input_str[|cut|..]));
        input_str := input_str[|cut|..];
        segments := segments + [cut];
      }
      assert segments + [] == segments;
      SegmentationConcat(dict, input);
      SegmentationWords(dict, input);
    }

    /** The segment one round of `segment` cuts off the front: the longest
        match, or the first character when there is none or it is empty. */
    method NextCut(input_str: string) returns (cut: string)
      requires |input_str| > 0
      ensures cut == NextSegment(dict, input_str)
    {
      var seg := GetLongestMatch(input_str);
      if seg.None? || seg.value == "" {
        cut := Substr(input_str, 1);
      } else {
        cut := seg.value;
      }
    }
  }

  /** The longest accepted prefix is the one of length `n` when that one is
      accepted and no longer one is. */
  lemma LongestExact(dict: string -> bool, s: string, n: nat)
    requires n <= |s| && dict(s[..n])
    requires forall m :: n < m <= |s| ==> !dict(s[..m])
    ensures LongestMatch(dict, s) == Some(s[..n])
  {
    var r := LongestMatch(dict, s);
    assert r.Some?;
    assert r.value == s[..|r.value|];
  }
}
