/** Romanised syllables and the phonetic regularity scale of
    lib/dictionary.js: a syllable such as `zhi1` is split into its tone-less
    syllable (`zhi`), its initial (`zh`) and its final (`i`), and two
    syllables are compared on those parts. */
module Pinyin {
  import opened Wrappers
  import opened JsStrings

  /** `new PinyinSyllable(raw_syllable)` */
  datatype PinyinSyllable = PinyinSyllable(raw: string) {

    /** `syllable()`: the syllable without its last character, the tone
        digit. */
    function Syllable(): (r: string)
      ensures raw == "" ==> r == ""
      ensures raw != "" ==> raw == r + [raw[|raw| - 1]]
    {
      Substring(raw, 0, |raw| - 1)
    }

    /** `initial()`: the first two characters when the second is `h` (zh,
        ch, sh), the first character otherwise. */
    function Initial(): (r: string)
      ensures IsPrefix(r, raw)
      ensures |raw| >= 2 && raw[1] == 'h' ==> |r| == 2
      ensures !(|raw| >= 2 && raw[1] == 'h') ==> |r| == if raw == "" then 0 else 1
    {
      if Substring(raw, 1, 2) == "h" then Substring(raw, 0, 2) else Substring(raw, 0, 1)
    }

    /** `final()`: the tone-less syllable with the first occurrence of the
        initial taken out. */
    function Final(): string {
      RemoveFirst(Syllable(), Initial())
    }
  }

  /** When the syllable is longer than its initial, the initial and the final
      make up the tone-less syllable. */
  lemma InitialFinal(p: PinyinSyllable)
    requires |p.raw| > |p.Initial()|
    ensures p.Initial() + p.Final() == p.Syllable()
  {
    var s := p.Syllable();
    var i := p.Initial();
    assert IsPrefix(i, s) by {
      assert s == p.raw[..|p.raw| - 1];
    }
    RemoveFirstPrefix(s, i);
    assert s == s[..|i|] + s[|i|..];
  }

  /** `getRegularityScale`: `None` (null) when either pronunciation is
      missing; otherwise, comparing lower-cased syllables, 1 for the same
      syllable and tone, 2 for the same syllable in another tone, 4 for the
      same final, 3 for the same initial only, and 0 for none of these. */
  function RegularityScale(charpinyin: Option<string>, phoneticpinyin: Option<string>): (r: Option<int>)
    ensures r.None? <==> charpinyin.None? || phoneticpinyin.None?
    ensures r.Some? ==> 0 <= r.value <= 4
  {
    if charpinyin.None? || phoneticpinyin.None? then None
    else
      var c := PinyinSyllable(ToLower(charpinyin.value));
      var p := PinyinSyllable(ToLower(phoneticpinyin.value));
      if c.Syllable() == p.Syllable() then
        if c.raw == p.raw then Some(1) else Some(2)
      else if c.Final() == p.Final() then Some(4)
      else if c.Initial() == p.Initial() then Some(3)
      else Some(0)
  }

  /** The ladder, level by level, on the lower-cased syllables: the first
      test that holds decides, so a shared initial scores 3 only when the
      finals differ. */
  lemma RegularityLadder(a: string, b: string)
    ensures var c, p := PinyinSyllable(ToLower(a)), PinyinSyllable(ToLower(b));
      var r := RegularityScale(Some(a), Some(b)).value;
      && (r == 1 <==> c.raw == p.raw)
      && (r == 2 <==> c.Syllable() == p.Syllable() && c.raw != p.raw)
      && (r == 4 <==> c.Syllable() != p.Syllable() && c.Final() == p.Final())
      && (r == 3 <==> c.Syllable() != p.Syllable() && c.Final() != p.Final() && c.Initial() == p.Initial())
      && (r == 0 <==> c.Syllable() != p.Syllable() && c.Final() != p.Final() && c.Initial() != p.Initial())
  {
  }

  /** The scale is symmetric in its two arguments. */
  lemma RegularitySymmetric(a: Option<string>, b: Option<string>)
    ensures RegularityScale(a, b) == RegularityScale(b, a)
  {
  }

  /** The scale ignores the case of both arguments. */
  lemma RegularityIgnoresCase(a: string, b: string)
    ensures RegularityScale(Some(ToLower(a)), Some(b)) == RegularityScale(Some(a), Some(b))
    ensures RegularityScale(Some(a), Some(ToLower(b))) == RegularityScale(Some(a), Some(b))
  {
    ToLowerIdempotent(a);
    ToLowerIdempotent(b);
  }

  /** A syllable compared with itself in any letter case scores 1. */
  lemma RegularityReflexive(a: string)
    ensures RegularityScale(Some(a), Some(a)) == Some(1)
  {
  }

  /** The scores for 低 (di1) against the pronunciations of its components:
      亻 is read ren2, 氐 both di1 and di3, and the primitives of 氐 shi4,
      zhi1, dian3 and zhu3. */
  lemma RegularityOfDiAgainstRen()
    ensures RegularityScale(Some("di1"), Some("ren2")) == Some(0)
  {
    ScoreParts("di1", "d", "i", '1', "ren2", "r", "en", '2');
  }

  lemma RegularityOfDiAgainstDi()
    ensures RegularityScale(Some("di1"), Some("di1")) == Some(1)
    ensures RegularityScale(Some("di1"), Some("di3")) == Some(2)
  {
    RegularityReflexive("di1");
    ScoreParts("di1", "d", "i", '1', "di3", "d", "i", '3');
  }

  lemma RegularityOfDiAgainstShi()
    ensures RegularityScale(Some("di1"), Some("shi4")) == Some(4)
  {
    ScoreParts("di1", "d", "i", '1', "shi4", "sh", "i", '4');
  }

  lemma RegularityOfDiAgainstZhi()
    ensures RegularityScale(Some("di1"), Some("zhi1")) == Some(4)
  {
    ScoreParts("di1", "d", "i", '1', "zhi1", "zh", "i", '1');
  }

  lemma RegularityOfDiAgainstDian()
    ensures RegularityScale(Some("di1"), Some("dian3")) == Some(3)
  {
    ScoreParts("di1", "d", "i", '1', "dian3", "d", "ian", '3');
  }

  lemma RegularityOfDiAgainstZhu()
    ensures RegularityScale(Some("di1"), Some("zhu3")) == Some(0)
  {
    ScoreParts("di1", "d", "i", '1', "zhu3", "zh", "u", '3');
  }

  /** The scale of two lower-case syllables, from their parts. */
  lemma ScoreParts(a: string, ia: string, fa: string, ta: char,
                   b: string, ib: string, fb: string, tb: char)
    requires a == ia + fa + [ta] && Parts(ia, fa, ta)
    requires b == ib + fb + [tb] && Parts(ib, fb, tb)
    ensures RegularityScale(Some(a), Some(b)) ==
      Some(if ia + fa == ib + fb then (if ta == tb then 1 else 2)
           else if fa == fb then 4 else if ia == ib then 3 else 0)
  {
    Spelled(ia, fa, ta, a);
    Spelled(ib, fb, tb, b);
    assert a == b <==> ia + fa == ib + fb && ta == tb by {
      if ia + fa == ib + fb && ta != tb {
        assert a[|a| - 1] != b[|b| - 1];
      }
    }
    ScoreLower(a, b);
  }

  /** The scale of two syllables already in lower case. */
  lemma ScoreLower(a: string, b: string)
    requires ToLower(a) == a && ToLower(b) == b
    ensures var c, p := PinyinSyllable(a), PinyinSyllable(b);
      RegularityScale(Some(a), Some(b)) ==
        Some(if c.Syllable() == p.Syllable() then (if a == b then 1 else 2)
             else if c.Final() == p.Final() then 4
             else if c.Initial() == p.Initial() then 3 else 0)
  {
  }

  /** A lower-case syllable spelled as initial, final and tone. */
  predicate Parts(initial: string, final: string, tone: char) {
    && (|initial| == 1 || (|initial| == 2 && initial[1] == 'h'))
    && 'a' <= initial[0] <= 'z' && (|initial| == 2 || 'h' != (final + [tone])[0])
    && (forall i :: 0 <= i < |final| ==> 'a' <= final[i] <= 'z')
    && '0' <= tone <= '9'
  }

  /** The parts of a syllable written as initial, final and tone. */
  lemma Spelled(initial: string, final: string, tone: char, s: string)
    requires s == initial + final + [tone] && Parts(initial, final, tone)
    ensures ToLower(s) == s
    ensures PinyinSyllable(s).Syllable() == initial + final
    ensures PinyinSyllable(s).Initial() == initial
    ensures PinyinSyllable(s).Final() == final
  {
    assert ToLower(s) == s by {
      forall i | 0 <= i < |s| ensures LowerChar(s[i]) == s[i] {
        if i >= |initial| + |final| {
          assert s[i] == tone;
        } else if i >= |initial| {
          assert s[i] == final[i - |initial|];
        } else {
          assert initial == "h" || s[i] == initial[i];
        }
      }
    }
    var p := PinyinSyllable(s);
    assert p.Syllable() == initial + final by {
      assert s[..|s| - 1] == initial + final;
    }
    assert p.Initial() == initial by {
      assert s[..|initial|] == initial;
      assert s[1] == if |initial| == 2 then initial[1] else (final + [tone])[0];
    }
    RemoveFirstPrefix(initial + final, initial);
    assert (initial + final)[|initial|..] == final;
  }
}
