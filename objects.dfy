/** A JavaScript object used as a dictionary keyed by strings: its own keys
    in the order they were first assigned, and the value under each key.
    (JavaScript lists integer-like keys first; that is not modelled.) */
module Objects {
  import opened Wrappers
  import Seqs

  /** True when no string occurs twice in `xs`. */
  predicate Distinct(xs: seq<string>) {
    forall i, j :: 0 <= i < j < |xs| ==> xs[i] != xs[j]
  }

  datatype Object<V> = Object(keys: seq<string>, values: map<string, V>) {

    /** The keys are distinct and are exactly the keys that hold a value. */
    ghost predicate Valid() {
      Distinct(keys) && Keyed()
    }

    /** The key order lists exactly the keys that hold a value. */
    ghost predicate Keyed() {
      forall k :: k in values <==> k in keys
    }

    /** `obj[k] = v`: a new key goes to the end of the key order, an existing
        key keeps its place and gets the new value. */
    function Put(k: string, v: V): (r: Object<V>)
      ensures r.values == values[k := v]
      ensures k in values ==> r.keys == keys
      ensures k !in values ==> r.keys == keys + [k]
    {
      if k in values then Object(keys, values[k := v]) else Object(keys + [k], values[k := v])
    }

    /** Storing a value keeps the key order in step with the stored keys,
        and keeps it free of repetitions. */
    lemma PutValid(k: string, v: V)
      ensures Keyed() ==> Put(k, v).Keyed()
      ensures Valid() ==> Put(k, v).Valid()
    {
    }

    /** `obj[k]`, which is `undefined` for a missing key. */
    function Get(k: string): (r: Option<V>)
      ensures r.Some? <==> k in values
      ensures r.Some? ==> r.value == values[k]
    {
      if k in values then Some(values[k]) else None
    }
  }

  /** `{}` */
  function Empty<V>(): (r: Object<V>)
    ensures r.Valid() && r.keys == [] && r.values == map[]
  {
    Object([], map[])
  }

  /** The elements of `xs` without repetitions, each where it first occurs. */
  function Dedup(xs: seq<string>): seq<string> {
    if |xs| == 0 then [] else AddKey(Dedup(xs[..|xs| - 1]), xs[|xs| - 1])
  }

  /** `acc` with `k` appended unless it already holds it. */
  function AddKey(acc: seq<string>, k: string): seq<string> {
    if k in acc then acc else acc + [k]
  }

  /** The first-occurrence order holds exactly the elements of `xs`. */
  lemma {:induction false} DedupMembers(xs: seq<string>)
    ensures forall x :: x in Dedup(xs) <==> x in xs
  {
    if |xs| > 0 {
      DedupMembers(xs[..|xs| - 1]);
      Seqs.Snoc(xs);
    }
  }

  /** No element occurs twice in the first-occurrence order. */
  lemma {:induction false} DedupDistinct(xs: seq<string>)
    ensures Distinct(Dedup(xs))
  {
    if |xs| > 0 {
      DedupDistinct(xs[..|xs| - 1]);
    }
  }

  /** An object keyed by the distinct elements of a prefix of `xs`, in
      first-occurrence order, stays so when the next element is stored, and
      is already so when that element is a key. */
  lemma {:induction false} DedupNext<V>(o: Object<V>, xs: seq<string>, i: nat, v: V)
    requires o.Valid() && i < |xs| && o.keys == Dedup(xs[..i])
    ensures o.Put(xs[i], v).keys == Dedup(xs[..i + 1])
    ensures xs[i] in o.values ==> o.keys == Dedup(xs[..i + 1])
  {
    Seqs.TakeTake(xs, i);
  }

  /** The key order after storing under `ks[i]`, `ks[i + 1]`, ... in turn,
      starting from the order `acc`: each key not yet present is appended. */
  function DedupFrom(acc: seq<string>, ks: seq<string>, i: nat): seq<string>
    decreases |ks| - i
  {
    if i >= |ks| then acc
    else DedupFrom(AddKey(acc, ks[i]), ks, i + 1)
  }

  /** Starting from the first-occurrence order of `xs`, the keys from `i`
      on extend it to the first-occurrence order of `xs` followed by them. */
  lemma {:induction false} DedupFromDedup(xs: seq<string>, ks: seq<string>, i: nat)
    requires i <= |ks|
    ensures DedupFrom(Dedup(xs), ks, i) == Dedup(xs + ks[i..])
    decreases |ks| - i
  {
    if i < |ks| {
      var ys := xs + [ks[i]];
      assert ys[..|ys| - 1] == xs;
      DedupFromDedup(ys, ks, i + 1);
      assert xs + ks[i..] == ys + ks[i + 1..];
    } else {
      assert xs + ks[i..] == xs;
    }
  }

  /** Keys already present change nothing. */
  lemma {:induction false} DedupFromSkip(acc: seq<string>, ks: seq<string>, a: nat, b: nat)
    requires a <= b <= |ks| && forall m :: a <= m < b ==> ks[m] in acc
    ensures DedupFrom(acc, ks, a) == DedupFrom(acc, ks, b)
    decreases b - a
  {
    if a < b {
      DedupFromSkip(acc, ks, a + 1, b);
    }
  }

  /** How often `x` occurs in `xs`. */
  function Occurrences(xs: seq<string>, x: string): (n: nat)
    ensures n > 0 <==> x in xs
    ensures n <= |xs|
  {
    if |xs| == 0 then 0
    else
      assert xs == xs[..|xs| - 1] + [xs[|xs| - 1]];
      Occurrences(xs[..|xs| - 1], x) + if xs[|xs| - 1] == x then 1 else 0
  }
}
