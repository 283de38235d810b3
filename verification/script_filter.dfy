/**
 * The script-bias filter `rough_judge_`: it counts the code points in
 * 0x41-0x7A ("latin") and those from 0x300 up outside the block Latin
 * Extended Additional ("non-latin"), and when the non-latin ones are more
 * than twice as many it drops every latin code point.
 *
 * The block lookup `UnicodeData::unicodeblock` is a table outside this
 * model; the predicate `lea` says whether a code point lies in Latin
 * Extended Additional.
 */
module ScriptFilter {
  import opened Base

  /** The test `0x0041 <= code && code <= 0x007a`: the ASCII letters and
      the six punctuation bytes `[\]^_` and backquote between them. */
  predicate IsLatin(c: Code)
  {
    0x41 <= c <= 0x7A
  }

  /** The test of the `else if`: from 0x300 up and not in Latin Extended
      Additional. */
  predicate IsNonLatin(c: Code, lea: Code -> bool)
  {
    c >= 0x300 && !lea(c)
  }

  /** Number of latin code points, counted from the front as the loop does. */
  function LatinCount(cs: seq<Code>): (n: nat)
    ensures n <= |cs|
  {
    if cs == [] then 0
    else LatinCount(cs[..|cs| - 1]) + (if IsLatin(cs[|cs| - 1]) then 1 else 0)
  }

  /** Number of non-latin code points. */
  function NonLatinCount(cs: seq<Code>, lea: Code -> bool): (n: nat)
    ensures n <= |cs|
  {
    if cs == [] then 0
    else NonLatinCount(cs[..|cs| - 1], lea) + (if IsNonLatin(cs[|cs| - 1], lea) then 1 else 0)
  }

  /** The code points the rebuilding loop pushes: those outside 0x41-0x7A,
      in their order. */
  function RemoveLatin(cs: seq<Code>): (r: seq<Code>)
    ensures |r| <= |cs|
    ensures forall i :: 0 <= i < |r| ==> !IsLatin(r[i])
  {
    if cs == [] then []
    else RemoveLatin(cs[..|cs| - 1]) + (if IsLatin(cs[|cs| - 1]) then [] else [cs[|cs| - 1]])
  }

  /** What `rough_judge_` leaves in `codes_`. */
  function ScriptFiltered(cs: seq<Code>, lea: Code -> bool): (r: seq<Code>)
    ensures |r| <= |cs|
    ensures r != cs ==> forall i :: 0 <= i < |r| ==> !IsLatin(r[i])
  {
    if 2 * LatinCount(cs) < NonLatinCount(cs, lea) then RemoveLatin(cs) else cs
  }

  // ---------------------------------------------------------------------
  // Properties

  /** A code point is never counted in both classes. */
  lemma ClassesDisjoint(c: Code, lea: Code -> bool)
    ensures !(IsLatin(c) && IsNonLatin(c, lea))
  {
  }

  /** Together the two counts never exceed the number of code points. */
  lemma {:induction false} CountsBound(cs: seq<Code>, lea: Code -> bool)
    ensures LatinCount(cs) + NonLatinCount(cs, lea) <= |cs|
  {
    if cs != [] {
      CountsBound(cs[..|cs| - 1], lea);
      ClassesDisjoint(cs[|cs| - 1], lea);
    }
  }

  /** Removal distributes over concatenation: it acts on each code point
      alone and keeps their order. */
  lemma {:induction false} RemoveLatinAppend(a: seq<Code>, b: seq<Code>)
    ensures RemoveLatin(a + b) == RemoveLatin(a) + RemoveLatin(b)
    decreases |b|
  {
    if b == [] {
      assert a + b == a;
    } else {
      var b' := b[..|b| - 1];
      assert (a + b)[..|a + b| - 1] == a + b';
      RemoveLatinAppend(a, b');
    }
  }

  /** On one code point, removal keeps exactly the non-latin ones. */
  lemma RemoveLatinOne(c: Code)
    ensures RemoveLatin([c]) == if IsLatin(c) then [] else [c]
  {
    assert [c][..0] == [];
  }

  /** Removal drops exactly as many code points as were counted latin. */
  lemma {:induction false} RemovedAreCounted(cs: seq<Code>)
    ensures |RemoveLatin(cs)| + LatinCount(cs) == |cs|
  {
    if cs != [] {
      RemovedAreCounted(cs[..|cs| - 1]);
    }
  }

  /** No latin code point is left after removal, and every other one is
      kept as often as it occurs. */
  lemma {:induction false} RemoveLatinCounts(cs: seq<Code>)
    ensures forall c :: multiset(RemoveLatin(cs))[c] == if IsLatin(c) then 0 else multiset(cs)[c]
  {
    if cs != [] {
      var init := cs[..|cs| - 1];
      RemoveLatinCounts(init);
      assert cs == init + [cs[|cs| - 1]];
    }
  }

  /** Removal leaves no latin code point to count and every non-latin one. */
  lemma {:induction false} RemoveLatinRecount(cs: seq<Code>, lea: Code -> bool)
    ensures LatinCount(RemoveLatin(cs)) == 0
    ensures NonLatinCount(RemoveLatin(cs), lea) == NonLatinCount(cs, lea)
  {
    if cs != [] {
      var init := cs[..|cs| - 1];
      var last := cs[|cs| - 1];
      RemoveLatinRecount(init, lea);
      if IsLatin(last) {
        assert RemoveLatin(cs) == RemoveLatin(init) + [];
        assert RemoveLatin(init) + [] == RemoveLatin(init);
      } else {
        var r := RemoveLatin(init) + [last];
        assert RemoveLatin(cs) == r;
        assert r[..|r| - 1] == RemoveLatin(init);
      }
    }
  }

  /** Without latin code points removal changes nothing. */
  lemma {:induction false} RemoveLatinNone(cs: seq<Code>)
    requires LatinCount(cs) == 0
    ensures RemoveLatin(cs) == cs
  {
    if cs != [] {
      var init := cs[..|cs| - 1];
      RemoveLatinNone(init);
      assert cs == init + [cs[|cs| - 1]];
    }
  }

  /** The filter drops the latin code points exactly when the non-latin
      ones outnumber them more than twice, and changes nothing otherwise. */
  lemma FilterCases(cs: seq<Code>, lea: Code -> bool)
    ensures 2 * LatinCount(cs) < NonLatinCount(cs, lea) ==>
      forall c :: multiset(ScriptFiltered(cs, lea))[c] == if IsLatin(c) then 0 else multiset(cs)[c]
    ensures 2 * LatinCount(cs) >= NonLatinCount(cs, lea) ==> ScriptFiltered(cs, lea) == cs
  {
    RemoveLatinCounts(cs);
  }

  /** Filtering twice is filtering once. */
  lemma FilterIdempotent(cs: seq<Code>, lea: Code -> bool)
    ensures ScriptFiltered(ScriptFiltered(cs, lea), lea) == ScriptFiltered(cs, lea)
  {
    if 2 * LatinCount(cs) < NonLatinCount(cs, lea) {
      RemoveLatinRecount(cs, lea);
      RemoveLatinNone(RemoveLatin(cs));
    }
  }

  /** The filter keeps every code point below a bound when all were. */
  lemma {:induction false} FilterBound(cs: seq<Code>, lea: Code -> bool, k: nat)
    requires forall i :: 0 <= i < |cs| ==> cs[i] < k
    ensures forall i :: 0 <= i < |ScriptFiltered(cs, lea)| ==> ScriptFiltered(cs, lea)[i] < k
  {
    RemoveLatinCounts(cs);
    var r := ScriptFiltered(cs, lea);
    forall i | 0 <= i < |r|
      ensures r[i] < k
    {
      assert r[i] in multiset(r);
      assert r[i] in multiset(cs);
      var j :| 0 <= j < |cs| && cs[j] == r[i];
    }
  }
}
