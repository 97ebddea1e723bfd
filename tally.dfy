/** The frequency count built from the collected answers. */
module Tally {

  /** No id occurs twice. */
  predicate Distinct(s: seq<string>)
  {
    forall i, j :: 0 <= i < j < |s| ==> s[i] != s[j]
  }

  /** The position of the first occurrence of `x` in `s`. */
  function FirstIndex(s: seq<string>, x: string): (i: nat)
    requires x in s
    ensures i < |s| && s[i] == x
    ensures forall j :: 0 <= j < i ==> s[j] != x
  {
    if s[0] == x then 0 else 1 + FirstIndex(s[1..], x)
  }

  /** The distinct ids of `s` in the order in which they first occur: the
      insertion order of the keys of the count record. */
  function FirstOccurrences(s: seq<string>): (r: seq<string>)
    ensures forall x :: x in r <==> x in s
    ensures Distinct(r)
  {
    if s == [] then []
    else
      var p := FirstOccurrences(s[..|s| - 1]);
      var y := s[|s| - 1];
      if y in p then p else p + [y]
  }

  /** How often each id occurs in `s`: the contents of the count record. */
  function Counts(s: seq<string>): map<string, nat>
  {
    map x | x in s :: multiset(s)[x]
  }

  /** The sum of `m`'s values over `keys` (a missing key adds nothing). */
  function SumOver(keys: seq<string>, m: map<string, nat>): nat
  {
    if keys == [] then 0
    else
      var k := keys[|keys| - 1];
      SumOver(keys[..|keys| - 1], m) + (if k in m then m[k] else 0)
  }

  lemma {:induction false} FirstIndexOfPrefix(s: seq<string>, x: string)
    requires |s| > 0 && x in s[..|s| - 1]
    ensures FirstIndex(s, x) == FirstIndex(s[..|s| - 1], x)
  {
    var i, j := FirstIndex(s, x), FirstIndex(s[..|s| - 1], x);
    assert s[j] == x;
  }

  /** Keys that come earlier in the record first occurred earlier in `s`. */
  lemma {:induction false} FirstOccurrencesOrder(s: seq<string>)
    ensures forall i, j :: 0 <= i < j < |FirstOccurrences(s)| ==>
      FirstIndex(s, FirstOccurrences(s)[i]) < FirstIndex(s, FirstOccurrences(s)[j])
  {
    if s != [] {
      var q := s[..|s| - 1];
      var p := FirstOccurrences(q);
      var y := s[|s| - 1];
      FirstOccurrencesOrder(q);
      var r := FirstOccurrences(s);
      forall i, j | 0 <= i < j < |r|
        ensures FirstIndex(s, r[i]) < FirstIndex(s, r[j])
      {
        FirstIndexOfPrefix(s, r[i]);
        if j < |p| {
          FirstIndexOfPrefix(s, r[j]);
        } else {
          assert r[j] == y && y !in q;
        }
      }
    }
  }

  lemma {:induction false} SumOverUnchanged(keys: seq<string>, m: map<string, nat>, y: string, v: nat)
    requires y !in keys
    ensures SumOver(keys, m[y := v]) == SumOver(keys, m)
  {
    if keys != [] {
      SumOverUnchanged(keys[..|keys| - 1], m, y, v);
    }
  }

  lemma {:induction false} SumOverBump(keys: seq<string>, m: map<string, nat>, y: string)
    requires Distinct(keys) && y in keys && y in m
    ensures SumOver(keys, m[y := m[y] + 1]) == SumOver(keys, m) + 1
  {
    var init := keys[..|keys| - 1];
    if keys[|keys| - 1] == y {
      assert y !in init;
      SumOverUnchanged(init, m, y, m[y] + 1);
    } else {
      SumOverBump(init, m, y);
    }
  }

  lemma SumOverExtend(keys: seq<string>, m: map<string, nat>, y: string)
    requires y !in keys
    ensures SumOver(keys + [y], m[y := 1]) == SumOver(keys, m) + 1
  {
    assert (keys + [y])[..|keys|] == keys;
    SumOverUnchanged(keys, m, y, 1);
  }

  /** `keys` and `count` are the count record filled from the ids `p`. */
  ghost predicate Filled(p: seq<string>, keys: seq<string>, count: map<string, nat>)
  {
    && count == Counts(p)
    && keys == FirstOccurrences(p)
    && SumOver(keys, count) == |p|
  }

  /** Appending an id extends the key order exactly when the id is new. */
  lemma FirstOccurrencesAppend(p: seq<string>, id: string)
    ensures FirstOccurrences(p + [id]) == if id in p then FirstOccurrences(p) else FirstOccurrences(p) + [id]
  {
    var q := p + [id];
    assert q[..|q| - 1] == p;
  }

  /** Appending an id adds one to its count and leaves the others alone. */
  lemma CountsAppend(p: seq<string>, id: string)
    ensures Counts(p + [id]) == Counts(p)[id := if id in p then Counts(p)[id] + 1 else 1]
  {
    assert multiset(p + [id]) == multiset(p) + multiset{id};
  }

  /** One iteration of the counting loop for an id already in the record. */
  lemma CountStepKnown(p: seq<string>, keys: seq<string>, count: map<string, nat>, id: string)
    requires Filled(p, keys, count) && id in count
    ensures Filled(p + [id], keys, count[id := count[id] + 1])
  {
    FirstOccurrencesAppend(p, id);
    CountsAppend(p, id);
    SumOverBump(keys, count, id);
  }

  /** One iteration of the counting loop for an id seen for the first time. */
  lemma CountStepNew(p: seq<string>, keys: seq<string>, count: map<string, nat>, id: string)
    requires Filled(p, keys, count) && id !in count
    ensures Filled(p + [id], keys + [id], count[id := 1])
  {
    FirstOccurrencesAppend(p, id);
    CountsAppend(p, id);
    SumOverExtend(keys, count, id);
  }

  /** The loop over the answers that fills the count record: every occurrence
      of an id adds one to its entry, and an id seen for the first time is
      appended to the key order with count one. */
  method CountAnswers(answers: seq<string>) returns (keys: seq<string>, count: map<string, nat>)
    ensures forall x :: x in count <==> x in answers
    ensures forall x :: x in count ==> count[x] == multiset(answers)[x]
    ensures keys == FirstOccurrences(answers)
    ensures SumOver(keys, count) == |answers|
  {
    keys, count := [], map[];
    var i := 0;
    while i < |answers|
      invariant 0 <= i <= |answers|
      invariant Filled(answers[..i], keys, count)
    {
      var id := answers[i];
      assert answers[..i + 1] == answers[..i] + [id];
      if id in count {
        CountStepKnown(answers[..i], keys, count, id);
        count := count[id := count[id] + 1];
      } else {
        CountStepNew(answers[..i], keys, count, id);
        keys := keys + [id];
        count := count[id := 1];
      }
      i := i + 1;
    }
    assert answers[..i] == answers;
  }
}
