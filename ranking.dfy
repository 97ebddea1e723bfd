/** Picking the winner from the count record: the entries are sorted by
    descending count with a stable sort, the first entry's id is the top id,
    and the first character carrying that id is the result. */
module Ranking {
  import opened QuizData
  import opened Tally

  /** One `[id, count]` pair of the count record's entries. */
  datatype Entry = Entry(id: string, count: nat)

  /** The record's entries in key insertion order. */
  function Entries(keys: seq<string>, count: map<string, nat>): seq<Entry>
    requires forall k :: k in keys ==> k in count
  {
    seq(|keys|, i requires 0 <= i < |keys| => Entry(keys[i], count[keys[i]]))
  }

  /** Counts never increase along `s`. */
  predicate SortedDesc(s: seq<Entry>)
  {
    forall i, j :: 0 <= i < j < |s| ==> s[i].count >= s[j].count
  }

  /** `k` is the earliest position of `es` holding a maximal count. */
  predicate IsEarliestMax(es: seq<Entry>, k: int)
  {
    && 0 <= k < |es|
    && (forall j :: 0 <= j < |es| ==> es[j].count <= es[k].count)
    && (forall j :: 0 <= j < k ==> es[j].count < es[k].count)
  }

  /** Reference definition of the winner's position, independent of sorting. */
  function ArgMaxFirst(es: seq<Entry>): (k: nat)
    requires |es| > 0
    ensures IsEarliestMax(es, k)
  {
    if |es| == 1 then 0
    else
      var k := ArgMaxFirst(es[1..]);
      if es[0].count >= es[k + 1].count then 0 else k + 1
  }

  /** Places `e` in front of the first element whose count is not larger, so
      that `e` stays ahead of the later entries it ties with. */
  function Insert(e: Entry, s: seq<Entry>): (r: seq<Entry>)
    ensures multiset(r) == multiset(s) + multiset{e}
    ensures |r| == |s| + 1
  {
    if s == [] || s[0].count <= e.count then [e] + s
    else
      assert s == [s[0]] + s[1..];
      [s[0]] + Insert(e, s[1..])
  }

  /** The stable sort by descending count, `(a, b) => b[1] - a[1]`. */
  function SortDesc(es: seq<Entry>): (r: seq<Entry>)
    ensures multiset(r) == multiset(es)
    ensures |r| == |es|
  {
    if es == [] then []
    else
      assert es == [es[0]] + es[1..];
      Insert(es[0], SortDesc(es[1..]))
  }

  /** Putting an entry whose count bounds all of `t` in front keeps `t` sorted. */
  lemma SortedCons(h: Entry, t: seq<Entry>)
    requires SortedDesc(t)
    requires forall x :: x in t ==> x.count <= h.count
    ensures SortedDesc([h] + t)
  {
    var r := [h] + t;
    forall i, j | 0 <= i < j < |r| ensures r[i].count >= r[j].count {
      assert r[j] == t[j - 1];
      if i > 0 {
        assert r[i] == t[i - 1];
      }
    }
  }

  lemma {:induction false} InsertSorted(e: Entry, s: seq<Entry>)
    requires SortedDesc(s)
    ensures SortedDesc(Insert(e, s))
  {
    if s == [] || s[0].count <= e.count {
      SortedCons(e, s);
    } else {
      var t := Insert(e, s[1..]);
      assert SortedDesc(s[1..]);
      InsertSorted(e, s[1..]);
      forall x | x in t ensures x.count <= s[0].count {
        assert x in multiset(t);
      }
      SortedCons(s[0], t);
    }
  }

  /** The sorted entries are in descending order of count. */
  lemma {:induction false} SortDescSorted(es: seq<Entry>)
    ensures SortedDesc(SortDesc(es))
  {
    if es != [] {
      SortDescSorted(es[1..]);
      InsertSorted(es[0], SortDesc(es[1..]));
    }
  }

  /** The head of the sorted entries is the earliest entry of maximal count. */
  lemma {:induction false} SortDescHead(es: seq<Entry>)
    requires |es| > 0
    ensures SortDesc(es)[0] == es[ArgMaxFirst(es)]
  {
    if |es| > 1 {
      SortDescHead(es[1..]);
    }
  }

  /** `sorted[0]?.[0]`: the id of the first sorted entry, if there is one. */
  function TopId(es: seq<Entry>): (r: Option<string>)
    ensures r == if es == [] then None else Some(es[ArgMaxFirst(es)].id)
  {
    var sorted := SortDesc(es);
    if sorted == [] then None
    else
      SortDescHead(es);
      Some(sorted[0].id)
  }

  /** `characters.find(c => c.id === topId)`. */
  function Find(characters: seq<Character>, topId: Option<string>): (r: Option<Character>)
    ensures r.None? <==> (topId.None? || forall c :: c in characters ==> c.id != topId.value)
    ensures r.Some? ==> exists i :: (0 <= i < |characters| && characters[i] == r.value
      && characters[i].id == topId.value
      && forall j :: 0 <= j < i ==> characters[j].id != topId.value)
  {
    if characters == [] then None
    else if topId == Some(characters[0].id) then Some(characters[0])
    else
      Find(characters[1..], topId)
  }

  /** The id the result screen looks up for the given answers. */
  function WinnerOf(answers: seq<string>): Option<string>
  {
    var keys := FirstOccurrences(answers);
    TopId(Entries(keys, Counts(answers)))
  }

  /** The key at the earliest entry of maximal count has a maximal count. */
  lemma KeyAtMaxIsMostFrequent(answers: seq<string>, keys: seq<string>, es: seq<Entry>, k: nat)
    requires keys == FirstOccurrences(answers) && |es| == |keys|
    requires forall j :: 0 <= j < |es| ==> es[j].count == multiset(answers)[keys[j]]
    requires IsEarliestMax(es, k)
    ensures forall x :: x in answers ==> multiset(answers)[x] <= multiset(answers)[keys[k]]
  {
    forall x | x in answers
      ensures multiset(answers)[x] <= multiset(answers)[keys[k]]
    {
      var j := FirstIndex(keys, x);
      assert es[j].count == multiset(answers)[x];
    }
  }

  /** An id missing from the first `i` answers first occurs at `i` or later. */
  lemma FirstIndexBeyondPrefix(s: seq<string>, x: string, i: nat)
    requires x in s && i <= |s| && x !in s[..i]
    ensures FirstIndex(s, x) >= i
  {
    assert forall j :: 0 <= j < i ==> s[..i][j] == s[j];
  }

  /** Of two keys, the one that first occurred earlier comes earlier. */
  lemma KeyOrderReflectsFirstIndex(answers: seq<string>, a: nat, b: nat)
    requires a < |FirstOccurrences(answers)| && b < |FirstOccurrences(answers)|
    requires FirstIndex(answers, FirstOccurrences(answers)[a]) < FirstIndex(answers, FirstOccurrences(answers)[b])
    ensures a < b
  {
    FirstOccurrencesOrder(answers);
  }

  /** The key at the earliest entry of maximal count beats every id answered
      before that key's first occurrence. */
  lemma KeyAtMaxIsFirstAmongTies(answers: seq<string>, keys: seq<string>, es: seq<Entry>, k: nat)
    requires keys == FirstOccurrences(answers) && |es| == |keys|
    requires forall j :: 0 <= j < |es| ==> es[j].count == multiset(answers)[keys[j]]
    requires IsEarliestMax(es, k)
    ensures forall i :: 0 <= i < |answers| && keys[k] !in answers[..i] && answers[i] != keys[k] ==>
      multiset(answers)[answers[i]] < multiset(answers)[keys[k]]
  {
    var t := keys[k];
    forall i | 0 <= i < |answers| && t !in answers[..i] && answers[i] != t
      ensures multiset(answers)[answers[i]] < multiset(answers)[t]
    {
      var x := answers[i];
      var j := FirstIndex(keys, x);
      FirstIndexBeyondPrefix(answers, t, i);
      var fx, ft := FirstIndex(answers, x), FirstIndex(answers, t);
      assert fx <= i;
      assert ft != i;
      assert fx < ft;
      KeyOrderReflectsFirstIndex(answers, j, k);
      assert es[j].count < es[k].count;
    }
  }

  /** There is a winner exactly when some answer was collected. It is an id
      of maximal count, and every other id answered before the winner's first
      occurrence has a strictly smaller count, so a tie goes to the id whose
      first occurrence comes first. */
  lemma {:induction false} WinnerIsEarliestMostFrequent(answers: seq<string>)
    ensures WinnerOf(answers).None? <==> answers == []
    ensures WinnerOf(answers).Some? ==>
      var t := WinnerOf(answers).value;
      && t in answers
      && (forall x :: x in answers ==> multiset(answers)[x] <= multiset(answers)[t])
      && (forall i :: 0 <= i < |answers| && t !in answers[..i] && answers[i] != t ==>
            multiset(answers)[answers[i]] < multiset(answers)[t])
  {
    var keys := FirstOccurrences(answers);
    var es := Entries(keys, Counts(answers));
    if answers == [] {
      assert keys == [];
    } else {
      assert answers[0] in keys;
      var k := ArgMaxFirst(es);
      assert WinnerOf(answers) == Some(keys[k]);
      KeyAtMaxIsMostFrequent(answers, keys, es, k);
      KeyAtMaxIsFirstAmongTies(answers, keys, es, k);
    }
  }

  /** The id answered first wins as soon as no id is answered more often. */
  lemma FirstAnswerWinsTies(answers: seq<string>)
    requires answers != []
    requires forall x :: x in answers ==> multiset(answers)[x] <= multiset(answers)[answers[0]]
    ensures WinnerOf(answers) == Some(answers[0])
  {
    WinnerIsEarliestMostFrequent(answers);
    assert answers[..0] == [];
  }

  /** A tie goes to the id answered first: `first` wins against `second`
      in `[first, second, second, first]`. */
  lemma TieGoesToFirstSeen(first: string, second: string)
    requires first != second
    ensures WinnerOf([first, second, second, first]) == Some(first)
  {
    var s := [first, second, second, first];
    assert multiset(s)[first] == 2 && multiset(s)[second] == 2 by {
      assert s == [first] + [second] + [second] + [first];
    }
    assert forall x :: x in s ==> x == first || x == second;
    FirstAnswerWinsTies(s);
  }
}
