/** The `words` dictionary of the game: one word per letter key. */
module Catalog {
  import opened Wrappers

  type Letter = string
  type Word = string

  /** A Python dict from letter to word, as its entries in insertion order
      (the order in which `words.values()` yields the words). */
  type Words = seq<(Letter, Word)>

  /** A well-formed dict holds each key once. */
  predicate KeysDistinct(words: Words) {
    forall i, j :: 0 <= i < j < |words| ==> words[i].0 != words[j].0
  }

  predicate Distinct<T(==)>(s: seq<T>) {
    forall i, j :: 0 <= i < j < |s| ==> s[i] != s[j]
  }

  /** `words[key]`: the word stored under `key`, or None where Python raises KeyError. */
  function Lookup(words: Words, key: Letter): (r: Option<Word>)
    ensures r.None? <==> forall k :: 0 <= k < |words| ==> words[k].0 != key
    ensures r.Some? ==> (key, r.value) in words
    ensures r.Some? && KeysDistinct(words) ==>
      forall k :: 0 <= k < |words| && words[k].0 == key ==> words[k].1 == r.value
  {
    if words == [] then None
    else if words[0].0 == key then Some(words[0].1)
    else Lookup(words[1..], key)
  }

  /** `words.values()`, in dict order. */
  function Values(words: Words): (r: seq<Word>)
    ensures |r| == |words|
    ensures forall k :: 0 <= k < |words| ==> r[k] == words[k].1
  {
    if words == [] then [] else [words[0].1] + Values(words[1..])
  }

  /** `[w for w in values if w != correct]`: every word but the correct one, in order. */
  function OtherWords(values: seq<Word>, correct: Word): (r: seq<Word>)
    ensures forall w :: w in r <==> w in values && w != correct
    ensures |r| == |values| - multiset(values)[correct]
  {
    if values == [] then []
    else
      assert values == [values[0]] + values[1..];
      (if values[0] != correct then [values[0]] else []) + OtherWords(values[1..], correct)
  }

  /** The other words are the dict's words with every occurrence of the
      correct word removed, each other word as often as in the dict. */
  lemma {:induction false} OtherWordsCount(values: seq<Word>, correct: Word)
    ensures multiset(OtherWords(values, correct)) == multiset(values)[correct := 0]
  {
    if values != [] {
      var rest := values[1..];
      OtherWordsCount(rest, correct);
      assert values == [values[0]] + rest;
      assert multiset(values) == multiset{values[0]} + multiset(rest);
    }
  }

  /** `pos` lists, in increasing order, exactly the positions of `values`
      that hold a word other than `correct`, and `r` is the words found there. */
  ghost predicate KeptInOrder<T>(pos: seq<nat>, values: seq<T>, correct: T, r: seq<T>) {
    Located(pos, values, r) && Increasing(pos) && Covers(pos, values, correct)
  }

  /** `r[k]` is the word at position `pos[k]` of `values`. */
  ghost predicate Located<T>(pos: seq<nat>, values: seq<T>, r: seq<T>) {
    |pos| == |r| && forall k :: 0 <= k < |pos| ==> pos[k] < |values| && values[pos[k]] == r[k]
  }

  ghost predicate Increasing(pos: seq<nat>) {
    forall k, m :: 0 <= k < m < |pos| ==> pos[k] < pos[m]
  }

  /** Every position of `values` holding a word other than `correct` is in `pos`. */
  ghost predicate Covers<T>(pos: seq<nat>, values: seq<T>, correct: T) {
    forall p :: 0 <= p < |values| && values[p] != correct ==> p in pos
  }

  /** The comprehension keeps the dict's order: the other words are the
      words at the increasing positions of `values` that do not hold the
      correct word. */
  lemma {:induction false} OtherWordsKeepOrder(values: seq<Word>, correct: Word) returns (pos: seq<nat>)
    ensures KeptInOrder(pos, values, correct, OtherWords(values, correct))
  {
    if values == [] {
      pos := [];
    } else {
      var inner := OtherWordsKeepOrder(values[1..], correct);
      var head: seq<nat> := if values[0] != correct then [0] else [];
      var r := OtherWords(values, correct);
      assert r == (if values[0] != correct then [values[0]] else []) + OtherWords(values[1..], correct);
      pos := head + Shift(inner);
      ShiftLocated(values, head, inner, r, OtherWords(values[1..], correct));
      ShiftIncreasing(head, inner);
      ShiftCovers(values, correct, head, inner);
    }
  }

  /** Every position of the list, one further on. */
  function Shift(ps: seq<nat>): (r: seq<nat>)
    ensures |r| == |ps|
    ensures forall k :: 0 <= k < |ps| ==> r[k] == ps[k] + 1
  {
    if ps == [] then [] else [ps[0] + 1] + Shift(ps[1..])
  }

  lemma ShiftLocated<T>(values: seq<T>, head: seq<nat>, inner: seq<nat>, r: seq<T>, tail: seq<T>)
    requires values != [] && Located(inner, values[1..], tail)
    requires (head == [] && r == tail) || (head == [0] && r == [values[0]] + tail)
    ensures Located(head + Shift(inner), values, r)
  {
    var shifted := Shift(inner);
    assert Located(shifted, values, tail) by {
      forall k | 0 <= k < |shifted| ensures shifted[k] < |values| && values[shifted[k]] == tail[k] {
        assert values[1..][inner[k]] == tail[k];
      }
    }
    if head == [0] {
      var pos := head + shifted;
      forall k | 0 <= k < |pos| ensures pos[k] < |values| && values[pos[k]] == r[k] {
        if k > 0 {
          assert pos[k] == shifted[k - 1] && r[k] == tail[k - 1];
        }
      }
    } else {
      assert head + shifted == shifted;
    }
  }

  lemma ShiftIncreasing(head: seq<nat>, inner: seq<nat>)
    requires Increasing(inner)
    requires head == [] || head == [0]
    ensures Increasing(head + Shift(inner))
  {
    var shifted := Shift(inner);
    assert Increasing(shifted) by {
      forall k, m | 0 <= k < m < |shifted| ensures shifted[k] < shifted[m] {
        assert inner[k] < inner[m];
      }
    }
    if head == [0] {
      var pos := head + shifted;
      forall k, m | 0 <= k < m < |pos| ensures pos[k] < pos[m] {
        assert pos[m] == shifted[m - 1];
        if k > 0 { assert pos[k] == shifted[k - 1]; }
      }
    } else {
      assert head + shifted == shifted;
    }
  }

  lemma ShiftCovers<T>(values: seq<T>, correct: T, head: seq<nat>, inner: seq<nat>)
    requires values != [] && Covers(inner, values[1..], correct)
    requires head == (if values[0] != correct then [0] else [])
    ensures Covers(head + Shift(inner), values, correct)
  {
    var pos := head + Shift(inner);
    forall p | 0 <= p < |values| && values[p] != correct ensures p in pos {
      if p > 0 {
        assert values[1..][p - 1] == values[p];
        var k :| 0 <= k < |inner| && inner[k] == p - 1;
        assert pos[|head| + k] == p;
      }
    }
  }

  /** When the dict's words are pairwise distinct, so are the other words. */
  lemma {:induction false} OtherWordsDistinct(values: seq<Word>, correct: Word)
    requires Distinct(values)
    ensures Distinct(OtherWords(values, correct))
  {
    if values != [] {
      var rest := values[1..];
      assert Distinct(rest) by {
        forall i, j | 0 <= i < j < |rest| ensures rest[i] != rest[j] {
          assert rest[i] == values[i + 1] && rest[j] == values[j + 1];
        }
      }
      OtherWordsDistinct(rest, correct);
      assert values[0] !in rest by {
        forall k | 0 <= k < |rest| ensures rest[k] != values[0] {
          assert rest[k] == values[k + 1];
        }
      }
      var tail := OtherWords(rest, correct);
      assert values[0] !in tail;
      if values[0] != correct {
        var r := [values[0]] + tail;
        forall i, j | 0 <= i < j < |r| ensures r[i] != r[j] {
          if i == 0 {
            assert r[j] == tail[j - 1];
          } else {
            assert r[i] == tail[i - 1] && r[j] == tail[j - 1];
          }
        }
      }
    }
  }
}
