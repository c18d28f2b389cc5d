/** The question search: the length filter, the per-position letter pattern
    and the list of questions they select. */
module Search {

  import opened Cells

  /** One already-parsed record of the question bank; `length` is the
      record's own length field, not computed from `word`. */
  datatype Question = Question(length: int, genre: string, difficulty: string, word: string, clue: string)

  /** The selected length (None until a length button is pressed) and one
      pattern entry per position, "" meaning "any letter". */
  datatype Query = Query(selected: Option<int>, pattern: seq<string>)

  /** Choosing a length: the pattern is reset to that many empty entries. */
  function LengthFilter(n: nat): (q: Query)
    ensures q.selected == Some(n)
    ensures |q.pattern| == n
    ensures forall i :: 0 <= i < n ==> q.pattern[i] == ""
  {
    Query(Some(n), seq(n, _ => ""))
  }

  /** The last character of `val` as a string, empty when `val` is. */
  function LastChar(val: string): (s: string)
    ensures |s| <= 1
    ensures s == "" <==> val == ""
    ensures s != "" ==> s[0] == val[|val| - 1]
  {
    if val == "" then "" else [val[|val| - 1]]
  }

  /** Typing into pattern position `i`: only that position changes, and it
      keeps only the last character typed. */
  function PatternChange(q: Query, i: nat, val: string): (q': Query)
    requires i < |q.pattern|
    ensures q'.selected == q.selected
    ensures |q'.pattern| == |q.pattern|
    ensures |q'.pattern[i]| <= 1 && (q'.pattern[i] == "" <==> val == "")
    ensures val != "" ==> q'.pattern[i] == [val[|val| - 1]]
    ensures forall j :: 0 <= j < |q.pattern| && j != i ==> q'.pattern[j] == q.pattern[j]
  {
    q.(pattern := q.pattern[i := LastChar(val)])
  }

  /** Whether question `x` is shown: its length field equals the selected
      length and every fixed pattern letter equals the word's letter there. */
  predicate Displayed(x: Question, q: Query) {
    && q.selected.Some? && x.length == q.selected.value
    && forall i :: 0 <= i < |q.pattern| ==>
         q.pattern[i] == "" || (i < |x.word| && q.pattern[i] == [x.word[i]])
  }

  /** The displayed questions, in bank order. */
  function Filter(qs: seq<Question>, q: Query): (r: seq<Question>)
    ensures |r| <= |qs|
    ensures forall x :: x in r ==> x in qs && Displayed(x, q)
    ensures forall x :: x in qs && Displayed(x, q) ==> x in r
  {
    if qs == [] then []
    else if Displayed(qs[0], q) then [qs[0]] + Filter(qs[1..], q)
    else Filter(qs[1..], q)
  }

  /** Repeats are kept: a displayed record occurs in the result as often as
      in the bank, any other record not at all. */
  lemma {:induction false} FilterKeepsRepeats(qs: seq<Question>, q: Query, x: Question)
    ensures multiset(Filter(qs, q))[x] == if Displayed(x, q) then multiset(qs)[x] else 0
  {
    if qs != [] {
      FilterKeepsRepeats(qs[1..], q, x);
      assert qs == [qs[0]] + qs[1..];
    }
  }

  /** `idx` picks the elements of `xs` out of `ys` at strictly increasing positions. */
  ghost predicate Embeds(xs: seq<Question>, ys: seq<Question>, idx: seq<nat>) {
    && |idx| == |xs|
    && (forall k :: 0 <= k < |idx| ==> idx[k] < |ys| && ys[idx[k]] == xs[k])
    && (forall k, l :: 0 <= k < l < |idx| ==> idx[k] < idx[l])
  }

  /** Every index moved one place along. */
  function Shift(idx: seq<nat>): (s: seq<nat>)
    ensures |s| == |idx|
    ensures forall k :: 0 <= k < |idx| ==> s[k] == idx[k] + 1
  {
    seq(|idx|, k requires 0 <= k < |idx| => idx[k] + 1)
  }

  /** A record put in front of the bank moves an embedding one place along. */
  lemma EmbedsBehind(x: Question, qs: seq<Question>, xs: seq<Question>, idx: seq<nat>)
    requires Embeds(xs, qs, idx)
    ensures Embeds(xs, [x] + qs, Shift(idx))
  {
  }

  /** The front record can be picked first in front of a shifted embedding. */
  lemma EmbedsFront(x: Question, qs: seq<Question>, xs: seq<Question>, idx: seq<nat>)
    requires Embeds(xs, qs, idx)
    ensures Embeds([x] + xs, [x] + qs, [0] + Shift(idx))
  {
  }

  /** The filter keeps the bank's order: its result is a subsequence of the bank. */
  lemma {:induction false} FilterKeepsOrder(qs: seq<Question>, q: Query) returns (idx: seq<nat>)
    ensures Embeds(Filter(qs, q), qs, idx)
  {
    if qs == [] {
      idx := [];
    } else {
      var tail := Filter(qs[1..], q);
      var rest := FilterKeepsOrder(qs[1..], q);
      assert qs == [qs[0]] + qs[1..];
      if Displayed(qs[0], q) {
        EmbedsFront(qs[0], qs[1..], tail, rest);
        idx := [0] + Shift(rest);
        assert Filter(qs, q) == [qs[0]] + tail;
      } else {
        EmbedsBehind(qs[0], qs[1..], tail, rest);
        idx := Shift(rest);
        assert Filter(qs, q) == tail;
      }
    }
  }

  /** With a freshly reset pattern, exactly the questions of that length show. */
  lemma FreshPatternSelectsByLength(x: Question, n: nat)
    ensures Displayed(x, LengthFilter(n)) <==> x.length == n
  {
  }

  /** Fixing a letter at an open position only narrows the displayed list. */
  lemma PatternChangeNarrows(qs: seq<Question>, q: Query, i: nat, val: string)
    requires i < |q.pattern| && q.pattern[i] == ""
    ensures forall x :: x in Filter(qs, PatternChange(q, i, val)) ==> x in Filter(qs, q)
  {
  }

  /** Until a length is chosen nothing is displayed. */
  lemma NothingBeforeLengthChosen(qs: seq<Question>, pattern: seq<string>)
    ensures Filter(qs, Query(None, pattern)) == []
  {
  }
}
