/** Concatenation, for proofs about lines and queues. */
module Sequences {
  lemma Regroup<T>(a: seq<T>, b: seq<T>, c: seq<T>, d: seq<T>)
    ensures a + b + c + d == a + (b + c + d) && a + b + c == a + (b + c)
  {
  }

  lemma Empties<T>(x: seq<T>)
    ensures [] + x == x && x + [] == x && [] + [] + x == x
  {
  }

  lemma HeadAndRest<T>(x: seq<T>)
    requires x != []
    ensures x == [x[0]] + x[1..]
  {
  }

  /** Two steps of a line that is joined at the end and served at the head. */
  lemma TwoSteps<T>(line: seq<T>, joins: seq<T>, serves: seq<T>, line': seq<T>, joins': seq<T>, serves': seq<T>,
                    line'': seq<T>)
    requires line + joins == serves + line' && line' + joins' == serves' + line''
    ensures line + (joins + joins') == serves + serves' + line''
  {
    assert line + (joins + joins') == line + joins + joins';
    assert serves + line' + joins' == serves + (line' + joins');
  }
}
