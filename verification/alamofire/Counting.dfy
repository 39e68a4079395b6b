/** How often an item occurs in a sequence. */
module Counting {
  function Count<T(==)>(items: seq<T>, x: T): nat
  {
    if items == [] then 0 else (if items[0] == x then 1 else 0) + Count(items[1..], x)
  }

  lemma CountNone<T>(x: T)
    ensures Count([], x) == 0
  {
  }

  lemma CountHead<T>(items: seq<T>, x: T)
    requires items != []
    ensures Count(items, x) == Count(items[1..], x) + if items[0] == x then 1 else 0
  {
  }

  lemma {:induction false} CountConcat<T>(a: seq<T>, b: seq<T>, x: T)
    ensures Count(a + b, x) == Count(a, x) + Count(b, x)
  {
    if a == [] {
      assert a + b == b;
    } else {
      assert (a + b)[1..] == a[1..] + b;
      CountConcat(a[1..], b, x);
    }
  }

  lemma CountPush<T>(items: seq<T>, x: T, y: T)
    ensures Count(items + [y], x) == Count(items, x) + if y == x then 1 else 0
  {
    assert [y][1..] == [];
    CountConcat(items, [y], x);
  }

  lemma CountTake<T>(items: seq<T>, k: nat, x: T)
    requires k < |items|
    ensures Count(items, x) == Count(items[..k] + items[k + 1..], x) + if items[k] == x then 1 else 0
  {
    CountHead(items[k..], x);
    hide Count;
    CountConcat(items[..k], items[k + 1..], x);
    CountConcat(items[..k], items[k..], x);
    assert items[..k] + items[k..] == items && items[k..][1..] == items[k + 1..];
  }
}
