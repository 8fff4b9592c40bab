/** Values shared by every module. */
module Wrappers {
  datatype Option<+T> = None | Some(value: T)

  function Min(a: nat, b: nat): nat { if a <= b then a else b }

  /** The concatenation of a sequence of strings. */
  function Concat(ss: seq<string>): string {
    if ss == [] then "" else ss[0] + Concat(ss[1..])
  }

  lemma {:induction false} ConcatAppend(a: seq<string>, b: seq<string>)
    ensures Concat(a + b) == Concat(a) + Concat(b)
  {
    if a == [] {
      assert a + b == b;
    } else {
      assert (a + b)[1..] == a[1..] + b;
      ConcatAppend(a[1..], b);
    }
  }

  lemma Associate<T>(a: seq<T>, b: seq<T>, c: seq<T>)
    ensures (a + b) + c == a + (b + c)
  {
  }

  predicate Distinct<T(==)>(xs: seq<T>) {
    forall i, j :: 0 <= i < |xs| && 0 <= j < |xs| && xs[i] == xs[j] ==> i == j
  }

  /** One entry of a header map. */
  datatype Entry = Entry(key: string, value: string)

  /** hs lists the entries of a map once each, in some order. */
  predicate Lists(hs: seq<Entry>, m: map<string, string>) {
    && (forall i, j :: 0 <= i < |hs| && 0 <= j < |hs| && hs[i].key == hs[j].key ==> i == j)
    && (forall i :: 0 <= i < |hs| ==> hs[i].key in m && m[hs[i].key] == hs[i].value)
    && (forall k :: k in m ==> exists i :: 0 <= i < |hs| && hs[i].key == k)
  }
}
