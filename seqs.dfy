/** Sequence helpers shared by the transformer and the batch loader. */
module Seqs {

  /** Python's `[f(x) for x in s]`, built element by element from the back so
      that a loop appending `f(s[i])` keeps `Mapped(f, s[..i])`. */
  function Mapped<A, B>(f: A -> B, s: seq<A>): (r: seq<B>)
    ensures |r| == |s|
  {
    if s == [] then [] else Mapped(f, s[..|s| - 1]) + [f(s[|s| - 1])]
  }

  /** Element `i` of the result is `f` of element `i` of the input. */
  lemma {:induction false} MappedAt<A, B>(f: A -> B, s: seq<A>, i: nat)
    requires i < |s|
    ensures Mapped(f, s)[i] == f(s[i])
  {
    if i < |s| - 1 {
      MappedAt(f, s[..|s| - 1], i);
    }
  }

  /** The elements of the result are exactly the images of the input's elements. */
  lemma MappedMembers<A, B>(f: A -> B, s: seq<A>)
    ensures forall y :: y in Mapped(f, s) <==> exists x :: x in s && y == f(x)
  {
    var r := Mapped(f, s);
    forall y | y in r ensures exists x :: x in s && y == f(x) {
      var i :| 0 <= i < |r| && r[i] == y;
      MappedAt(f, s, i);
    }
    forall x | x in s ensures f(x) in r {
      var i :| 0 <= i < |s| && s[i] == x;
      MappedAt(f, s, i);
    }
  }

  /** One more element mapped at the end. */
  lemma MappedSnoc<A, B>(f: A -> B, s: seq<A>, i: nat)
    requires i < |s|
    ensures Mapped(f, s[..i + 1]) == Mapped(f, s[..i]) + [f(s[i])]
  {
    assert s[..i + 1][..i] == s[..i];
  }

  /** Concatenation of a list of lists, in order. */
  function Flatten<T>(bs: seq<seq<T>>): seq<T>
  {
    if bs == [] then [] else Flatten(bs[..|bs| - 1]) + bs[|bs| - 1]
  }

  lemma {:induction false} FlattenCons<T>(b: seq<T>, bs: seq<seq<T>>)
    ensures Flatten([b] + bs) == b + Flatten(bs)
  {
    if bs == [] {
      assert [b] + bs == [b];
      assert Flatten([b]) == Flatten([b][..0]) + b;
    } else {
      var init := bs[..|bs| - 1];
      FlattenCons(b, init);
      assert ([b] + bs)[..|bs|] == [b] + init;
    }
  }

}
