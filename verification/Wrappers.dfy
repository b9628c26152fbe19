/** The two result shapes the modules share, and sequences built element by element. */
module Wrappers {
  datatype Option<+T> = None | Some(value: T)

  datatype Result<+T, +E> = Ok(value: T) | Err(error: E)

  lemma Assoc<T>(a: seq<T>, b: seq<T>, c: seq<T>)
    ensures (a + b) + c == a + (b + c)
  {
  }

  /** The results of `f` on every element, in order. */
  function Collect<T, U>(f: T -> seq<U>, s: seq<T>): seq<U> {
    if s == [] then [] else Collect(f, s[..|s| - 1]) + f(s[|s| - 1])
  }

  lemma CollectPush<T, U>(f: T -> seq<U>, s: seq<T>, x: T)
    ensures Collect(f, s + [x]) == Collect(f, s) + f(x)
  {
    assert (s + [x])[..|s|] == s;
  }

  lemma {:induction false} CollectAppend<T, U>(f: T -> seq<U>, a: seq<T>, b: seq<T>)
    ensures Collect(f, a + b) == Collect(f, a) + Collect(f, b)
  {
    if b == [] {
      assert a + b == a;
    } else {
      var front, x := b[..|b| - 1], b[|b| - 1];
      CollectAppend(f, a, front);
      CollectPush(f, a + front, x);
      Assoc(a, front, [x]);
      assert b == front + [x];
      Assoc(Collect(f, a), Collect(f, front), f(x));
    }
  }

  lemma {:induction false} CollectNone<T, U>(f: T -> seq<U>, s: seq<T>)
    requires forall x :: x in s ==> f(x) == []
    ensures Collect(f, s) == []
  {
    if s != [] { CollectNone(f, s[..|s| - 1]); }
  }

  /** An element that is kept as it is comes out exactly when it went in. */
  lemma {:induction false} CollectKept<T>(f: T -> seq<T>, s: seq<T>)
    requires forall x :: f(x) == [x] || f(x) == []
    ensures forall x :: x in Collect(f, s) <==> x in s && f(x) != []
  {
    if s != [] {
      CollectKept(f, s[..|s| - 1]);
      assert s == s[..|s| - 1] + [s[|s| - 1]];
    }
  }

  /** Where every element brings at most one, none is lost exactly when each brings one. */
  lemma {:induction false} CollectLoses<T, U>(f: T -> seq<U>, s: seq<T>)
    requires forall x :: |f(x)| <= 1
    ensures |Collect(f, s)| <= |s|
    ensures |Collect(f, s)| == |s| <==> forall x :: x in s ==> f(x) != []
  {
    if s != [] {
      CollectLoses(f, s[..|s| - 1]);
      assert s == s[..|s| - 1] + [s[|s| - 1]];
    }
  }

  lemma CollectTwo<T, U>(f: T -> seq<U>, a: T, b: T)
    ensures Collect(f, [a, b]) == f(a) + f(b)
  {
    CollectOne(f, a);
    CollectPush(f, [a], b);
    assert [a] + [b] == [a, b];
  }

  lemma CollectOne<T, U>(f: T -> seq<U>, a: T)
    ensures Collect(f, [a]) == f(a)
  {
    assert [a][..0] == [];
    assert [] + f(a) == f(a);
  }

  lemma CollectThree<T, U>(f: T -> seq<U>, a: T, b: T, c: T)
    ensures Collect(f, [a, b, c]) == f(a) + f(b) + f(c)
  {
    assert [a, b, c] == [a, b] + [c];
    CollectPush(f, [a, b], c);
    CollectTwo(f, a, b);
  }
}
