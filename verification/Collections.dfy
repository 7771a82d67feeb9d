/** Laws of concatenation, named so that proofs can use them one at a time, and the least element of a set. */
module Collections {
  lemma {:induction false} Associates<T>(a: seq<T>, b: seq<T>, c: seq<T>)
    ensures a + b + c == a + (b + c)
  {
  }

  lemma {:induction false} SameRest<T>(p: seq<T>, a: seq<T>, b: seq<T>)
    requires p + a == p + b
    ensures a == b
  {
    assert a == (p + a)[|p|..] && b == (p + b)[|p|..];
  }

  lemma {:induction false} SamePrefix<T>(p: seq<T>, a: seq<T>, b: seq<T>, c: seq<T>, d: seq<T>)
    requires p + a + b == p + c + d
    ensures a + b == c + d
  {
    assert a + b == (p + a + b)[|p|..] && c + d == (p + c + d)[|p|..];
  }

  lemma {:induction false} LeastExists(s: set<nat>)
    requires s != {}
    ensures exists a :: a in s && forall b :: b in s ==> a <= b
  {
    var a :| a in s;
    var rest := s - {a};
    while rest != {}
      invariant a in s && rest <= s && forall b :: b in s && b !in rest ==> a <= b
      decreases rest
    {
      var b :| b in rest;
      rest := rest - {b};
      if b < a {
        a := b;
      }
    }
  }

  lemma {:induction false} SubsetSize<T>(a: set<T>, b: set<T>)
    requires a <= b
    ensures |a| <= |b|
  {
    if a != {} {
      var x :| x in a;
      SubsetSize(a - {x}, b - {x});
    }
  }
}
