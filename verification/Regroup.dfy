/**
  Reassociating long concatenations, kept apart from the definitions that build
  them so that each proof is about plain sequences.
  */
module Regroup {

  lemma Right3<T>(a: seq<T>, b: seq<T>, c: seq<T>)
    ensures a + b + c == a + (b + c)
  {
  }

  lemma Right4<T>(a: seq<T>, b: seq<T>, c: seq<T>, d: seq<T>)
    ensures a + b + c + d == a + (b + (c + d))
  {
    Right3(a + b, c, d);
    Right3(a, b, c + d);
  }

  lemma Right5<T>(a: seq<T>, b: seq<T>, c: seq<T>, d: seq<T>, e: seq<T>)
    ensures a + b + c + d + e == a + (b + (c + (d + e)))
  {
    Right4(a + b, c, d, e);
    Right3(a, b, c + (d + e));
  }

  lemma Empty<T>(a: seq<T>)
    ensures a + [] == a && [] + a == a
  {
  }
}
