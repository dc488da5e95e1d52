/** Identifiers derived from a v1 UUID by `uuid().split('-').join('')`: the
    transaction ids of createNewTransaction and the node's reward address. */
module Ids {

  /** The number of dashes in `s`. */
  function DashCount(s: string): nat
  {
    multiset(s)['-']
  }

  /** `s.split('-').join('')`: `s` with every dash removed and every other
      character kept, in order. */
  function Undashed(s: string): (r: string)
    ensures forall c :: c in r <==> c in s && c != '-'
    ensures |r| == |s| - DashCount(s)
  {
    if s == [] then []
    else
      assert s == [s[0]] + s[1..];
      (if s[0] == '-' then [] else [s[0]]) + Undashed(s[1..])
  }

  /** Stripping keeps every other character exactly as often as it occurs and
      no dash at all. */
  lemma {:induction false} UndashedMultiset(s: string)
    ensures multiset(Undashed(s)) == multiset(s)['-' := 0]
  {
    if s != [] {
      var head := if s[0] == '-' then [] else [s[0]];
      assert s == [s[0]] + s[1..];
      assert Undashed(s) == head + Undashed(s[1..]);
      UndashedMultiset(s[1..]);
      assert multiset(s) == multiset{s[0]} + multiset(s[1..]);
      assert multiset(Undashed(s)) == multiset(head) + multiset(s[1..])['-' := 0];
    }
  }

  /** Removing dashes from a string that has none changes nothing. */
  lemma {:induction false} UndashedWithoutDashes(s: string)
    requires '-' !in s
    ensures Undashed(s) == s
  {
    if s != [] {
      assert '-' !in s[1..] by {
        forall c | c in s[1..] ensures c != '-' {
          assert c in s;
        }
      }
      UndashedWithoutDashes(s[1..]);
    }
  }

  /** One step of stripping: the first character survives unless it is a dash. */
  lemma UndashedCons(c: char, s: string)
    ensures Undashed([c] + s) == (if c == '-' then [] else [c]) + Undashed(s)
  {
    assert ([c] + s)[1..] == s;
  }

  /** Stripping keeps the order of what it keeps: it distributes over
      concatenation, so every piece between dashes appears in place. */
  lemma {:induction false} UndashedConcat(a: string, b: string)
    ensures Undashed(a + b) == Undashed(a) + Undashed(b)
  {
    if a == [] {
      assert a + b == b;
    } else {
      var head := if a[0] == '-' then [] else [a[0]];
      var rest := a[1..];
      assert a == [a[0]] + rest;
      assert a + b == [a[0]] + (rest + b);
      calc {
        Undashed(a + b);
      == { UndashedCons(a[0], rest + b); }
        head + Undashed(rest + b);
      == { UndashedConcat(rest, b); }
        head + (Undashed(rest) + Undashed(b));
      ==
        (head + Undashed(rest)) + Undashed(b);
      == { UndashedCons(a[0], rest); }
        Undashed(a) + Undashed(b);
      }
    }
  }
}
