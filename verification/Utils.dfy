/** Helpers that several modules share. */
module Utils {
  datatype Option<+T> = None | Some(value: T)

  type Byte = b: nat | b < 256

  function Least(a: nat, b: nat): nat { if a < b then a else b }

  ghost predicate Distinct<T>(s: seq<T>) {
    forall i, j :: 0 <= i < j < |s| ==> s[i] != s[j]
  }

  /** The elements of a sequence. */
  function Elements(cs: seq<nat>): set<nat> {
    if cs == [] then {} else Elements(cs[..|cs| - 1]) + {cs[|cs| - 1]}
  }

  lemma {:induction false} DistinctSize(cs: seq<nat>)
    requires Distinct(cs)
    ensures |Elements(cs)| == |cs| && forall c :: c in Elements(cs) <==> c in cs
  {
    if cs != [] {
      var (front, last) := (cs[..|cs| - 1], cs[|cs| - 1]);
      DistinctSize(front);
      LastApart(cs);
      assert Elements(cs) == Elements(front) + {last} && last !in Elements(front);
      forall c
        ensures c in Elements(cs) <==> c in cs
      {
        assert c in cs <==> c in front || c == last by {
          assert cs == front + [last];
        }
      }
    }
  }

  lemma {:induction false} LastApart(cs: seq<nat>)
    requires Distinct(cs) && cs != []
    ensures Distinct(cs[..|cs| - 1]) && cs[|cs| - 1] !in cs[..|cs| - 1]
  {
  }

  function Zeros(n: nat): (s: seq<Byte>)
    ensures |s| == n && forall i :: 0 <= i < n ==> s[i] == 0
  {
    if n == 0 then [] else [0] + Zeros(n - 1)
  }

  /** The present bit of a page table entry. */
  predicate Present(e: nat) { e % 2 == 1 }
}
