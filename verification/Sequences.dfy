// Facts about sequences that the verifier does not look for on its own.
module Sequences {

  lemma Regroup<T>(a: seq<T>, b: seq<T>, c: seq<T>)
    ensures (a + b) + c == a + (b + c)
  {}

  function Flat<T>(lines: seq<seq<T>>): seq<T> {
    if lines == [] then [] else lines[0] + Flat(lines[1..])
  }

  lemma {:induction false} FlatSum<T>(a: seq<seq<T>>, b: seq<seq<T>>)
    ensures Flat(a + b) == Flat(a) + Flat(b)
  {
    if a == [] {
      assert a + b == b;
    } else {
      assert (a + b)[1..] == a[1..] + b;
      FlatSum(a[1..], b);
    }
  }

  lemma FlatOne<T>(line: seq<T>)
    ensures Flat([line]) == line
  {
    assert Flat([line]) == line + Flat<T>([]);
  }

  lemma FlatAppend<T>(lines: seq<seq<T>>, line: seq<T>)
    ensures Flat(lines + [line]) == Flat(lines) + line
  {
    FlatSum(lines, [line]);
    FlatOne(line);
  }

  ghost predicate NoDuplicates<N>(s: seq<N>) {
    forall i, j :: 0 <= i < j < |s| ==> s[i] != s[j]
  }

  lemma NoDuplicatesInsert<N>(s: seq<N>, k: nat, x: N)
    requires NoDuplicates(s) && k <= |s| && x !in s
    ensures NoDuplicates(s[..k] + [x] + s[k..])
  {}

  lemma NoDuplicatesRemove<N>(s: seq<N>, k: nat)
    requires NoDuplicates(s) && k < |s|
    ensures NoDuplicates(s[..k] + s[k + 1..])
  {}

  lemma NoDuplicatesConcat<N>(s: seq<N>, t: seq<N>)
    requires NoDuplicates(s) && NoDuplicates(t)
    requires forall i, j :: 0 <= i < |s| && 0 <= j < |t| ==> s[i] != t[j]
    ensures NoDuplicates(s + t)
  {}
}
