/** Lists without repetition, kept as sequences, and unlinking one member from them. */
module Lists {

  ghost predicate NoDuplicates(s: seq<int>) {
    forall i, j :: 0 <= i < j < |s| ==> s[i] != s[j]
  }

  function Without(s: seq<int>, q: int): seq<int> {
    if s == [] then [] else if s[0] == q then s[1..] else [s[0]] + Without(s[1..], q)
  }

  lemma {:induction false} WithoutMembers(s: seq<int>, q: int)
    requires NoDuplicates(s)
    ensures NoDuplicates(Without(s, q))
    ensures forall x :: x in Without(s, q) <==> x in s && x != q
  {
    if s != [] {
      WithoutMembers(s[1..], q);
      assert s == [s[0]] + s[1..] && s[0] !in s[1..];
    }
  }

  lemma {:induction false} WithoutAt(s: seq<int>, k: nat)
    requires NoDuplicates(s) && k < |s|
    ensures Without(s, s[k]) == s[..k] + s[k + 1..]
  {
    if k > 0 {
      WithoutAt(s[1..], k - 1);
      assert s[..k] == [s[0]] + s[1..][..k - 1];
    }
  }

  lemma {:induction false} WithoutAbsent(s: seq<int>, q: int)
    requires q !in s
    ensures Without(s, q) == s
  {
    if s != [] {
      WithoutAbsent(s[1..], q);
    }
  }
}
