/** Python's `sorted` and `bisect`, with the contracts the hash tables rely on. */
module Sorting {

  predicate Ascending(s: seq<int>) {
    forall i, j :: 0 <= i < j < |s| ==> s[i] < s[j]
  }

  lemma AnyMember(s: set<int>)
    requires s != {}
    ensures exists k :: k in s
  {
    assert (forall k :: k !in s) ==> s == {};
  }

  /** Python's `sorted` on a set of keys. */
  method Sorted(keys: set<int>) returns (s: seq<int>)
    ensures Ascending(s) && forall k :: k in keys <==> k in s
  {
    s := [];
    var rest := keys;
    while rest != {}
      invariant rest <= keys && Ascending(s)
      invariant forall k :: k in keys <==> k in s || k in rest
      invariant forall k, i :: k in rest && 0 <= i < |s| ==> s[i] < k
      decreases rest
    {
      AnyMember(rest);
      var least :| least in rest;
      var others := rest - {least};
      while others != {}
        invariant least in rest && others <= rest
        invariant forall k :: k in rest ==> k in others || least <= k
        decreases others
      {
        AnyMember(others);
        var k :| k in others;
        if k < least { least := k; }
        others := others - {k};
      }
      s := s + [least];
      rest := rest - {least};
    }
  }

  /** Python's `bisect` on a sorted list. */
  method Bisect(s: seq<int>, x: int) returns (pos: nat)
    requires Ascending(s)
    ensures pos <= |s|
    ensures forall i :: 0 <= i < pos ==> s[i] <= x
    ensures forall i :: pos <= i < |s| ==> x < s[i]
  {
    pos := 0;
    var hi := |s|;
    while pos < hi
      invariant 0 <= pos <= hi <= |s|
      invariant forall i :: 0 <= i < pos ==> s[i] <= x
      invariant forall i :: hi <= i < |s| ==> x < s[i]
    {
      var mid := (pos + hi) / 2;
      if x < s[mid] {
        hi := mid;
      } else {
        pos := mid + 1;
      }
    }
  }
}
