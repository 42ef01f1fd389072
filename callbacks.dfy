/** The buffer's callback registries. A registration pairs a callback procedure with
    the opaque argument it is called with; both are identified here by number, since
    only their identity matters to the buffer. A registry is an ordered list in which
    the most recently added registration comes first. */
module Callbacks {

  /** One registered callback and its argument. */
  datatype Registration = Registration(proc: nat, arg: nat)

  /** The registry after adding `r`: the new registration goes in front. */
  function Added(s: seq<Registration>, r: Registration): (res: seq<Registration>)
    ensures |res| == |s| + 1 && res[0] == r && res[1..] == s
  {
    [r] + s
  }

  /** The registry after removing the first registration equal to `r`; unchanged when
      there is none. */
  function RemoveFirst(s: seq<Registration>, r: Registration): (res: seq<Registration>)
    ensures |res| == if r in s then |s| - 1 else |s|
  {
    if s == [] then []
    else if s[0] == r then s[1..]
    else [s[0]] + RemoveFirst(s[1..], r)
  }

  /** The position of the first registration equal to `r`, or -1 when there is none. */
  method IndexOf(s: seq<Registration>, r: Registration) returns (i: int)
    ensures -1 <= i < |s|
    ensures i >= 0 ==> s[i] == r && r !in s[..i]
    ensures i == -1 ==> r !in s
  {
    var k := 0;
    while k < |s|
      invariant 0 <= k <= |s|
      invariant r !in s[..k]
    {
      if s[k] == r {
        return k;
      }
      assert s[..k + 1] == s[..k] + [s[k]];
      k := k + 1;
    }
    assert s[..k] == s;
    return -1;
  }

  /** Removing a registration that is present shortens the registry by one and takes
      exactly one copy of it out; removing one that is absent changes nothing. */
  lemma {:induction false} RemoveFirstSpec(s: seq<Registration>, r: Registration)
    ensures r in s ==> |RemoveFirst(s, r)| == |s| - 1
    ensures r in s ==> multiset(RemoveFirst(s, r)) == multiset(s) - multiset{r}
    ensures r !in s ==> RemoveFirst(s, r) == s
  {
    if s != [] && s[0] != r {
      RemoveFirstSpec(s[1..], r);
      assert s == [s[0]] + s[1..];
      assert r in s ==> r in s[1..];
    } else if s != [] {
      assert s == [s[0]] + s[1..];
    }
  }

  /** Cutting out the first match by position is `RemoveFirst`: the registrations
      before it and after it keep their order. */
  lemma {:induction false} RemoveAtFirstMatch(s: seq<Registration>, r: Registration, i: int)
    requires 0 <= i < |s| && s[i] == r && r !in s[..i]
    ensures s[..i] + s[i + 1..] == RemoveFirst(s, r)
    decreases i
  {
    if i > 0 {
      assert s[0] in s[..i];
      RemoveAtFirstMatch(s[1..], r, i - 1);
      assert s[1..][..i - 1] == s[1..i];
      assert s[1..][i..] == s[i + 1..];
      assert s[..i] == [s[0]] + s[1..i];
    }
  }

  /** Removing a registration right after adding it restores the registry. */
  lemma AddThenRemove(s: seq<Registration>, r: Registration)
    ensures RemoveFirst(Added(s, r), r) == s
  {
  }
}
