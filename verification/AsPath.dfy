/** AS-path prepends: the counting loop, and its meaning as length less runs. */
module AsPath {

  /** The places where an ASN equals its predecessor. */
  function AdjacentPairs(path: seq<nat>): nat {
    if |path| < 2 then 0
    else AdjacentPairs(path[..|path| - 1]) + if path[|path| - 2] == path[|path| - 1] then 1 else 0
  }

  method AsPathPrepends(path: seq<nat>) returns (prepends: nat)
    ensures prepends == Prepends(path)
  {
    prepends := 0;
    var i := 0;
    while i + 1 < |path|
      invariant 0 <= i && (|path| > 0 ==> i < |path|)
      invariant prepends == AdjacentPairs(path[..if i < |path| then i + 1 else |path|])
    {
      assert path[..i + 2][..i + 1] == path[..i + 1];
      if path[i] == path[i + 1] {
        prepends := prepends + 1;
      }
      i := i + 1;
    }
    assert path[..|path|] == path;
    PairsAndRuns(path);
  }

  /** The maximal runs of equal ASNs, as (ASN, length) pairs. */
  function Runs(path: seq<nat>): seq<(nat, nat)> {
    if |path| == 0 then []
    else
      var rest := Runs(path[1..]);
      if |rest| > 0 && rest[0].0 == path[0] then [(path[0], rest[0].1 + 1)] + rest[1..]
      else [(path[0], 1)] + rest
  }

  /** The ASNs that pad a run: the path's length less its number of runs. */
  function Prepends(path: seq<nat>): int {
    |path| - |Runs(path)|
  }

  function Repeat(asn: nat, n: nat): seq<nat> {
    if n == 0 then [] else [asn] + Repeat(asn, n - 1)
  }

  function Expand(runs: seq<(nat, nat)>): seq<nat> {
    if |runs| == 0 then [] else Repeat(runs[0].0, runs[0].1) + Expand(runs[1..])
  }

  /** The runs are those of the path: expanded, they give it back; none is empty; neighbours differ. */
  lemma {:induction false} RunsAreMaximal(path: seq<nat>)
    ensures Expand(Runs(path)) == path
    ensures forall i :: 0 <= i < |Runs(path)| ==> Runs(path)[i].1 > 0
    ensures forall i :: 0 <= i < |Runs(path)| - 1 ==> Runs(path)[i].0 != Runs(path)[i + 1].0
    ensures path != [] ==> |Runs(path)| > 0 && Runs(path)[0].0 == path[0]
  {
    if |path| > 0 {
      RunsAreMaximal(path[1..]);
      var rest := Runs(path[1..]);
      assert path == [path[0]] + path[1..];
      if |rest| > 0 && rest[0].0 == path[0] {
        assert Repeat(path[0], rest[0].1 + 1) == [path[0]] + Repeat(path[0], rest[0].1);
      } else {
        assert Repeat(path[0], 1) == [path[0]] + Repeat(path[0], 0);
        assert Runs(path)[1..] == rest;
      }
    }
  }

  lemma {:induction false} PairsFromFront(path: seq<nat>)
    requires |path| >= 2
    ensures AdjacentPairs(path) == (if path[0] == path[1] then 1 else 0) + AdjacentPairs(path[1..])
  {
    if |path| > 2 {
      var init := path[..|path| - 1];
      PairsFromFront(init);
      assert path[1..][..|path| - 2] == init[1..];
    }
  }

  lemma {:induction false} PairsAndRuns(path: seq<nat>)
    ensures AdjacentPairs(path) + |Runs(path)| == |path|
  {
    if |path| >= 2 {
      PairsFromFront(path);
      PairsAndRuns(path[1..]);
      RunsAreMaximal(path[1..]);
    }
  }

  function Reverse(path: seq<nat>): seq<nat> {
    if |path| == 0 then [] else Reverse(path[1..]) + [path[0]]
  }

  lemma {:induction false} ReverseEnds(path: seq<nat>)
    ensures |Reverse(path)| == |path|
    ensures |path| > 0 ==> Reverse(path)[|path| - 1] == path[0]
  {
    if |path| > 0 {
      ReverseEnds(path[1..]);
    }
  }

  /** Reading a path backwards does not change its prepends. */
  lemma PrependsOfReverse(path: seq<nat>)
    ensures Prepends(Reverse(path)) == Prepends(path)
  {
    PairsOfReverse(path);
    PairsAndRuns(path);
    PairsAndRuns(Reverse(path));
  }

  lemma {:induction false} PairsOfReverse(path: seq<nat>)
    ensures AdjacentPairs(Reverse(path)) == AdjacentPairs(path)
  {
    if |path| >= 2 {
      var tail := Reverse(path[1..]);
      PairsFromFront(path);
      PairsOfReverse(path[1..]);
      ReverseEnds(path[1..]);
      assert (tail + [path[0]])[..|tail|] == tail;
    } else if |path| == 1 {
      assert Reverse(path[1..]) == [];
    }
  }

  /** Joining two paths adds their prepends, and one more if they meet in the same ASN. */
  lemma PrependsOfConcat(a: seq<nat>, b: seq<nat>)
    ensures Prepends(a + b) ==
            Prepends(a) + Prepends(b) + if |a| > 0 && |b| > 0 && a[|a| - 1] == b[0] then 1 else 0
  {
    PairsOfConcat(a, b);
    PairsAndRuns(a);
    PairsAndRuns(b);
    PairsAndRuns(a + b);
  }

  lemma {:induction false} PairsOfConcat(a: seq<nat>, b: seq<nat>)
    ensures AdjacentPairs(a + b) == AdjacentPairs(a) + AdjacentPairs(b) +
                                    if |a| > 0 && |b| > 0 && a[|a| - 1] == b[0] then 1 else 0
    decreases |b|
  {
    if |b| == 0 {
      assert a + b == a;
    } else {
      var init := b[..|b| - 1];
      PairsOfConcat(a, init);
      assert (a + b)[..|a + b| - 1] == a + init;
    }
  }
}
