/** Cluster chains in the 16-bit allocation table `fat0` of OS/src/fat.c:
    an entry of 0 is a free cluster, 0xFFFF ends a chain, any other value is
    the next cluster of the chain. */
module FatChain {
  import opened FatLayout

  /** `cs` is the chain that starts at `start` in table `t`: the walk
      `c := t[c]` from `start` visits exactly the clusters of `cs`, each in
      range and not free, and then reads 0xFFFF. An empty chain is the one
      that starts at 0xFFFF. */
  ghost predicate IsChain(t: seq<uint16>, start: int, cs: seq<int>)
  {
    (cs == [] <==> start == EndOfChain as int) &&
    (cs != [] ==> cs[0] == start) &&
    (forall k :: 0 <= k < |cs| ==> 0 <= cs[k] < |t| && t[cs[k]] != Free) &&
    (forall i, j {:trigger cs[i], cs[j]} :: 0 <= i && j == i + 1 && j < |cs| ==> t[cs[i]] as int == cs[j]) &&
    (cs != [] ==> t[cs[|cs| - 1]] == EndOfChain)
  }

  /** The only cluster of a chain whose entry reads 0xFFFF is the last one:
      every other entry names a cluster in range, and 0xFFFF is not one. */
  lemma EndOnlyAtLast(t: seq<uint16>, start: int, cs: seq<int>, k: int)
    requires |t| <= EndOfChain as int
    requires IsChain(t, start, cs)
    requires 0 <= k < |cs|
    ensures t[cs[k]] == EndOfChain <==> k == |cs| - 1
  {
    if k < |cs| - 1 {
      assert t[cs[k]] as int == cs[k + 1];
    }
  }

  /** Two positions holding the same cluster are followed by the same
      clusters. */
  lemma {:induction false} ShiftedEqual(t: seq<uint16>, start: int, cs: seq<int>, i: int, j: int, n: nat)
    requires IsChain(t, start, cs)
    requires 0 <= i < j && j + n < |cs|
    ensures cs[i] == cs[j] ==> cs[i + n] == cs[j + n]
  {
    if n > 0 {
      ShiftedEqual(t, start, cs, i, j, n - 1);
      assert t[cs[i + n - 1]] as int == cs[i + n];
      assert t[cs[j + n - 1]] as int == cs[j + n];
    }
  }

  /** No cluster appears twice on a chain: a repeated cluster would make the
      walk cycle and never read 0xFFFF. */
  lemma ChainDistinct(t: seq<uint16>, start: int, cs: seq<int>)
    requires |t| <= EndOfChain as int
    requires IsChain(t, start, cs)
    ensures forall i, j :: 0 <= i < j < |cs| ==> cs[i] != cs[j]
  {
    forall i, j | 0 <= i < j < |cs| ensures cs[i] != cs[j] {
      // a repeat at i < j repeats at the end: the last cluster would also sit
      // at position m < |cs| - 1, whose entry is not 0xFFFF
      var m := i + (|cs| - 1 - j);
      ShiftedEqual(t, start, cs, i, j, |cs| - 1 - j);
      assert t[cs[m]] as int == cs[m + 1];
    }
  }

  /** The chain from a cluster is determined by the table. */
  lemma {:induction false} ChainUnique(t: seq<uint16>, start: int, a: seq<int>, b: seq<int>)
    requires |t| <= EndOfChain as int
    requires IsChain(t, start, a) && IsChain(t, start, b)
    ensures a == b
  {
    if a != [] && b != [] {
      // both walks agree up to the shorter length n, and the one that ends
      // at n reads 0xFFFF there, so the other one ends there too
      var n := if |a| <= |b| then |a| else |b|;
      PrefixAgree(t, start, a, b, n);
      assert a[n - 1] == a[..n][n - 1] == b[..n][n - 1] == b[n - 1];
      EndOnlyAtLast(t, start, a, n - 1);
      EndOnlyAtLast(t, start, b, n - 1);
      assert a == a[..n] && b == b[..n];
    }
  }

  lemma {:induction false} PrefixAgree(t: seq<uint16>, start: int, a: seq<int>, b: seq<int>, n: nat)
    requires IsChain(t, start, a) && IsChain(t, start, b)
    requires n <= |a| && n <= |b|
    ensures a[..n] == b[..n]
  {
    if n > 0 {
      PrefixAgree(t, start, a, b, n - 1);
      assert a[..n] == a[..n - 1] + [a[n - 1]];
      assert b[..n] == b[..n - 1] + [b[n - 1]];
      if n > 1 {
        assert a[n - 2] == a[..n - 1][n - 2] == b[..n - 1][n - 2] == b[n - 2];
        assert a[n - 1] == t[a[n - 2]] as int;
        assert b[n - 1] == t[b[n - 2]] as int;
      }
    }
  }

  /** A write to a cluster that is not on a chain leaves the chain as it was. */
  lemma ChainUnaffected(t: seq<uint16>, start: int, cs: seq<int>, i: int, v: uint16)
    requires IsChain(t, start, cs)
    requires 0 <= i < |t| && i !in cs
    ensures IsChain(t[i := v], start, cs)
  {
    var t' := t[i := v];
    forall k | 0 <= k < |cs| ensures t'[cs[k]] == t[cs[k]] {
      assert cs[k] in cs;
    }
  }

  /** A free cluster is never on a chain. */
  lemma FreeNotOnChain(t: seq<uint16>, start: int, cs: seq<int>, c: int)
    requires IsChain(t, start, cs)
    requires 0 <= c < |t| && t[c] == Free
    ensures c !in cs
  {
  }

  /** The table after the chain `cs` has been given back: every cluster of
      `cs` reads 0, every other entry is kept. */
  function Freed(t: seq<uint16>, cs: seq<int>): (r: seq<uint16>)
    ensures |r| == |t|
  {
    seq(|t|, i requires 0 <= i < |t| => if i in cs then Free else t[i])
  }

  /** Clearing the entry of the next cluster of a chain whose first `k`
      clusters are already free. */
  lemma FreedStep(t: seq<uint16>, cs: seq<int>, k: nat)
    requires k < |cs| && 0 <= cs[k] < |t|
    ensures Freed(t, cs[..k])[cs[k] := Free] == Freed(t, cs[..k + 1])
  {
    assert cs[..k + 1] == cs[..k] + [cs[k]];
  }

  /** Freeing a chain releases exactly its clusters and leaves intact every
      chain that shares no cluster with it. */
  lemma FreedExactly(t: seq<uint16>, start: int, cs: seq<int>, other: int, os: seq<int>)
    requires IsChain(t, start, cs)
    requires IsChain(t, other, os)
    requires forall k :: 0 <= k < |os| ==> os[k] !in cs
    ensures forall i :: 0 <= i < |t| ==> (Freed(t, cs)[i] == Free <==> i in cs || t[i] == Free)
    ensures IsChain(Freed(t, cs), other, os)
  {
    var r := Freed(t, cs);
    forall k | 0 <= k < |os| ensures r[os[k]] == t[os[k]] {
    }
  }

  /** When a chain grew, only its old last cluster and the added ones
      changed: the links between the old clusters are the same. */
  lemma OnlyTailChanged(t0: seq<uint16>, t1: seq<uint16>, start: int, chain: seq<int>, grown: seq<int>)
    requires IsChain(t0, start, chain) && Grew(t0, t1, start, chain, grown)
    ensures var tail := if chain == [] then 0 else |chain| - 1;
            forall i :: 0 <= i < |t1| && i !in grown[tail..] ==> t1[i] == t0[i]
  {
    var tail := if chain == [] then 0 else |chain| - 1;
    forall j | tail <= j < |grown| ensures grown[j] in grown[tail..] {
      assert grown[tail..][j - tail] == grown[j];
    }
    forall i | 0 <= i < |t1| && i !in grown[tail..] ensures t1[i] == t0[i] {
      if i in grown {
        var j :| 0 <= j < |grown| && grown[j] == i;
        assert j < tail;
        assert grown[j] == chain[j] && grown[j + 1] == chain[j + 1];
      }
    }
  }

  /** `grown` is what became of the chain `chain` of table `t0` in table
      `t1`: it starts with `chain`, every cluster added was free in `t0`, and
      no entry off `grown` changed. */
  ghost predicate Grew(t0: seq<uint16>, t1: seq<uint16>, start: int, chain: seq<int>, grown: seq<int>)
  {
    |t0| == |t1| && IsChain(t1, start, grown) &&
    |chain| <= |grown| && grown[..|chain|] == chain &&
    (forall j :: |chain| <= j < |grown| ==> t0[grown[j]] == Free) &&
    (forall i :: 0 <= i < |t1| && i !in grown ==> t1[i] == t0[i])
  }

  /** Linking one more free cluster at the tail keeps the chain grown from
      `chain`. */
  lemma GrewByOne(t0: seq<uint16>, t: seq<uint16>, start: int, chain: seq<int>, cs: seq<int>, c: nat)
    requires |t| <= EndOfChain as int
    requires Grew(t0, t, start, chain, cs) && cs != []
    requires 2 <= c < |t| && t[c] == Free
    ensures Grew(t0, Extended(t, cs[|cs| - 1], c), start, chain, cs + [c])
  {
    var t1 := Extended(t, cs[|cs| - 1], c);
    var g := cs + [c];
    ExtendedChain(t, start, cs, c);
    assert c !in cs;
    assert g[..|chain|] == cs[..|chain|];
    assert cs[|cs| - 1] in cs;
    forall j | |chain| <= j < |g| ensures t0[g[j]] == Free {
      if j < |cs| {
        assert g[j] == cs[j];
      }
    }
  }

  /** The table after closeFile has linked `tail` to the free cluster `c`
      and marked `c` as the end of the chain. */
  function Extended(t: seq<uint16>, tail: nat, c: nat): (r: seq<uint16>)
    requires tail < |t| && c < |t| <= EndOfChain as int
  {
    t[tail := c as uint16][c := EndOfChain]
  }

  /** Linking a free cluster after the last one grows the chain by exactly
      that cluster. */
  lemma {:induction false} ExtendedChain(t: seq<uint16>, start: int, cs: seq<int>, c: nat)
    requires |t| <= EndOfChain as int
    requires IsChain(t, start, cs) && cs != []
    requires 2 <= c < |t| && t[c] == Free
    ensures IsChain(Extended(t, cs[|cs| - 1], c), start, cs + [c])
  {
    var tail := cs[|cs| - 1];
    var r := Extended(t, tail, c);
    var ns := cs + [c];
    assert c !in cs;
    forall k | 0 <= k < |ns| - 1 ensures r[ns[k]] as int == ns[k + 1] {
      if k < |cs| - 1 {
        assert cs[k] != c;
        ChainDistinct(t, start, cs);
        assert cs[k] != tail;
      }
    }
    forall k | 0 <= k < |ns| ensures 0 <= ns[k] < |r| && r[ns[k]] != Free {
      if k < |cs| {
        assert cs[k] in cs;
      }
    }
  }
}
