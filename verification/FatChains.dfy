/** Cluster chains: the table as a graph, and the files as paths in it. */
module FatChains {
  import opened Errno

  const FREE: nat := 0
  const BAD: nat := 0x0FFF_FFF7
  const EOC: nat := 0x0FFF_FFF8

  /** `place` gives for a cluster the chain it is in and its position there. */
  datatype Pos = Pos(f: nat, i: nat)

  type Chains = map<nat, seq<nat>>

  /** Every chain runs through the table to an end mark, and no cluster is in two places: chains
      have no cycle and share nothing. */
  ghost predicate Wf(fat: seq<nat>, chains: Chains, place: map<nat, Pos>) {
    && |fat| <= BAD
    && (forall f, i: nat :: f in chains && i < |chains[f]| ==>
          2 <= chains[f][i] < |fat| && chains[f][i] in place && place[chains[f][i]] == Pos(f, i))
    && (forall f, i: nat {:trigger fat[chains[f][i]]} :: f in chains && i < |chains[f]| ==>
          if i + 1 < |chains[f]| then fat[chains[f][i]] == chains[f][i + 1] else EOC <= fat[chains[f][i]])
  }

  /** A free cluster is in no chain. */
  lemma FreeInNone(fat: seq<nat>, chains: Chains, place: map<nat, Pos>, k: nat)
    requires Wf(fat, chains, place) && k < |fat| && fat[k] == FREE
    ensures forall f, i: nat :: f in chains && i < |chains[f]| ==> chains[f][i] != k
  {
    forall f, i: nat | f in chains && i < |chains[f]| ensures chains[f][i] != k {
      assert i + 1 < |chains[f]| ==> 2 <= chains[f][i + 1];
    }
  }

  /** A free cluster may get any value that is not zero without touching a chain. */
  lemma AllocKeeps(fat: seq<nat>, chains: Chains, place: map<nat, Pos>, k: nat, v: nat)
    requires Wf(fat, chains, place) && k < |fat| && fat[k] == FREE
    ensures Wf(fat[k := v], chains, place)
  {
    FreeInNone(fat, chains, place, k);
  }

  /** A cluster marked as an end becomes the whole of an empty chain. */
  lemma StartKeeps(fat: seq<nat>, chains: Chains, place: map<nat, Pos>, f: nat, k: nat)
    requires Wf(fat, chains, place) && f in chains && chains[f] == [] && 2 <= k < |fat| && fat[k] >= EOC
    requires forall g, i: nat :: g in chains && i < |chains[g]| ==> chains[g][i] != k
    ensures Wf(fat, chains[f := [k]], place[k := Pos(f, 0)])
  {
  }

  /** A cluster marked as an end is linked behind the last one of a chain: exactly one is appended. */
  lemma ExtendKeeps(fat: seq<nat>, chains: Chains, place: map<nat, Pos>, f: nat, k: nat)
    requires Wf(fat, chains, place) && f in chains && chains[f] != [] && 2 <= k < |fat| && fat[k] >= EOC
    requires forall g, i: nat :: g in chains && i < |chains[g]| ==> chains[g][i] != k
    ensures var last := chains[f][|chains[f]| - 1];
      Wf(fat[last := k], chains[f := chains[f] + [k]], place[k := Pos(f, |chains[f]|)])
  {
    var n := |chains[f]|;
    var last := chains[f][n - 1];
    var fat', chains', place' := fat[last := k], chains[f := chains[f] + [k]], place[k := Pos(f, n)];
    forall g, i: nat | g in chains' && i < |chains'[g]|
      ensures i + 1 < |chains'[g]| ==> fat'[chains'[g][i]] == chains'[g][i + 1]
      ensures i + 1 == |chains'[g]| ==> EOC <= fat'[chains'[g][i]]
      ensures place'[chains'[g][i]] == Pos(g, i)
    {
      if !(g == f && i == n) {
        assert chains'[g][i] == chains[g][i];
        assert chains[g][i] == last ==> place[last] == Pos(g, i) == Pos(f, n - 1);
      }
    }
  }

  /** How many entries are not free. */
  function InUse(fat: seq<nat>): nat {
    if fat == [] then 0 else (if fat[0] == FREE then 0 else 1) + InUse(fat[1..])
  }

  lemma {:induction false} InUseLess(fat: seq<nat>, k: nat)
    requires k < |fat|
    ensures InUse(fat[k := FREE]) == InUse(fat) - if fat[k] == FREE then 0 else 1
  {
    if k == 0 {
      assert fat[0 := FREE][1..] == fat[1..];
    } else {
      assert fat[k := FREE][1..] == fat[1..][k - 1 := FREE];
      InUseLess(fat[1..], k - 1);
    }
  }

  /** The free clusters; the first two entries stand for no cluster. */
  ghost function Vacant(fat: seq<nat>): set<nat> {
    set k | 2 <= k < |fat| && fat[k] == FREE
  }

  ghost function Spare(fat: seq<nat>): nat {
    |Vacant(fat)|
  }

  lemma SpareUpdate(fat: seq<nat>, k: nat, v: nat)
    requires 2 <= k < |fat|
    ensures Spare(fat[k := v]) == Spare(fat) - (if fat[k] == FREE then 1 else 0) + if v == FREE then 1 else 0
  {
    if v == FREE {
      assert Vacant(fat[k := v]) == Vacant(fat) + {k};
    } else {
      assert Vacant(fat[k := v]) == Vacant(fat) - {k};
    }
  }

  lemma SpareNone(fat: seq<nat>)
    requires forall j :: 2 <= j < |fat| ==> fat[j] != FREE
    ensures Spare(fat) == 0
  {
    assert Vacant(fat) == {};
  }

  /** What `fat32_free_chain` makes of a table, whatever is in it: a cycle ends at the first cluster
      met again, since that one is free by then. */
  function FreeFrom(fat: seq<nat>, k: nat): (r: (seq<nat>, int))
    ensures |r.0| == |fat| && forall j :: 0 <= j < 2 && j < |fat| ==> r.0[j] == fat[j]
    ensures k < 2 || k == 0x0FFF_FFF7 ==> r == (fat, 0)
    decreases InUse(fat), if k >= 2 then 1 else 0
  {
    if k < 2 || k == BAD then (fat, 0)
    else if k >= |fat| then (fat, -EINVAL)
    else if fat[k] >= EOC then (fat[k := FREE], 0)
    else (InUseLess(fat, k); assert fat[k] == FREE ==> fat[k := FREE] == fat; FreeFrom(fat[k := FREE], fat[k]))
  }

  /** The cluster `n` links after `k`. */
  function Nth(fat: seq<nat>, k: nat, n: nat): nat
    decreases n
  {
    if n == 0 || k < 2 || k >= |fat| then k else Nth(fat, fat[k], n - 1)
  }

  ghost predicate Reaches(fat: seq<nat>, k: nat, j: nat) {
    exists n: nat :: Nth(fat, k, n) == j
  }

  /** Freeing a cluster makes no new paths. */
  lemma {:induction false} NoNewPath(fat: seq<nat>, c: nat, k: nat, n: nat)
    requires 2 <= c < |fat| && 2 <= Nth(fat[c := FREE], k, n)
    ensures Reaches(fat, k, Nth(fat[c := FREE], k, n))
    decreases n
  {
    var j := Nth(fat[c := FREE], k, n);
    if n == 0 || k < 2 || k >= |fat| {
      assert Nth(fat, k, 0) == j;
    } else {
      assert Nth(fat[c := FREE], FREE, n - 1) == FREE;
      if k != c {
        NoNewPath(fat, c, fat[k], n - 1);
        OneMoreLink(fat, k, j);
      }
    }
  }

  lemma OneMoreLink(fat: seq<nat>, k: nat, j: nat)
    requires 2 <= k < |fat| && Reaches(fat, fat[k], j)
    ensures Reaches(fat, k, j)
  {
    var m: nat :| Nth(fat, fat[k], m) == j;
    assert Nth(fat, k, m + 1) == j;
  }

  /** On every table and from every start: an entry afterwards is what it was, or it was reachable
      from the start and is free now. */
  lemma {:induction false} FreeEffect(fat: seq<nat>, k: nat, j: nat)
    requires j < |fat|
    ensures FreeFrom(fat, k).0[j] == fat[j] || (Reaches(fat, k, j) && FreeFrom(fat, k).0[j] == FREE)
    decreases InUse(fat), if k >= 2 then 1 else 0
  {
    assert Nth(fat, k, 0) == k;
    if 2 <= k < |fat| && k != BAD && fat[k] < EOC {
      InUseLess(fat, k);
      assert fat[k] == FREE ==> fat[k := FREE] == fat;
      var rest := fat[k := FREE];
      FreeEffect(rest, fat[k], j);
      if Reaches(rest, fat[k], j) && j >= 2 {
        var n: nat :| Nth(rest, fat[k], n) == j;
        NoNewPath(fat, k, fat[k], n);
        OneMoreLink(fat, k, j);
      }
    }
  }

  /** A path through the table that ends at an end mark and meets no cluster twice. */
  ghost predicate Path(fat: seq<nat>, chain: seq<nat>) {
    && |fat| <= BAD
    && (forall i :: 0 <= i < |chain| ==> 2 <= chain[i] < |fat|)
    && (forall i {:trigger fat[chain[i]]} :: 0 <= i < |chain| - 1 ==> fat[chain[i]] == chain[i + 1])
    && (chain != [] ==> EOC <= fat[chain[|chain| - 1]])
    && (forall i, j :: 0 <= i < j < |chain| ==> chain[i] != chain[j])
  }

  /** Freeing the first cluster leaves the rest of the path. */
  lemma PathRest(fat: seq<nat>, chain: seq<nat>)
    requires Path(fat, chain) && |chain| > 1
    ensures fat[chain[0]] == chain[1..][0] && Path(fat[chain[0] := FREE], chain[1..])
  {
    var rest, fat' := chain[1..], fat[chain[0] := FREE];
    forall i | 0 <= i < |rest| - 1 ensures fat'[rest[i]] == rest[i + 1] {
      assert fat[chain[i + 1]] == chain[i + 2];
    }
    assert fat'[rest[|rest| - 1]] == fat[chain[|chain| - 1]];
  }

  /** A whole chain is freed, and nothing else. */
  lemma {:induction false} FreesChain(fat: seq<nat>, chain: seq<nat>)
    requires Path(fat, chain) && chain != []
    ensures var (r, rc) := FreeFrom(fat, chain[0]);
      rc == 0 && forall j :: 0 <= j < |fat| ==> r[j] == if j in chain then FREE else fat[j]
    decreases |chain|
  {
    var rest, fat' := chain[1..], fat[chain[0] := FREE];
    if rest != [] {
      PathRest(fat, chain);
      FreesChain(fat', rest);
      assert chain == [chain[0]] + rest;
    }
  }

  lemma ChainPath(fat: seq<nat>, chains: Chains, place: map<nat, Pos>, f: nat)
    requires Wf(fat, chains, place) && f in chains
    ensures Path(fat, chains[f])
  {
    var chain := chains[f];
    forall i, j | 0 <= i < j < |chain| ensures chain[i] != chain[j] {
      assert place[chain[i]] == Pos(f, i) && place[chain[j]] == Pos(f, j);
    }
  }

  /** Freeing one file's chain leaves the others' as they are. */
  lemma FreeKeeps(fat: seq<nat>, chains: Chains, place: map<nat, Pos>, f: nat)
    requires Wf(fat, chains, place) && f in chains && chains[f] != []
    ensures var (r, rc) := FreeFrom(fat, chains[f][0]); rc == 0 && Wf(r, chains[f := []], place)
  {
    ChainPath(fat, chains, place, f);
    FreesChain(fat, chains[f]);
    forall g, i: nat | g in chains && g != f && i < |chains[g]| ensures chains[g][i] !in chains[f] {
      assert place[chains[g][i]] == Pos(g, i);
      forall j | 0 <= j < |chains[f]| ensures chains[f][j] != chains[g][i] {
        assert place[chains[f][j]] == Pos(f, j);
      }
    }
  }
}
