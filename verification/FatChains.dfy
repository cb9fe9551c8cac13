/** Cluster chains in an allocation table. */
module FatChains {
  import opened Sequences

  /** The values of the entries of all clusters. */
  type Table = map<nat, nat>

  /** The entries of the clusters from 2 up to max. */
  ghost predicate TableOf(f: Table, max: nat) {
    forall c :: c in f <==> 2 <= c < max
  }

  ghost function Members(s: seq<nat>): set<nat> {
    set c | c in s
  }

  /** The clusters of s are linked in order, and the last one marks the end of the chain. */
  ghost predicate IsChain(f: Table, max: nat, s: seq<nat>) {
    && s != [] && Distinct(s) && (forall i :: 0 <= i < |s| ==> 2 <= s[i] < max && s[i] in f)
    && (forall i :: 0 <= i < |s| - 1 ==> f[s[i]] == s[i + 1]) && f[s[|s| - 1]] >= max
  }

  /** The table is a union of disjoint chains and free clusters. */
  ghost predicate Allocation(f: Table, max: nat, chains: set<seq<nat>>) {
    && TableOf(f, max) && (forall s :: s in chains ==> IsChain(f, max, s))
    && (forall s, t :: s in chains && t in chains && s != t ==> Members(s) !! Members(t))
    && (forall c :: c in f && f[c] != 0 ==> exists s :: s in chains && c in Members(s))
  }

  /** The chains of a file, that may have no clusters, and of others. */
  ghost function WithOthers(chain: seq<nat>, others: set<seq<nat>>): set<seq<nat>> {
    if chain == [] then others else others + {chain}
  }

  ghost function FreeClusters(f: Table): set<nat> {
    set c | c in f && f[c] == 0
  }

  ghost function UsedClusters(f: Table): set<nat> {
    set c | c in f && f[c] != 0
  }

  /** The clusters of a chain are not free. */
  lemma ChainIsUsed(f: Table, max: nat, s: seq<nat>)
    requires IsChain(f, max, s)
    ensures Members(s) <= UsedClusters(f) && Members(s) !! FreeClusters(f)
    ensures forall i :: 0 <= i < |s| ==> f[s[i]] >= 2
  {
    forall i | 0 <= i < |s| ensures f[s[i]] >= 2 {
      assert 2 <= s[0] < max;
      if i < |s| - 1 {
        assert f[s[i]] == s[i + 1];
      }
    }
  }

  /** The table after the chain that begins with cluster c is removed: entry by entry, as far as it goes. */
  ghost function Removed(f: Table, max: nat, c: nat): Table
    decreases UsedClusters(f)
  {
    if c >= max || c !in f || f[c] <= 1 then f
    else
      assert c in UsedClusters(f) && UsedClusters(f[c := 0]) <= UsedClusters(f) - {c};
      Removed(f[c := 0], max, f[c])
  }

  /** Does removing meet an entry that no chain has? */
  ghost predicate MeetsError(f: Table, max: nat, c: nat)
    decreases UsedClusters(f)
  {
    if c >= max || c !in f || f[c] == 0 then false
    else if f[c] == 1 then true
    else
      assert c in UsedClusters(f) && UsedClusters(f[c := 0]) <= UsedClusters(f) - {c};
      MeetsError(f[c := 0], max, f[c])
  }

  /** The table with the clusters of s free. */
  ghost function Cleared(f: Table, s: seq<nat>): Table {
    map c | c in f :: if c in s then 0 else f[c]
  }

  /** Removing a chain frees exactly its clusters. */
  lemma {:induction false} ChainRemoved(f: Table, max: nat, s: seq<nat>)
    requires IsChain(f, max, s)
    ensures Removed(f, max, s[0]) == Cleared(f, s) && !MeetsError(f, max, s[0])
  {
    var f', rest := f[s[0] := 0], s[1..];
    if |s| == 1 {
      assert Removed(f', max, f[s[0]]) == f';
      assert Cleared(f, s) == f';
    } else {
      assert IsChain(f', max, rest) by {
        assert rest[|rest| - 1] == s[|s| - 1];
        forall i | 0 <= i < |rest| - 1 ensures f'[rest[i]] == rest[i + 1] {
          assert rest[i] == s[i + 1] && rest[i + 1] == s[i + 2];
        }
      }
      ChainRemoved(f', max, rest);
      assert s == [s[0]] + rest;
      assert Cleared(f, s) == Cleared(f', rest);
    }
  }

  /** Removing one chain leaves the other chains. */
  lemma AllocationWithout(f: Table, max: nat, chains: set<seq<nat>>, s: seq<nat>)
    requires Allocation(f, max, chains) && s in chains
    ensures var f' := Removed(f, max, s[0]);
      && Allocation(f', max, chains - {s}) && !MeetsError(f, max, s[0])
      && FreeClusters(f') == FreeClusters(f) + Members(s)
  {
    ChainRemoved(f, max, s);
    var f' := Cleared(f, s);
    forall t | t in chains - {s} ensures IsChain(f', max, t) {
      OtherChain(f, f', max, s, t);
    }
    forall c | c in f' && f'[c] != 0 ensures exists t :: t in chains - {s} && c in Members(t) {
      var t :| t in chains && c in Members(t);
    }
  }

  lemma OtherChain(f: Table, f': Table, max: nat, s: seq<nat>, t: seq<nat>)
    requires IsChain(f, max, t) && Members(s) !! Members(t) && f'.Keys == f.Keys
    requires forall c :: c in f && c !in Members(s) ==> f'[c] == f[c]
    ensures IsChain(f', max, t)
  {
    assert forall i :: 0 <= i < |t| ==> t[i] in Members(t);
  }

  /** The chains of gone are replaced by those of added, within the clusters where. */
  lemma AllocationReplaced(f: Table, f': Table, max: nat, chains: set<seq<nat>>, gone: set<seq<nat>>,
                           added: set<seq<nat>>,
                           where: set<nat>)
    requires Allocation(f, max, chains) && gone <= chains && f'.Keys == f.Keys
    requires forall c :: c in f && c !in where ==> f'[c] == f[c]
    requires forall t :: t in added ==> IsChain(f', max, t) && Members(t) <= where
    requires forall t, u :: t in added && u in added && t != u ==> Members(t) !! Members(u)
    requires forall u :: u in chains && u !in gone ==> Members(u) !! where
    requires forall u :: u in gone ==> Members(u) <= where
    requires forall c :: c in where && c in f && f'[c] != 0 ==> exists t :: t in added && c in Members(t)
    ensures Allocation(f', max, chains - gone + added)
  {
    hide IsChain, Members;
    var chains' := chains - gone + added;
    forall t | t in chains' ensures IsChain(f', max, t) {
      if t !in added {
        StaysChain(f, f', max, t, where);
      }
    }
    forall c | c in f' && f'[c] != 0 ensures exists t :: t in chains' && c in Members(t) {
      if c in where {
        var t :| t in added && c in Members(t);
        assert t in chains';
      } else {
        var t :| t in chains && c in Members(t);
        assert t in chains';
      }
    }
  }

  lemma StaysChain(f: Table, f': Table, max: nat, t: seq<nat>, where: set<nat>)
    requires IsChain(f, max, t) && Members(t) !! where && f'.Keys == f.Keys
    requires forall c :: c in f && c !in where ==> f'[c] == f[c]
    ensures IsChain(f', max, t)
  {
    assert forall i :: 0 <= i < |t| ==> t[i] in Members(t);
  }

  /** A free cluster belongs to no chain. */
  lemma FreeOfChains(f: Table, max: nat, chains: set<seq<nat>>, c: nat)
    requires Allocation(f, max, chains) && c in FreeClusters(f)
    ensures forall u :: u in chains ==> c !in Members(u)
  {
    forall u | u in chains ensures c !in Members(u) {
      ChainIsUsed(f, max, u);
    }
  }

  lemma ChainGrown(f: Table, max: nat, s: seq<nat>, c: nat, end: nat)
    requires IsChain(f, max, s) && c in f && 2 <= c < max && c !in Members(s) && max <= end
    ensures s[|s| - 1] in f && IsChain(f[c := end][s[|s| - 1] := c], max, s + [c])
    ensures Members(s + [c]) == Members(s) + {c}
  {
    var t := s + [c];
    var f' := f[c := end][s[|s| - 1] := c];
    forall i | 0 <= i < |t| - 1 ensures f'[t[i]] == t[i + 1] {
      assert t[i] in Members(s);
    }
  }

  lemma LastOfChain(f: Table, max: nat, s: seq<nat>)
    requires IsChain(f, max, s)
    ensures s != [] && s[|s| - 1] in Members(s) && s[|s| - 1] in f && f[s[|s| - 1]] != 0
  {
    ChainIsUsed(f, max, s);
  }

  /** A free cluster is appended to a chain. */
  lemma AllocationStretched(f: Table, max: nat, chains: set<seq<nat>>, s: seq<nat>, c: nat, end: nat)
    requires Allocation(f, max, chains) && s in chains && c in FreeClusters(f) && max <= end
    ensures s != [] && s[|s| - 1] in f
    ensures var f' := f[c := end][s[|s| - 1] := c];
      && Allocation(f', max, chains - {s} + {s + [c]}) && FreeClusters(f') == FreeClusters(f) - {c}
  {
    hide IsChain, Members;
    LastOfChain(f, max, s);
    FreeOfChains(f, max, chains, c);
    ChainGrown(f, max, s, c, end);
    AllocationReplaced(f, f[c := end][s[|s| - 1] := c], max, chains, {s}, {s + [c]}, Members(s) + {c});
  }

  /** A free cluster becomes a chain of its own. */
  lemma AllocationCreated(f: Table, max: nat, chains: set<seq<nat>>, c: nat, end: nat)
    requires Allocation(f, max, chains) && c in FreeClusters(f) && max <= end
    ensures var f' := f[c := end];
      Allocation(f', max, chains + {[c]}) && FreeClusters(f') == FreeClusters(f) - {c}
  {
    assert Members([c]) == {c} && IsChain(f[c := end], max, [c]);
    FreeOfChains(f, max, chains, c);
    hide IsChain, Members;
    AllocationReplaced(f, f[c := end], max, chains, {}, {[c]}, {c});
    assert chains - {} + {[c]} == chains + {[c]};
  }

  /** A chain is divided in two. */
  lemma AllocationDivided(f: Table, max: nat, chains: set<seq<nat>>, s: seq<nat>, n: nat, end: nat)
    requires Allocation(f, max, chains) && s in chains && 0 < n < |s| && max <= end
    ensures s[n - 1] in f && s[n] in f && Allocation(f[s[n - 1] := end], max, chains - {s} + {s[..n], s[n..]})
    ensures FreeClusters(f[s[n - 1] := end]) == FreeClusters(f)
  {
    hide IsChain, Members;
    var a, b := s[..n], s[n..];
    DividedFacts(f, max, s, n);
    ChainDivided(f, max, s, n, end);
    AllocationReplaced(f, f[s[n - 1] := end], max, chains, {s}, {a, b}, Members(s));
  }

  lemma DividedFacts(f: Table, max: nat, s: seq<nat>, n: nat)
    requires IsChain(f, max, s) && 0 < n < |s|
    ensures Members(s) == Members(s[..n]) + Members(s[n..]) && s[n - 1] in Members(s) && s[n - 1] in f && s[n] in f
    ensures f[s[n - 1]] != 0
  {
    ChainIsUsed(f, max, s);
    assert s == s[..n] + s[n..];
  }

  lemma ChainDivided(f: Table, max: nat, s: seq<nat>, n: nat, end: nat)
    requires IsChain(f, max, s) && 0 < n < |s| && max <= end
    ensures var f1 := f[s[n - 1] := end]; IsChain(f1, max, s[..n]) && IsChain(f1, max, s[n..])
    ensures Members(s[..n]) !! Members(s[n..])
  {
    var f1, a, b := f[s[n - 1] := end], s[..n], s[n..];
    forall i | 0 <= i < |a| - 1 ensures f1[a[i]] == a[i + 1] {
      assert a[i] == s[i] && a[i + 1] == s[i + 1];
    }
    assert b[|b| - 1] == s[|s| - 1];
    forall i | 0 <= i < |b| - 1 ensures f1[b[i]] == b[i + 1] {
      assert b[i] == s[n + i] && b[i + 1] == s[n + i + 1];
    }
  }

  lemma DividedHeads(s: seq<nat>, n: nat)
    requires 0 < n < |s|
    ensures s[..n][0] in Members(s[..n]) && s[n..][0] in Members(s[n..]) && s[n..][0] in Members(s)
  {
  }

  /** A chain is cut off behind its first n clusters, and the rest is removed. */
  lemma AllocationCut(f: Table, max: nat, chains: set<seq<nat>>, s: seq<nat>, n: nat, end: nat)
    requires Allocation(f, max, chains) && s in chains && 0 < n < |s| && max <= end
    ensures s[n - 1] in f && s[n] in f
    ensures var f' := Removed(f[s[n - 1] := end], max, s[n]);
      && Allocation(f', max, chains - {s} + {s[..n]}) && !MeetsError(f[s[n - 1] := end], max, s[n])
      && FreeClusters(f') == FreeClusters(f) + Members(s[n..])
  {
    hide IsChain, Members;
    AllocationDivided(f, max, chains, s, n, end);
    var f1, a, b := f[s[n - 1] := end], s[..n], s[n..];
    var both := chains - {s} + {a, b};
    ChainDivided(f, max, s, n, end);
    DividedHeads(s, n);
    AllocationWithout(f1, max, both, b);
    assert both - {b} == chains - {s} + {a};
  }
}
