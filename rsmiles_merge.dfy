/** The end of RSmilesLoader::_loadReaction: for each part of the reaction, the
 * components the 'f' directives grouped are merged into one molecule each, which is
 * added to the reaction with the highlight flags of its atoms and bonds.  A part's
 * fragment table holds, for each component, the component it is grouped under; the
 * loop marks a component it has merged by overwriting its entry with -1.  The molecules
 * are represented by their components and the highlight flags they carry. */
module RSmilesMerge {
  import opened Wrappers
  import opened RSmiles

  /** One part's components and highlight tables: the part v, the atom and bond counts of
      the three parts, for each component the indices within the part of its atoms (the
      decomposition's mapping) and of its bonds (findEdgeIndex), and the reaction-wide
      highlight flags. */
  datatype Part = Part(v: nat, atoms: Counts, bonds: Counts, atomsOf: seq<seq<nat>>, bondsOf: seq<seq<nat>>,
                       hlAtoms: seq<int>, hlBonds: seq<int>)

  /** Every index in locals is below bound. */
  predicate Within(locals: seq<seq<nat>>, bound: nat)
  {
    forall c, k :: 0 <= c < |locals| && 0 <= k < |locals[c]| ==> locals[c][k] < bound
  }

  /** A part of n components whose atoms and bonds are atoms and bonds of the part, with
      one highlight flag per atom and per bond of the reaction. */
  predicate PartValid(p: Part, n: nat)
  {
    && p.v < 3 && |p.atomsOf| == n && |p.bondsOf| == n
    && Within(p.atomsOf, Count(p.atoms, p.v)) && Within(p.bondsOf, Count(p.bonds, p.v))
    && |p.hlAtoms| == Total(p.atoms) && |p.hlBonds| == Total(p.bonds)
  }

  /** A merged molecule: the components it is made of, in order, and the highlight flags
      of its atoms and bonds, component after component. */
  datatype Group = Group(members: seq<nat>, atomFlags: seq<int>, bondFlags: seq<int>)

  // ---- highlight flags ----

  lemma OffsetBelowTotal(counts: Counts, v: nat)
    requires v < 3
    ensures Offset(counts, v) + Count(counts, v) <= Total(counts)
  {
  }

  /** The flags of the part's items with the given indices within the part. */
  function Flags(hl: seq<int>, counts: Counts, v: nat, locals: seq<nat>): (flags: seq<int>)
    requires v < 3 && |hl| == Total(counts) && forall k :: 0 <= k < |locals| ==> locals[k] < Count(counts, v)
    ensures |flags| == |locals|
  {
    OffsetBelowTotal(counts, v);
    seq(|locals|, k requires 0 <= k < |locals| => hl[Offset(counts, v) + locals[k]])
  }

  /** Every member is one of n components. */
  predicate Fits(members: seq<nat>, n: nat)
  {
    forall k :: 0 <= k < |members| ==> members[k] < n
  }

  /** The flags of the members' items, member after member. */
  function GroupFlags(hl: seq<int>, counts: Counts, v: nat, locals: seq<seq<nat>>, members: seq<nat>): seq<int>
    requires v < 3 && |hl| == Total(counts) && Within(locals, Count(counts, v))
    requires Fits(members, |locals|)
  {
    if members == [] then []
    else
      var last := members[|members| - 1];
      GroupFlags(hl, counts, v, locals, members[..|members| - 1]) + Flags(hl, counts, v, locals[last])
  }

  /** The flags of one more member follow those of the others. */
  lemma GroupFlagsSnoc(hl: seq<int>, counts: Counts, v: nat, locals: seq<seq<nat>>, members: seq<nat>, j: nat)
    requires v < 3 && |hl| == Total(counts) && Within(locals, Count(counts, v))
    requires Fits(members, |locals|) && j < |locals|
    ensures Fits(members + [j], |locals|)
    ensures GroupFlags(hl, counts, v, locals, members + [j])
      == GroupFlags(hl, counts, v, locals, members) + Flags(hl, counts, v, locals[j])
  {
    assert (members + [j])[..|members|] == members;
  }

  /** The molecule the members merge into. */
  function Molecule(p: Part, members: seq<nat>): Group
    requires PartValid(p, |p.atomsOf|) && Fits(members, |p.atomsOf|)
  {
    Group(members, GroupFlags(p.hlAtoms, p.atoms, p.v, p.atomsOf, members),
          GroupFlags(p.hlBonds, p.bonds, p.v, p.bondsOf, members))
  }

  /** The flags of a component's atoms (or bonds): each index within part v is turned into
      the reaction-wide index by adding the sizes of the parts before it, which names an
      item of part v, and the flag there is read. */
  method GatherFlags(hl: seq<int>, counts: Counts, v: nat, locals: seq<nat>) returns (flags: seq<int>)
    requires v < 3 && |hl| == Total(counts) && forall k :: 0 <= k < |locals| ==> locals[k] < Count(counts, v)
    ensures |flags| == |locals|
    ensures forall k :: 0 <= k < |locals| ==>
      && Offset(counts, v) + locals[k] < |hl|
      && GroupOf(counts, Offset(counts, v) + locals[k]) == Some(v)
      && flags[k] == hl[Offset(counts, v) + locals[k]]
    ensures flags == Flags(hl, counts, v, locals)
  {
    flags := [];
    for k := 0 to |locals|
      invariant |flags| == k
      invariant forall x :: 0 <= x < k ==>
        && Offset(counts, v) + locals[x] < |hl|
        && GroupOf(counts, Offset(counts, v) + locals[x]) == Some(v)
        && flags[x] == hl[Offset(counts, v) + locals[x]]
    {
      var idx := GlobalIndex(counts, v, locals[k]);
      flags := flags + [hl[idx]];
    }
  }

  // ---- collecting one group ----

  /** The components from lo up to hi whose entry is key, in order. */
  function MembersIn(t: seq<int>, key: int, lo: nat, hi: nat): (ms: seq<nat>)
    requires lo <= hi <= |t|
    ensures forall m :: m in ms ==> (lo <= m < hi && t[m] == key)
    ensures Fits(ms, hi)
    decreases hi - lo
  {
    if hi == lo then []
    else MembersIn(t, key, lo, hi - 1) + (if t[hi - 1] == key then [hi - 1] else [])
  }

  /** Extending the range by component hi adds hi exactly when its entry is key. */
  lemma MembersInStep(t: seq<int>, key: int, lo: nat, hi: nat)
    requires lo <= hi < |t|
    ensures MembersIn(t, key, lo, hi + 1) == MembersIn(t, key, lo, hi) + (if t[hi] == key then [hi] else [])
  {
  }

  /** Every component in the range whose entry is key is a member. */
  lemma {:induction false} MembersInComplete(t: seq<int>, key: int, lo: nat, hi: nat, m: nat)
    requires lo <= m < hi <= |t| && t[m] == key
    ensures m in MembersIn(t, key, lo, hi)
    decreases hi - lo
  {
    var prefix := MembersIn(t, key, lo, hi - 1);
    if m < hi - 1 {
      MembersInComplete(t, key, lo, hi - 1, m);
      var k :| 0 <= k < |prefix| && prefix[k] == m;
      assert MembersIn(t, key, lo, hi)[k] == m;
    } else {
      assert MembersIn(t, key, lo, hi) == prefix + [m];
      assert MembersIn(t, key, lo, hi)[|prefix|] == m;
    }
  }

  /** Tables that agree on which entries are key have the same members. */
  lemma {:induction false} MembersInSame(s: seq<int>, t: seq<int>, key: int, lo: nat, hi: nat)
    requires lo <= hi <= |s| && hi <= |t|
    requires forall j :: lo <= j < hi ==> (s[j] == key <==> t[j] == key)
    ensures MembersIn(s, key, lo, hi) == MembersIn(t, key, lo, hi)
    decreases hi - lo
  {
    if hi > lo {
      MembersInSame(s, t, key, lo, hi - 1);
    }
  }

  /** The members of a range are those of its two halves. */
  lemma {:induction false} MembersInSplit(t: seq<int>, key: int, lo: nat, mid: nat, hi: nat)
    requires lo <= mid <= hi <= |t|
    ensures MembersIn(t, key, lo, hi) == MembersIn(t, key, lo, mid) + MembersIn(t, key, mid, hi)
    decreases hi - mid
  {
    if hi > mid {
      MembersInSplit(t, key, lo, mid, hi - 1);
    }
  }

  /** A range without the key has no members. */
  lemma {:induction false} MembersInNone(t: seq<int>, key: int, lo: nat, hi: nat)
    requires lo <= hi <= |t| && forall j :: lo <= j < hi ==> t[j] != key
    ensures MembersIn(t, key, lo, hi) == []
    decreases hi - lo
  {
    if hi > lo {
      MembersInNone(t, key, lo, hi - 1);
    }
  }

  /** The table with every entry from lo on that is key overwritten by -1. */
  function Cleared(s: seq<int>, key: int, lo: nat): (r: seq<int>)
    ensures |r| == |s|
  {
    seq(|s|, j requires 0 <= j < |s| => if lo <= j && s[j] == key then -1 else s[j])
  }

  /** Merging component j into a molecule: j joins its members, and the highlight flags
      of j's atoms and bonds are appended to the molecule's. */
  method AddComponent(p: Part, g: Group, j: nat) returns (g': Group)
    requires PartValid(p, |p.atomsOf|) && j < |p.atomsOf|
    requires Fits(g.members, |p.atomsOf|) && g == Molecule(p, g.members)
    ensures g'.members == g.members + [j]
    ensures Fits(g'.members, |p.atomsOf|) && g' == Molecule(p, g'.members)
  {
    var af := GatherFlags(p.hlAtoms, p.atoms, p.v, p.atomsOf[j]);
    var bf := GatherFlags(p.hlBonds, p.bonds, p.v, p.bondsOf[j]);
    GroupFlagsSnoc(p.hlAtoms, p.atoms, p.v, p.atomsOf, g.members, j);
    GroupFlagsSnoc(p.hlBonds, p.bonds, p.v, p.bondsOf, g.members, j);
    g' := Group(g.members + [j], g.atomFlags + af, g.bondFlags + bf);
  }

  /** The inner loop of the merge: every component from lo on whose entry is key has
      its entry overwritten by -1 and is merged into the molecule, its atoms' and bonds'
      highlight flags appended. */
  method CollectGroup(f: array<int>, key: int, lo: nat, p: Part) returns (g: Group)
    requires lo <= f.Length && PartValid(p, f.Length)
    modifies f
    ensures f[..] == Cleared(old(f[..]), key, lo)
    ensures g.members == MembersIn(old(f[..]), key, lo, f.Length)
    ensures g == Molecule(p, g.members)
  {
    ghost var t := f[..];
    g := Group([], [], []);
    var j: nat := lo;
    while j < f.Length
      invariant lo <= j <= f.Length
      invariant g.members == MembersIn(t, key, lo, j)
      invariant forall x :: 0 <= x < f.Length ==> f[x] == if lo <= x < j && t[x] == key then -1 else t[x]
      invariant Fits(g.members, |p.atomsOf|) && g == Molecule(p, g.members)
    {
      MembersInStep(t, key, lo, j);
      g := CollectStep(f, key, j, p, g);
      j := j + 1;
    }
    assert f[..] == Cleared(t, key, lo);
  }

  /** One pass of the inner loop: when component j's entry is key, the entry is
      overwritten by -1 and j is merged into the molecule; otherwise nothing changes. */
  method CollectStep(f: array<int>, key: int, j: nat, p: Part, g: Group) returns (g': Group)
    requires j < f.Length && PartValid(p, f.Length)
    requires Fits(g.members, |p.atomsOf|) && g == Molecule(p, g.members)
    modifies f
    ensures f[j] == if old(f[j]) == key then -1 else old(f[j])
    ensures forall x :: 0 <= x < f.Length && x != j ==> f[x] == old(f[x])
    ensures g'.members == g.members + (if old(f[j]) == key then [j] else [])
    ensures Fits(g'.members, |p.atomsOf|) && g' == Molecule(p, g'.members)
  {
    g' := g;
    if f[j] == key {
      f[j] := -1;
      g' := AddComponent(p, g, j);
    }
  }

  function Members(groups: seq<Group>): (ms: seq<seq<nat>>)
    ensures |ms| == |groups| && forall g :: 0 <= g < |groups| ==> ms[g] == groups[g].members
  {
    seq(|groups|, g requires 0 <= g < |groups| => groups[g].members)
  }

  // ---- the merge as intended ----

  /** The groups of the components at i or later that are the first with their entry: each
      keyed by that entry, with every component whose entry it is. */
  function Grouped(t: seq<int>, i: nat): (gs: seq<(int, seq<nat>)>)
    requires i <= |t|
    ensures forall g :: 0 <= g < |gs| ==> Fits(gs[g].1, |t|)
    decreases |t| - i
  {
    if i == |t| then []
    else if t[i] in t[..i] then Grouped(t, i + 1)
    else [(t[i], MembersIn(t, t[i], 0, |t|))] + Grouped(t, i + 1)
  }

  /** Group g from i on is keyed by the entry of a component from i on that is the first
      with its entry, and holds every component with that entry. */
  lemma {:induction false} GroupedAt(t: seq<int>, i: nat, g: nat) returns (x: nat)
    requires i <= |t| && g < |Grouped(t, i)|
    ensures i <= x < |t| && t[x] !in t[..x]
    ensures Grouped(t, i)[g] == (t[x], MembersIn(t, t[x], 0, |t|))
    decreases |t| - i
  {
    if t[i] in t[..i] {
      x := GroupedAt(t, i + 1, g);
    } else if g == 0 {
      x := i;
    } else {
      x := GroupedAt(t, i + 1, g - 1);
    }
  }

  /** Keys of first components at different positions differ. */
  lemma FirstKeysDiffer(t: seq<int>, x: nat, y: nat)
    requires x < y < |t| && t[y] !in t[..y]
    ensures t[x] != t[y]
  {
    assert t[..y][x] == t[x];
  }

  /** No two groups share a key. */
  predicate DistinctKeys(gs: seq<(int, seq<nat>)>)
  {
    forall g1, g2 :: 0 <= g1 < g2 < |gs| ==> gs[g1].0 != gs[g2].0
  }

  /** Groups from i on have distinct keys. */
  lemma {:induction false} GroupedDistinct(t: seq<int>, i: nat)
    requires i <= |t|
    ensures DistinctKeys(Grouped(t, i))
    decreases |t| - i
  {
    if i < |t| {
      GroupedDistinct(t, i + 1);
      var rest := Grouped(t, i + 1);
      if t[i] !in t[..i] {
        forall g | 0 <= g < |rest|
          ensures rest[g].0 != t[i]
        {
          var x := GroupedAt(t, i + 1, g);
          FirstKeysDiffer(t, i, x);
        }
        var gs := Grouped(t, i);
        assert gs == [(t[i], MembersIn(t, t[i], 0, |t|))] + rest;
        forall g1, g2 | 0 <= g1 < g2 < |gs|
          ensures gs[g1].0 != gs[g2].0
        {
          assert gs[g2] == rest[g2 - 1];
          if g1 > 0 {
            assert gs[g1] == rest[g1 - 1];
          } else {
            assert gs[g1].0 == t[i];
          }
        }
      } else {
        assert Grouped(t, i) == rest;
      }
    }
  }

  /** A component from i on whose entry no component before i has is in a group from i on. */
  lemma {:induction false} GroupedCovers(t: seq<int>, i: nat, j: nat) returns (g: nat)
    requires i <= j < |t| && t[j] !in t[..i]
    ensures g < |Grouped(t, i)| && Grouped(t, i)[g].0 == t[j]
    decreases |t| - i
  {
    if t[i] == t[j] {
      g := 0;
    } else {
      assert t[..i + 1] == t[..i] + [t[i]];
      var g' := GroupedCovers(t, i + 1, j);
      g := if t[i] in t[..i] then g' else g' + 1;
    }
  }

  /** The merge as intended partitions the components: every group has exactly the
      components whose entry is its key, and at least one; no two groups share a key; and
      every component's entry is the key of a group.  So every component is in exactly one
      group, the one keyed by its entry. */
  lemma MergedPartition(t: seq<int>)
    ensures var gs := Grouped(t, 0);
      && (forall g, m :: 0 <= g < |gs| ==> (m in gs[g].1 <==> 0 <= m < |t| && t[m] == gs[g].0))
      && (forall g :: 0 <= g < |gs| ==> gs[g].1 != [])
      && DistinctKeys(gs)
      && (forall j :: 0 <= j < |t| ==> exists g :: 0 <= g < |gs| && gs[g].0 == t[j])
  {
    var gs := Grouped(t, 0);
    GroupedDistinct(t, 0);
    forall g | 0 <= g < |gs|
      ensures gs[g].1 != []
      ensures forall m :: m in gs[g].1 <==> 0 <= m < |t| && t[m] == gs[g].0
    {
      var x := GroupedAt(t, 0, g);
      MembersInComplete(t, t[x], 0, |t|, x);
      forall m | 0 <= m < |t| && t[m] == gs[g].0
        ensures m in gs[g].1
      {
        MembersInComplete(t, t[x], 0, |t|, m);
      }
    }
    forall j | 0 <= j < |t|
      ensures exists g :: 0 <= g < |gs| && gs[g].0 == t[j]
    {
      var g := GroupedCovers(t, 0, j);
    }
  }

  /** The table while the merge as intended runs: the entries that a component before i
      has are overwritten. */
  ghost predicate MergeTable(f: seq<int>, t: seq<int>, i: nat)
    requires i <= |t|
  {
    |f| == |t| && forall j :: 0 <= j < |t| ==> f[j] == if t[j] in t[..i] then -1 else t[j]
  }

  /** The members the inner loop collects at the first component with its entry are all the
      components with that entry. */
  lemma CollectFirst(f: seq<int>, t: seq<int>, i: nat)
    requires i < |t| && MergeTable(f, t, i) && t[i] >= 0 && t[i] !in t[..i]
    ensures MembersIn(f, t[i], i, |t|) == MembersIn(t, t[i], 0, |t|)
  {
    MembersInSame(f, t, t[i], i, |t|);
    MembersInSplit(t, t[i], 0, i, |t|);
    forall j | 0 <= j < i
      ensures t[j] != t[i]
    {
      assert t[..i][j] == t[j];
    }
    MembersInNone(t, t[i], 0, i);
  }

  /** Overwriting the first component's entry everywhere moves the table on by one. */
  lemma ClearFirst(f: seq<int>, t: seq<int>, i: nat)
    requires i < |t| && MergeTable(f, t, i) && t[i] >= 0 && t[i] !in t[..i]
    ensures MergeTable(Cleared(f, t[i], i), t, i + 1)
  {
    assert t[..i + 1] == t[..i] + [t[i]];
    forall j | 0 <= j < i
      ensures t[j] in t[..i]
    {
      assert t[..i][j] == t[j];
    }
  }

  /** The table stays when a component's entry is already overwritten. */
  lemma SkipSeen(f: seq<int>, t: seq<int>, i: nat)
    requires i < |t| && MergeTable(f, t, i) && t[i] in t[..i]
    ensures MergeTable(f, t, i + 1)
  {
    assert t[..i + 1] == t[..i] + [t[i]];
  }

  /** At the first component with its entry, the groups from it on start with that
      entry's group, the inner loop collects every component with that entry, and the
      table moves on by one. */
  lemma MergeFresh(f: seq<int>, t: seq<int>, i: nat)
    requires i < |t| && MergeTable(f, t, i) && t[i] >= 0 && t[i] !in t[..i]
    ensures Grouped(t, i) == [(t[i], MembersIn(t, t[i], 0, |t|))] + Grouped(t, i + 1)
    ensures MembersIn(f, t[i], i, |t|) == MembersIn(t, t[i], 0, |t|)
    ensures MergeTable(Cleared(f, t[i], i), t, i + 1)
  {
    CollectFirst(f, t, i);
    ClearFirst(f, t, i);
  }

  /** At a component whose entry is overwritten, nothing is collected. */
  lemma MergeSeen(f: seq<int>, t: seq<int>, i: nat)
    requires i < |t| && MergeTable(f, t, i) && t[i] in t[..i]
    ensures Grouped(t, i) == Grouped(t, i + 1)
    ensures MergeTable(f, t, i + 1)
  {
    SkipSeen(f, t, i);
  }

  /** Moving one group from the groups still to come to those done keeps them together. */
  lemma ShiftKeyed(done: seq<(int, seq<nat>)>, x: (int, seq<nat>), rest: seq<(int, seq<nat>)>,
                   all: seq<(int, seq<nat>)>)
    requires done + ([x] + rest) == all
    ensures (done + [x]) + rest == all
  {
  }

  /** Each built molecule is the molecule of the corresponding keyed group's members. */
  ghost predicate Built(p: Part, groups: seq<Group>, done: seq<(int, seq<nat>)>)
    requires PartValid(p, |p.atomsOf|)
  {
    |groups| == |done| &&
    forall g :: 0 <= g < |groups| ==> Fits(done[g].1, |p.atomsOf|) && groups[g] == Molecule(p, done[g].1)
  }

  lemma BuiltSnoc(p: Part, groups: seq<Group>, done: seq<(int, seq<nat>)>, group: Group, key: int)
    requires PartValid(p, |p.atomsOf|) && Built(p, groups, done)
    requires Fits(group.members, |p.atomsOf|) && group == Molecule(p, group.members)
    ensures Built(p, groups + [group], done + [(key, group.members)])
  {
  }

  /** The merge as intended, over one part's fragment table: a component whose entry is
      not yet overwritten starts a molecule of all the components with that entry.  Every
      component then ends in exactly one molecule (MergedPartition), and every entry is
      overwritten. */
  method Merge(f: array<int>, p: Part) returns (groups: seq<Group>)
    requires PartValid(p, f.Length) && forall j :: 0 <= j < f.Length ==> f[j] >= 0
    modifies f
    ensures |groups| == |Grouped(old(f[..]), 0)|
    ensures forall g :: 0 <= g < |groups| ==> groups[g] == Molecule(p, Grouped(old(f[..]), 0)[g].1)
    ensures forall j :: 0 <= j < f.Length ==> f[j] == -1
  {
    ghost var t := f[..];
    ghost var done: seq<(int, seq<nat>)> := [];
    groups := [];
    var i := 0;
    assert t[..0] == [];
    while i < f.Length
      invariant 0 <= i <= f.Length && MergeTable(f[..], t, i)
      invariant done + Grouped(t, i) == Grouped(t, 0)
      invariant Built(p, groups, done)
    {
      if f[i] != -1 {
        assert t[i] !in t[..i];
        var key := f[i];
        MergeFresh(f[..], t, i);
        var group := CollectGroup(f, key, i, p);
        BuiltSnoc(p, groups, done, group, key);
        ShiftKeyed(done, (key, group.members), Grouped(t, i + 1), Grouped(t, 0));
        done := done + [(key, group.members)];
        groups := groups + [group];
      } else {
        MergeSeen(f[..], t, i);
      }
      i := i + 1;
    }
    assert done == Grouped(t, 0);
    forall j | 0 <= j < f.Length
      ensures f[j] == -1
    {
      assert t[..i][j] == t[j];
    }
  }

  // ---- the merge as written ----

  /** The merge loop as written, from component i of table s on: a component whose entry
      is not overwritten starts a molecule of the components from it on whose entry is its
      own index, and their entries are overwritten.  The molecules' members and the final
      table. */
  function AsWrittenRun(s: seq<int>, i: nat): (seq<seq<nat>>, seq<int>)
    requires i <= |s|
    decreases |s| - i
  {
    if i == |s| then ([], s)
    else if s[i] == -1 then AsWrittenRun(s, i + 1)
    else
      var r := AsWrittenRun(Cleared(s, i, i), i + 1);
      ([MembersIn(s, i, i, |s|)] + r.0, r.1)
  }

  /** One step of the merge as written at a component whose entry is not overwritten: its
      molecule joins those made before it, and the rest is run over the cleared table. */
  lemma AsWrittenStep(s: seq<int>, i: nat, before: seq<seq<nat>>, all: (seq<seq<nat>>, seq<int>))
    requires i < |s| && s[i] != -1
    requires before + AsWrittenRun(s, i).0 == all.0 && AsWrittenRun(s, i).1 == all.1
    ensures (before + [MembersIn(s, i, i, |s|)]) + AsWrittenRun(Cleared(s, i, i), i + 1).0 == all.0
    ensures AsWrittenRun(Cleared(s, i, i), i + 1).1 == all.1
  {
  }

  /** Every molecule is the one its members merge into. */
  ghost predicate Whole(p: Part, groups: seq<Group>)
    requires PartValid(p, |p.atomsOf|)
  {
    forall g :: 0 <= g < |groups| ==> Fits(groups[g].members, |p.atomsOf|) && groups[g] == Molecule(p, groups[g].members)
  }

  lemma WholeSnoc(p: Part, groups: seq<Group>, group: Group)
    requires PartValid(p, |p.atomsOf|) && Whole(p, groups)
    requires Fits(group.members, |p.atomsOf|) && group == Molecule(p, group.members)
    ensures Whole(p, groups + [group])
    ensures Members(groups + [group]) == Members(groups) + [group.members]
  {
  }

  /** The merge as written, over one part's fragment table: the molecules are keyed by the
      index of the component that starts them rather than by its entry. */
  method MergeAsWritten(f: array<int>, p: Part) returns (groups: seq<Group>)
    requires PartValid(p, f.Length)
    modifies f
    ensures Members(groups) == AsWrittenRun(old(f[..]), 0).0
    ensures forall g :: 0 <= g < |groups| ==> Fits(groups[g].members, f.Length) && groups[g] == Molecule(p, groups[g].members)
    ensures f[..] == AsWrittenRun(old(f[..]), 0).1
  {
    ghost var all := AsWrittenRun(f[..], 0);
    groups := [];
    var i := 0;
    while i < f.Length
      invariant 0 <= i <= f.Length
      invariant Members(groups) + AsWrittenRun(f[..], i).0 == all.0
      invariant AsWrittenRun(f[..], i).1 == all.1
      invariant Whole(p, groups)
    {
      if f[i] != -1 {
        AsWrittenStep(f[..], i, Members(groups), all);
        var group := CollectGroup(f, i, i, p);
        WholeSnoc(p, groups, group);
        groups := groups + [group];
      }
      i := i + 1;
    }
  }

  /** The merge as written over the table [1, 1]. */
  lemma AsWrittenRunOneOne()
    ensures AsWrittenRun([1, 1], 0) == ([[], [1]], [1, -1])
  {
    var t: seq<int> := [1, 1];
    assert MembersIn(t, 0, 0, 2) == [];
    assert Cleared(t, 0, 0) == t;
    assert MembersIn(t, 1, 1, 2) == [1];
    var c := Cleared(t, 1, 1);
    assert c == [1, -1];
    assert AsWrittenRun(c, 2) == ([], c);
    var one: seq<seq<nat>> := [[1]];
    assert [MembersIn(t, 1, 1, |t|)] + [] == one;
    assert AsWrittenRun(t, 1) == (one, c);
    var both: seq<seq<nat>> := [[], [1]];
    assert [MembersIn(t, 0, 0, |t|)] + one == both;
  }

  /** The merge as intended over the table [1, 1]. */
  lemma GroupedOneOne()
    ensures Grouped([1, 1], 0) == [(1, [0, 1])]
  {
    var t: seq<int> := [1, 1];
    assert t[..1] == [1];
    assert MembersIn(t, 1, 0, 1) == [0];
    assert MembersIn(t, 1, 0, 2) == [0, 1];
    assert Grouped(t, 1) == [];
  }

  /** "f:1.0" groups component 0 under component 1: as written, component 0 starts an
      empty molecule and is never merged, where the merge as intended makes one molecule
      of both. */
  lemma AsWrittenLosesComponent()
    ensures AsWrittenRun([1, 1], 0) == ([[], [1]], [1, -1])
    ensures Grouped([1, 1], 0) == [(1, [0, 1])]
  {
    AsWrittenRunOneOne();
    GroupedOneOne();
  }

  /** A table whose every entry is the first component of its group, and that component
      is its own entry: how the groups come out when each 'f' group lists its smallest
      component first. */
  predicate Canonical(t: seq<int>)
  {
    forall j :: 0 <= j < |t| ==> 0 <= t[j] <= j && t[t[j]] == t[j]
  }

  /** The table as written after the components before i: the entries below i overwritten. */
  function Cut(t: seq<int>, i: nat): (r: seq<int>)
    ensures |r| == |t|
  {
    seq(|t|, j requires 0 <= j < |t| => if t[j] < i then -1 else t[j])
  }

  /** No component's entry is a component that is not its own entry. */
  lemma CanonicalNotKey(t: seq<int>, i: nat)
    requires Canonical(t) && i < |t| && t[i] != i
    ensures forall j :: 0 <= j < |t| ==> t[j] != i
  {
    forall j | 0 <= j < |t|
      ensures t[j] != i
    {
      assert t[t[j]] == t[j];
    }
  }

  /** One step of AsWrittenCut at a component that is not its own entry: its entry was
      overwritten already, and the table stays. */
  lemma AsWrittenCutSeen(t: seq<int>, i: nat)
    requires Canonical(t) && i < |t| && t[i] < i
    ensures t[i] in t[..i] && Cut(t, i)[i] == -1
    ensures Cut(t, i + 1) == Cut(t, i)
  {
    assert t[..i][t[i]] == t[t[i]];
    CanonicalNotKey(t, i);
  }

  /** One step of AsWrittenCut at a component that is its own entry: it leads its group,
      which the inner loop collects whole, and the table moves on by one. */
  lemma AsWrittenCutFresh(t: seq<int>, i: nat)
    requires Canonical(t) && i < |t| && t[i] == i
    ensures t[i] !in t[..i] && Cut(t, i)[i] != -1
    ensures Cleared(Cut(t, i), i, i) == Cut(t, i + 1)
    ensures MembersIn(Cut(t, i), i, i, |t|) == MembersIn(t, t[i], 0, |t|)
  {
    forall j | 0 <= j < i
      ensures t[..i][j] != t[i]
    {
      assert t[..i][j] == t[j];
    }
    MembersInSame(Cut(t, i), t, i, i, |t|);
    MembersInSplit(t, i, 0, i, |t|);
    MembersInNone(t, i, 0, i);
  }

  /** From i on, the merge as written over a canonical table makes the molecules of the
      merge as intended. */
  lemma {:induction false} AsWrittenCut(t: seq<int>, i: nat)
    requires Canonical(t) && i <= |t|
    ensures AsWrittenRun(Cut(t, i), i).0 == KeyedMembers(Grouped(t, i))
    decreases |t| - i
  {
    if i < |t| {
      if t[i] < i {
        AsWrittenCutSeen(t, i);
      } else {
        AsWrittenCutFresh(t, i);
      }
      AsWrittenCut(t, i + 1);
    }
  }

  /** The members of keyed groups. */
  function KeyedMembers(gs: seq<(int, seq<nat>)>): (ms: seq<seq<nat>>)
    ensures |ms| == |gs| && forall g :: 0 <= g < |gs| ==> ms[g] == gs[g].1
  {
    if gs == [] then [] else [gs[0].1] + KeyedMembers(gs[1..])
  }

  /** When each group's first component is its key, the merge as written makes the
      molecules of the merge as intended, and overwrites every entry. */
  lemma AsWrittenCanonical(t: seq<int>)
    requires Canonical(t)
    ensures AsWrittenRun(t, 0).0 == KeyedMembers(Grouped(t, 0))
  {
    assert Cut(t, 0) == t;
    AsWrittenCut(t, 0);
  }
}
