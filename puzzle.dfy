/** Puzzle records and the set-up helpers of script.js: `pickPuzzle`,
    `flattenItems` and `buildLookup`. */
module Puzzles {
  import opened Seqs

  /** A hidden category: its name, its difficulty tier and its item labels. */
  datatype Group = Group(name: string, difficulty: int, items: seq<string>)

  /** A puzzle: a title and its groups, in puzzle order. */
  datatype Puzzle = Puzzle(title: string, groups: seq<Group>)

  datatype Result<T> = Ok(value: T) | Err(error: string)

  /** Number of groups in a puzzle; the game is won once this many are solved. */
  const GroupCount := 4
  /** Number of items in a group, and so in a complete guess. */
  const GroupSize := 4

  /** Every item label belongs to at most one group. */
  predicate GroupsDisjoint(p: Puzzle) {
    forall g1, g2, x |
      0 <= g1 < |p.groups| && 0 <= g2 < |p.groups| && x in p.groups[g1].items && x in p.groups[g2].items
      :: g1 == g2
  }

  /** What the game expects of every configured puzzle: four groups of four
      labels, no label repeated anywhere in the puzzle. */
  predicate WellFormed(p: Puzzle) {
    && |p.groups| == GroupCount
    && (forall g | 0 <= g < |p.groups| :: |p.groups[g].items| == GroupSize && NoDup(p.groups[g].items))
    && GroupsDisjoint(p)
  }

  /** Every label of the puzzle. */
  function ItemSet(p: Puzzle): set<string> {
    set g, x | 0 <= g < |p.groups| && x in p.groups[g].items :: x
  }

  /** The labels of group `g`. */
  function GroupItems(p: Puzzle, g: nat): set<string>
    requires g < |p.groups|
  {
    Elems(p.groups[g].items)
  }

  /** The concatenation of the item lists of `gs`, in group order. */
  function Flatten(gs: seq<Group>): seq<string> {
    if gs == [] then [] else Flatten(gs[..|gs| - 1]) + gs[|gs| - 1].items
  }

  lemma {:induction false} FlattenElems(gs: seq<Group>)
    ensures Elems(Flatten(gs)) == ItemSet(Puzzle("", gs))
  {
    if gs != [] {
      var init := gs[..|gs| - 1];
      FlattenElems(init);
      var whole, front := ItemSet(Puzzle("", gs)), ItemSet(Puzzle("", init));
      assert Elems(Flatten(gs)) == Elems(Flatten(init)) + Elems(gs[|gs| - 1].items);
      forall x ensures x in whole <==> x in front || x in gs[|gs| - 1].items {
        if x in whole {
          var g :| 0 <= g < |gs| && x in gs[g].items;
          if g < |gs| - 1 {
            assert init[g] == gs[g];
          }
        }
        if x in front {
          var g :| 0 <= g < |init| && x in init[g].items;
          assert gs[g] == init[g];
        }
      }
    }
  }

  /** When every group has four items, group `g`'s `k`-th item sits at
      position `4 * g + k` of the flattened list. */
  lemma {:induction false} FlattenIndex(gs: seq<Group>)
    requires forall g | 0 <= g < |gs| :: |gs[g].items| == GroupSize
    ensures |Flatten(gs)| == GroupSize * |gs|
    ensures forall g, k | 0 <= g < |gs| && 0 <= k < GroupSize :: Flatten(gs)[GroupSize * g + k] == gs[g].items[k]
  {
    if gs != [] {
      var init := gs[..|gs| - 1];
      FlattenIndex(init);
      forall g, k | 0 <= g < |gs| && 0 <= k < GroupSize
        ensures Flatten(gs)[GroupSize * g + k] == gs[g].items[k]
      {
        if g < |gs| - 1 {
          assert init[g] == gs[g];
          assert Flatten(gs)[GroupSize * g + k] == Flatten(init)[GroupSize * g + k];
        }
      }
    }
  }

  /** The flattened list of a well-formed puzzle holds its sixteen labels once each. */
  lemma FlattenWellFormed(p: Puzzle)
    requires WellFormed(p)
    ensures |Flatten(p.groups)| == GroupCount * GroupSize
    ensures NoDup(Flatten(p.groups))
    ensures Elems(Flatten(p.groups)) == ItemSet(p)
  {
    var gs := p.groups;
    FlattenIndex(gs);
    FlattenElems(gs);
    var f := Flatten(gs);
    forall i, j | 0 <= i < j < |f| ensures f[i] != f[j] {
      var gi, ki, gj, kj := i / GroupSize, i % GroupSize, j / GroupSize, j % GroupSize;
      assert f[i] == gs[gi].items[ki] && f[j] == gs[gj].items[kj];
      if gi == gj {
        assert ki < kj;
      } else {
        assert gs[gi].items[ki] in gs[gi].items;
      }
    }
  }

  /** `pickPuzzle`: fails when no puzzle is configured, otherwise returns one
      of the configured puzzles. The source picks uniformly at random; the
      model lets it pick any. The source deep-copies the chosen record so
      that later changes cannot reach the shared list; puzzle values here
      are immutable, so the value itself is that copy. */
  method PickPuzzle(puzzles: seq<Puzzle>) returns (r: Result<Puzzle>)
    ensures r.Err? <==> |puzzles| == 0
    ensures r.Err? ==> r.error == "No puzzles configured."
    ensures r.Ok? ==> r.value in puzzles
  {
    if |puzzles| == 0 {
      return Err("No puzzles configured.");
    }
    var k :| 0 <= k < |puzzles|;
    r := Ok(puzzles[k]);
  }

  /** `flattenItems`: all labels of the puzzle, group after group. For a
      well-formed puzzle that is its sixteen labels, each once. */
  method FlattenItems(p: Puzzle) returns (items: seq<string>)
    ensures items == Flatten(p.groups)
    ensures Elems(items) == ItemSet(p)
    ensures WellFormed(p) ==> |items| == GroupCount * GroupSize && NoDup(items)
  {
    items := [];
    for i := 0 to |p.groups|
      invariant items == Flatten(p.groups[..i])
    {
      assert p.groups[..i + 1][..i] == p.groups[..i];
      items := items + p.groups[i].items;
    }
    assert p.groups[..|p.groups|] == p.groups;
    FlattenElems(p.groups);
    if WellFormed(p) {
      FlattenWellFormed(p);
    }
  }

  /** What `buildLookup` produces: the labels of the puzzle as keys, each
      mapped to (the index of) a group that contains it. */
  predicate LookupSound(p: Puzzle, m: map<string, nat>) {
    && m.Keys == ItemSet(p)
    && forall x | x in m :: m[x] < |p.groups| && x in p.groups[m[x]].items
  }

  /** The inner `forEach` of `buildLookup`: enter every label of group `gi`
      with value `gi`, overwriting earlier entries for those labels. */
  method EnterGroup(p: Puzzle, gi: nat, m0: map<string, nat>) returns (m: map<string, nat>)
    requires gi < |p.groups|
    ensures m.Keys == m0.Keys + GroupItems(p, gi)
    ensures forall x | x in m :: m[x] == if x in p.groups[gi].items then gi else m0[x]
  {
    var items := p.groups[gi].items;
    m := m0;
    for k := 0 to |items|
      invariant m.Keys == m0.Keys + Elems(items[..k])
      invariant forall x | x in m :: m[x] == if x in items[..k] then gi else m0[x]
    {
      assert items[..k + 1] == items[..k] + [items[k]];
      m := m[items[k] := gi];
    }
    assert items[..|items|] == items;
  }

  /** The lookup after the first `gi` groups: their labels are the keys, each
      mapped to an earlier group containing it, and never to a group before
      another one that contains it. */
  predicate LookupUpTo(p: Puzzle, gi: nat, m: map<string, nat>)
    requires gi <= |p.groups|
  {
    && m.Keys == Elems(Flatten(p.groups[..gi]))
    && (forall x | x in m :: m[x] < gi && x in p.groups[m[x]].items)
    && (forall g, x | 0 <= g < gi && x in p.groups[g].items && x in m :: g <= m[x])
  }

  /** Entering group `gi` extends the lookup for the first `gi` groups to the
      first `gi + 1`. */
  lemma LookupUpToNext(p: Puzzle, gi: nat, m: map<string, nat>, next: map<string, nat>)
    requires gi < |p.groups| && LookupUpTo(p, gi, m)
    requires next.Keys == m.Keys + GroupItems(p, gi)
    requires forall x | x in next :: next[x] == if x in p.groups[gi].items then gi else m[x]
    ensures LookupUpTo(p, gi + 1, next)
  {
    assert Flatten(p.groups[..gi + 1]) == Flatten(p.groups[..gi]) + p.groups[gi].items by {
      assert p.groups[..gi + 1][..gi] == p.groups[..gi];
    }
    forall g, x | 0 <= g <= gi && x in p.groups[g].items && x in next ensures g <= next[x] {
      if x !in p.groups[gi].items {
        assert g < gi && x in m;
      }
    }
  }

  /** `buildLookup`: maps every label to the index of a group containing it.
      Groups are visited in order and a later entry overwrites an earlier
      one, so a label found in several groups maps to the last of them. */
  method BuildLookup(p: Puzzle) returns (m: map<string, nat>)
    ensures LookupSound(p, m)
    ensures forall g, x | 0 <= g < |p.groups| && x in p.groups[g].items :: g <= m[x]
  {
    m := map[];
    for gi := 0 to |p.groups|
      invariant LookupUpTo(p, gi, m)
    {
      var next := EnterGroup(p, gi, m);
      LookupUpToNext(p, gi, m, next);
      m := next;
    }
    assert p.groups[..|p.groups|] == p.groups;
    FlattenElems(p.groups);
  }

  /** When the groups are disjoint, a sound lookup maps every label of group
      `g` to `g`, and a label to `g` only when it is a label of group `g`. */
  lemma LookupOfDisjointGroups(p: Puzzle, m: map<string, nat>)
    requires LookupSound(p, m) && GroupsDisjoint(p)
    ensures forall g, x | 0 <= g < |p.groups| && x in p.groups[g].items :: x in m && m[x] == g
    ensures forall x, g | x in m && 0 <= g < |p.groups| :: m[x] == g <==> x in p.groups[g].items
  {
    forall g, x | 0 <= g < |p.groups| && x in p.groups[g].items ensures x in m {
      assert x in ItemSet(p);
    }
  }
}
