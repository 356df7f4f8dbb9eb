/** The session state of script.js as a value, the invariant every operation
    keeps, the board order drawn by `renderBoard`, and the guess-evaluation
    helpers of `submit` (`countBestMatch` and the same-group test). */
module Session {
  import opened Seqs
  import opened Puzzles

  /** MAX_MISTAKES: the game is lost at this many wrong guesses. */
  const MaxMistakes := 4

  /** One moment of a game session: the puzzle, the shuffle order of the
      tiles, the label-to-group lookup, the selected and locked labels, the
      solved group indices, the order they were solved in, the mistake count
      and the game-over flag. */
  datatype Snapshot = Snapshot(
    puzzle: Puzzle,
    tileOrder: seq<string>,
    groupByItem: map<string, nat>,
    selected: set<string>,
    locked: set<string>,
    solved: set<nat>,
    foundOrder: seq<nat>,
    mistakes: nat,
    over: bool)

  /** The labels of the groups whose indices are in `solved`. */
  function LockedOf(p: Puzzle, solved: set<nat>): set<string> {
    set g, x | g in solved && g < |p.groups| && x in p.groups[g].items :: x
  }

  /** Solving one more group locks exactly that group's labels in addition. */
  lemma LockedOfAdd(p: Puzzle, solved: set<nat>, g: nat)
    requires g < |p.groups|
    ensures LockedOf(p, solved + {g}) == LockedOf(p, solved) + GroupItems(p, g)
  {
    forall x | x in GroupItems(p, g) ensures x in LockedOf(p, solved + {g}) {
      assert x in p.groups[g].items;
    }
  }

  /** The consistency of a session that every operation keeps. */
  ghost predicate Inv(s: Snapshot) {
    && PuzzleOk(s)
    && SelectionOk(s)
    && SolveOrderOk(s)
    && LockedOk(s)
    && TilesOk(s)
    && StatusOk(s)
  }

  /** The puzzle is well formed and the lookup maps each label to its group. */
  ghost predicate PuzzleOk(s: Snapshot) {
    WellFormed(s.puzzle) && LookupSound(s.puzzle, s.groupByItem)
  }

  /** At most four labels are selected, all of the puzzle and none locked. */
  ghost predicate SelectionOk(s: Snapshot) {
    && s.selected <= ItemSet(s.puzzle)
    && |s.selected| <= GroupSize
    && s.selected !! s.locked
  }

  /** The solve order lists each solved group once, and at most four are solved. */
  ghost predicate SolveOrderOk(s: Snapshot) {
    && (forall g | g in s.solved :: g < |s.puzzle.groups|)
    && (forall i | 0 <= i < |s.foundOrder| :: s.foundOrder[i] < |s.puzzle.groups|)
    && NoDup(s.foundOrder)
    && Elems(s.foundOrder) == s.solved
    && |s.solved| == |s.foundOrder|
    && |s.solved| <= GroupCount
  }

  /** The locked labels are exactly the labels of the solved groups. */
  ghost predicate LockedOk(s: Snapshot) {
    s.locked == LockedOf(s.puzzle, s.solved)
  }

  /** The tile order lists distinct labels of the puzzle, among them every
      label not yet locked. */
  ghost predicate TilesOk(s: Snapshot) {
    && NoDup(s.tileOrder)
    && Elems(s.tileOrder) <= ItemSet(s.puzzle)
    && ItemSet(s.puzzle) - s.locked <= Elems(s.tileOrder)
  }

  /** The game is over exactly when four mistakes were made or all four
      groups are solved. */
  ghost predicate StatusOk(s: Snapshot) {
    && s.mistakes <= MaxMistakes
    && s.over == (s.mistakes == MaxMistakes || |s.solved| == GroupCount)
  }

  /** The enable rule of `updateSubmit`: exactly four selected and the game
      not over. An enabled submit always faces a game still in progress with
      a guess of four selectable labels. */
  function SubmitEnabled(s: Snapshot): (enabled: bool)
    requires Inv(s)
    ensures enabled ==> s.mistakes < MaxMistakes && |s.solved| < GroupCount
    ensures enabled ==> |s.selected| == GroupSize && s.selected <= ItemSet(s.puzzle) - s.locked
  {
    |s.selected| == GroupSize && !s.over
  }

  // ---------------------------------------------------------------------
  // Board order (`renderBoard`)

  /** The filter at the top of `renderBoard` (script.js:71): the tiles of
      `order` that are not locked, in their order. */
  function Remaining(order: seq<string>, locked: set<string>): (r: seq<string>)
    ensures forall x :: x in r <==> x in order && x !in locked
  {
    if order == [] then []
    else (if order[0] in locked then [] else [order[0]]) + Remaining(order[1..], locked)
  }

  lemma {:induction false} RemainingNoDup(order: seq<string>, locked: set<string>)
    requires NoDup(order)
    ensures NoDup(Remaining(order, locked))
  {
    if order != [] {
      var rest := order[1..];
      assert NoDup(rest) by {
        forall i, j | 0 <= i < j < |rest| ensures rest[i] != rest[j] {
          assert rest[i] == order[i + 1] && rest[j] == order[j + 1];
        }
      }
      RemainingNoDup(rest, locked);
      var head := if order[0] in locked then [] else [order[0]];
      assert order[0] !in rest by {
        forall j | 0 <= j < |rest| ensures rest[j] != order[0] {
          assert rest[j] == order[j + 1];
        }
      }
      NoDupConcat(head, Remaining(rest, locked));
    }
  }

  /** The labels of the found groups, group after group in solve order. */
  function FoundItems(p: Puzzle, found: seq<nat>): seq<string>
    requires forall i | 0 <= i < |found| :: found[i] < |p.groups|
  {
    if found == [] then [] else p.groups[found[0]].items + FoundItems(p, found[1..])
  }

  /** The found groups' labels are four per group, distinct, and exactly the
      labels of those groups. */
  lemma {:induction false} FoundItemsLayout(p: Puzzle, found: seq<nat>)
    requires WellFormed(p)
    requires forall i | 0 <= i < |found| :: found[i] < |p.groups|
    requires NoDup(found)
    ensures |FoundItems(p, found)| == GroupSize * |found|
    ensures NoDup(FoundItems(p, found))
    ensures Elems(FoundItems(p, found)) == LockedOf(p, Elems(found))
  {
    if found != [] {
      var f, rest := found[0], found[1..];
      assert NoDup(rest) by {
        forall i, j | 0 <= i < j < |rest| ensures rest[i] != rest[j] {
          assert rest[i] == found[i + 1] && rest[j] == found[j + 1];
        }
      }
      FoundItemsLayout(p, rest);
      assert f !in Elems(rest) by {
        forall j | 0 <= j < |rest| ensures rest[j] != f {
          assert rest[j] == found[j + 1];
        }
      }
      assert Elems(p.groups[f].items) !! LockedOf(p, Elems(rest)) by {
        forall x | x in LockedOf(p, Elems(rest)) ensures x !in p.groups[f].items {
          var g :| g in Elems(rest) && g < |p.groups| && x in p.groups[g].items;
          assert g != f;
        }
      }
      NoDupConcat(p.groups[f].items, FoundItems(p, rest));
      assert Elems(found) == {f} + Elems(rest);
      LockedOfAdd(p, Elems(rest), f);
    }
  }

  /** The tile order `renderBoard` draws: the found groups' labels first, in
      solve order, then the remaining tiles in the current shuffle order. */
  function BoardOrder(s: Snapshot): seq<string>
    requires forall i | 0 <= i < |s.foundOrder| :: s.foundOrder[i] < |s.puzzle.groups|
  {
    FoundItems(s.puzzle, s.foundOrder) + Remaining(s.tileOrder, s.locked)
  }

  /** The labels of the solved groups are the locked labels, all of them
      labels of the puzzle. */
  lemma FoundItemsAreLocked(s: Snapshot)
    requires PuzzleOk(s) && SolveOrderOk(s) && LockedOk(s)
    ensures |FoundItems(s.puzzle, s.foundOrder)| == GroupSize * |s.foundOrder|
    ensures NoDup(FoundItems(s.puzzle, s.foundOrder))
    ensures Elems(FoundItems(s.puzzle, s.foundOrder)) == s.locked
    ensures s.locked <= ItemSet(s.puzzle)
  {
    var p := s.puzzle;
    FoundItemsLayout(p, s.foundOrder);
    forall x | x in s.locked ensures x in ItemSet(p) {
      var g :| g in s.solved && g < |p.groups| && x in p.groups[g].items;
    }
  }

  /** The board holds each label of the puzzle once: the locked ones from the
      found groups, the others from the tile order. */
  lemma BoardHoldsEachItemOnce(s: Snapshot)
    requires Inv(s)
    ensures NoDup(BoardOrder(s))
    ensures Elems(BoardOrder(s)) == ItemSet(s.puzzle)
  {
    var found, rest := FoundItems(s.puzzle, s.foundOrder), Remaining(s.tileOrder, s.locked);
    FoundItemsAreLocked(s);
    RemainingNoDup(s.tileOrder, s.locked);
    assert Elems(rest) == ItemSet(s.puzzle) - s.locked;
    NoDupConcat(found, rest);
  }

  /** The board shows sixteen tiles, the solved groups' labels ahead of all
      others; with `BoardHoldsEachItemOnce`, each label of the puzzle once. */
  lemma BoardShowsEachItemOnce(s: Snapshot)
    requires Inv(s)
    ensures |BoardOrder(s)| == GroupCount * GroupSize
    ensures forall i | 0 <= i < |BoardOrder(s)| :: BoardOrder(s)[i] in s.locked <==> i < GroupSize * |s.foundOrder|
  {
    var p := s.puzzle;
    var found, rest := FoundItems(p, s.foundOrder), Remaining(s.tileOrder, s.locked);
    var board := BoardOrder(s);
    FoundItemsAreLocked(s);
    BoardHoldsEachItemOnce(s);
    DistinctCard(board);
    FlattenWellFormed(p);
    DistinctCard(Flatten(p.groups));
    forall i | 0 <= i < |board| ensures board[i] in s.locked <==> i < GroupSize * |s.foundOrder| {
      if i < |found| {
        assert board[i] == found[i] && found[i] in Elems(found);
      } else {
        assert board[i] == rest[i - |found|] && rest[i - |found|] in Elems(rest);
      }
    }
  }

  // ---------------------------------------------------------------------
  // Guess evaluation (`submit`, `countBestMatch`)

  /** The listing of the selection that `submit` makes (script.js:194): each
      selected label once. The source lists them in insertion order; the
      model lists them in any order. */
  method Enumerate(s: set<string>) returns (pick: seq<string>)
    ensures Elems(pick) == s && NoDup(pick) && |pick| == |s|
  {
    pick := [];
    var rest := s;
    while rest != {}
      invariant Elems(pick) + rest == s && Elems(pick) !! rest
      invariant NoDup(pick)
      invariant |pick| + |rest| == |s|
      decreases |rest|
    {
      var x :| x in rest;
      NoDupConcat(pick, [x]);
      pick := pick + [x];
      rest := rest - {x};
    }
  }

  /** The locking loop of `submit` (script.js:201): adds the labels of
      `items`, one at a time, to the set `into`. */
  method AddAll(into: set<string>, items: seq<string>) returns (r: set<string>)
    ensures r == into + Elems(items)
  {
    r := into;
    for i := 0 to |items|
      invariant r == into + Elems(items[..i])
    {
      assert items[..i + 1] == items[..i] + [items[i]];
      r := r + {items[i]};
    }
    assert items[..|items|] == items;
  }

  /** How many entries of `pick` are in `items`: the `overlap` counter of
      `countBestMatch`. */
  function Overlap(pick: seq<string>, items: set<string>): (n: nat)
    ensures n <= |pick|
  {
    if pick == [] then 0
    else Overlap(pick[..|pick| - 1], items) + (if pick[|pick| - 1] in items then 1 else 0)
  }

  /** For a list of distinct labels the overlap is the size of the intersection. */
  lemma {:induction false} OverlapIsIntersection(pick: seq<string>, items: set<string>)
    requires NoDup(pick)
    ensures Overlap(pick, items) == |Elems(pick) * items|
  {
    if pick != [] {
      var init, x := pick[..|pick| - 1], pick[|pick| - 1];
      assert pick == init + [x];
      assert NoDup(init) by {
        forall i, j | 0 <= i < j < |init| ensures init[i] != init[j] {
          assert init[i] == pick[i] && init[j] == pick[j];
        }
      }
      assert x !in Elems(init) by {
        forall j | 0 <= j < |init| ensures init[j] != x {
          assert init[j] == pick[j];
        }
      }
      OverlapIsIntersection(init, items);
      if x in items {
        assert Elems(pick) * items == Elems(init) * items + {x};
      } else {
        assert Elems(pick) * items == Elems(init) * items;
      }
    }
  }

  /** `countBestMatch`: over the groups not yet solved, `best` is the largest
      overlap with `pick` and `bestGroup` the first group reaching it, or -1
      when no unsolved group overlaps at all. */
  method CountBestMatch(p: Puzzle, solved: set<nat>, pick: seq<string>) returns (best: nat, bestGroup: int)
    ensures best <= |pick|
    ensures forall g | 0 <= g < |p.groups| && g !in solved :: Overlap(pick, GroupItems(p, g)) <= best
    ensures bestGroup == -1 <==> best == 0
    ensures bestGroup != -1 ==>
      && 0 <= bestGroup < |p.groups| && bestGroup !in solved
      && Overlap(pick, GroupItems(p, bestGroup)) == best
      && forall g | 0 <= g < bestGroup && g !in solved :: Overlap(pick, GroupItems(p, g)) < best
  {
    best, bestGroup := 0, -1;
    for gi := 0 to |p.groups|
      invariant best <= |pick|
      invariant forall g | 0 <= g < gi && g !in solved :: Overlap(pick, GroupItems(p, g)) <= best
      invariant bestGroup == -1 <==> best == 0
      invariant bestGroup != -1 ==>
        && 0 <= bestGroup < gi && bestGroup !in solved
        && Overlap(pick, GroupItems(p, bestGroup)) == best
        && forall g | 0 <= g < bestGroup && g !in solved :: Overlap(pick, GroupItems(p, g)) < best
    {
      if gi !in solved {
        var items := GroupItems(p, gi);
        var overlap := 0;
        for k := 0 to |pick|
          invariant overlap == Overlap(pick[..k], items)
        {
          assert pick[..k + 1][..k] == pick[..k];
          if pick[k] in items {
            overlap := overlap + 1;
          }
        }
        assert pick[..|pick|] == pick;
        if overlap > best {
          best, bestGroup := overlap, gi;
        }
      }
    }
  }

  /** The test `submit` applies to a full selection, with `first` the label
      listed first: every selected label maps to the group of `first`, and
      that group is not solved yet. */
  predicate SameGroup(s: Snapshot, first: string)
    requires first in s.groupByItem && s.selected <= s.groupByItem.Keys
  {
    && (forall x | x in s.selected :: s.groupByItem[x] == s.groupByItem[first])
    && s.groupByItem[first] !in s.solved
  }

  /** The selection is exactly the labels of unsolved group `g`. */
  ghost predicate CompletesGroup(s: Snapshot, g: int) {
    && 0 <= g < |s.puzzle.groups|
    && g !in s.solved
    && s.selected == GroupItems(s.puzzle, g)
  }

  /** The guess is correct: the selection is some unsolved group. */
  ghost predicate GuessIsCorrect(s: Snapshot) {
    exists g :: CompletesGroup(s, g)
  }

  /** A group of a well-formed puzzle has four distinct labels. */
  lemma GroupCard(p: Puzzle, g: nat)
    requires WellFormed(p) && g < |p.groups|
    ensures |GroupItems(p, g)| == GroupSize
  {
    DistinctCard(p.groups[g].items);
  }

  /** The same-group test of `submit` succeeds exactly when the four selected
      labels are an unsolved group, whichever selected label is listed first;
      the group it then solves is that group. */
  lemma SameGroupTest(s: Snapshot, first: string)
    requires Inv(s) && |s.selected| == GroupSize && first in s.selected
    ensures SameGroup(s, first) <==> GuessIsCorrect(s)
    ensures GuessIsCorrect(s) ==> CompletesGroup(s, s.groupByItem[first])
  {
    var p, m := s.puzzle, s.groupByItem;
    var g := m[first];
    GroupCard(p, g);
    if SameGroup(s, first) {
      assert s.selected <= GroupItems(p, g) by {
        forall x | x in s.selected ensures x in GroupItems(p, g) {
          assert x in p.groups[m[x]].items;
        }
      }
      SubsetSameCard(s.selected, GroupItems(p, g));
      assert CompletesGroup(s, g);
    }
    if GuessIsCorrect(s) {
      var h :| CompletesGroup(s, h);
      assert first in p.groups[h].items && first in p.groups[g].items;
      assert h == g;
      forall x | x in s.selected ensures m[x] == g {
        assert x in p.groups[m[x]].items && x in p.groups[g].items;
      }
    }
  }

  /** Two unsolved groups completed by the same selection are the same group. */
  lemma CompletedGroupUnique(s: Snapshot, g: int, h: int)
    requires Inv(s) && |s.selected| == GroupSize
    requires CompletesGroup(s, g) && CompletesGroup(s, h)
    ensures g == h
  {
    var x :| x in s.selected;
    assert x in s.puzzle.groups[g].items && x in s.puzzle.groups[h].items;
  }

  /** The state after a correct guess of group `g`: the group is solved and
      appended to the solve order, the selected labels are locked, the
      selection is cleared, and the game is over when that was the last
      group. */
  function SolveStep(s: Snapshot, g: nat): Snapshot {
    var solved := s.solved + {g};
    s.(solved := solved,
       foundOrder := s.foundOrder + [g],
       locked := s.locked + s.selected,
       selected := {},
       over := |solved| == GroupCount)
  }

  /** Appending a group not yet solved to a duplicate-free solve order keeps
      it duplicate-free and in step with the solved set, which grows by one. */
  lemma AppendSolved(found: seq<nat>, solved: set<nat>, g: nat)
    requires NoDup(found) && Elems(found) == solved && |solved| == |found|
    requires g !in solved
    ensures NoDup(found + [g]) && Elems(found + [g]) == solved + {g}
    ensures |solved + {g}| == |found + [g]| == |solved| + 1
  {
    NoDupConcat(found, [g]);
  }

  /** A correct guess keeps the session consistent, solves one more group,
      costs no mistake, and ends the game exactly when it was the fourth
      group. */
  lemma SolveStepKeepsInv(s: Snapshot, g: nat)
    requires Inv(s) && SubmitEnabled(s) && CompletesGroup(s, g)
    ensures Inv(SolveStep(s, g))
    ensures |SolveStep(s, g).solved| == |s.solved| + 1
    ensures SolveStep(s, g).over <==> |SolveStep(s, g).solved| == GroupCount
  {
    SolveKeepsSolveOrder(s, g);
    SolveKeepsLocked(s, g);
    SolveKeepsBoard(s, g);
  }

  /** The solve order after a correct guess. */
  lemma SolveKeepsSolveOrder(s: Snapshot, g: nat)
    requires SolveOrderOk(s) && |s.solved| < GroupCount && CompletesGroup(s, g)
    ensures SolveOrderOk(SolveStep(s, g))
    ensures |SolveStep(s, g).solved| == |s.solved| + 1
  {
    AppendSolved(s.foundOrder, s.solved, g);
  }

  /** The locked labels after a correct guess. */
  lemma SolveKeepsLocked(s: Snapshot, g: nat)
    requires Inv(s) && SubmitEnabled(s) && CompletesGroup(s, g)
    ensures LockedOk(SolveStep(s, g))
  {
    LockedOfAdd(s.puzzle, s.solved, g);
  }

  /** The parts of the invariant a correct guess leaves alone or trivially keeps. */
  lemma SolveKeepsBoard(s: Snapshot, g: nat)
    requires Inv(s) && SubmitEnabled(s) && CompletesGroup(s, g)
    ensures PuzzleOk(SolveStep(s, g)) && SelectionOk(SolveStep(s, g))
    ensures TilesOk(SolveStep(s, g)) && StatusOk(SolveStep(s, g))
  {
  }

  /** The state after a wrong guess: one more mistake, and the game is over at
      the fourth. */
  function MissStep(s: Snapshot): Snapshot {
    var mistakes := s.mistakes + 1;
    s.(mistakes := mistakes, over := mistakes >= MaxMistakes)
  }

  /** A wrong guess keeps the session consistent and ends the game exactly
      when it was the fourth mistake. */
  lemma MissStepKeepsInv(s: Snapshot)
    requires Inv(s) && SubmitEnabled(s)
    ensures Inv(MissStep(s))
    ensures MissStep(s).over <==> MissStep(s).mistakes == MaxMistakes
  {
  }

  /** Solved groups plus mistakes: every enabled submit raises it by one. */
  function Progress(s: Snapshot): nat {
    |s.solved| + s.mistakes
  }

  /** Every enabled submit, right or wrong, moves the game one step closer to
      its end, and an enabled submit is possible at most seven times: after
      three solves and three mistakes the next submit ends the game. */
  lemma SubmitProgresses(s: Snapshot, g: nat)
    requires Inv(s) && SubmitEnabled(s)
    ensures Progress(s) <= (GroupCount - 1) + (MaxMistakes - 1)
    ensures Progress(MissStep(s)) == Progress(s) + 1
    ensures CompletesGroup(s, g) ==> Progress(SolveStep(s, g)) == Progress(s) + 1
  {
  }

  /** Selecting or deselecting labels keeps the session consistent as long
      as at most four labels of the puzzle are selected and none is locked. */
  lemma SelectionKeepsInv(s: Snapshot, selected: set<string>)
    requires Inv(s)
    requires selected <= ItemSet(s.puzzle) && |selected| <= GroupSize && selected !! s.locked
    ensures Inv(s.(selected := selected))
  {
  }

  /** The best overlap `submit` reports for a wrong guess: no unsolved group
      shares more than `closest` labels with the selection, some unsolved
      group shares exactly that many (unless it is 0), and it is never a
      full 4/4. */
  ghost predicate ClosestMatch(s: Snapshot, closest: nat) {
    && closest < GroupSize
    && (forall g | 0 <= g < |s.puzzle.groups| && g !in s.solved :: |s.selected * GroupItems(s.puzzle, g)| <= closest)
    && (closest == 0 || exists g :: 0 <= g < |s.puzzle.groups| && g !in s.solved && |s.selected * GroupItems(s.puzzle, g)| == closest)
  }

  /** A selection of four overlaps an unsolved group in all four labels
      exactly when it is that group. */
  lemma FullOverlapIffCompletes(s: Snapshot, g: nat)
    requires Inv(s) && |s.selected| == GroupSize
    requires g < |s.puzzle.groups| && g !in s.solved
    ensures |s.selected * GroupItems(s.puzzle, g)| <= GroupSize
    ensures |s.selected * GroupItems(s.puzzle, g)| == GroupSize <==> CompletesGroup(s, g)
  {
    var both, items := s.selected * GroupItems(s.puzzle, g), GroupItems(s.puzzle, g);
    GroupCard(s.puzzle, g);
    assert s.selected == both + (s.selected - both) && both * (s.selected - both) == {};
    if |both| == GroupSize {
      SubsetSameCard(both, s.selected);
      SubsetSameCard(s.selected, items);
    }
    if CompletesGroup(s, g) {
      assert both == s.selected;
    }
  }

  /** What `countBestMatch` reports for a wrong guess of four labels listed
      in `pick` is the closest match: the overlap counts are the sizes of
      the intersections, and a full 4/4 would have been a correct guess. */
  lemma BestMatchIsClosest(s: Snapshot, pick: seq<string>, best: nat, bestGroup: int)
    requires Inv(s) && |s.selected| == GroupSize && !GuessIsCorrect(s)
    requires Elems(pick) == s.selected && NoDup(pick)
    requires forall g | 0 <= g < |s.puzzle.groups| && g !in s.solved :: Overlap(pick, GroupItems(s.puzzle, g)) <= best
    requires bestGroup == -1 <==> best == 0
    requires bestGroup != -1 ==>
      && 0 <= bestGroup < |s.puzzle.groups| && bestGroup !in s.solved
      && Overlap(pick, GroupItems(s.puzzle, bestGroup)) == best
    ensures ClosestMatch(s, best)
  {
    var p := s.puzzle;
    forall g | 0 <= g < |p.groups|
      ensures Overlap(pick, GroupItems(p, g)) == |s.selected * GroupItems(p, g)|
    {
      OverlapIsIntersection(pick, GroupItems(p, g));
    }
    if bestGroup != -1 {
      FullOverlapIffCompletes(s, bestGroup);
    }
  }
}
