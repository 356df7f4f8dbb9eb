/** The game controller of script.js: one session object whose fields the
    user's commands (select a tile, submit, deselect all, shuffle) update in
    place, and `newGame`, which replaces it. */
module Game {
  import opened Seqs
  import opened Shuffling
  import opened Puzzles
  import opened Session

  datatype Option<T> = None | Some(value: T)

  /** The status messages the commands leave behind (the last one set). */
  datatype Message =
    | SelectLimit            // "You can only select 4 tiles."
    | Solved(group: string)  // "Solved: {group name}"
    | NotAGroup(closest: nat) // "Not a group. Closest: {best}/4 from the same group."
    | Won                    // "You won. Nice work."
    | Lost                   // "Out of mistakes. Better luck next time."

  class Game {
    var puzzle: Puzzle
    var tileOrder: seq<string>
    var groupByItem: map<string, nat>
    var selected: set<string>
    var locked: set<string>
    var solved: set<nat>
    var foundOrder: seq<nat>
    var mistakes: nat
    var over: bool

    /** The current session as a value. */
    function State(): Snapshot
      reads this
    {
      Snapshot(puzzle, tileOrder, groupByItem, selected, locked, solved, foundOrder, mistakes, over)
    }

    ghost predicate Valid()
      reads this
    {
      Inv(State())
    }

    /** The session state `newGame` builds for puzzle `p`: all sixteen labels in
        a shuffled tile order, the label lookup, nothing selected, locked or
        solved, no mistakes, the game running. */
    constructor Start(p: Puzzle)
      requires WellFormed(p)
      ensures Valid()
      ensures puzzle == p
      ensures multiset(tileOrder) == multiset(Flatten(p.groups))
      ensures selected == {} && locked == {} && solved == {} && foundOrder == []
      ensures mistakes == 0 && !over
    {
      var items := FlattenItems(p);
      var order := Shuffle(items);
      var lookup := BuildLookup(p);
      NoDupPermutation(items, order);
      puzzle := p;
      tileOrder := order;
      groupByItem := lookup;
      selected := {};
      locked := {};
      solved := {};
      foundOrder := [];
      mistakes := 0;
      over := false;
      assert LockedOf(p, {}) == {};
    }

    /** `toggleSelect`: a locked label is ignored; a selected label is
        deselected; an unselected label is added unless four are already
        selected, in which case the selection stays as it is and the limit
        message is shown. The game-over flag is not consulted. */
    method ToggleSelect(item: string) returns (msg: Option<Message>)
      requires Valid() && item in ItemSet(puzzle)
      modifies this`selected
      ensures Valid()
      ensures |selected| <= GroupSize
      ensures item in locked ==> selected == old(selected) && msg == None
      ensures item !in locked && item in old(selected) ==> selected == old(selected) - {item} && msg == None
      ensures item !in locked && item !in old(selected) && |old(selected)| >= GroupSize ==>
        selected == old(selected) && msg == Some(SelectLimit)
      ensures item !in locked && item !in old(selected) && |old(selected)| < GroupSize ==>
        selected == old(selected) + {item} && msg == None
    {
      ghost var s0 := State();
      msg := None;
      if item in locked {
        return;
      }
      if item in selected {
        selected := selected - {item};
      } else {
        if |selected| >= GroupSize {
          return Some(SelectLimit);
        }
        selected := selected + {item};
      }
      SelectionKeepsInv(s0, selected);
      assert State() == s0.(selected := selected);
    }

    /** The state part of `endGame`: the game is over; the closing message
        depends on whether it was won. */
    method EndGame(won: bool) returns (msg: Message)
      modifies this`over
      ensures over
      ensures msg == if won then Won else Lost
    {
      over := true;
      msg := if won then Won else Lost;
    }

    /** `submit`. Ignored unless the submit button is enabled. A selection that
        is an unsolved group solves it (see `SolveStep`): the group joins the
        solved set and the solve order, its labels are locked, the selection
        is cleared, and the game ends, won, when that was the fourth group.
        Any other selection costs one mistake (see `MissStep`) and reports the
        closest overlap, or ends the game, lost, at the fourth mistake; the
        selection is kept. */
    method Submit() returns (msg: Option<Message>)
      requires Valid()
      modifies this`solved, this`foundOrder, this`locked, this`selected, this`mistakes, this`over
      ensures Valid()
      ensures !SubmitEnabled(old(State())) ==> State() == old(State()) && msg == None
      ensures SubmitEnabled(old(State())) && GuessIsCorrect(old(State())) ==>
        && |foundOrder| == |old(foundOrder)| + 1
        && var g := foundOrder[|old(foundOrder)|];
          && CompletesGroup(old(State()), g)
          && State() == SolveStep(old(State()), g)
          && msg == Some(if over then Won else Solved(puzzle.groups[g].name))
      ensures SubmitEnabled(old(State())) && !GuessIsCorrect(old(State())) ==>
        && State() == MissStep(old(State()))
        && msg.Some? && (msg.value == Lost <==> over)
        && (!over ==> msg.value.NotAGroup? && ClosestMatch(old(State()), msg.value.closest))
    {
      if over {
        return None;
      }
      if |selected| != GroupSize {
        return None;
      }
      msg := Judge();
    }

    /** The enabled part of `submit`: the selection is listed, judged by the
        same-group test, and the matching or the mismatching branch runs. */
    method Judge() returns (msg: Option<Message>)
      requires Valid() && SubmitEnabled(State())
      modifies this`solved, this`foundOrder, this`locked, this`selected, this`mistakes, this`over
      ensures Valid()
      ensures GuessIsCorrect(old(State())) ==>
        && |foundOrder| == |old(foundOrder)| + 1
        && var g := foundOrder[|old(foundOrder)|];
          && CompletesGroup(old(State()), g)
          && State() == SolveStep(old(State()), g)
          && msg == Some(if over then Won else Solved(puzzle.groups[g].name))
      ensures !GuessIsCorrect(old(State())) ==>
        && State() == MissStep(old(State()))
        && msg.Some? && (msg.value == Lost <==> over)
        && (!over ==> msg.value.NotAGroup? && ClosestMatch(old(State()), msg.value.closest))
    {
      var pick := Enumerate(selected);
      var groupId := groupByItem[pick[0]];
      var isSameGroup := (forall i | 0 <= i < |pick| :: groupByItem[pick[i]] == groupId) && groupId !in solved;
      SameGroupTest(State(), pick[0]);
      assert isSameGroup == SameGroup(State(), pick[0]) by {
        forall x | x in selected ensures x in pick {
          assert x in Elems(pick);
        }
      }
      if isSameGroup {
        ghost var s0 := State();
        SolveStepKeepsInv(s0, groupId);
        msg := SolveGroup(pick, groupId);
      } else {
        msg := CountMistake(pick);
      }
    }

    /** The matching branch of `submit`: group `groupId` is solved, the
        labels of the selection, listed in `pick`, are locked, and the game
        is won when that was the fourth group. */
    method SolveGroup(pick: seq<string>, groupId: nat) returns (msg: Option<Message>)
      requires groupId < |puzzle.groups| && !over && Elems(pick) == selected
      modifies this`solved, this`foundOrder, this`locked, this`selected, this`over
      ensures State() == SolveStep(old(State()), groupId)
      ensures msg == Some(if over then Won else Solved(puzzle.groups[groupId].name))
    {
      var name := puzzle.groups[groupId].name;
      var nowLocked := AddAll(locked, pick);
      solved := solved + {groupId};
      foundOrder := foundOrder + [groupId];
      locked := nowLocked;
      selected := {};
      msg := Some(Solved(name));
      if |solved| == GroupCount {
        var m := EndGame(true);
        msg := Some(m);
      }
    }

    /** The mismatching branch of `submit`: one more mistake, reported with the
        best overlap `countBestMatch` finds, or the end of the game. */
    method CountMistake(pick: seq<string>) returns (msg: Option<Message>)
      requires Valid() && SubmitEnabled(State())
      requires Elems(pick) == selected && NoDup(pick) && !GuessIsCorrect(State())
      modifies this`mistakes, this`over
      ensures Valid()
      ensures State() == MissStep(old(State()))
      ensures msg.Some? && (msg.value == Lost <==> over)
      ensures !over ==> msg.value.NotAGroup? && ClosestMatch(old(State()), msg.value.closest)
    {
      ghost var s0 := State();
      var best, bestGroup := CountBestMatch(puzzle, solved, pick);
      mistakes := mistakes + 1;
      msg := Some(NotAGroup(best));
      if mistakes >= MaxMistakes {
        var m := EndGame(false);
        msg := Some(m);
      }
      assert State() == MissStep(s0);
      MissStepKeepsInv(s0);
      BestMatchIsClosest(s0, pick, best, bestGroup);
    }

    /** `deselectAll`: clears the selection, whatever the state of the game. */
    method DeselectAll()
      requires Valid()
      modifies this`selected
      ensures Valid()
      ensures selected == {}
    {
      SelectionKeepsInv(State(), {});
      selected := {};
    }

    /** `doShuffle`: the tile order becomes a rearrangement of the tiles not yet
        locked; the locked tiles drop out of it. Nothing else changes, and the
        game-over flag is not consulted. */
    method DoShuffle()
      requires Valid()
      modifies this`tileOrder
      ensures Valid()
      ensures multiset(tileOrder) == multiset(Remaining(old(tileOrder), locked))
    {
      var remaining := Remaining(tileOrder, locked);
      RemainingNoDup(tileOrder, locked);
      var shuffled := Shuffle(remaining);
      NoDupPermutation(remaining, shuffled);
      tileOrder := shuffled;
    }
  }

  /** `newGame`: fails when no puzzle is configured; otherwise a fresh session
      for one of the configured puzzles. */
  method NewGame(puzzles: seq<Puzzle>) returns (r: Result<Game>)
    requires forall p | p in puzzles :: WellFormed(p)
    ensures r.Err? <==> |puzzles| == 0
    ensures r.Err? ==> r.error == "No puzzles configured."
    ensures r.Ok? ==> fresh(r.value) && r.value.Valid() && r.value.puzzle in puzzles
    ensures r.Ok? ==> r.value.selected == {} && r.value.solved == {} && r.value.mistakes == 0 && !r.value.over
  {
    var picked := PickPuzzle(puzzles);
    if picked.Err? {
      return Err(picked.error);
    }
    var game := new Game.Start(picked.value);
    r := Ok(game);
  }
}
