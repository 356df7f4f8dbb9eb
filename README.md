# Ducks Connections: a verified model of the game controller

Ducks Connections is a single-page "Connections"-style game. The board
shows sixteen labels. They split into four hidden groups of four. The
player selects four labels and submits them. A correct guess solves that
group and locks its labels. A wrong guess costs a mistake. The game is
won after four solved groups and lost after four mistakes.

This project models the game controller in `script.js` and proves
properties of it:

- `seqs.dfy` (module `Seqs`) holds sequence facts used throughout: the
  element set of a list, distinctness, and how both behave under
  rearrangement and concatenation.
- `shuffle.dfy` (module `Shuffling`) is the Fisher-Yates `shuffle`. It
  swaps the cells of an array copy of its argument.
- `puzzle.dfy` (module `Puzzles`) covers the puzzle records and the set-up
  helpers: `pickPuzzle`, `flattenItems` and `buildLookup`.
- `session.dfy` (module `Session`) describes the session state as a value
  (`Snapshot`), with the consistency invariant `Inv` that every command
  keeps. It also holds:
  - the board order drawn by `renderBoard`;
  - the submit enable rule of `updateSubmit`;
  - the guess evaluation of `submit`: the listing of the selection, the
    same-group test and `countBestMatch`;
  - the state a correct guess (`SolveStep`) or a wrong guess (`MissStep`)
    leads to.
- `game.dfy` (module `Game`) is the controller itself. It is a class whose
  fields `toggleSelect`, `submit`, `deselectAll`, `doShuffle` and
  `endGame` update in place. It also holds `newGame`, which builds a fresh
  session. Each command's contract ties the new state to the value-level
  definitions in `Session`.

Random choices are nondeterministic here:

- `Math.random` in `shuffle` and `pickPuzzle`: any swap partner in range,
  any configured puzzle.
- The insertion order of the selection set: any listing of it.

The configured puzzle list is a parameter of `NewGame`. Its puzzles must be
well formed: four groups of four labels, with no label repeated across the
puzzle.

A solved group's labels stay in `tileOrder` until the next `doShuffle`;
only `renderBoard` filters them out (script.js:71, script.js:246).
`TilesOk` therefore demands only that the tile order hold every label not
yet locked.

## Model

| member | source | states |
|---|---|---|
| Shuffling.Shuffle | script.js:27-34 | the result has the argument's length and is a rearrangement of it: the same multiset of entries |
| Puzzles.PickPuzzle | script.js:36-40 | fails with "No puzzles configured." exactly when the list is empty; otherwise returns one of the configured puzzles |
| Puzzles.FlattenItems | script.js:50-54 | the result is the groups' item lists concatenated in group order; its labels are exactly the puzzle's labels; for a well-formed puzzle it lists sixteen distinct labels |
| Puzzles.FlattenElems | script.js:50-54 | the concatenated list holds exactly the labels of the puzzle's groups |
| Puzzles.FlattenIndex | script.js:50-54 | with four labels per group, group g's k-th label sits at position 4g+k of the concatenation |
| Puzzles.FlattenWellFormed | script.js:50-54 | a well-formed puzzle flattens to sixteen distinct labels, all of the puzzle's |
| Puzzles.EnterGroup | script.js:44-46 | the map gains group gi's labels as keys, each mapped to gi; every other entry keeps its old value |
| Puzzles.LookupUpToNext | script.js:43-47 | entering one more group extends a lookup of the earlier groups' labels to one of the groups up to it, keeping each label at the last group that contains it |
| Puzzles.BuildLookup | script.js:42-48 | the keys are exactly the puzzle's labels, each mapped to a group containing it; a label in several groups maps to the last of them |
| Puzzles.LookupOfDisjointGroups | script.js:42-48 | with disjoint groups, the lookup maps a label to g exactly when the label belongs to group g, so every label of group g maps to g |
| Session.LockedOfAdd | script.js:199-201 | solving one more group adds exactly that group's labels to the labels of the solved groups |
| Session.SubmitEnabled | script.js:170-174 | an enabled submit (four selected, game not over) faces fewer than four mistakes and fewer than four solved groups, with four selected labels of the puzzle, none locked |
| Session.Remaining | script.js:71 | a label is in the filtered order exactly when it is in the tile order and not locked |
| Session.RemainingNoDup | script.js:71 | filtering a list of distinct labels keeps them distinct |
| Session.FoundItemsLayout | script.js:67-69 | the found groups' labels in solve order are four per group, distinct, and exactly the labels of those groups |
| Session.FoundItemsAreLocked | script.js:66-69 | in a consistent session, the found groups' labels are exactly the locked labels, all of them labels of the puzzle |
| Session.BoardHoldsEachItemOnce | script.js:66-72 | the board order lists every label of the puzzle, each once |
| Session.BoardShowsEachItemOnce | script.js:66-72 | the board order has sixteen tiles; position i holds a locked label exactly when i lies within the found groups' prefix |
| Session.Enumerate | script.js:194 | the listing of the selection holds each selected label once and nothing else |
| Session.AddAll | script.js:201 | adding the labels of a list one by one to a set yields the union of the set and the list's labels |
| Session.OverlapIsIntersection | script.js:182-184 | for a listing of distinct labels, the overlap counter equals the size of the intersection with the group's labels |
| Session.CountBestMatch | script.js:176-188 | best bounds the overlap of every unsolved group; bestGroup is -1 exactly when best is 0; otherwise bestGroup is an unsolved group reaching best, and every earlier unsolved group stays below it |
| Session.SameGroupTest | script.js:194-196 | the same-group test succeeds exactly when the four selected labels are an unsolved group, whichever label is listed first; the group it names is then that group |
| Session.CompletedGroupUnique | script.js:195-196 | a selection of four completes at most one unsolved group |
| Session.AppendSolved | script.js:199-200 | appending an unsolved group to the solve order keeps it duplicate-free and in step with the solved set, which grows by one |
| Session.SolveStepKeepsInv | script.js:198-211 | a correct guess keeps the session consistent, solves exactly one more group, and ends the game exactly when four groups are solved |
| Session.MissStepKeepsInv | script.js:212-220 | a wrong guess keeps the session consistent, and the game is over exactly when the fourth mistake is reached |
| Session.SubmitProgresses | script.js:190-220 | every enabled submit raises solved groups plus mistakes by one, from at most six: at most seven submits take effect in a game |
| Session.SelectionKeepsInv | script.js:155-168 | any selection of at most four unlocked puzzle labels keeps the session consistent |
| Session.FullOverlapIffCompletes | script.js:182-185 | a selection of four shares at most four labels with an unsolved group, and all four exactly when it is that group |
| Session.BestMatchIsClosest | script.js:213-216 | after a wrong guess, the reported best overlap is below four; no unsolved group overlaps more; some unsolved group overlaps that much unless it is 0 |
| Game.Game.Start | script.js:257-272 | the new session is consistent: the tile order is a rearrangement of the flattened labels; nothing is selected, locked or solved; no mistakes; the game is running |
| Game.Game.ToggleSelect | script.js:155-168 | a locked label changes nothing; a selected label is removed; a fifth label is refused with the limit message; otherwise the label is added; at most four are ever selected and the session stays consistent |
| Game.Game.EndGame | script.js:225-236 | the game is over, with the won or lost message |
| Game.Game.Submit | script.js:190-223 | a disabled submit changes nothing; a correct guess leads to the solve step of the group it completes and reports the group or the win; a wrong guess leads to the miss step and reports the closest overlap or the loss; the session stays consistent |
| Game.Game.Judge | script.js:194-222 | with submit enabled: a correct guess leads to the solve step of the group it completes and reports the group or the win; a wrong guess leads to the miss step and reports the closest overlap or the loss; the session stays consistent |
| Game.Game.SolveGroup | script.js:198-211 | the fields become the solve step of the group: solved, appended, its labels locked, the selection cleared, over at the fourth group; the message names the group or the win |
| Game.Game.CountMistake | script.js:212-220 | the fields become the miss step: one more mistake, nothing else changed except the over flag; the message is the closest overlap or the loss |
| Game.Game.DeselectAll | script.js:238-242 | the selection is empty and the session stays consistent, whatever the game-over flag |
| Game.Game.DoShuffle | script.js:244-255 | the new tile order is a rearrangement of the old one with the locked labels filtered out; nothing else changes, and the session stays consistent |
| Game.NewGame | script.js:257-285 | fails with "No puzzles configured." exactly when the list is empty; otherwise returns a fresh, consistent session for one of the configured puzzles, with nothing selected or solved, no mistakes, the game running |

## Left out

- Drawing: tile buttons, CSS classes, difficulty colours, the found-group
  cards, the solution reveal sorted by difficulty, the mistake counter text
  and button enabling (script.js:56-153, script.js:225-236). These are
  presentation. Only the board order that `renderBoard` computes is modelled.
- Messages are values of the `Message` datatype, and a command returns the
  last one it sets. The start message "Select 4 tiles to start." of
  `newGame` and the submit label "Submit (n/4)" are not modelled.
- Event wiring and the help dialog (script.js:287-299) are interface plumbing.
- The external puzzle list (script.js:3) is a parameter of `NewGame`,
  required to hold well-formed puzzles.
- The session before the first `newGame` (`state = null`) does not exist
  here: a `Game` object exists only once `Start` has built it.
- Game.Game.ToggleSelect: requires the label to be one of the puzzle's. The
  only caller is a tile's click handler (script.js:89), and tiles show only
  puzzle labels.
- Shuffling.Shuffle: does not model that each swap partner is uniformly
  distributed; any partner in range is allowed.
- Puzzles.PickPuzzle: does not model the uniform random choice; any
  configured puzzle may be returned. It also does not model the deep copy
  (script.js:39), because puzzle values here are immutable.
- Session.Enumerate: does not model the insertion order of the selection
  set. Session.SameGroupTest shows that the outcome of `submit` does not
  depend on which label is listed first.
