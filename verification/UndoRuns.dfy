/**
 Whole runs of the editing handlers: any sequence of updates, rollbacks and other logged requests by any
 users, from blank cells.
 */
module UndoRuns {
  import opened Common
  import opened Text
  import opened UndoLog

  datatype Step =
    | Edit(user: string, cell: CellId, value: string)
    | Undo(user: string, file: string, locked: bool)
    | Skip

  datatype World = World(log: seq<Record>, cells: Cells)

  function Start(): World {
    World([], _ => Repeat(' ', BLOCK))
  }

  /** One request. An update of a cell without a gap crashes, and a rollback that finds nothing, finds a
      conflict or finds the cell locked changes nothing. */
  ghost function Next(w: World, step: Step): World {
    match step
    case Edit(user, x, value) =>
      if OldValue(w.cells(x)).Some? && |value| <= |w.cells(x)| then
        World(w.log + [Update(user, x, OldValue(w.cells(x)).value, value)], Written(w.cells, x, Overlay(w.cells(x), value)))
      else w
    case Undo(user, file, locked) =>
      (match Scan(w.log, |w.log|, user, file, 0)
       case None => w
       case Some(t) => if locked || t >= |w.log| || Conflict(w.log, t) then w else Undone(w, user, file, t))
    case Skip => w.(log := w.log + [Other])
  }

  ghost function Undone(w: World, user: string, file: string, t: nat): World
    requires t < |w.log|
  {
    if w.log[t].Update? && |Padded(w.log[t].before, w.log[t].after)| <= |w.cells(w.log[t].cell)| then
      var x := w.log[t].cell;
      World(w.log + [Rollback(user, file)],
            Written(w.cells, x, Overlay(w.cells(x), Padded(w.log[t].before, w.log[t].after))))
    else w
  }

  ghost function After(steps: seq<Step>): World {
    if steps == [] then Start() else Next(After(steps[..|steps| - 1]), steps[|steps| - 1])
  }

  /** What each logged update found and left in its cell. */
  ghost function Snaps(steps: seq<Step>): seq<Snap> {
    if steps == [] then []
    else
      var n := |steps| - 1;
      var w, w' := After(steps[..n]), After(steps);
      if |w'.log| == |w.log| then Snaps(steps[..n])
      else if steps[n].Edit? then Snaps(steps[..n]) + [Snap(w.cells(steps[n].cell), w'.cells(steps[n].cell))]
      else Snaps(steps[..n]) + [Snap("", "")]
  }

  /** Every value written is one that the cell format can hold. */
  ghost predicate Fine(steps: seq<Step>) {
    forall i :: 0 <= i < |steps| && steps[i].Edit? ==> ValidValue(steps[i].value)
  }

  lemma StartConsistent()
    ensures Consistent([], [], Start().cells)
  {
    var blank := Repeat(' ', BLOCK);
    GapAt(blank, 0);
    IndexUnique(blank, GAP, 0);
    assert Canonical(blank);
  }

  lemma TopOfStack(log: seq<Record>, user: string, file: string)
    ensures var s := Stack(log, user, file);
      && Scan(log, |log|, user, file, 0) == (if s == [] then None else Some(s[|s| - 1]))
      && (s != [] ==> s[|s| - 1] < |log| && Pushes(log[s[|s| - 1]], user, file))
  {
    ScanFindsStack(log, |log|, user, file, 0);
    assert log[..|log|] == log;
    StackOrdered(log, user, file);
  }

  /** What an unlocked rollback without conflict does. */
  lemma UndoStep(w: World, snaps: seq<Snap>, user: string, file: string)
    requires Consistent(w.log, snaps, w.cells)
    requires var s := Stack(w.log, user, file); s != [] && !Conflict(w.log, s[|s| - 1])
    ensures var s := Stack(w.log, user, file); var t := s[|s| - 1];
      && t < |w.log| == |snaps| && Pushes(w.log[t], user, file) && w.cells(w.log[t].cell) == snaps[t].after
      && Next(w, Undo(user, file, false)) ==
         World(w.log + [Rollback(user, file)], Written(w.cells, w.log[t].cell, snaps[t].before))
      && Consistent(w.log + [Rollback(user, file)], snaps + [Snap("", "")], Written(w.cells, w.log[t].cell, snaps[t].before))
  {
    hide Consistent, Conflict, Stack, Scan;
    TopOfStack(w.log, user, file);
    ConsistentLength(w.log, snaps, w.cells);
    RollbackKeeps(w.log, snaps, w.cells, user, file);
  }

  lemma ConsistentLength(log: seq<Record>, snaps: seq<Snap>, cells: Cells)
    requires Consistent(log, snaps, cells)
    ensures |snaps| == |log| && forall x :: |cells(x)| == BLOCK
  {
    forall x ensures |cells(x)| == BLOCK {
      assert Canonical(cells(x));
    }
  }

  /** In every run the log, the cells and what the updates found and left fit together. */
  lemma {:induction false} RunConsistent(steps: seq<Step>)
    requires Fine(steps)
    ensures Consistent(After(steps).log, Snaps(steps), After(steps).cells)
  {
    hide Consistent, Conflict, Stack, Scan, ValidValue;
    if steps == [] {
      StartConsistent();
    } else {
      var n := |steps| - 1;
      RunConsistent(steps[..n]);
      StepConsistent(After(steps[..n]), Snaps(steps[..n]), steps[n]);
    }
  }

  ghost function SnapOf(w: World, step: Step): Snap {
    if step.Edit? then Snap(w.cells(step.cell), Next(w, step).cells(step.cell)) else Snap("", "")
  }

  lemma StepConsistent(w: World, snaps: seq<Snap>, step: Step)
    requires Consistent(w.log, snaps, w.cells) && (step.Edit? ==> ValidValue(step.value))
    ensures var w' := Next(w, step);
      Consistent(w'.log, if |w'.log| == |w.log| then snaps else snaps + [SnapOf(w, step)], w'.cells)
  {
    hide Consistent, Conflict, Stack, Scan, ValidValue;
    match step
    case Edit(user, x, value) =>
      UpdateKeeps(w.log, snaps, w.cells, user, x, value);
      ConsistentLength(w.log, snaps, w.cells);
      ValidIsShort(value);
    case Undo(user, file, locked) =>
      TopOfStack(w.log, user, file);
      var s := Stack(w.log, user, file);
      if s != [] && !locked && !Conflict(w.log, s[|s| - 1]) {
        UndoStep(w, snaps, user, file);
        assert Next(w, step) == Next(w, Undo(user, file, false));
      }
    case Skip => OtherKeeps(w.log, snaps, w.cells);
  }

  lemma ValidIsShort(value: string)
    requires ValidValue(value)
    ensures |value| <= BLOCK
  {}

  /** Step i of the run is the update that became entry t of the log. */
  ghost predicate Made(steps: seq<Step>, i: nat, t: nat) {
    && i < |steps| && steps[i].Edit? && |After(steps[..i]).log| == t < |After(steps).log|
    && After(steps).log[t].Update? && After(steps).log[t].cell == steps[i].cell && After(steps).log[t].user == steps[i].user
    && After(steps).log[t].after == steps[i].value
  }

  lemma NextGrows(w: World, step: Step)
    ensures w.log <= Next(w, step).log && |Next(w, step).log| <= |w.log| + 1
    ensures |Next(w, step).log| > |w.log| ==> (Next(w, step).log[|w.log|].Update? <==> step.Edit?)
  {
    hide Scan, Conflict;
  }

  /** Each logged update comes from one step, and its snapshot is what the run shows around that step. */
  lemma {:induction false} SnapsTrue(steps: seq<Step>, t: nat) returns (i: nat)
    requires t < |After(steps).log| == |Snaps(steps)| && After(steps).log[t].Update?
    requires forall k: nat :: k <= |steps| ==> |Snaps(steps[..k])| == |After(steps[..k]).log|
    ensures Made(steps, i, t)
    ensures After(steps[..i]).cells(steps[i].cell) == Snaps(steps)[t].before
    ensures After(steps[..i + 1]).cells(steps[i].cell) == Snaps(steps)[t].after
  {
    hide Next, After, Snaps;
    NoSteps();
    var n := |steps| - 1;
    var prefix := steps[..n];
    LastStep(steps);
    NextGrows(After(prefix), steps[n]);
    assert steps[..|steps|] == steps;
    assert |Snaps(steps[..n])| == |After(steps[..n]).log|;
    if t < |After(prefix).log| {
      forall k: nat | k <= n ensures |Snaps(prefix[..k])| == |After(prefix[..k]).log| {
        assert prefix[..k] == steps[..k];
      }
      assert After(prefix).log[t] == After(steps).log[t];
      i := SnapsTrue(prefix, t);
      assert prefix[..i] == steps[..i] && prefix[..i + 1] == steps[..i + 1];
    } else {
      i := n;
      LoggedEdit(After(prefix), steps[n]);
    }
  }

  lemma NoSteps()
    ensures After([]).log == []
  {}

  lemma LastStep(steps: seq<Step>)
    requires steps != []
    ensures var n := |steps| - 1; var w := After(steps[..n]);
      && After(steps) == Next(w, steps[n])
      && Snaps(steps) == if |After(steps).log| == |w.log| then Snaps(steps[..n])
                         else Snaps(steps[..n]) + [SnapOf(w, steps[n])]
  {
    hide Next;
  }

  lemma LoggedEdit(w: World, step: Step)
    requires step.Edit? && |Next(w, step).log| > |w.log|
    ensures var r := Next(w, step).log[|w.log|]; r.Update? && r.cell == step.cell && r.user == step.user && r.after == step.value
  {}

  lemma Lengths(steps: seq<Step>)
    requires Fine(steps)
    ensures forall k: nat :: k <= |steps| ==> |Snaps(steps[..k])| == |After(steps[..k]).log|
  {
    hide Consistent;
    forall k: nat | k <= |steps| ensures |Snaps(steps[..k])| == |After(steps[..k]).log| {
      RunConsistent(steps[..k]);
      ConsistentLength(After(steps[..k]).log, Snaps(steps[..k]), After(steps[..k]).cells);
    }
  }

  /** In every run, a rollback that is free of conflict finds the cell exactly as its target, step i, left it,
      puts back byte for byte what the cell held before that step, and changes no other cell. */
  lemma UndoRestores(steps: seq<Step>, user: string, file: string) returns (i: nat)
    requires Fine(steps)
    requires var s := Stack(After(steps).log, user, file); s != [] && !Conflict(After(steps).log, s[|s| - 1])
    ensures var s := Stack(After(steps).log, user, file); Made(steps, i, s[|s| - 1])
    ensures steps[i].user == user && steps[i].cell.file == file
    ensures After(steps).cells(steps[i].cell) == After(steps[..i + 1]).cells(steps[i].cell)
    ensures var then_ := Next(After(steps), Undo(user, file, false));
      forall y :: then_.cells(y) == if y == steps[i].cell then After(steps[..i]).cells(y) else After(steps).cells(y)
  {
    hide Consistent, Stack, Conflict, Next, Scan, After, Snaps, Fine;
    var w := After(steps);
    RunConsistent(steps);
    UndoStep(w, Snaps(steps), user, file);
    var s := Stack(w.log, user, file);
    Lengths(steps);
    i := SnapsTrue(steps, s[|s| - 1]);
  }
}
