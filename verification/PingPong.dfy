/** Which of two cursor buffers is on screen, and which is safe to draw into. */
module PingPongs {

  /** What a pair of buffers remembers. */
  datatype Pair = Pair(active: nat, drawn: bool, single: bool) {
    predicate Valid() {
      active < 2 && (single ==> active == 0 && !drawn)
    }

    /** Where drawing disturbs nothing on screen, if there is a choice. */
    function DrawTarget(): nat
      requires Valid()
    {
      if single then active else 1 - active
    }

    /** The buffer the next commit should show. */
    function CommitTarget(): nat
      requires Valid()
    {
      if drawn && !single then 1 - active else active
    }

    function Drawn(): Pair {
      if single then this else this.(drawn := true)
    }

    function Published(): Pair
      requires Valid()
    {
      if drawn then Pair(1 - active, false, single) else this
    }
  }

  class PingPong {
    var active: nat
    var drawn: bool
    var single: bool

    ghost function State(): Pair
      reads this
    {
      Pair(active, drawn, single)
    }

    constructor (single: bool)
      ensures State() == Pair(0, false, single)
    {
      active, drawn := 0, false;
      this.single := single;
    }

    method DrawTarget() returns (buffer: nat)
      requires State().Valid()
      ensures buffer == State().DrawTarget() < 2
      ensures !single ==> buffer != active
    {
      buffer := if single then active else 1 - active;
    }

    method CommitTarget() returns (buffer: nat)
      requires State().Valid()
      ensures buffer == State().CommitTarget() < 2
    {
      buffer := if drawn && !single then 1 - active else active;
    }

    method MarkDrawn()
      requires State().Valid()
      modifies this
      ensures State() == old(State().Drawn()) && State().Valid()
    {
      if !single {
        drawn := true;
      }
    }

    method Published()
      requires State().Valid()
      modifies this
      ensures State() == old(State().Published()) && State().Valid()
    {
      if drawn {
        active := 1 - active;
        drawn := false;
      }
    }
  }

  // ----- Runs

  /** A commit lands or is refused. One the pair does not own is reported as landed either way. */
  datatype Event = Draw | Commit(landed: bool, reported: bool)

  /** The pair, the buffer the display is reading, and the one last drawn into. */
  datatype World = World(pair: Pair, scanout: nat, newest: nat) {
    function Next(e: Event): World
      requires pair.Valid()
    {
      match e
      case Draw => World(pair.Drawn(), scanout, pair.DrawTarget())
      case Commit(landed, reported) =>
        World(if reported then pair.Published() else pair, if landed then pair.CommitTarget() else scanout, newest)
    }

    /** The display reads the live buffer, and the newest picture is what the next commit shows. */
    predicate InStep() {
      pair.Valid() && scanout == pair.active && newest == pair.CommitTarget()
    }
  }

  predicate Honest(run: seq<Event>) {
    forall i :: 0 <= i < |run| && run[i].Commit? ==> run[i].landed == run[i].reported
  }

  function Run(w: World, run: seq<Event>): (after: World)
    requires w.pair.Valid()
    ensures after.pair.Valid()
  {
    if run == [] then w else Run(w, run[..|run| - 1]).Next(run[|run| - 1])
  }

  /** While commits are reported as they went, refusals included, no draw touches the buffer on
      screen, and a commit that lands shows the newest picture. */
  lemma {:induction false} HonestRunsStayInStep(w: World, run: seq<Event>)
    requires w.InStep() && Honest(run)
    ensures Run(w, run).InStep()
    ensures !w.pair.single ==> !Run(w, run).pair.single && Run(w, run).pair.DrawTarget() != Run(w, run).scanout
    ensures Run(w, run + [Commit(true, true)]).scanout == Run(w, run).newest
  {
    if run != [] {
      HonestRunsStayInStep(w, run[..|run| - 1]);
      StaysInStep(Run(w, run[..|run| - 1]), run[|run| - 1]);
    }
    StaysInStep(Run(w, run), Commit(true, true));
    assert (run + [Commit(true, true)])[..|run|] == run;
  }

  lemma StaysInStep(w: World, e: Event)
    requires w.InStep() && (e.Commit? ==> e.landed == e.reported)
    ensures w.Next(e).InStep() && w.Next(e).pair.single == w.pair.single
    ensures !w.pair.single ==> w.pair.DrawTarget() != w.scanout && w.Next(e).pair.DrawTarget() != w.Next(e).scanout
    ensures e == Commit(true, true) ==> w.Next(e).scanout == w.newest
  {}

  /** A refused commit reported as landed puts the display out of step exactly when a picture was
      waiting; the next draw then goes where the display is reading. */
  lemma FalseReportTearsIff(w: World)
    requires w.InStep() && !w.pair.single
    ensures
      var after := w.Next(Commit(false, true));
      (after.pair.DrawTarget() == after.scanout <==> w.pair.drawn) && (after.InStep() <==> !w.pair.drawn)
  {}

  /** A picture waiting, a commit refused and reported as landed: the display reads buffer 0, and the
      next draw goes there. */
  lemma FalseReportExample()
    ensures
      var w := World(Pair(0, true, false), 0, 1);
      var after := w.Next(Commit(false, true));
      w.InStep() && after.scanout == 0 && after.pair.DrawTarget() == 0
  {}

  /** Drawing between staging a commit and its landing: what lands is what was staged, while the pair
      takes the landing for the newer picture. The next draw then goes where the display is reading
      exactly when nothing was waiting at staging. */
  lemma DrawnWhileStagedIff(w: World)
    requires w.InStep() && !w.pair.single
    ensures
      var staged := w.pair.CommitTarget();
      var pair := w.Next(Draw).pair.Published();
      && (pair.DrawTarget() == staged <==> !w.pair.drawn)
      && (pair.active == staged <==> w.pair.drawn)
  {}

  /** However commits were reported, one that lands and is reported puts the pair back in step. */
  lemma {:induction false} LandedCommitRecovers(w: World, run: seq<Event>)
    requires w.InStep() && !w.pair.single
    ensures Run(w, run).newest == Run(w, run).pair.CommitTarget() && !Run(w, run).pair.single
    ensures Run(w, run + [Commit(true, true)]).InStep()
  {
    if run != [] {
      LandedCommitRecovers(w, run[..|run| - 1]);
    }
    assert (run + [Commit(true, true)])[..|run|] == run;
  }
}
