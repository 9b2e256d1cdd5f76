/** Applying the hunks of a unified diff to the lines of a file. */
module PatchApply {
  import opened Text

  type Line = string

  /** `oldStart` is the line number the hunk states, from 1. */
  datatype Hunk = Hunk(oldStart: nat, oldLines: seq<Line>, newLines: seq<Line>) {
    /** The index at which the hunk expects its old side in the original file. */
    function Start(): nat { if oldStart == 0 then 0 else oldStart - 1 }
  }

  predicate Fits(lines: seq<Line>, oldLines: seq<Line>, at: int) {
    0 <= at && at + |oldLines| <= |lines| && lines[at..at + |oldLines|] == oldLines
  }

  function Distance(a: int, b: int): nat { if a < b then b - a else a - b }

  // ---------- The search ----------

  /** Looks `d` lines after and then `d` lines before the expected one, for growing `d`. */
  function Search(lines: seq<Line>, oldLines: seq<Line>, expected: nat, d: nat): (r: Option<nat>)
    requires d <= |lines| + 1
    ensures r.Some? ==> Fits(lines, oldLines, r.value)
    decreases |lines| + 1 - d
  {
    if d == |lines| + 1 then None
    else if Fits(lines, oldLines, expected + d) then Some(expected + d)
    else if d <= expected && Fits(lines, oldLines, expected - d) then Some(expected - d)
    else Search(lines, oldLines, expected, d + 1)
  }

  function Find(lines: seq<Line>, oldLines: seq<Line>, expected: nat): (r: Option<nat>)
    ensures r.Some? ==> Fits(lines, oldLines, r.value)
  {
    Search(lines, oldLines, expected, 0)
  }

  /** `at` is a match nearest to the expected line, the later of two equally near. */
  ghost predicate Nearest(lines: seq<Line>, oldLines: seq<Line>, expected: nat, at: nat) {
    Fits(lines, oldLines, at) && forall other | Fits(lines, oldLines, other) ::
      || Distance(at, expected) < Distance(other, expected)
      || (Distance(at, expected) == Distance(other, expected) && other <= at)
  }

  lemma {:induction false} SearchIsNearest(lines: seq<Line>, oldLines: seq<Line>, expected: nat, d: nat)
    requires d <= |lines| + 1
    requires forall at | Fits(lines, oldLines, at) :: d <= Distance(at, expected)
    ensures match Search(lines, oldLines, expected, d)
            case None => forall at | Fits(lines, oldLines, at) :: |lines| < Distance(at, expected)
            case Some(at) => Nearest(lines, oldLines, expected, at) && Distance(at, expected) <= |lines|
    decreases |lines| + 1 - d
  {
    if d <= |lines| && !Fits(lines, oldLines, expected + d) && !Fits(lines, oldLines, expected - d) {
      SearchIsNearest(lines, oldLines, expected, d + 1);
    }
  }

  lemma FindIsNearest(lines: seq<Line>, oldLines: seq<Line>, expected: nat, at: nat)
    ensures Find(lines, oldLines, expected) == Some(at)
       <==> Nearest(lines, oldLines, expected, at) && Distance(at, expected) <= |lines|
  {
    SearchIsNearest(lines, oldLines, expected, 0);
  }

  /** The search finds whatever there is to find exactly when it is told to look inside the file. */
  lemma FindIsComplete(lines: seq<Line>, expected: nat)
    ensures (forall oldLines, at | Fits(lines, oldLines, at) :: Find(lines, oldLines, expected).Some?) <==> expected <= |lines|
  {
    forall oldLines, at | Fits(lines, oldLines, at) && expected <= |lines|
      ensures Find(lines, oldLines, expected).Some?
    {
      SearchIsNearest(lines, oldLines, expected, 0);
    }
    if expected > |lines| {
      SearchIsNearest(lines, lines, expected, 0);
      assert Fits(lines, lines, 0);
      forall at | Fits(lines, lines, at) ensures at == 0 {
      }
    }
  }

  /** A match the search misses: the only line of a file, looked for at line six. */
  lemma FindMissesPastTheEnd()
    ensures Fits(["x"], ["x"], 0) && Find(["x"], ["x"], 5).None?
  {
    SearchIsNearest(["x"], ["x"], 5, 0);
    assert !Fits(["x"], ["x"], 5) && !Fits(["x"], ["x"], 6) && !Fits(["x"], ["x"], 4);
  }

  // ---------- Applying ----------

  function Splice(lines: seq<Line>, at: nat, count: nat, newLines: seq<Line>): seq<Line>
    requires at + count <= |lines|
  {
    lines[..at] + newLines + lines[at + count..]
  }

  function Expected(h: Hunk, drift: int): nat {
    if h.Start() + drift < 0 then 0 else h.Start() + drift
  }

  /** Hunk after hunk; the error is the line number the failing hunk states. */
  function Apply(lines: seq<Line>, hunks: seq<Hunk>, drift: int): Result<seq<Line>, nat>
    decreases |hunks|
  {
    if hunks == [] then Ok(lines)
    else
      var h := hunks[0];
      match Find(lines, h.oldLines, Expected(h, drift))
      case None => Err(h.oldStart)
      case Some(at) =>
        Apply(Splice(lines, at, |h.oldLines|, h.newLines), hunks[1..],
              drift + (at - Expected(h, drift)) + |h.newLines| - |h.oldLines|)
  }

  lemma ApplyStep(lines: seq<Line>, hunks: seq<Hunk>, i: nat, drift: int)
    requires i < |hunks|
    ensures var h := hunks[i];
            Apply(lines, hunks[i..], drift)
            == match Find(lines, h.oldLines, Expected(h, drift))
               case None => Err(h.oldStart)
               case Some(at) =>
                 Apply(Splice(lines, at, |h.oldLines|, h.newLines), hunks[i + 1..],
                       drift + (at - Expected(h, drift)) + |h.newLines| - |h.oldLines|)
  {
    hide Find;
    assert hunks[i..][0] == hunks[i] && hunks[i..][1..] == hunks[i + 1..];
  }

  lemma ApplyNothing(lines: seq<Line>, drift: int)
    ensures Apply(lines, [], drift) == Ok(lines)
  {
  }

  method ApplyHunks(original: seq<Line>, hunks: seq<Hunk>) returns (r: Result<seq<Line>, nat>)
    ensures r == Apply(original, hunks, 0)
  {
    hide Find, Apply;
    var lines := original;
    var drift := 0;
    assert hunks[0..] == hunks;
    for i := 0 to |hunks|
      invariant Apply(lines, hunks[i..], drift) == Apply(original, hunks, 0)
    {
      var h := hunks[i];
      var expected := Expected(h, drift);
      var found := Find(lines, h.oldLines, expected);
      ApplyStep(lines, hunks, i, drift);
      if found.None? {
        return Err(h.oldStart);
      }
      lines := Splice(lines, found.value, |h.oldLines|, h.newLines);
      drift := drift + (found.value - expected) + |h.newLines| - |h.oldLines|;
    }
    ApplyNothing(lines, drift);
    assert hunks[|hunks|..] == [];
    r := Ok(lines);
  }

  // ---------- All hunks at once ----------

  /** The hunks are in order, do not overlap, and match the file where they say, from `from` on. */
  predicate Placed(lines: seq<Line>, hunks: seq<Hunk>, from: nat) {
    if hunks == [] then from <= |lines|
    else
      && from <= hunks[0].Start() && Fits(lines, hunks[0].oldLines, hunks[0].Start())
      && Placed(lines, hunks[1..], hunks[0].Start() + |hunks[0].oldLines|)
  }

  /** The file from `from` on with every hunk's range of the original replaced. */
  function ReplaceAll(lines: seq<Line>, hunks: seq<Hunk>, from: nat): seq<Line>
    requires Placed(lines, hunks, from)
  {
    if hunks == [] then lines[from..]
    else
      var h := hunks[0];
      lines[from..h.Start()] + h.newLines + ReplaceAll(lines, hunks[1..], h.Start() + |h.oldLines|)
  }

  /** One hunk where it says, in a text that so far reads `done` for what came before `from`. */
  lemma PlaceOne(current: seq<Line>, lines: seq<Line>, h: Hunk, from: nat, done: seq<Line>)
    returns (at: nat, next: seq<Line>, done': seq<Line>)
    requires from <= h.Start() && Fits(lines, h.oldLines, h.Start())
    requires current == done + lines[from..]
    ensures at == Expected(h, |done| - from) && Find(current, h.oldLines, at) == Some(at)
    ensures done' == done + lines[from..h.Start()] + h.newLines
    ensures |done'| == |done| + (h.Start() - from) + |h.newLines|
    ensures next == Splice(current, at, |h.oldLines|, h.newLines) == done' + lines[h.Start() + |h.oldLines|..]
  {
    var end := h.Start() + |h.oldLines|;
    at := |done| + (h.Start() - from);
    assert current[at..at + |h.oldLines|] == lines[h.Start()..end];
    assert Fits(current, h.oldLines, at);
    assert current[..at] == done + lines[from..h.Start()];
    assert current[at + |h.oldLines|..] == lines[end..];
    done' := done + lines[from..h.Start()] + h.newLines;
    next := Splice(current, at, |h.oldLines|, h.newLines);
  }

  /** With the text before `from` already rewritten, the drift is what that rewriting added. */
  lemma {:induction false} ApplyPlacedFrom(
    current: seq<Line>, lines: seq<Line>, hunks: seq<Hunk>, from: nat, done: seq<Line>)
    returns (replaced: seq<Line>)
    requires from <= |lines| && Placed(lines, hunks, from) && current == done + lines[from..]
    ensures replaced == ReplaceAll(lines, hunks, from)
    ensures Apply(current, hunks, |done| - from) == Ok(done + replaced)
    decreases |hunks|
  {
    hide Find, Apply;
    replaced := ReplaceAll(lines, hunks, from);
    if hunks == [] {
      ApplyNothing(current, |done| - from);
    } else {
      var h := hunks[0];
      var end := h.Start() + |h.oldLines|;
      var at, next, done' := PlaceOne(current, lines, h, from, done);
      var rest := ApplyPlacedFrom(next, lines, hunks[1..], end, done');
      ApplyOne(current, hunks, |done| - from, at, |done'| - end);
      ReplaceOne(lines, hunks, from, done, done', rest);
    }
  }

  lemma ApplyOne(lines: seq<Line>, hunks: seq<Hunk>, drift: int, at: nat, drift': int)
    requires hunks != [] && at == Expected(hunks[0], drift)
    requires Find(lines, hunks[0].oldLines, at) == Some(at)
    requires drift' == drift + |hunks[0].newLines| - |hunks[0].oldLines|
    ensures Apply(lines, hunks, drift)
         == Apply(Splice(lines, at, |hunks[0].oldLines|, hunks[0].newLines), hunks[1..], drift')
  {
  }

  lemma ReplaceOne(lines: seq<Line>, hunks: seq<Hunk>, from: nat, done: seq<Line>, done': seq<Line>, rest: seq<Line>)
    requires hunks != [] && Placed(lines, hunks, from)
    requires done' == done + lines[from..hunks[0].Start()] + hunks[0].newLines
    requires rest == ReplaceAll(lines, hunks[1..], hunks[0].Start() + |hunks[0].oldLines|)
    ensures done' + rest == done + ReplaceAll(lines, hunks, from)
  {
    var kept, put := lines[from..hunks[0].Start()], hunks[0].newLines;
    assert ReplaceAll(lines, hunks, from) == kept + put + rest;
    assert done + kept + put + rest == done + (kept + put + rest);
  }

  /** Ordered, disjoint hunks that match where they say replace their ranges all at once. */
  lemma ApplyPlaced(lines: seq<Line>, hunks: seq<Hunk>)
    requires Placed(lines, hunks, 0)
    ensures Apply(lines, hunks, 0) == Ok(ReplaceAll(lines, hunks, 0))
  {
    hide Apply, ReplaceAll, Placed;
    assert lines == [] + lines[0..];
    var replaced := ApplyPlacedFrom(lines, lines, hunks, 0, []);
    assert [] + replaced == replaced;
  }

  // ---------- Hunks that are all displaced ----------

  /** Every hunk moved by `d` lines. */
  function Moved(hunks: seq<Hunk>, d: int): seq<Hunk>
    requires forall i | 0 <= i < |hunks| :: 0 <= hunks[i].Start() + d
  {
    if hunks == [] then []
    else [Hunk(hunks[0].Start() + d + 1, hunks[0].oldLines, hunks[0].newLines)] + Moved(hunks[1..], d)
  }

  /** Once the drift has taken in a displacement, the rest goes as if it stood displaced. */
  lemma {:induction false} MovedByDrift(lines: seq<Line>, hunks: seq<Hunk>, d: int, drift: int)
    requires forall i | 0 <= i < |hunks| :: 0 <= hunks[i].Start() + d
    requires Apply(lines, Moved(hunks, d), drift).Ok?
    ensures Apply(lines, hunks, d + drift) == Apply(lines, Moved(hunks, d), drift)
    decreases |hunks|
  {
    hide Find;
    if hunks != [] {
      var moved := Moved(hunks, d);
      var h, m := hunks[0], moved[0];
      assert moved[1..] == Moved(hunks[1..], d) && Expected(h, d + drift) == Expected(m, drift);
      var at := Find(lines, h.oldLines, Expected(m, drift)).value;
      MovedByDrift(Splice(lines, at, |h.oldLines|, h.newLines), hunks[1..], d,
                   drift + (at - Expected(m, drift)) + |h.newLines| - |h.oldLines|);
    }
  }

  /**
   Hunks that all match a fixed distance from where they say, the first of them being found there, replace
   their ranges there all at once: the first one's displacement carries over to the others.
  */
  lemma ApplyDisplaced(lines: seq<Line>, hunks: seq<Hunk>, d: int)
    requires hunks != [] && forall i | 0 <= i < |hunks| :: 0 <= hunks[i].Start() + d
    requires Placed(lines, Moved(hunks, d), 0)
    requires Find(lines, hunks[0].oldLines, hunks[0].Start()) == Some(hunks[0].Start() + d)
    ensures Apply(lines, hunks, 0) == Ok(ReplaceAll(lines, Moved(hunks, d), 0))
  {
    hide Find, ReplaceAll, Placed, Apply, Splice, Moved;
    var moved := Moved(hunks, d);
    var h, at := hunks[0], hunks[0].Start() + d;
    MovedFirst(hunks, d);
    FoundThere(lines, h.oldLines, at);
    ApplyPlaced(lines, moved);
    ApplyFound(lines, moved, 0, at);
    ApplyFound(lines, hunks, 0, at);
    hide Fits;
    MovedByDrift(Splice(lines, at, |h.oldLines|, h.newLines), hunks[1..], d, |h.newLines| - |h.oldLines|);
  }

  lemma MovedFirst(hunks: seq<Hunk>, d: int)
    requires hunks != [] && forall i | 0 <= i < |hunks| :: 0 <= hunks[i].Start() + d
    ensures var moved := Moved(hunks, d);
            && moved != [] && moved[0].Start() == hunks[0].Start() + d
            && moved[0].oldLines == hunks[0].oldLines && moved[0].newLines == hunks[0].newLines
            && moved[1..] == Moved(hunks[1..], d)
  {
  }

  lemma FoundThere(lines: seq<Line>, oldLines: seq<Line>, at: nat)
    requires Fits(lines, oldLines, at)
    ensures Find(lines, oldLines, at) == Some(at)
  {
  }

  lemma ApplyFound(lines: seq<Line>, hunks: seq<Hunk>, drift: int, at: nat)
    requires hunks != [] && Find(lines, hunks[0].oldLines, Expected(hunks[0], drift)) == Some(at)
    ensures var h := hunks[0];
            Apply(lines, hunks, drift)
            == Apply(Splice(lines, at, |h.oldLines|, h.newLines), hunks[1..],
                     drift + (at - Expected(h, drift)) + |h.newLines| - |h.oldLines|)
  {
    hide Find;
  }

  // ---------- Undoing ----------

  /** The hunks with their sides swapped; what starts `n` after `from` now starts `n` after `to`. */
  function Inverse(hunks: seq<Hunk>, from: nat, to: nat): seq<Hunk> {
    if hunks == [] then []
    else
      var h := hunks[0];
      var start := if from <= h.Start() then to + (h.Start() - from) else to;
      [Hunk(start + 1, h.newLines, h.oldLines)] + Inverse(hunks[1..], h.Start() + |h.oldLines|, start + |h.newLines|)
  }

  /** In `patched` the hunk's new side stands `to` where the original has its old one after `from`. */
  ghost predicate Swapped(patched: seq<Line>, lines: seq<Line>, h: Hunk, from: nat, to: nat)
    requires from <= h.Start() && h.Start() + |h.oldLines| <= |lines|
  {
    var start := to + (h.Start() - from);
    && Fits(patched, h.newLines, start)
    && patched[to..start] + h.oldLines + lines[h.Start() + |h.oldLines|..] == lines[from..]
  }

  /** The hunks placed in `patched` from `to` on turn it into the original from `from` on. */
  ghost predicate Restores(patched: seq<Line>, lines: seq<Line>, hunks: seq<Hunk>, from: nat, to: nat)
    requires from <= |lines|
  {
    Placed(patched, hunks, to) && ReplaceAll(patched, hunks, to) == lines[from..]
  }

  /** The swapped hunk finds its new side in the patched text, and gives back the old. */
  lemma SwapOne(patched: seq<Line>, lines: seq<Line>, h: Hunk, from: nat, done: seq<Line>, done': seq<Line>)
    requires from <= h.Start() && Fits(lines, h.oldLines, h.Start())
    requires done' == done + lines[from..h.Start()] + h.newLines && done' <= patched
    ensures Swapped(patched, lines, h, from, |done|)
    ensures |done'| == |done| + (h.Start() - from) + |h.newLines|
  {
    var start := |done| + (h.Start() - from);
    assert patched[start..start + |h.newLines|] == done'[start..] == h.newLines;
    assert patched[|done|..start] == done'[|done|..start] == lines[from..h.Start()];
  }

  lemma {:induction false} InversePlaced(
    patched: seq<Line>, lines: seq<Line>, hunks: seq<Hunk>, from: nat, done: seq<Line>)
    requires from <= |lines| && Placed(lines, hunks, from) && patched == done + ReplaceAll(lines, hunks, from)
    ensures Restores(patched, lines, Inverse(hunks, from, |done|), from, |done|)
    decreases |hunks|
  {
    if hunks == [] {
      assert patched[|done|..] == lines[from..];
    } else {
      var h := hunks[0];
      var end := h.Start() + |h.oldLines|;
      var done' := done + lines[from..h.Start()] + h.newLines;
      ReplaceOne(lines, hunks, from, done, done', ReplaceAll(lines, hunks[1..], end));
      InversePlaced(patched, lines, hunks[1..], end, done');
      SwapOne(patched, lines, h, from, done, done');
      InverseOne(patched, lines, hunks, Inverse(hunks[1..], end, |done'|), from, |done|, |done'|);
    }
  }

  /** One swapped hunk in front of hunks already known to be swapped. */
  lemma InverseOne(
    patched: seq<Line>, lines: seq<Line>, hunks: seq<Hunk>, rest: seq<Hunk>, from: nat, to: nat, to': nat)
    requires hunks != [] && from <= hunks[0].Start() && Fits(lines, hunks[0].oldLines, hunks[0].Start())
    requires to' == to + (hunks[0].Start() - from) + |hunks[0].newLines|
    requires Swapped(patched, lines, hunks[0], from, to)
    requires rest == Inverse(hunks[1..], hunks[0].Start() + |hunks[0].oldLines|, to')
    requires Restores(patched, lines, rest, hunks[0].Start() + |hunks[0].oldLines|, to')
    ensures Restores(patched, lines, Inverse(hunks, from, to), from, to)
  {
    hide Fits;
    var inverse := Inverse(hunks, from, to);
    assert inverse[1..] == rest;
  }

  /** Applying the swapped hunks, their starts shifted, to the patched file gives the original. */
  lemma UndoPlaced(lines: seq<Line>, hunks: seq<Hunk>)
    requires Placed(lines, hunks, 0)
    ensures Apply(lines, hunks, 0).Ok?
    ensures Apply(Apply(lines, hunks, 0).value, Inverse(hunks, 0, 0), 0) == Ok(lines)
  {
    ApplyPlaced(lines, hunks);
    var patched := ReplaceAll(lines, hunks, 0);
    assert patched == [] + patched;
    InversePlaced(patched, lines, hunks, 0, []);
    ApplyPlaced(patched, Inverse(hunks, 0, 0));
  }

  // ---------- Pure insertions ----------

  /** Where a unified diff means a hunk: without old lines, after the line it names (`-0,0`: before them all). */
  function MeantStart(h: Hunk): nat { if h.oldLines == [] then h.oldStart else h.Start() }

  /** The hunks are in order, do not overlap, and match the file where the diff means them. */
  predicate PlacedAsMeant(lines: seq<Line>, hunks: seq<Hunk>, from: nat) {
    if hunks == [] then from <= |lines|
    else
      && from <= MeantStart(hunks[0]) && Fits(lines, hunks[0].oldLines, MeantStart(hunks[0]))
      && PlacedAsMeant(lines, hunks[1..], MeantStart(hunks[0]) + |hunks[0].oldLines|)
  }

  /** What the diff means: every range replaced where it stands, every insertion after the line it names. */
  function Meant(lines: seq<Line>, hunks: seq<Hunk>, from: nat): seq<Line>
    requires PlacedAsMeant(lines, hunks, from)
  {
    if hunks == [] then lines[from..]
    else
      var h := hunks[0];
      lines[from..MeantStart(h)] + h.newLines + Meant(lines, hunks[1..], MeantStart(h) + |h.oldLines|)
  }

  /** The hunk replaces something, goes before the whole file, or inserts copies of the line it names. */
  predicate Harmless(lines: seq<Line>, h: Hunk) {
    h.oldLines == [] && 1 <= h.oldStart <= |lines| ==>
      forall i | 0 <= i < |h.newLines| :: h.newLines[i] == lines[h.oldStart - 1]
  }

  lemma {:induction false} ShiftedEqual(newLines: seq<Line>, x: Line, early: seq<Line>, late: seq<Line>)
    requires |early| == |late| + 1
    ensures newLines + early == [x] + newLines + late
       <==> early == [x] + late && forall i | 0 <= i < |newLines| :: newLines[i] == x
    decreases |newLines|
  {
    var a, b := newLines + early, [x] + newLines + late;
    if newLines == [] {
      assert a == early && b == [x] + late;
    } else {
      var fewer := newLines[1..];
      ShiftedEqual(fewer, x, early, late);
      assert a == [newLines[0]] + (fewer + early);
      if newLines[0] == x {
        assert b == [x] + ([x] + fewer + late);
        assert (a == b) == (a[1..] == b[1..]) by { assert a == [x] + a[1..] && b == [x] + b[1..]; }
        assert a[1..] == fewer + early && b[1..] == [x] + fewer + late;
        assert forall i | 0 < i < |newLines| :: newLines[i] == fewer[i - 1];
      } else {
        assert a[0] != b[0];
      }
    }
  }

  lemma {:induction false} SameLength(lines: seq<Line>, hunks: seq<Hunk>, from: nat, meantFrom: nat)
    requires from <= meantFrom && Placed(lines, hunks, from) && PlacedAsMeant(lines, hunks, meantFrom)
    ensures from <= |lines| && meantFrom <= |lines|
    ensures |ReplaceAll(lines, hunks, from)| == |Meant(lines, hunks, meantFrom)| + (meantFrom - from)
    decreases |hunks|
  {
    if hunks != [] {
      var h := hunks[0];
      SameLength(lines, hunks[1..], h.Start() + |h.oldLines|, MeantStart(h) + |h.oldLines|);
    }
  }

  /** The hunks do what is meant from some line on, an insertion before perhaps still owing the line it names. */
  predicate AsMeant(lines: seq<Line>, hunks: seq<Hunk>, from: nat, meantFrom: nat)
    requires Placed(lines, hunks, from) && PlacedAsMeant(lines, hunks, meantFrom)
    requires from <= meantFrom <= |lines|
  {
    ReplaceAll(lines, hunks, from) == lines[from..meantFrom] + Meant(lines, hunks, meantFrom)
  }

  lemma {:induction false} MeantFrom(lines: seq<Line>, hunks: seq<Hunk>, from: nat, meantFrom: nat)
    requires from <= meantFrom <= from + 1 && Placed(lines, hunks, from) && PlacedAsMeant(lines, hunks, meantFrom)
    ensures meantFrom <= |lines|
    ensures AsMeant(lines, hunks, from, meantFrom) <==> forall i | 0 <= i < |hunks| :: Harmless(lines, hunks[i])
    decreases |hunks|
  {
    hide AsMeant, Harmless, Fits;
    if hunks == [] {
      NothingMeant(lines, from, meantFrom);
    } else {
      hide Placed, PlacedAsMeant;
      var h := hunks[0];
      PlacedStep(lines, hunks, from, meantFrom);
      MeantFrom(lines, hunks[1..], h.Start() + |h.oldLines|, MeantStart(h) + |h.oldLines|);
      MeantStep(lines, hunks, from, meantFrom);
      HarmlessStep(lines, hunks);
    }
  }

  lemma NothingMeant(lines: seq<Line>, from: nat, meantFrom: nat)
    requires from <= meantFrom <= |lines|
    ensures AsMeant(lines, [], from, meantFrom)
  {
    assert lines[from..] == lines[from..meantFrom] + lines[meantFrom..];
  }

  lemma MeantStep(lines: seq<Line>, hunks: seq<Hunk>, from: nat, meantFrom: nat)
    requires hunks != [] && from <= meantFrom <= from + 1 && meantFrom <= |lines|
    requires Placed(lines, hunks, from) && PlacedAsMeant(lines, hunks, meantFrom)
    ensures var h := hunks[0];
            var early, late := h.Start() + |h.oldLines|, MeantStart(h) + |h.oldLines|;
            && Placed(lines, hunks[1..], early) && PlacedAsMeant(lines, hunks[1..], late) && late <= |lines|
            && (AsMeant(lines, hunks, from, meantFrom)
                <==> Harmless(lines, h) && AsMeant(lines, hunks[1..], early, late))
  {
    hide Fits, Harmless, Placed, PlacedAsMeant;
    var h := hunks[0];
    var early, late := h.Start() + |h.oldLines|, MeantStart(h) + |h.oldLines|;
    PlacedStep(lines, hunks, from, meantFrom);
    SameLength(lines, hunks[1..], early, late);
    hide ReplaceAll, Meant;
    MeantOne(lines, h, from, meantFrom, ReplaceAll(lines, hunks[1..], early), Meant(lines, hunks[1..], late));
  }

  lemma PlacedStep(lines: seq<Line>, hunks: seq<Hunk>, from: nat, meantFrom: nat)
    requires hunks != [] && Placed(lines, hunks, from) && PlacedAsMeant(lines, hunks, meantFrom)
    ensures from <= |lines| && meantFrom <= |lines|
    ensures var h := hunks[0];
            var early, late := h.Start() + |h.oldLines|, MeantStart(h) + |h.oldLines|;
            && from <= h.Start() && meantFrom <= MeantStart(h) && early <= |lines| && late <= |lines|
            && Placed(lines, hunks[1..], early) && PlacedAsMeant(lines, hunks[1..], late)
            && ReplaceAll(lines, hunks, from)
               == lines[from..h.Start()] + h.newLines + ReplaceAll(lines, hunks[1..], early)
            && Meant(lines, hunks, meantFrom)
               == lines[meantFrom..MeantStart(h)] + h.newLines + Meant(lines, hunks[1..], late)
  {
  }

  lemma HarmlessStep(lines: seq<Line>, hunks: seq<Hunk>)
    requires hunks != []
    ensures (forall i | 0 <= i < |hunks| :: Harmless(lines, hunks[i]))
       <==> Harmless(lines, hunks[0]) && forall i | 0 <= i < |hunks[1..]| :: Harmless(lines, hunks[1..][i])
  {
    hide Harmless;
    assert forall i | 0 < i < |hunks| :: hunks[i] == hunks[1..][i - 1];
    if forall i | 0 <= i < |hunks| :: Harmless(lines, hunks[i]) {
      forall i | 0 <= i < |hunks[1..]| ensures Harmless(lines, hunks[1..][i]) {
        assert Harmless(lines, hunks[i + 1]);
      }
    }
  }

  /** One hunk in front of what is already compared. */
  lemma MeantOne(lines: seq<Line>, h: Hunk, from: nat, meantFrom: nat, rest: seq<Line>, meant: seq<Line>)
    requires from <= meantFrom <= from + 1
    requires from <= h.Start() && meantFrom <= MeantStart(h) && MeantStart(h) + |h.oldLines| <= |lines|
    requires |rest| == |meant| + (MeantStart(h) - h.Start())
    ensures lines[from..h.Start()] + h.newLines + rest
            == lines[from..meantFrom] + (lines[meantFrom..MeantStart(h)] + h.newLines + meant)
       <==> Harmless(lines, h)
            && rest == lines[h.Start() + |h.oldLines|..MeantStart(h) + |h.oldLines|] + meant
  {
    hide Harmless;
    var start, meantStart := h.Start(), MeantStart(h);
    SamePrefix(lines, from, meantFrom, start, meantStart, h.newLines, rest, meant);
    if start == meantStart {
      assert lines[start..meantStart] == [] && [] + h.newLines == h.newLines;
      assert lines[start + |h.oldLines|..meantStart + |h.oldLines|] == [] && [] + meant == meant;
      Cancel(h.newLines, rest, meant);
    } else {
      assert h.oldLines == [] && lines[start..meantStart] == [lines[start]];
      ShiftedEqual(h.newLines, lines[start], rest, meant);
    }
    HarmlessMeans(lines, h);
  }

  lemma HarmlessMeans(lines: seq<Line>, h: Hunk)
    requires MeantStart(h) <= |lines|
    ensures Harmless(lines, h)
       <==> h.Start() == MeantStart(h) || forall i | 0 <= i < |h.newLines| :: h.newLines[i] == lines[h.Start()]
  {
  }

  /** Up to the line an insertion names the two texts are the same. */
  lemma SamePrefix(
    lines: seq<Line>, from: nat, meantFrom: nat, start: nat, meantStart: nat,
    newLines: seq<Line>, rest: seq<Line>, meant: seq<Line>)
    requires from <= meantFrom <= meantStart <= |lines| && from <= start <= meantStart
    ensures lines[from..start] + newLines + rest
            == lines[from..meantFrom] + (lines[meantFrom..meantStart] + newLines + meant)
       <==> newLines + rest == lines[start..meantStart] + newLines + meant
  {
    var before, owed := lines[from..start], lines[start..meantStart];
    var kept, left := lines[from..meantFrom], lines[meantFrom..meantStart];
    SplitTwice(lines, from, meantFrom, start, meantStart);
    Assoc(before, newLines, rest);
    Assoc(left, newLines, meant);
    Assoc(kept, left, newLines + meant);
    Assoc(before, owed, newLines + meant);
    Assoc(owed, newLines, meant);
    Cancel(before, newLines + rest, owed + newLines + meant);
  }

  lemma SplitTwice(lines: seq<Line>, from: nat, a: nat, b: nat, to: nat)
    requires from <= a <= to <= |lines| && from <= b <= to
    ensures lines[from..a] + lines[a..to] == lines[from..b] + lines[b..to]
  {
  }

  lemma Cancel(before: seq<Line>, a: seq<Line>, b: seq<Line>)
    ensures before + a == before + b <==> a == b
  {
    assert (before + a)[|before|..] == a && (before + b)[|before|..] == b;
  }

  /**
   A hunk without old lines goes before the line it names, where a unified diff means it to go after. So
   a patch does what the diff means exactly when each such hunk inserts only copies of the line it names,
   or goes before the whole file.
  */
  lemma InsertionsGoBefore(lines: seq<Line>, hunks: seq<Hunk>)
    requires Placed(lines, hunks, 0) && PlacedAsMeant(lines, hunks, 0)
    ensures Apply(lines, hunks, 0) == Ok(Meant(lines, hunks, 0))
       <==> forall i | 0 <= i < |hunks| :: Harmless(lines, hunks[i])
  {
    ApplyPlaced(lines, hunks);
    MeantFrom(lines, hunks, 0, 0);
    assert lines[0..0] + Meant(lines, hunks, 0) == Meant(lines, hunks, 0);
  }

  /** `x` put after the first of two lines comes out before it. */
  lemma InsertionIsMisplaced()
    ensures var lines, hunks := ["a", "b"], [Hunk(1, [], ["x"])];
            && PlacedAsMeant(lines, hunks, 0) && Meant(lines, hunks, 0) == ["a", "x", "b"]
            && Apply(lines, hunks, 0) == Ok(["x", "a", "b"])
  {
    var lines, hunks := ["a", "b"], [Hunk(1, [], ["x"])];
    assert hunks[1..] == [] && Placed(lines, hunks, 0) && PlacedAsMeant(lines, hunks, 0);
    ApplyPlaced(lines, hunks);
    assert ReplaceAll(lines, hunks, 0) == lines[0..0] + ["x"] + lines[0..] == ["x", "a", "b"];
    assert Meant(lines, hunks, 0) == lines[0..1] + ["x"] + lines[1..];
  }
}
