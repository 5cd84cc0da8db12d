/**
 * The batch run as a value: the state the controller and its worker share,
 * the effect of each host control on it, and `RunFrom`, which follows the
 * worker's loop item by item. The class in module Processor is proved to
 * behave as these functions say; the lemmas here state what the loop
 * promises: items in order with a progress update each, a stop honoured at
 * the next item boundary and nowhere else, only image paths transformed,
 * and pause/resume without effect on what gets done.
 */
module Batch {
  import opened Sampler
  import opened Remover
  import opened Paths

  /** What the host can do while the worker runs. */
  datatype Control = PauseControl | ResumeControl | StopControl

  /** The status line shown to the user. */
  datatype Status =
    | Waiting                            // before any batch
    | Working                            // started or resumed
    | Processed(done: nat, total: nat)   // after each item
    | PausedNotice
    | StoppedNotice
    | Finished                           // after the loop, however it ended

  /** The progress bar shows `done / total * 100` percent. */
  datatype Progress = Progress(done: nat, total: nat)

  /** A decoded image: its RGB colour census and its RGBA pixels. */
  datatype Image = Image(colors: seq<ColorCount>, pixels: seq<Pixel>)

  function ColorOf(p: Pixel): RGB {
    RGB(p.r, p.g, p.b)
  }

  /** How many of `pixels` carry colour `c`. */
  function CountOf(pixels: seq<Pixel>, c: RGB): nat {
    if pixels == [] then 0
    else CountOf(pixels[..|pixels| - 1], c) + (if ColorOf(pixels[|pixels| - 1]) == c then 1 else 0)
  }

  /**
   * The census agrees with the pixels, as the decoder's colour count gives
   * it: each colour is listed once with the number of pixels that carry it,
   * and every pixel's colour is listed.
   */
  predicate ValidImage(img: Image) {
    && (forall k :: 0 <= k < |img.colors| ==> img.colors[k].count == CountOf(img.pixels, img.colors[k].color))
    && (forall a, b :: 0 <= a < b < |img.colors| ==> img.colors[a].color != img.colors[b].color)
    && (forall i :: 0 <= i < |img.pixels| ==>
          exists k :: 0 <= k < |img.colors| && img.colors[k].color == ColorOf(img.pixels[i]))
  }

  /**
   * Everything the worker and the controls act on. `pauseSet` is the pause
   * event, which is SET while the batch may run; `stopSet` is the stop event.
   * `log` is every progress value shown since the batch started, and
   * `written` maps each output path written so far to its pixels.
   */
  datatype AppState = AppState(
    pauseSet: bool,
    stopSet: bool,
    status: Status,
    progress: Progress,
    log: seq<Progress>,
    written: map<string, seq<Pixel>>)

  /**
   * How the loop ended: ran out of items, saw the stop event before item
   * `at`, was left waiting on a cleared pause event before item `at`, or
   * failed to open item `at`.
   */
  datatype Ending = Exhausted | StopObserved(at: nat) | Blocked(at: nat) | Crashed(at: nat)

  datatype RunResult = RunResult(state: AppState, ending: Ending)

  function Percent(p: Progress): real {
    if p.total == 0 then 0.0 else (p.done as real / p.total as real) * 100.0
  }

  // ---------------------------------------------------------------------
  // Controls
  // ---------------------------------------------------------------------

  /**
   * One press: the pause event ends up cleared exactly by a pause, the stop
   * event is set by a stop and otherwise kept, and nothing else but the
   * status line changes.
   */
  function Apply(s: AppState, c: Control): (t: AppState)
    ensures t.pauseSet == (c != PauseControl)
    ensures t.stopSet == (s.stopSet || c == StopControl)
    ensures t.progress == s.progress && t.log == s.log && t.written == s.written
  {
    match c
    case PauseControl => s.(pauseSet := false, status := PausedNotice)
    case ResumeControl => s.(pauseSet := true, status := Working)
    case StopControl => s.(stopSet := true, pauseSet := true, status := StoppedNotice)
  }

  /** The controls `cs`, applied in order. */
  function ApplyAll(s: AppState, cs: seq<Control>): AppState {
    if cs == [] then s else Apply(ApplyAll(s, cs[..|cs| - 1]), cs[|cs| - 1])
  }

  /**
   * Controls never touch the work done: progress, log and written files stay
   * as they were, and the stop event is set afterwards exactly when it was
   * set before or a stop was among them.
   */
  lemma {:induction false} ControlsKeepWork(s: AppState, cs: seq<Control>)
    ensures ApplyAll(s, cs).stopSet == (s.stopSet || StopControl in cs)
    ensures ApplyAll(s, cs).progress == s.progress
    ensures ApplyAll(s, cs).log == s.log
    ensures ApplyAll(s, cs).written == s.written
    decreases |cs|
  {
    if cs != [] {
      var init := cs[..|cs| - 1];
      ControlsKeepWork(s, init);
      assert cs == init + [cs[|cs| - 1]];
      assert StopControl in cs <==> StopControl in init || cs[|cs| - 1] == StopControl;
    }
  }

  /** A stop leaves the pause event set, so a worker waiting on it goes on. */
  lemma StopReleasesPause(s: AppState, cs: seq<Control>)
    requires cs != [] && cs[|cs| - 1] == StopControl
    ensures ApplyAll(s, cs).pauseSet && ApplyAll(s, cs).stopSet
  {
  }

  /** The presses leave the pause event set: none, or the last is not a pause. */
  predicate LeavesRunning(cs: seq<Control>) {
    cs == [] || cs[|cs| - 1] != PauseControl
  }

  /**
   * After a series of presses the pause event is set exactly when the last
   * press was a resume or a stop, or, with no press, when it was set before.
   */
  lemma PauseAfterControls(s: AppState, cs: seq<Control>)
    ensures ApplyAll(s, cs).pauseSet == (if cs == [] then s.pauseSet else cs[|cs| - 1] != PauseControl)
  {
  }

  // ---------------------------------------------------------------------
  // One item
  // ---------------------------------------------------------------------

  /**
   * The pixels written for an image: its census is sampled, a range is built
   * around the sample with the batch tolerance, and the background is removed.
   */
  function ImageOutput(img: Image): (out: seq<Pixel>)
    ensures |out| == |img.pixels|
    ensures img.colors != [] ==> out == MapPixels(img.pixels, FallbackRange)
  {
    MapPixels(img.pixels, CreateColorRange(DetectBackgroundColor(img.colors), DefaultTolerance))
  }

  /**
   * Every image that agrees with its census, pixels or not, comes out as
   * matched against the fixed near-white range: the sampled colour never
   * decides anything.
   */
  lemma ImageOutputUsesFallback(img: Image)
    requires ValidImage(img)
    ensures ImageOutput(img) == MapPixels(img.pixels, FallbackRange)
  {
    if img.pixels != [] {
      var k :| 0 <= k < |img.colors| && img.colors[k].color == ColorOf(img.pixels[0]);
    }
  }

  /** Opening the path fails: it passes the extension test but is not a readable image. */
  predicate Fails(path: string, fs: map<string, Image>) {
    IsImagePath(path) && path !in fs
  }

  /** The output of one path: image paths are written to `folder/basename`, others leave the files alone. */
  function Write(w: map<string, seq<Pixel>>, path: string, folder: string, fs: map<string, Image>): map<string, seq<Pixel>> {
    if IsImagePath(path) && path in fs then w[Join(folder, Basename(path)) := ImageOutput(fs[path])] else w
  }

  function WriteAll(w: map<string, seq<Pixel>>, paths: seq<string>, folder: string, fs: map<string, Image>): map<string, seq<Pixel>>
    decreases |paths|
  {
    if paths == [] then w else WriteAll(Write(w, paths[0], folder, fs), paths[1..], folder, fs)
  }

  /** Item number `index` of `total` has been handled: its output (if any) is written and progress moves on. */
  function Advance(s: AppState, path: string, index: nat, total: nat, folder: string, fs: map<string, Image>): AppState {
    s.(written := Write(s.written, path, folder, fs),
       progress := Progress(index, total),
       log := s.log + [Progress(index, total)],
       status := Processed(index, total))
  }

  // ---------------------------------------------------------------------
  // The loop
  // ---------------------------------------------------------------------

  /** The host's controls issued before the stop check of item `i` (none when not given). */
  function Gap(controls: seq<seq<Control>>, i: nat): seq<Control> {
    if i < |controls| then controls[i] else []
  }

  /**
   * The worker's loop from item `i` (0-based; the user sees `i + 1`): the
   * host's controls for this gap take effect, the stop event is checked,
   * then the pause wait: with the pause event still cleared the worker waits
   * and, as the host presses nothing more, never goes on. Otherwise the item
   * is handled. After the loop the status reads Finished, unless opening an
   * image failed, which ends the worker with the state as it was.
   */
  function RunFrom(s: AppState, paths: seq<string>, folder: string, fs: map<string, Image>,
                   controls: seq<seq<Control>>, i: nat): (r: RunResult)
    requires i <= |paths|
    decreases |paths| - i
  {
    if i == |paths| then RunResult(s.(status := Finished), Exhausted)
    else
      var s1 := ApplyAll(s, Gap(controls, i));
      if s1.stopSet then RunResult(s1.(status := Finished), StopObserved(i))
      else if !s1.pauseSet then RunResult(s1, Blocked(i))
      else if Fails(paths[i], fs) then RunResult(s1, Crashed(i))
      else RunFrom(Advance(s1, paths[i], i + 1, |paths|, folder, fs), paths, folder, fs, controls, i + 1)
  }

  /** The index of the first item the loop did not complete. */
  function HaltIndex(r: RunResult, n: nat): nat {
    match r.ending
    case Exhausted => n
    case StopObserved(k) => k
    case Blocked(k) => k
    case Crashed(k) => k
  }

  /** The stop event, as the check before item `j` sees it when it was `stop0` before item `i`. */
  ghost predicate SeenStop(stop0: bool, controls: seq<seq<Control>>, i: nat, j: nat) {
    stop0 || exists g :: i <= g <= j && StopControl in Gap(controls, g)
  }

  lemma SeenStopStep(stop0: bool, controls: seq<seq<Control>>, i: nat, j: nat)
    requires i < j
    ensures SeenStop(stop0, controls, i, j) == SeenStop(stop0 || StopControl in Gap(controls, i), controls, i + 1, j)
  {
  }

  /** Progress values `i + 1` to `k` of `n`. */
  function Steps(i: nat, k: nat, n: nat): seq<Progress>
    requires i <= k
  {
    seq(k - i, j requires 0 <= j < k - i => Progress(i + j + 1, n))
  }

  lemma StepsFirst(i: nat, k: nat, n: nat)
    requires i < k
    ensures Steps(i, k, n) == [Progress(i + 1, n)] + Steps(i + 1, k, n)
  {
  }

  /**
   * The loop completes items until the first item whose check sees the stop
   * event, whose pause wait finds the pause event cleared, or whose image
   * cannot be opened, and the stop takes precedence.
   */
  lemma {:induction false} RunStopsAtFirstEvent(s: AppState, paths: seq<string>, folder: string,
                                                fs: map<string, Image>, controls: seq<seq<Control>>, i: nat)
    requires i <= |paths|
    ensures var r := RunFrom(s, paths, folder, fs, controls, i); var k := HaltIndex(r, |paths|);
      && i <= k <= |paths|
      && (forall j :: i <= j < k ==> !SeenStop(s.stopSet, controls, i, j) && !Fails(paths[j], fs))
      && (r.ending.Exhausted? ==> k == |paths|)
      && (r.ending.StopObserved? ==> k < |paths| && SeenStop(s.stopSet, controls, i, k))
      && (r.ending.Blocked? ==> k < |paths| && !SeenStop(s.stopSet, controls, i, k))
      && (r.ending.Crashed? ==> k < |paths| && !SeenStop(s.stopSet, controls, i, k) && Fails(paths[k], fs))
    decreases |paths| - i
  {
    if i < |paths| {
      var g := Gap(controls, i);
      var s1 := ApplyAll(s, g);
      ControlsKeepWork(s, g);
      assert SeenStop(s.stopSet, controls, i, i) == s1.stopSet;
      if !s1.stopSet && s1.pauseSet && !Fails(paths[i], fs) {
        var s2 := Advance(s1, paths[i], i + 1, |paths|, folder, fs);
        RunStopsAtFirstEvent(s2, paths, folder, fs, controls, i + 1);
        forall j | i + 1 <= j ensures SeenStop(s2.stopSet, controls, i + 1, j) == SeenStop(s.stopSet, controls, i, j) {
          SeenStopStep(s.stopSet, controls, i, j);
        }
      }
    }
  }

  /**
   * Whether the pause event is set at the wait before item `j`, when it was
   * `pause0` before item `i` and every item from `i` to `j - 1` passed its
   * wait: the last press of gap `j` decides, and with no press the event is
   * as the previous wait left it.
   */
  predicate OpenAt(pause0: bool, controls: seq<seq<Control>>, i: nat, j: nat) {
    var g := Gap(controls, j);
    if g == [] then pause0 || i < j else g[|g| - 1] != PauseControl
  }

  /**
   * The pause wait comes before opening the image: every completed item
   * passed the wait, a worker left waiting found the pause event cleared,
   * and an image that cannot be opened was reached past an open wait.
   */
  lemma {:induction false} RunWaitsBeforeOpening(s: AppState, paths: seq<string>, folder: string,
                                                 fs: map<string, Image>, controls: seq<seq<Control>>, i: nat)
    requires i <= |paths|
    ensures var r := RunFrom(s, paths, folder, fs, controls, i); var k := HaltIndex(r, |paths|);
      && (forall j :: i <= j < k ==> OpenAt(s.pauseSet, controls, i, j))
      && (r.ending.Blocked? ==> !OpenAt(s.pauseSet, controls, i, k))
      && (r.ending.Crashed? ==> OpenAt(s.pauseSet, controls, i, k))
    decreases |paths| - i
  {
    RunStopsAtFirstEvent(s, paths, folder, fs, controls, i);
    if i < |paths| {
      var g := Gap(controls, i);
      var s1 := ApplyAll(s, g);
      PauseAfterControls(s, g);
      assert s1.pauseSet == OpenAt(s.pauseSet, controls, i, i);
      if !s1.stopSet && s1.pauseSet && !Fails(paths[i], fs) {
        var s2 := Advance(s1, paths[i], i + 1, |paths|, folder, fs);
        RunWaitsBeforeOpening(s2, paths, folder, fs, controls, i + 1);
        forall j | i + 1 <= j ensures OpenAt(s2.pauseSet, controls, i + 1, j) == OpenAt(s.pauseSet, controls, i, j) {
        }
      }
    }
  }

  /**
   * One progress update per completed item, in order: the log grows by
   * `i + 1, …, k` of `n`, and the bar shows the last of them.
   */
  lemma {:induction false} RunLogsEachItem(s: AppState, paths: seq<string>, folder: string,
                                           fs: map<string, Image>, controls: seq<seq<Control>>, i: nat)
    requires i <= |paths|
    ensures var r := RunFrom(s, paths, folder, fs, controls, i); var k := HaltIndex(r, |paths|);
      && i <= k <= |paths|
      && r.state.log == s.log + Steps(i, k, |paths|)
      && r.state.progress == (if k == i then s.progress else Progress(k, |paths|))
    decreases |paths| - i
  {
    var n := |paths|;
    if i < n {
      var g := Gap(controls, i);
      var s1 := ApplyAll(s, g);
      ControlsKeepWork(s, g);
      if !s1.stopSet && s1.pauseSet && !Fails(paths[i], fs) {
        var s2 := Advance(s1, paths[i], i + 1, n, folder, fs);
        RunLogsEachItem(s2, paths, folder, fs, controls, i + 1);
        var r := RunFrom(s2, paths, folder, fs, controls, i + 1);
        assert RunFrom(s, paths, folder, fs, controls, i) == r;
        StepsFirst(i, HaltIndex(r, n), n);
      } else {
        assert Steps(i, i, n) == [];
      }
    } else {
      assert Steps(i, i, n) == [];
    }
  }

  /** The files written are those of the completed items, in order, later ones overwriting earlier ones. */
  lemma {:induction false} RunWritesCompletedItems(s: AppState, paths: seq<string>, folder: string,
                                                   fs: map<string, Image>, controls: seq<seq<Control>>, i: nat)
    requires i <= |paths|
    ensures var r := RunFrom(s, paths, folder, fs, controls, i); var k := HaltIndex(r, |paths|);
      && i <= k <= |paths|
      && r.state.written == WriteAll(s.written, paths[i..k], folder, fs)
    decreases |paths| - i
  {
    var n := |paths|;
    if i < n {
      var g := Gap(controls, i);
      var s1 := ApplyAll(s, g);
      ControlsKeepWork(s, g);
      if !s1.stopSet && s1.pauseSet && !Fails(paths[i], fs) {
        var s2 := Advance(s1, paths[i], i + 1, n, folder, fs);
        RunWritesCompletedItems(s2, paths, folder, fs, controls, i + 1);
        var k := HaltIndex(RunFrom(s, paths, folder, fs, controls, i), n);
        assert paths[i..k][0] == paths[i] && paths[i..k][1..] == paths[i + 1..k];
      }
    }
  }

  /**
   * The status reads Finished exactly when the loop ran out or was stopped:
   * a worker left waiting or ended by an image it cannot open never gets
   * there.
   */
  lemma {:induction false} RunEndsFinished(s: AppState, paths: seq<string>, folder: string,
                                           fs: map<string, Image>, controls: seq<seq<Control>>, i: nat)
    requires i <= |paths| && s.status != Finished
    ensures var r := RunFrom(s, paths, folder, fs, controls, i);
      !(r.ending.Crashed? || r.ending.Blocked?) <==> r.state.status == Finished
    decreases |paths| - i
  {
    if i < |paths| {
      var s1 := ApplyAll(s, Gap(controls, i));
      if !s1.stopSet && s1.pauseSet && !Fails(paths[i], fs) {
        RunEndsFinished(Advance(s1, paths[i], i + 1, |paths|, folder, fs), paths, folder, fs, controls, i + 1);
      } else if !s1.stopSet {
        ControlsKeepStatusUnfinished(s, Gap(controls, i));
      }
    }
  }

  /**
   * While every series of presses before item `m` leaves the pause event
   * set, and it is set at the start, the worker does not stay in the pause
   * wait before item `m`.
   */
  lemma {:induction false} NeverBlocked(s: AppState, paths: seq<string>, folder: string,
                                        fs: map<string, Image>, controls: seq<seq<Control>>, i: nat, m: nat)
    requires i <= m <= |paths| && s.pauseSet
    requires forall g :: i <= g < m ==> LeavesRunning(Gap(controls, g))
    ensures var r := RunFrom(s, paths, folder, fs, controls, i);
      r.ending.Blocked? ==> m <= HaltIndex(r, |paths|)
    decreases |paths| - i
  {
    RunStopsAtFirstEvent(s, paths, folder, fs, controls, i);
    if i < m {
      var s1 := ApplyAll(s, Gap(controls, i));
      PauseAfterControls(s, Gap(controls, i));
      if !s1.stopSet && !Fails(paths[i], fs) {
        NeverBlocked(Advance(s1, paths[i], i + 1, |paths|, folder, fs), paths, folder, fs, controls, i + 1, m);
      }
    }
  }

  /**
   * A pause that is the last press before item `k`, with no stop up to
   * then, keeps the worker from ever finishing: it waits before item `k`
   * at the latest (or fails on an image before item `k`), and the status
   * never reads Finished.
   */
  lemma {:induction false} UnresumedPauseNeverFinishes(s: AppState, paths: seq<string>, folder: string,
                                                       fs: map<string, Image>, controls: seq<seq<Control>>,
                                                       i: nat, k: nat)
    requires i <= k < |paths| && !s.stopSet && s.status != Finished
    requires Gap(controls, k) != [] && Gap(controls, k)[|Gap(controls, k)| - 1] == PauseControl
    requires forall g :: i <= g <= k ==> StopControl !in Gap(controls, g)
    ensures var r := RunFrom(s, paths, folder, fs, controls, i);
      && (r.ending.Blocked? || r.ending.Crashed?) && HaltIndex(r, |paths|) <= k && r.state.status != Finished
      && (r.ending.Crashed? ==> HaltIndex(r, |paths|) < k)
    decreases |paths| - i
  {
    var s1 := ApplyAll(s, Gap(controls, i));
    ControlsKeepWork(s, Gap(controls, i));
    PauseAfterControls(s, Gap(controls, i));
    RunEndsFinished(s, paths, folder, fs, controls, i);
    if i < k && s1.pauseSet && !Fails(paths[i], fs) {
      UnresumedPauseNeverFinishes(Advance(s1, paths[i], i + 1, |paths|, folder, fs), paths, folder, fs, controls, i + 1, k);
    }
  }

  lemma {:induction false} ControlsKeepStatusUnfinished(s: AppState, cs: seq<Control>)
    requires s.status != Finished
    ensures ApplyAll(s, cs).status != Finished
    decreases |cs|
  {
    if cs != [] {
      ControlsKeepStatusUnfinished(s, cs[..|cs| - 1]);
    }
  }

  /**
   * The files written: exactly the earlier ones plus `folder/basename(p)`
   * for every readable image path `p` among those handled.
   */
  lemma {:induction false} WrittenFiles(w: map<string, seq<Pixel>>, paths: seq<string>, folder: string, fs: map<string, Image>)
    ensures forall out :: out in WriteAll(w, paths, folder, fs) <==>
      out in w || exists p :: p in paths && IsImagePath(p) && p in fs && out == Join(folder, Basename(p))
    decreases |paths|
  {
    if paths != [] {
      WrittenFiles(Write(w, paths[0], folder, fs), paths[1..], folder, fs);
      forall out ensures out in WriteAll(w, paths, folder, fs) <==>
        out in w || exists p :: p in paths && IsImagePath(p) && p in fs && out == Join(folder, Basename(p))
      {
        if exists p :: p in paths && IsImagePath(p) && p in fs && out == Join(folder, Basename(p)) {
          var p :| p in paths && IsImagePath(p) && p in fs && out == Join(folder, Basename(p));
          if p != paths[0] {
            assert p in paths[1..];
          }
        }
        if exists p :: p in paths[1..] && IsImagePath(p) && p in fs && out == Join(folder, Basename(p)) {
          var p :| p in paths[1..] && IsImagePath(p) && p in fs && out == Join(folder, Basename(p));
          assert p in paths;
        }
      }
    }
  }

  /** Path `p` is an image that opens and is written to `out`. */
  predicate WritesTo(p: string, folder: string, fs: map<string, Image>, out: string) {
    IsImagePath(p) && p in fs && Join(folder, Basename(p)) == out
  }

  /** `paths[j]` is written to `out` and no later path is. */
  predicate LastWriter(paths: seq<string>, folder: string, fs: map<string, Image>, out: string, j: int) {
    0 <= j < |paths| && WritesTo(paths[j], folder, fs, out) &&
    forall j' :: j < j' < |paths| ==> !WritesTo(paths[j'], folder, fs, out)
  }

  /**
   * What each output file holds: the processed pixels of the last image
   * written to it, later images overwriting earlier ones; a file no image
   * is written to keeps what it held.
   */
  lemma {:induction false} WrittenContents(w: map<string, seq<Pixel>>, paths: seq<string>, folder: string,
                                           fs: map<string, Image>)
    ensures forall out, j :: LastWriter(paths, folder, fs, out, j) ==>
      out in WriteAll(w, paths, folder, fs) && WriteAll(w, paths, folder, fs)[out] == ImageOutput(fs[paths[j]])
    ensures forall out :: out in w && (forall j :: 0 <= j < |paths| ==> !WritesTo(paths[j], folder, fs, out)) ==>
      out in WriteAll(w, paths, folder, fs) && WriteAll(w, paths, folder, fs)[out] == w[out]
    decreases |paths|
  {
    if paths != [] {
      var w1 := Write(w, paths[0], folder, fs);
      var rest := paths[1..];
      WrittenContents(w1, rest, folder, fs);
      var all := WriteAll(w, paths, folder, fs);
      assert all == WriteAll(w1, rest, folder, fs);
      forall out, j | LastWriter(paths, folder, fs, out, j)
        ensures out in all && all[out] == ImageOutput(fs[paths[j]])
      {
        if j == 0 {
          forall j' | 0 <= j' < |rest| ensures !WritesTo(rest[j'], folder, fs, out) {
            assert rest[j'] == paths[j' + 1];
          }
        } else {
          forall j' | j - 1 < j' < |rest| ensures !WritesTo(rest[j'], folder, fs, out) {
            assert rest[j'] == paths[j' + 1];
          }
          assert LastWriter(rest, folder, fs, out, j - 1);
        }
      }
      forall out | out in w && (forall j :: 0 <= j < |paths| ==> !WritesTo(paths[j], folder, fs, out))
        ensures out in all && all[out] == w[out]
      {
        assert !WritesTo(paths[0], folder, fs, out);
        forall j' | 0 <= j' < |rest| ensures !WritesTo(rest[j'], folder, fs, out) {
          assert rest[j'] == paths[j' + 1];
        }
      }
    }
  }

  // ---------------------------------------------------------------------
  // Whole batches
  // ---------------------------------------------------------------------

  /**
   * A batch that nobody stops and whose images all open handles every item:
   * the progress log is `1, …, n` of `n`, the bar ends at 100 percent, the
   * status reads Finished and every image path is written.
   */
  lemma UninterruptedBatch(s: AppState, paths: seq<string>, folder: string,
                           fs: map<string, Image>, controls: seq<seq<Control>>)
    requires !s.stopSet && s.pauseSet && s.status != Finished
    requires forall g :: 0 <= g < |paths| ==> StopControl !in Gap(controls, g) && LeavesRunning(Gap(controls, g))
    requires forall j :: 0 <= j < |paths| ==> !Fails(paths[j], fs)
    ensures var r := RunFrom(s, paths, folder, fs, controls, 0);
      && r.ending == Exhausted
      && r.state.status == Finished
      && r.state.log == s.log + Steps(0, |paths|, |paths|)
      && (|paths| > 0 ==> r.state.progress == Progress(|paths|, |paths|) && Percent(r.state.progress) == 100.0)
      && r.state.written == WriteAll(s.written, paths, folder, fs)
  {
    var n := |paths|;
    var r := RunFrom(s, paths, folder, fs, controls, 0);
    RunStopsAtFirstEvent(s, paths, folder, fs, controls, 0);
    forall j | 0 <= j < n ensures !SeenStop(s.stopSet, controls, 0, j) {
    }
    NeverBlocked(s, paths, folder, fs, controls, 0, n);
    assert r.ending.Exhausted?;
    RunLogsEachItem(s, paths, folder, fs, controls, 0);
    RunWritesCompletedItems(s, paths, folder, fs, controls, 0);
    RunEndsFinished(s, paths, folder, fs, controls, 0);
    assert paths[0..n] == paths;
    if n > 0 {
      PercentRises(0, n, n);
    }
  }

  /**
   * A stop issued just before item `k + 1` (0-based `k`), with none earlier
   * and every earlier image readable: exactly `k` items are handled, nothing
   * of the rest is touched, and the status still reads Finished.
   */
  lemma StopAfterItems(s: AppState, paths: seq<string>, folder: string,
                       fs: map<string, Image>, controls: seq<seq<Control>>, k: nat)
    requires !s.stopSet && s.pauseSet && s.status != Finished && k < |paths|
    requires StopControl in Gap(controls, k)
    requires forall g :: 0 <= g < k ==> StopControl !in Gap(controls, g) && LeavesRunning(Gap(controls, g))
    requires forall j :: 0 <= j < k ==> !Fails(paths[j], fs)
    ensures var r := RunFrom(s, paths, folder, fs, controls, 0);
      && r.ending == StopObserved(k)
      && r.state.status == Finished
      && r.state.log == s.log + Steps(0, k, |paths|)
      && r.state.written == WriteAll(s.written, paths[..k], folder, fs)
  {
    var r := RunFrom(s, paths, folder, fs, controls, 0);
    RunStopsAtFirstEvent(s, paths, folder, fs, controls, 0);
    RunLogsEachItem(s, paths, folder, fs, controls, 0);
    RunWritesCompletedItems(s, paths, folder, fs, controls, 0);
    RunEndsFinished(s, paths, folder, fs, controls, 0);
    NeverBlocked(s, paths, folder, fs, controls, 0, k);
    assert SeenStop(s.stopSet, controls, 0, k);
    assert paths[0..k] == paths[..k];
  }

  /** The state right after an accepted start over `n` files: stop cleared, pause set, bar at 0 of `n`. */
  function StartState(s: AppState, n: nat): AppState {
    s.(stopSet := false, pauseSet := true, progress := Progress(0, n), status := Working, log := [])
  }

  /**
   * A batch run from a start: it handles items `1 .. k` in order for some
   * `k`, the log is exactly their progress values, the files written are
   * the earlier ones plus those of the handled items, and the status reads
   * Finished unless the worker was left waiting or hit an unreadable image.
   */
  lemma BatchFromStart(s: AppState, paths: seq<string>, folder: string,
                       fs: map<string, Image>, controls: seq<seq<Control>>)
    ensures var r := RunFrom(StartState(s, |paths|), paths, folder, fs, controls, 0);
      var k := HaltIndex(r, |paths|);
      && k <= |paths|
      && r.state.log == Steps(0, k, |paths|)
      && r.state.written == WriteAll(s.written, paths[..k], folder, fs)
      && (!(r.ending.Crashed? || r.ending.Blocked?) <==> r.state.status == Finished)
  {
    var s0 := StartState(s, |paths|);
    RunStopsAtFirstEvent(s0, paths, folder, fs, controls, 0);
    RunLogsEachItem(s0, paths, folder, fs, controls, 0);
    RunWritesCompletedItems(s0, paths, folder, fs, controls, 0);
    RunEndsFinished(s0, paths, folder, fs, controls, 0);
    var k := HaltIndex(RunFrom(s0, paths, folder, fs, controls, 0), |paths|);
    assert paths[0..k] == paths[..k];
  }

  // ---------------------------------------------------------------------
  // Pause and resume
  // ---------------------------------------------------------------------

  function StopsOnly(cs: seq<Control>): (r: seq<Control>)
    ensures StopControl in r <==> StopControl in cs
    ensures forall k :: 0 <= k < |r| ==> r[k] == StopControl
  {
    if cs == [] then []
    else (if cs[0] == StopControl then [StopControl] else []) + StopsOnly(cs[1..])
  }

  /** The same host activity with every pause and resume left out. */
  function WithoutPauses(controls: seq<seq<Control>>): seq<seq<Control>> {
    seq(|controls|, g requires 0 <= g < |controls| => StopsOnly(controls[g]))
  }

  /** Two states that have done the same work and agree on the stop event. */
  predicate SameWork(s: AppState, t: AppState) {
    s.stopSet == t.stopSet && s.progress == t.progress && s.log == t.log && s.written == t.written
  }

  /**
   * Pausing and resuming between items, where every pause is resumed (or
   * the batch stopped) before the worker reaches the pause wait, change
   * nothing the batch does: the same items are handled, the same progress
   * is shown and the same files are written as without them.
   */
  lemma {:induction false} PauseResumeDoNotChangeWork(s: AppState, t: AppState, paths: seq<string>, folder: string,
                                                      fs: map<string, Image>, controls: seq<seq<Control>>, i: nat)
    requires i <= |paths| && SameWork(s, t) && s.pauseSet && t.pauseSet
    requires forall g :: i <= g < |paths| ==> LeavesRunning(Gap(controls, g))
    ensures var r1 := RunFrom(s, paths, folder, fs, controls, i);
      var r2 := RunFrom(t, paths, folder, fs, WithoutPauses(controls), i);
      r1.ending == r2.ending && SameWork(r1.state, r2.state)
    decreases |paths| - i
  {
    if i < |paths| {
      var g1, g2 := Gap(controls, i), Gap(WithoutPauses(controls), i);
      assert g2 == StopsOnly(g1);
      ControlsKeepWork(s, g1);
      ControlsKeepWork(t, g2);
      var s1, t1 := ApplyAll(s, g1), ApplyAll(t, g2);
      assert SameWork(s1, t1);
      PauseAfterControls(s, g1);
      PauseAfterControls(t, g2);
      if !s1.stopSet && s1.pauseSet && !Fails(paths[i], fs) {
        PauseResumeDoNotChangeWork(Advance(s1, paths[i], i + 1, |paths|, folder, fs),
                                   Advance(t1, paths[i], i + 1, |paths|, folder, fs),
                                   paths, folder, fs, controls, i + 1);
      }
    }
  }

  // ---------------------------------------------------------------------
  // Worked examples
  // ---------------------------------------------------------------------

  /**
   * A 2x2 image, three white pixels and one dark one: the three white pixels
   * become transparent and the dark one is kept.
   */
  lemma WhiteSquareExample()
    ensures var w, d := Pixel(255, 255, 255, 255), Pixel(10, 10, 10, 255);
      ImageOutput(Image([ColorCount(3, RGB(255, 255, 255)), ColorCount(1, RGB(10, 10, 10))], [w, w, w, d]))
        == [Transparent, Transparent, Transparent, d]
  {
    var w, d := Pixel(255, 255, 255, 255), Pixel(10, 10, 10, 255);
    var colors := [ColorCount(3, RGB(255, 255, 255)), ColorCount(1, RGB(10, 10, 10))];
    DetectedRangeIsFallback(colors, DefaultTolerance);
    FallbackMatchesNearWhite(w);
    FallbackMatchesNearWhite(d);
  }

  /** The bar's percentage rises with each item and reaches 100 at the last. */
  lemma PercentRises(a: nat, b: nat, n: nat)
    requires a < b <= n
    ensures 0.0 <= Percent(Progress(a, n)) < Percent(Progress(b, n)) <= 100.0
    ensures b == n ==> Percent(Progress(b, n)) == 100.0
  {
    var rn := n as real;
    assert a as real / rn < b as real / rn;
    assert b as real / rn <= 1.0;
  }

  /**
   * Three readable images and one other file, no stop: the bar moves four
   * times, to 1, 2, 3 and 4 of 4, and the batch runs out.
   */
  lemma ThreeImagesAndOtherFile(s: AppState, a: string, b: string, c: string, t: string,
                                folder: string, fs: map<string, Image>)
    requires !s.stopSet && s.pauseSet && s.status != Finished
    requires IsImagePath(a) && IsImagePath(b) && IsImagePath(c) && !IsImagePath(t)
    requires a in fs && b in fs && c in fs
    ensures var r := RunFrom(s, [a, b, c, t], folder, fs, [], 0);
      && r.ending == Exhausted
      && r.state.log == s.log + [Progress(1, 4), Progress(2, 4), Progress(3, 4), Progress(4, 4)]
  {
    var paths := [a, b, c, t];
    assert !Fails(a, fs) && !Fails(b, fs) && !Fails(c, fs) && !Fails(t, fs);
    UninterruptedBatch(s, paths, folder, fs, []);
    FourSteps();
  }

  lemma FourSteps()
    ensures Steps(0, 4, 4) == [Progress(1, 4), Progress(2, 4), Progress(3, 4), Progress(4, 4)]
  {
    StepsFirst(0, 4, 4);
    StepsFirst(1, 4, 4);
    StepsFirst(2, 4, 4);
    StepsFirst(3, 4, 4);
  }

  /**
   * The same batch writes the three images, and only they, under the output
   * folder.
   */
  lemma ThreeImagesWritten(w: map<string, seq<Pixel>>, a: string, b: string, c: string, t: string,
                           folder: string, fs: map<string, Image>)
    requires IsImagePath(a) && IsImagePath(b) && IsImagePath(c) && !IsImagePath(t)
    requires a in fs && b in fs && c in fs
    ensures WriteAll(w, [a, b, c, t], folder, fs).Keys
         == w.Keys + {Join(folder, Basename(a)), Join(folder, Basename(b)), Join(folder, Basename(c))}
  {
    var w1 := Write(w, a, folder, fs);
    var w2 := Write(w1, b, folder, fs);
    var w3 := Write(w2, c, folder, fs);
    WriteAllStep(w, [a, b, c, t], folder, fs);
    WriteAllStep(w1, [b, c, t], folder, fs);
    WriteAllStep(w2, [c, t], folder, fs);
    WriteAllStep(w3, [t], folder, fs);
  }

  lemma WriteAllStep(w: map<string, seq<Pixel>>, paths: seq<string>, folder: string, fs: map<string, Image>)
    requires paths != []
    ensures WriteAll(w, paths, folder, fs) == WriteAll(Write(w, paths[0], folder, fs), paths[1..], folder, fs)
    ensures Write(w, paths[0], folder, fs).Keys
         == if IsImagePath(paths[0]) && paths[0] in fs then w.Keys + {Join(folder, Basename(paths[0]))} else w.Keys
  {
  }
}
