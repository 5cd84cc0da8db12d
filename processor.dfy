/**
 * The application object: the files to process, the output folder, the two
 * events the worker observes, the status line and progress bar, and the
 * files written. Its methods update these fields in place and are proved
 * against the value-level definitions of module Batch.
 */
module Processor {
  import opened Sampler
  import opened Remover
  import opened Paths
  import opened Batch

  /** What pressing "start" leads to. */
  datatype StartOutcome = NoSourceFiles | NoOutputFolder | Started

  class ImageProcessorApp {
    var sourceFiles: seq<string>
    var outputFolder: string
    /** The pause event: set while the batch may run, cleared by a pause. */
    var pauseSet: bool
    /** The stop event. */
    var stopSet: bool
    var status: Status
    var progress: Progress
    /** The output files written by this application, with their pixels. */
    var written: map<string, seq<Pixel>>
    /** Every value the progress bar has shown since the batch started. */
    ghost var log: seq<Progress>

    ghost function State(): AppState
      reads this
    {
      AppState(pauseSet, stopSet, status, progress, log, written)
    }

    /** No files, no folder, not paused, not stopped. */
    constructor ()
      ensures sourceFiles == [] && outputFolder == ""
      ensures State() == AppState(true, false, Waiting, Progress(0, 0), [], map[])
    {
      sourceFiles := [];
      outputFolder := "";
      pauseSet := true;
      stopSet := false;
      status := Waiting;
      progress := Progress(0, 0);
      written := map[];
      log := [];
    }

    /**
     * A drop of plain files replaces the file list with the dropped paths
     * that pass the extension test, in the order they were dropped.
     */
    method HandleDrop(items: seq<string>)
      modifies this`sourceFiles
      ensures sourceFiles == ImageFiles(items)
    {
      sourceFiles := [];
      for k := 0 to |items|
        invariant sourceFiles == ImageFiles(items[..k])
      {
        assert items[..k + 1][..k] == items[..k];
        if IsImagePath(items[k]) {
          sourceFiles := sourceFiles + [items[k]];
        }
      }
      assert items[..|items|] == items;
    }

    /** A folder chosen in the dialog replaces the output folder; a cancelled dialog keeps it. */
    method SelectOutputFolder(folder: string)
      modifies this`outputFolder
      ensures outputFolder == if folder != "" then folder else old(outputFolder)
    {
      if folder != "" {
        outputFolder := folder;
      }
    }

    /**
     * Rejects a start without files or without an output folder and changes
     * nothing then; otherwise clears the stop event, sets the pause event,
     * empties the progress bar and shows the working status. The worker is
     * then run with ProcessImages on the current files and folder, as
     * StartAndRun does.
     */
    method StartProcessing() returns (outcome: StartOutcome)
      modifies this`stopSet, this`pauseSet, this`progress, this`status, this`log
      ensures outcome == (if sourceFiles == [] then NoSourceFiles
                          else if outputFolder == "" then NoOutputFolder
                          else Started)
      ensures outcome != Started ==> State() == old(State())
      ensures outcome == Started ==> State() == StartState(old(State()), |sourceFiles|)
    {
      if sourceFiles == [] {
        return NoSourceFiles;
      }
      if outputFolder == "" {
        return NoOutputFolder;
      }
      stopSet := false;
      pauseSet := true;
      progress := Progress(0, |sourceFiles|);
      log := [];
      status := Working;
      outcome := Started;
    }

    method PauseProcessing()
      modifies this`pauseSet, this`status
      ensures State() == Apply(old(State()), PauseControl)
    {
      pauseSet := false;
      status := PausedNotice;
    }

    method ResumeProcessing()
      modifies this`pauseSet, this`status
      ensures State() == Apply(old(State()), ResumeControl)
    {
      pauseSet := true;
      status := Working;
    }

    /** Sets the stop event and also the pause event, so that a paused worker wakes and sees the stop. */
    method StopProcessing()
      modifies this`stopSet, this`pauseSet, this`status
      ensures State() == Apply(old(State()), StopControl)
    {
      stopSet := true;
      pauseSet := true;
      status := StoppedNotice;
    }

    /** The host pressing the control buttons `cs`, one after another. */
    method ApplyControls(cs: seq<Control>)
      modifies this`stopSet, this`pauseSet, this`status
      ensures State() == ApplyAll(old(State()), cs)
    {
      for j := 0 to |cs|
        invariant State() == ApplyAll(old(State()), cs[..j])
      {
        assert cs[..j + 1][..j] == cs[..j];
        match cs[j]
        case PauseControl => PauseProcessing();
        case ResumeControl => ResumeProcessing();
        case StopControl => StopProcessing();
      }
      assert cs[..|cs|] == cs;
    }

    /**
     * The worker loop over `filePaths`, items numbered from 1. Before item i
     * the host's controls `controls[i]` take effect; the loop then leaves at
     * once if the stop event is set, stays in the pause wait for good if the
     * pause event is cleared, transforms the
     * item if its path passes the extension test (ending the worker if the
     * image cannot be opened) and moves the progress bar and status to
     * "i of n". Once the loop is left the status shows Finished.
     */
    method ProcessImages(filePaths: seq<string>, folder: string, fs: map<string, Image>,
                         controls: seq<seq<Control>>) returns (ending: Ending)
      modifies this`stopSet, this`pauseSet, this`status, this`progress, this`written, this`log
      ensures RunResult(State(), ending) == RunFrom(old(State()), filePaths, folder, fs, controls, 0)
    {
      var total := |filePaths|;
      ending := Exhausted;
      var index := 0;
      while index < total
        invariant index <= total && ending == Exhausted
        invariant RunFrom(State(), filePaths, folder, fs, controls, index)
               == RunFrom(old(State()), filePaths, folder, fs, controls, 0)
      {
        ghost var before := State();
        ApplyControls(Gap(controls, index));
        ghost var after := State();
        if stopSet {
          ending := StopObserved(index);
          break;
        }
        if !pauseSet {
          // the pause wait, with no further press to release it
          assert RunFrom(before, filePaths, folder, fs, controls, index) == RunResult(after, Blocked(index));
          return Blocked(index);
        }
        var path := filePaths[index];
        if Fails(path, fs) {
          assert RunFrom(before, filePaths, folder, fs, controls, index) == RunResult(after, Crashed(index));
          return Crashed(index);
        }
        ProcessFile(path, folder, fs);
        progress := Progress(index + 1, total);
        log := log + [progress];
        status := Processed(index + 1, total);
        index := index + 1;
      }
      status := Finished;
    }

    /**
     * One item of the loop: an image path is opened, its background sampled
     * and removed, and the result written to `folder/basename(path)`; any
     * other path leaves the files alone.
     */
    method ProcessFile(path: string, folder: string, fs: map<string, Image>)
      requires !Fails(path, fs)
      modifies this`written
      ensures written == Write(old(written), path, folder, fs)
    {
      if IsImagePath(path) {
        var image := fs[path];
        var bg := DetectBackgroundColor(image.colors);
        var ranges := CreateColorRange(bg, DefaultTolerance);
        var pixels := RemoveBackground(image.pixels, ranges);
        written := written[Join(folder, Basename(path)) := pixels];
      }
    }

    /**
     * Pressing start and, when it is accepted, running the worker over the
     * current files into the current folder with the host's presses
     * `controls`: the result is the batch `RunFrom` gives from the state
     * right after the start, so the Batch lemmas about whole batches apply.
     */
    method StartAndRun(fs: map<string, Image>, controls: seq<seq<Control>>)
      returns (outcome: StartOutcome, ending: Ending)
      modifies this`stopSet, this`pauseSet, this`status, this`progress, this`written, this`log
      ensures outcome == (if sourceFiles == [] then NoSourceFiles
                          else if outputFolder == "" then NoOutputFolder
                          else Started)
      ensures outcome != Started ==> State() == old(State())
      ensures outcome == Started ==>
        RunResult(State(), ending)
          == RunFrom(StartState(old(State()), |sourceFiles|), sourceFiles, outputFolder, fs, controls, 0)
    {
      outcome := StartProcessing();
      ending := Exhausted;
      if outcome == Started {
        ending := ProcessImages(sourceFiles, outputFolder, fs, controls);
      }
    }
  }
}
