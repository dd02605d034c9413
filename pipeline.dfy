/** The driver of the batch: the per-image loop with its processed-file
    counter and progress reports, and the fatal conditions that end a run
    with a non-zero exit status.

    What the program writes to the terminal is modelled as a log of events.
    Reading an image and writing a result are I/O: they are the parameters
    `decodes` (the image at that name decodes to a non-empty picture) and
    `writes` (writing the result to that path succeeds). */
module Pipeline {
  import opened ImageFiles

  /** One observable step of a run. */
  datatype Event =
    | Progress(current: nat, total: nat, filename: string, newline: bool)  // printProgress
    | ReadFailed(name: string)                                          // "Failed to read"
    | Saved(path: string)                                               // "Saved:"
    | WriteFailed(path: string)                                         // "Failed to write"
    | ModelLoadFailed                                                   // "Could not load model"
    | NoImages                                                          // "No images found"
    | AllProcessed                                                      // "All images processed!"

  /** The file name shown by the final progress report. */
  const DoneLabel: string := "Done"

  /** `printProgress(current, total, filename)`: the line is ended only when
      `current` has reached `total`. */
  function ProgressEvent(current: nat, total: nat, filename: string): Event
  {
    Progress(current, total, filename, current == total)
  }

  /** What one pass of the loop reports for the image `name` at position
      `index`: a progress line, then exactly one outcome. */
  function ImageEvents(outputFolder: string, name: string, index: nat, total: nat,
                       decodes: string -> bool, writes: string -> bool): seq<Event>
  {
    [ProgressEvent(index, total, name)] +
    if !decodes(name) then [ReadFailed(name)]
    else if writes(OutputPath(outputFolder, name)) then [Saved(OutputPath(outputFolder, name))]
    else [WriteFailed(OutputPath(outputFolder, name))]
  }

  /** What the loop reports for `images`, each at its own position. */
  function LoopEvents(outputFolder: string, images: seq<string>, total: nat,
                      decodes: string -> bool, writes: string -> bool): seq<Event>
  {
    if images == [] then []
    else LoopEvents(outputFolder, images[..|images| - 1], total, decodes, writes) +
         ImageEvents(outputFolder, images[|images| - 1], |images| - 1, total, decodes, writes)
  }

  /** What a whole run reports. */
  function RunEvents(outputFolder: string, modelLoads: bool, entries: seq<Entry>,
                     decodes: string -> bool, writes: string -> bool): seq<Event>
  {
    if !modelLoads then [ModelLoadFailed]
    else if Selected(entries) == [] then [NoImages]
    else LoopEvents(outputFolder, Selected(entries), |Selected(entries)|, decodes, writes) +
         [ProgressEvent(|Selected(entries)|, |Selected(entries)|, DoneLabel), AllProcessed]
  }

  /** The exit status of a run: -1 for the fatal conditions, 0 otherwise,
      however many single images failed. */
  function ExitCode(modelLoads: bool, entries: seq<Entry>): int
  {
    if !modelLoads || Selected(entries) == [] then -1 else 0
  }

  /** The per-image loop and the final progress report. The counter goes
      up once per image on the read-failure path and once on the other
      path, so it ends equal to the number of images. */
  method ProcessImages(outputFolder: string, images: seq<string>,
                       decodes: string -> bool, writes: string -> bool)
    returns (count: nat, log: seq<Event>)
    ensures count == |images|
    ensures log == LoopEvents(outputFolder, images, |images|, decodes, writes) +
                   [ProgressEvent(|images|, |images|, DoneLabel)]
  {
    var total := |images|;
    count := 0;
    log := [];
    var i := 0;
    while i < total
      invariant i <= total && count == i
      invariant log == LoopEvents(outputFolder, images[..i], total, decodes, writes)
    {
      var name := images[i];
      assert images[..i + 1][..i] == images[..i];
      log := log + [ProgressEvent(count, total, name)];
      if !decodes(name) {
        log := log + [ReadFailed(name)];
        count := count + 1;
        i := i + 1;
        continue;
      }
      var outPath := OutputPath(outputFolder, name);
      if !writes(outPath) {
        log := log + [WriteFailed(outPath)];
      } else {
        log := log + [Saved(outPath)];
      }
      count := count + 1;
      i := i + 1;
    }
    assert images[..i] == images;
    log := log + [ProgressEvent(total, total, DoneLabel)];
  }

  /** A whole run after argument parsing: load the model, collect the
      images, give up on an empty list, otherwise process them all. */
  method Run(outputFolder: string, modelLoads: bool, entries: seq<Entry>,
             decodes: string -> bool, writes: string -> bool)
    returns (exitCode: int, log: seq<Event>)
    ensures exitCode == ExitCode(modelLoads, entries)
    ensures log == RunEvents(outputFolder, modelLoads, entries, decodes, writes)
  {
    if !modelLoads {
      return -1, [ModelLoadFailed];
    }
    var images := CollectImages(entries);
    var total := |images|;
    if total == 0 {
      return -1, [NoImages];
    }
    var count;
    count, log := ProcessImages(outputFolder, images, decodes, writes);
    log := log + [AllProcessed];
    exitCode := 0;
  }

  // ---------------------------------------------------------------------
  // Properties of the log
  // ---------------------------------------------------------------------

  /** The number of images that are read and written successfully. */
  function Succeeded(outputFolder: string, images: seq<string>,
                     decodes: string -> bool, writes: string -> bool): nat
  {
    if images == [] then 0
    else Succeeded(outputFolder, images[..|images| - 1], decodes, writes) +
         (if decodes(images[|images| - 1]) && writes(OutputPath(outputFolder, images[|images| - 1])) then 1 else 0)
  }

  function CountSaved(log: seq<Event>): nat
  {
    if log == [] then 0 else CountSaved(log[..|log| - 1]) + (if log[|log| - 1].Saved? then 1 else 0)
  }

  function CountFailures(log: seq<Event>): nat
  {
    if log == [] then 0
    else CountFailures(log[..|log| - 1]) + (if log[|log| - 1].ReadFailed? || log[|log| - 1].WriteFailed? then 1 else 0)
  }

  function CountProgress(log: seq<Event>): nat
  {
    if log == [] then 0 else CountProgress(log[..|log| - 1]) + (if log[|log| - 1].Progress? then 1 else 0)
  }

  lemma {:induction false} CountsAppend(a: seq<Event>, b: seq<Event>)
    ensures CountSaved(a + b) == CountSaved(a) + CountSaved(b)
    ensures CountFailures(a + b) == CountFailures(a) + CountFailures(b)
    ensures CountProgress(a + b) == CountProgress(a) + CountProgress(b)
    decreases |b|
  {
    if b == [] {
      assert a + b == a;
    } else {
      CountsAppend(a, b[..|b| - 1]);
      assert (a + b)[..|a + b| - 1] == a + b[..|b| - 1];
    }
  }

  /** Every image gets one progress report and exactly one outcome: it is
      saved when it is both read and written, and reported as failed
      otherwise. */
  lemma {:induction false} LoopOutcomes(outputFolder: string, images: seq<string>, total: nat,
                                        decodes: string -> bool, writes: string -> bool)
    ensures var log := LoopEvents(outputFolder, images, total, decodes, writes);
            CountProgress(log) == |images| &&
            CountSaved(log) == Succeeded(outputFolder, images, decodes, writes) &&
            CountSaved(log) + CountFailures(log) == |images|
  {
    if images != [] {
      var init := images[..|images| - 1];
      var last := images[|images| - 1];
      LoopOutcomes(outputFolder, init, total, decodes, writes);
      var e := ImageEvents(outputFolder, last, |images| - 1, total, decodes, writes);
      CountsAppend(LoopEvents(outputFolder, init, total, decodes, writes), e);
      CountsAppend([e[0]], e[1..]);
      assert e == [e[0]] + e[1..];
      assert [e[0]][..0] == [];
      assert e[1..][..0] == [];
    }
  }

  /** Every progress report in `log` is for a position below `n`, out of
      `total`, and none of them ends its line. */
  predicate ReportsBelow(log: seq<Event>, n: nat, total: nat)
  {
    forall k :: 0 <= k < |log| && log[k].Progress? ==>
      log[k].current < n && log[k].total == total && !log[k].newline
  }

  /** Inside the loop the counter is below the total, so no progress report
      of the loop ends its line; every report names a position of the list. */
  lemma {:induction false} LoopProgress(outputFolder: string, images: seq<string>, total: nat,
                                        decodes: string -> bool, writes: string -> bool)
    requires |images| <= total
    ensures ReportsBelow(LoopEvents(outputFolder, images, total, decodes, writes), |images|, total)
  {
    if images != [] {
      var init := images[..|images| - 1];
      LoopProgress(outputFolder, init, total, decodes, writes);
      var a := LoopEvents(outputFolder, init, total, decodes, writes);
      var e := ImageEvents(outputFolder, images[|images| - 1], |images| - 1, total, decodes, writes);
      assert ReportsBelow(a, |init|, total);
      assert LoopEvents(outputFolder, images, total, decodes, writes) == a + e;
      assert e[0] == ProgressEvent(|images| - 1, total, images[|images| - 1]);
      assert |e| == 2 && !e[1].Progress?;
      var log := a + e;
      forall k | 0 <= k < |log| && log[k].Progress?
        ensures log[k].current < |images| && log[k].total == total && !log[k].newline
      {
        if k >= |a| {
          assert log[k] == e[k - |a|];
        } else {
          assert log[k] == a[k];
        }
      }
    }
  }

  /** In a run that completes, the final progress line, with
      `current == total`, is followed only by the closing message, and it is
      the only progress line that ends its line. */
  lemma NewlineOnlyAtEnd(outputFolder: string, modelLoads: bool, entries: seq<Entry>,
                         decodes: string -> bool, writes: string -> bool)
    requires ExitCode(modelLoads, entries) == 0
    ensures var log := RunEvents(outputFolder, modelLoads, entries, decodes, writes);
            |log| > 1 && log[|log| - 1] == AllProcessed &&
            log[|log| - 2] == Progress(|Selected(entries)|, |Selected(entries)|, DoneLabel, true) &&
            forall k :: 0 <= k < |log| && log[k].Progress? && log[k].newline ==> k == |log| - 2
  {
    var images := Selected(entries);
    LoopProgress(outputFolder, images, |images|, decodes, writes);
    var a := LoopEvents(outputFolder, images, |images|, decodes, writes);
    var log := RunEvents(outputFolder, modelLoads, entries, decodes, writes);
    assert log == a + [ProgressEvent(|images|, |images|, DoneLabel), AllProcessed];
    assert ReportsBelow(a, |images|, |images|);
    forall k | 0 <= k < |log| && log[k].Progress? && log[k].newline
      ensures k == |log| - 2
    {
    }
  }

  /** A run that fails fatally reports only its reason and saves nothing;
      one that completes saves exactly the images that are read and written,
      and reports every other image as failed. */
  lemma RunOutcomes(outputFolder: string, modelLoads: bool, entries: seq<Entry>,
                    decodes: string -> bool, writes: string -> bool)
    ensures var log := RunEvents(outputFolder, modelLoads, entries, decodes, writes);
            var images := Selected(entries);
            (ExitCode(modelLoads, entries) != 0 ==> |log| == 1 && CountSaved(log) == 0 && CountProgress(log) == 0) &&
            (ExitCode(modelLoads, entries) == 0 ==>
               CountSaved(log) == Succeeded(outputFolder, images, decodes, writes) &&
               CountSaved(log) + CountFailures(log) == |images| &&
               CountProgress(log) == |images| + 1)
  {
    var images := Selected(entries);
    var log := RunEvents(outputFolder, modelLoads, entries, decodes, writes);
    if ExitCode(modelLoads, entries) != 0 {
      assert log == [log[0]] && !log[0].Saved?;
      assert log[..0] == [];
    } else {
      var a := LoopEvents(outputFolder, images, |images|, decodes, writes);
      LoopOutcomes(outputFolder, images, |images|, decodes, writes);
      var tail := [ProgressEvent(|images|, |images|, DoneLabel), AllProcessed];
      CountsAppend(a, tail);
      assert log == a + tail;
      assert tail[..1] == [tail[0]];
      assert tail[..1][..0] == [];
      assert CountSaved(tail[..1]) == 0 && CountFailures(tail[..1]) == 0 && CountProgress(tail[..1]) == 1;
      assert CountSaved(tail) == 0 && CountFailures(tail) == 0 && CountProgress(tail) == 1;
    }
  }

  /** A folder holding two images, one unreadable and one that is read and
      written: one image is saved, one failure is reported, and the run
      still succeeds. */
  lemma OneBadOneGood(outputFolder: string, bad: string, good: string,
                      decodes: string -> bool, writes: string -> bool)
    requires Keep(Entry(bad, true)) && Keep(Entry(good, true))
    requires !decodes(bad) && decodes(good) && writes(OutputPath(outputFolder, good))
    ensures var entries := [Entry(bad, true), Entry(good, true)];
            var log := RunEvents(outputFolder, true, entries, decodes, writes);
            ExitCode(true, entries) == 0 && CountSaved(log) == 1 && CountFailures(log) == 1
  {
    var entries := [Entry(bad, true), Entry(good, true)];
    SelectedPair(bad, good);
    SucceededPair(outputFolder, bad, good, decodes, writes);
    RunOutcomes(outputFolder, true, entries, decodes, writes);
  }

  lemma SelectedPair(bad: string, good: string)
    requires Keep(Entry(bad, true)) && Keep(Entry(good, true))
    ensures Selected([Entry(bad, true), Entry(good, true)]) == [bad, good]
  {
    var entries := [Entry(bad, true), Entry(good, true)];
    assert entries[..1] == [Entry(bad, true)];
    assert [Entry(bad, true)][..0] == [];
    assert Selected([Entry(bad, true)]) == [bad];
  }

  lemma SucceededPair(outputFolder: string, bad: string, good: string,
                      decodes: string -> bool, writes: string -> bool)
    requires !decodes(bad) && decodes(good) && writes(OutputPath(outputFolder, good))
    ensures Succeeded(outputFolder, [bad, good], decodes, writes) == 1
  {
    assert [bad, good][..1] == [bad];
    assert [bad][..0] == [];
    assert Succeeded(outputFolder, [bad], decodes, writes) == 0;
  }

  /** A folder with no regular file carrying an image extension (an empty
      folder among them) ends the run with status -1 before anything is
      read or written. */
  lemma NoImageFails(outputFolder: string, entries: seq<Entry>,
                     decodes: string -> bool, writes: string -> bool)
    requires forall k :: 0 <= k < |entries| ==> !Keep(entries[k])
    ensures ExitCode(true, entries) == -1
    ensures RunEvents(outputFolder, true, entries, decodes, writes) == [NoImages]
  {
    if Selected(entries) != [] {
      SelectedMembers(entries, Selected(entries)[0]);
    }
  }
}
