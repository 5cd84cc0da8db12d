# Image background remover — Dafny model

A model of the desktop tool in `app.py` that strips the background of
images. The user drops image files on the window and picks an output folder,
then presses start. A worker thread goes through the files one by one. For
each file that passes the extension test (`.png`, `.jpg`, `.jpeg`, any case),
it does four things:

- samples a background colour;
- builds a per-channel tolerance range around that colour;
- turns every pixel inside the range into transparent white;
- writes the result to `output_folder/basename(path)`.

The status line and the progress bar advance for every item, image or not.
Pause, resume and stop act on two events. The worker checks the stop event
before each item, then waits on the pause event.

The model has five modules:

- `Sampler` (`sampler.dfy`): the colour census, the sampler, and the
  tolerance range builder. These are pure functions and lemmas.
- `Remover` (`remover.dfy`): the per-pixel background test, and the removal
  loop as a method proved against a function on pixel sequences.
- `Paths` (`paths.dfy`): the case-insensitive extension test, POSIX
  `basename` and `join`, and the filtering of dropped files.
- `Batch` (`batch.dfy`): the worker loop and the control buttons as
  functions on a value `AppState`. `RunFrom` follows the loop item by item.
  The lemmas state what a batch does: where it stops, what it logs, what it
  writes and what the written files hold, how it ends, and when pausing
  changes none of the work.
- `Processor` (`processor.dfy`): the class `ImageProcessorApp`. It has the
  application's fields: files, output folder, pause and stop events, status,
  progress, and the files written. Its methods update those fields in place.
  - The buttons and the worker loop (`PauseProcessing`, `ResumeProcessing`,
    `StopProcessing`, `ApplyControls`, `ProcessImages`, `StartAndRun`) are
    proved to leave exactly the state that the `Batch` functions describe.
  - `HandleDrop` is proved against `Paths.ImageFiles`.
  - `SelectOutputFolder` and `StartProcessing` state their new fields
    directly. The state after start is `Batch.StartState`.

In two places the code does something other than what its own names say.
The model follows the code:

- **The sampler.** The function is named `detect_background_color`
  (app.py:183) and its result is called `most_common_color` (app.py:188),
  which names the most frequent colour. What the code actually does:
  - It builds `dict(colors)` from the `(count, colour)` census. The
    dictionary is therefore keyed by count, and the last pair for each count
    wins.
  - `most_common(1)` then picks the entry with the greatest colour *value*.
  - `[0][0]` returns that entry's key, which is an integer count.
  - The range builder does not recognise an integer, so every image that has
    pixels gets the fixed near-white range `[(200,255)]*3`.

  `DetectBackgroundColor` models the code as written. `ImageOutputUsesFallback`
  states the consequence for every image whose census matches its pixels.
  `MostFrequentColor` is the sampler that the names describe, and
  `SamplerMissesMostFrequentColor` gives an image on which the two differ.
- **Unreadable images.** The code does not catch the error from
  `Image.open` (app.py:144). The worker thread dies, the status is never set
  to the finished text, and the items after it are not handled. `RunFrom`
  ends with `Crashed(i)` and leaves the state as it was.

Parameters stand for the environment:

- **Images on disk.** They are a map `fs` from path to `Image`, which holds
  the colour census and the RGBA pixels. A path that passes the extension
  test but is not in `fs` is an image that cannot be opened. `ValidImage`
  says when a census matches its pixels, as the decoder's colour count
  (app.py:186) guarantees.
- **Button presses.** The host's presses during a batch are
  `controls: seq<seq<Control>>`. Entry `i` takes effect just before the stop
  check of item `i`. If the pause event is still cleared after those
  presses, the worker enters the pause wait. In the model no press reaches a
  worker that is already waiting, so the batch ends `Blocked(i)` and never
  reads Finished. In the program a later resume or stop would release it;
  see the `Batch.PauseResumeDoNotChangeWork` line under "## Left out".

## Model

| member | source | states |
|---|---|---|
| Sampler.Insert | app.py:188 | Storing one census pair in the dictionary, as a definition: an entry with the same count is replaced in place, otherwise the pair is appended. `EntriesAsDict` states what the dictionary holds. |
| Sampler.Entries | app.py:188 | `dict(colors)`: the census pairs inserted in order, as a definition. `EntriesAsDict` characterises it. |
| Sampler.CreateColorRange | app.py:194-199 | Always three ranges, each within 0..255. A three-channel tuple gives channel i exactly the byte values within `tolerance` of the channel. Any other sample gives the fixed (200,255) range on all three channels. For a valid colour and a tolerance of at least 0, each range contains its channel. |
| Sampler.EntriesAsDict | app.py:188 | The dictionary built from the census has one entry per count. Each entry is the last census pair with that count, and every such last pair is kept. It is empty only for an empty census. |
| Sampler.ArgMaxColor | app.py:188 | `most_common(1)` on the count-keyed dictionary. The chosen entry's colour is not less than any other colour, and every earlier entry's colour is strictly less, so ties go to the first. |
| Sampler.DetectBackgroundColor | app.py:183-191 | White exactly when the census is empty. Otherwise the result is an integer count taken from the census, not a colour. |
| Sampler.SamplerReturnsCountOfGreatestColor | app.py:185-191 | For a non-empty census, the sampler returns the count of the kept census pair whose colour is greatest among the kept pairs. |
| Sampler.DetectedRangeIsFallback | app.py:145-146 | For a non-empty census, the range built from the sampled value is the fixed near-white range, whatever the tolerance. |
| Sampler.MostFrequentColor | app.py:183-191 | The sampler that the names describe: white for an empty census, otherwise a colour of the census with the highest count. |
| Sampler.SamplerMissesMostFrequentColor | app.py:188 | For three dark pixels and one white one, the code's sampler returns the count 1, while the most frequent colour is the dark one. |
| Remover.IsBackground | app.py:209 | The `is_bg` test, as a definition: each of the first three channels lies in the range at its position (the pairing stops at the shorter of the two). `BackgroundIgnoresAlpha` and `FallbackMatchesNearWhite` state its properties. |
| Remover.MapPixels | app.py:208-213 | The reference definition of the image after removal, which `RemoveBackground` is proved against. Its ensures spells that definition out position by position: the same length as the input, and position i is transparent white when pixel i is background and pixel i itself otherwise. |
| Remover.RemoveBackground | app.py:202-216 | One output pixel per input pixel, in order. A pixel whose red, green and blue each lie in their range becomes (255,255,255,0). Every other pixel is kept unchanged, alpha included. The result equals `MapPixels`. |
| Remover.BackgroundIgnoresAlpha | app.py:209 | Only the first three channels are tested: changing alpha never changes whether a pixel is background. |
| Remover.RemoveBackgroundIdempotent | app.py:208-213 | Removing the background twice with the same ranges gives the same pixels as removing it once. |
| Remover.RemovalIsPointwise | app.py:208-213 | The output pixel at a position depends only on the input pixel at that position. |
| Remover.FallbackMatchesNearWhite | app.py:199 | With the fallback range, a pixel is background exactly when red, green and blue are all at least 200. |
| Paths.IsImagePath | app.py:140 | The extension test, as a definition without a contract of its own: the ASCII lower-cased path ends with .png, .jpg or .jpeg. Its properties are the next four lemmas. |
| Paths.ImagePathByExtension | app.py:140 | Any stem followed by an extension that lower-cases to .png, .jpg or .jpeg passes the extension test. |
| Paths.ExampleTextFileRejected | app.py:140 | A `.txt` path fails the extension test. |
| Paths.ImagePathIffBasename | app.py:140-141 | A path passes the extension test exactly when its basename does. |
| Paths.Basename | app.py:141 | The POSIX basename, as a definition without a contract of its own. `BasenameIsLastComponent` characterises it. |
| Paths.BasenameIsLastComponent | app.py:141 | The basename holds no '/', is a suffix of the path, and is preceded by '/' unless it is the whole path. |
| Paths.Join | app.py:142 | The joined path ends with the name. A name starting with '/' replaces the folder. Otherwise exactly the folder comes before the name, followed by one '/' when the folder is non-empty and does not already end with '/'. |
| Paths.OutputKeepsBasename | app.py:141-142 | The output file `join(folder, basename(p))` has the same basename as `p`, whatever the folder. |
| Paths.ImageFiles | app.py:76-85 | The drop filter keeps no more files than were dropped. Which files it keeps, and in what order, are stated by the three lemmas below. |
| Paths.ImageFilesMembers | app.py:76-85 | The kept files are exactly the dropped items that pass the extension test. |
| Paths.ImageFilesAppend | app.py:77-85 | Filtering a concatenation is the concatenation of the filtered parts. Order and duplicates are therefore kept as dropped. |
| Paths.ImageFilesSingleton | app.py:84-85 | A single item is kept exactly when it passes the extension test. |
| Batch.Apply | app.py:159-180 | One button press. Afterwards the pause event is cleared exactly by a pause, and the stop event is set by a stop and otherwise kept. Progress, log and written files are unchanged. |
| Batch.PauseAfterControls | app.py:159-176 | After a series of presses, the pause event is set exactly when the last press was a resume or a stop, or, with no press, when it was set before. |
| Batch.ControlsKeepWork | app.py:159-180 | Button presses change neither the progress, the log nor the files written. Afterwards the stop event is set exactly when it was set before or a stop was among the presses. |
| Batch.StopReleasesPause | app.py:173-176 | After a sequence of presses that ends with stop, both the stop event and the pause event are set, so a paused worker wakes up. |
| Batch.ImageOutput | app.py:144-147 | The pixels written for an image: same count as the image's pixels, and for any non-empty census exactly the pixels matched against the fixed near-white range. |
| Batch.ImageOutputUsesFallback | app.py:144-147 | For every image whose census matches its pixels (`ValidImage`), with or without pixels, the output is the pixels matched against the fixed near-white range. |
| Batch.Fails | app.py:144 | `Image.open` failing, as a definition: the path passes the extension test but is not a readable image in `fs`. |
| Batch.Write | app.py:140-147 | One item's output, as a definition: an image path that opens writes `ImageOutput` of the image to `join(folder, basename(path))`, and any other path writes nothing. `WrittenFiles` and `WrittenContents` state what a series of writes leaves. |
| Batch.WriteAll | app.py:134-147 | The writes of a list of items in order, as a definition. `WrittenFiles` and `WrittenContents` characterise it. |
| Batch.Advance | app.py:140-152 | One completed item, as a definition: its output is written, and the bar, the log and the status move to "index of total". `RunLogsEachItem` and `RunWritesCompletedItems` state the effect over a run. |
| Batch.Percent | app.py:150 | The bar value `index / total * 100`, as a definition. `PercentRises` states its properties. |
| Batch.RunFrom | app.py:128-154 | The worker loop from item i, as a definition without a contract of its own: presses, stop check, pause wait, then the item. Its properties are the `Run*` lemmas. |
| Batch.RunStopsAtFirstEvent | app.py:134-147 | The loop completes items up to the first item where the stop check sees the stop event, the worker is left in the pause wait, or the image cannot be opened. Every completed item saw no stop and opened. On exhaustion every item is completed. A stop seen ends the loop at that item before the wait or the open; a worker left waiting or failing on the image saw no stop there. |
| Batch.RunWaitsBeforeOpening | app.py:138-144 | Every completed item passed the pause wait with the pause event set. A worker left waiting found the event cleared after that gap's presses. An image that cannot be opened was reached past an open wait, so the wait comes before the open. |
| Batch.RunLogsEachItem | app.py:149-152 | Each completed item adds one progress value, `i+1 .. k` of `n` in order. The bar shows the last one, or is unchanged if no item completed. |
| Batch.RunWritesCompletedItems | app.py:140-147 | The files written are the fold of the single-item write over the completed items, in order. |
| Batch.RunEndsFinished | app.py:154 | Starting from a status that is not Finished, the status reads Finished exactly when the loop ran out or saw the stop. It never does when the worker was left waiting or hit an image it cannot open. |
| Batch.NeverBlocked | app.py:138 | While every series of presses before item m leaves the pause event set, and it is set at the start, the worker does not stay in the pause wait before item m. |
| Batch.UnresumedPauseNeverFinishes | app.py:138-154 | Starting from a status that is not Finished, suppose a pause is the last press before item k and no stop came up to then. Then the worker stops at item k at the latest, left waiting or failed on an image before item k, and the status never reads Finished. |
| Batch.WrittenFiles | app.py:140-147 | After handling a list of paths, an output path exists exactly when it existed before or is `join(folder, basename(p))` for an image path `p` that can be opened. |
| Batch.WrittenContents | app.py:140-147 | Each output file holds the processed pixels of the last image written to it, so later images overwrite earlier ones. A file that no image is written to keeps what it held. |
| Batch.StartState | app.py:114-118 | The state right after an accepted start: stop cleared, pause set, bar at 0 of n, working status, empty log. This is a definition without a contract of its own. |
| Batch.BatchFromStart | app.py:103-154 | A batch run from a start handles items 1..k in order. The log is exactly their progress values. The files are the earlier ones plus those of the handled items. The status reads Finished unless the worker was left waiting or hit an unreadable image. |
| Batch.UninterruptedBatch | app.py:128-154 | Suppose the batch starts with the stop event clear, the pause event set and a status that is not Finished, and there is no stop, every pause is released before the worker reaches the wait, and every image is readable. Then the loop runs out. The log is `1..n` of `n`, the bar ends at (n, n), which is 100 percent, the status is Finished, and every image path is written. |
| Batch.StopAfterItems | app.py:134-136 | From a state with the stop event clear, the pause event set and a status that is not Finished, a stop pressed just before item k+1, with no earlier stop, no pause left unreleased and every earlier image readable, completes exactly k items. Nothing of the rest is written or logged, and the status is Finished. |
| Batch.StopsOnly | app.py:159-180 | Dropping pauses and resumes from a sequence of presses keeps whether it contains a stop, and leaves only stops. |
| Batch.PauseResumeDoNotChangeWork | app.py:159-171 | Pauses and resumes between items change neither the ending, the progress, the log nor the files written. This holds when each pause is released by a resume or stop before the worker reaches the wait. |
| Batch.WhiteSquareExample | app.py:143-147 | For a 2x2 image of three white pixels and one dark one, the output makes the white pixels transparent and keeps the dark one. |
| Batch.PercentRises | app.py:150 | The bar's percentage strictly rises from item to item, stays within 0..100, and is 100 at the last item. |
| Batch.ThreeImagesAndOtherFile | app.py:133-152 | From a state with the stop event clear, the pause event set and a status that is not Finished, three readable images and one other file, with no presses, give four progress values, 1 to 4 of 4, and the loop runs out. |
| Batch.ThreeImagesWritten | app.py:140-147 | The same batch writes exactly the three images' output paths and nothing for the other file. |
| Processor.ImageProcessorApp.constructor | app.py:14-21 | The application starts with no files and no output folder, the pause event set, the stop event clear, and nothing written. |
| Processor.ImageProcessorApp.HandleDrop | app.py:73-85 | A drop replaces the file list with `ImageFiles` of the dropped items. By the `ImageFiles*` lemmas, these are the dropped items that pass the extension test, in drop order. |
| Processor.ImageProcessorApp.SelectOutputFolder | app.py:97-101 | A chosen folder replaces the output folder, and a cancelled dialog keeps it. |
| Processor.ImageProcessorApp.StartProcessing | app.py:103-126 | Start is refused without files, then without a folder, and changes nothing when refused. Otherwise it leaves `StartState`: stop cleared, pause set, the bar emptied over the file count, and the working status. |
| Processor.ImageProcessorApp.StartAndRun | app.py:103-126 | Start, then, if accepted, the worker over the current files and folder. The result is `RunFrom` from `StartState`, so `BatchFromStart` and the other whole-batch lemmas apply with their preconditions met. |
| Processor.ImageProcessorApp.PauseProcessing | app.py:159-164 | Clears the pause event and shows the paused status, as `Apply(…, PauseControl)` states. |
| Processor.ImageProcessorApp.ResumeProcessing | app.py:166-171 | Sets the pause event and shows the working status, as `Apply(…, ResumeControl)` states. |
| Processor.ImageProcessorApp.StopProcessing | app.py:173-180 | Sets the stop event and the pause event and shows the stopped status, as `Apply(…, StopControl)` states. |
| Processor.ImageProcessorApp.ApplyControls | app.py:159-180 | A sequence of presses leaves the state given by `ApplyAll` on the presses. |
| Processor.ImageProcessorApp.ProcessFile | app.py:140-147 | One item whose image opens: the new written files are `Write` of the old ones. An image's output lands at `join(folder, basename(path))`, and any other path writes nothing. |
| Processor.ImageProcessorApp.ProcessImages | app.py:128-157 | The loop leaves the fields, and returns the ending, that `RunFrom` gives from the state before the call. The `Batch` lemmas therefore hold of the method. |

## Left out

- The tkinter window is not modelled: the drag label, buttons, button enabling and message boxes. Only the status text and progress value are kept, as `Status` and `Progress`.
- Processor.ImageProcessorApp.HandleDrop: every dropped item is treated as a regular file. Walking dropped directories (`os.walk`, app.py:78-82) and the `isfile` test need a file system, which the model does not have.
- Output folder creation (`os.makedirs`, app.py:130-131) is not modelled: a directory tree is not part of the state.
- Image decoding, conversion and encoding (PIL) are not modelled:
  - An image is given as its colour census plus its RGBA pixels. `RunFrom` does not require `ValidImage` of the images in `fs`; `ImageOutputUsesFallback` needs it.
  - An `Image.open` failure is a path missing from `fs`.
  - Output is always PNG data under the original file name, and the write itself cannot fail in the model.
- Batch.RunFrom: each item is read as it was on disk before the batch (`fs` is fixed for the whole run). When a later item's path is an earlier item's output path, which happens when the output folder lies inside a dropped folder, the program reads the file just written; the model does not capture that, since decoding a written PNG back into a census is not modelled.
- Threads are not modelled. Host presses land only between items, before the stop check. A second start while a worker runs is not modelled.
- Batch.PauseResumeDoNotChangeWork: presses made while the worker is already in the pause wait are not modelled. The lemma therefore covers only pauses released before the worker reaches the wait. Two cases are not modelled:
  - A pause that is never released leaves the worker waiting forever. The model captures this as `Blocked`, and `UnresumedPauseNeverFinishes` states it.
  - A resume pressed during the wait lets the worker go on. A stop pressed during the wait does too, and the current item is still processed and written before the next check ends the loop.
- Batch.Percent: the progress value is an exact rational, not a floating-point number.
- Paths.Join and Paths.Basename follow POSIX rules only; Windows separators and drive letters are not modelled.
- Paths.IsImagePath lower-cases ASCII letters only, not all of Unicode.
- `check_for_updates` and `download_and_replace` (network access, replacing the running program) are not part of the core and are not modelled.
