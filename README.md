# Batch wallpaper upscaler: a verified model

The program reads every image in an input folder and processes each one in turn:
- denoise it;
- run a super-resolution network over it tile by tile;
- resize, equalise and sharpen it;
- write the result to an output folder as `<stem>_upscaled<extension>`.

While it works it reports progress on the terminal.

This project models the parts of that program that are its own logic rather than library calls:

- **`tiling.dfy`, module `Tiling`**: the geometry of `tileUpscale`.
  - The two nested loops visit clipped tiles of edge `tileSize` in row-major order.
  - The model proves that every visited tile is non-empty and inside the source, and that the tiles are pairwise disjoint.
  - It proves that together the tiles cover every source pixel exactly once, and that there are `ceil(rows/T) * ceil(cols/T)` of them.
  - The same facts are proved for the destination rectangles, once each tile is scaled by `scale`.
- **`upscale.dfy`, module `Upscale`**: `tileUpscale` itself, as an imperative method over an `array2` destination.
  - The destination is allocated zeroed.
  - The nested loops crop each tile, pass it to the network and copy the network's output into place.
  - The network is a function parameter `up`. All that is assumed of it is that it returns an `(h*scale) x (w*scale)` image for an `h x w` one (`ScalesBy`).
  - The method is proved to leave, at every destination pixel, the matching pixel of the upsampled tile that covers it. No zero from the initialisation survives.
  - When the source fits in one tile, the result is the network's output on the whole image.
- **`files.dfy`, module `ImageFiles`**: which directory entries are taken as images, and what each output file is called.
  - Extension and stem follow the `std::filesystem::path` rules.
  - The extension test lower-cases by the "C"-locale `tolower`.
  - The collection loop is a method proved equal to a filter function. That filter keeps enumeration order and accepts exactly the regular files whose lower-cased extension is one of the six literals.
  - The output name keeps the original extension, case included. Stripping `_upscaled` from the output stem gives the input stem back.
- **`pipeline.dfy`, module `Pipeline`**: the main loop's bookkeeping.
  - The counter ends equal to the number of images, whether or not each image could be read.
  - Each image the loop finishes gets one progress line and exactly one outcome (saved, or failed to read, or failed to write).
  - The final progress call has `current == total` and is the only one that ends its line.
  - Among the runs that end by a `return`, the exit status is -1 when the model does not load or no image is found, and 0 otherwise. Runs cut short by an uncaught exception are not modelled (see "Left out").
  - What the program writes to the terminal is a log of `Event`s.
  - Reading and writing images are the parameters `decodes` and `writes`.
  - Loading the model is the parameter `modelLoads`.

## Model

| member | source | states |
|---|---|---|
| Tiling.TileAt | src/main.cpp:27 | definition, no contract: the clipped tile `Rect(x, y, min(T, cols - x), min(T, rows - y))`; bounded by `Tiling.TilesInBounds` |
| Tiling.Tiles | src/main.cpp:25-27 | definition, no contract: the tiles the nested loops visit, in order; characterised by `Tiling.TilesMembers`, `Tiling.TilesOrdered`, `Tiling.TilesCoverOnce` and `Tiling.TileCount`, and produced by `Upscale.TileUpscale` |
| Tiling.TilesMembers | src/main.cpp:25-27 | a rectangle is visited by the loops iff its origin is on the `tileSize` grid inside the source and its size is `min(tileSize, remaining)` on each side |
| Tiling.TilesOrdered | src/main.cpp:25-26 | the loops visit tiles in strict row-major order of their origins |
| Tiling.TilesInBounds | src/main.cpp:27 | every visited tile has width and height in `1..tileSize`, equal to `min(tileSize, cols - x)` and `min(tileSize, rows - y)`, and lies inside the source |
| Tiling.GridTilesDisjoint | src/main.cpp:25-27 | two different grid tiles share no pixel |
| Tiling.TilesDisjoint | src/main.cpp:25-27 | the tiles of two different visits share no pixel |
| Tiling.TileOfPixel | src/main.cpp:25-27 | the grid tile at a source pixel's cell origin exists and contains that pixel |
| Tiling.TilesCoverOnce | src/main.cpp:25-27 | every source pixel lies in some visited tile, and in only one |
| Tiling.TileCount | src/main.cpp:25-26 | the loops visit `ceil(rows/tileSize) * ceil(cols/tileSize)` tiles |
| Tiling.TilesExample | src/main.cpp:25-27 | a 2000-wide, 1500-high source with 1024-pixel tiles is cut into 1024x1024, 976x1024, 1024x476 and 976x476 tiles, in that order |
| Tiling.SingleTile | src/main.cpp:25-27 | a source no larger than one tile is visited once, as a whole |
| Tiling.DestInside | src/main.cpp:23-31 | every scaled tile rectangle `(x*scale, y*scale, w*scale, h*scale)` lies inside the `rows*scale x cols*scale` destination |
| Tiling.ScaledDisjoint | src/main.cpp:31 | scaling preserves disjointness of rectangles |
| Tiling.DestDisjoint | src/main.cpp:31 | destination rectangles of two different visits share no pixel |
| Tiling.ScaledTileOfPixel | src/main.cpp:25-31 | every destination pixel lies in the scaled rectangle of some grid tile |
| Tiling.DestCoverOnce | src/main.cpp:23-31 | every destination pixel lies in the destination rectangle of exactly one visited tile |
| Upscale.Crop | src/main.cpp:27-28 | `src(roi)` is a well-formed `roi.height x roi.width` image whose pixel (r, c) is source pixel `(roi.y + r, roi.x + c)` |
| Upscale.Stitched | src/main.cpp:30-31 | definition, no contract: the destination value at (i, j), read from the upsampled tile whose grid cell holds `(i / scale, j / scale)`; tied to each tile's output by `Upscale.StitchedByTile` and `Upscale.SingleTileUpscale` |
| Upscale.StitchedByTile | src/main.cpp:30-31 | each pixel `(a, b)` of a visited tile's upsampled output belongs at destination `(y*scale + a, x*scale + b)`, inside that tile's destination rectangle |
| Upscale.SingleTileUpscale | src/main.cpp:25-31 | when `rows <= tileSize` and `cols <= tileSize` the stitched result is the network's output on the whole source |
| Upscale.CopyTo | src/main.cpp:31 | `copyTo` overwrites exactly the destination pixels under the rectangle with the tile's pixels and leaves the rest unchanged |
| Upscale.PlaceTile | src/main.cpp:27-31 | one pass of the inner loop body builds the tile `TileAt(y, x)` and adds exactly its destination rectangle to the finished part, leaving unfinished pixels zero |
| Upscale.UpscaleTileRow | src/main.cpp:26-32 | the inner loop visits the tile row at `y` in order and finishes all of it |
| Upscale.TileUpscale | src/main.cpp:22-34 | the destination is `rows*scale x cols*scale`, the tiles are visited in the order `Tiles` gives, and every destination pixel holds the matching pixel of the upsampled tile covering it |
| ImageFiles.LastIndexOf | src/main.cpp:67 | the result is the position of the last occurrence of the character, or none when it does not occur |
| ImageFiles.Extension | src/main.cpp:67 | `extension()` is a suffix of the name that is empty or a `.` followed by no other `.`, and never the whole name; it is non-empty iff the name is not `..` and has a `.` after its first character, so it is the part from the last `.` on |
| ImageFiles.Stem | src/main.cpp:117 | definition, no contract: the file name without its extension; `ImageFiles.StemExtension` proves stem plus extension is the name |
| ImageFiles.ToLowerAscii | src/main.cpp:68 | definition, no contract: "C"-locale `tolower`, changing only `A`-`Z` |
| ImageFiles.Lower | src/main.cpp:68 | definition, no contract: `tolower` applied to every character; `ImageFiles.ImageExtensionIgnoresCase` states what the test built on it accepts |
| ImageFiles.IsImageExtension | src/main.cpp:69 | definition, no contract: the lower-cased extension is one of the six literals; characterised by `ImageFiles.ImageExtensionIgnoresCase` |
| ImageFiles.Keep | src/main.cpp:66-69 | definition, no contract: a regular file with an image extension; see `ImageFiles.KeepUpperCase`, `ImageFiles.KeepLastExtension`, `ImageFiles.KeepRejects` |
| ImageFiles.Selected | src/main.cpp:64-71 | definition, no contract: the kept names in enumeration order; `ImageFiles.CollectImages` is proved to compute it, `ImageFiles.SelectedMembers` and `ImageFiles.SelectedAppend` characterise it |
| ImageFiles.OutputPath | src/main.cpp:117 | definition, no contract: folder, `/`, stem, `_upscaled`, extension; see `ImageFiles.OutputNameRoundTrip`, `ImageFiles.OutputPathFileName`, `ImageFiles.OutputPathExample` |
| ImageFiles.CollectImages | src/main.cpp:64-71 | the collection loop appends exactly the names `Selected` lists, in enumeration order |
| ImageFiles.SelectedMembers | src/main.cpp:65-70 | a name is in the image list iff some entry with that name is a regular file with an accepted extension |
| ImageFiles.SelectedFrom | src/main.cpp:65-70 | every listed name comes from a kept entry |
| ImageFiles.KeptIsSelected | src/main.cpp:65-70 | every kept entry's name is listed |
| ImageFiles.SelectedAppend | src/main.cpp:65-70 | selecting from two consecutive runs of entries gives the two selections in order |
| ImageFiles.ImageExtensionIgnoresCase | src/main.cpp:68-69 | the extension test holds iff the extension equals one of the six literals up to ASCII case |
| ImageFiles.KeepUpperCase | src/main.cpp:66-69 | `Photo.JPG` and `scan.TiFf` are accepted |
| ImageFiles.KeepLastExtension | src/main.cpp:67-69 | only the last extension counts: `archive.png.txt` is rejected and `notes.txt.webp` accepted |
| ImageFiles.KeepRejects | src/main.cpp:66-69 | a dot-file `.png`, a `.tif` file and a non-regular `album.png` are rejected |
| ImageFiles.LastIndexOfIs | src/main.cpp:67 | a position holding the character with none after it is the one `LastIndexOf` finds |
| ImageFiles.StemExtension | src/main.cpp:117 | stem followed by extension is the file name |
| ImageFiles.OutputNameRoundTrip | src/main.cpp:117 | the output file name has the input's extension, case kept, and the input's stem plus `_upscaled`; dropping that suffix gives the input stem |
| ImageFiles.OutputPathFileName | src/main.cpp:117 | the output path is the output folder, a `/`, and the output file name |
| ImageFiles.OutputPathExample | src/main.cpp:117 | `Photo.JPG` in folder `out` is written to `out/Photo_upscaled.JPG` |
| Pipeline.ProgressEvent | src/main.cpp:13-17 | definition, no contract: the report carries `current`, `total` and the file name, and ends its line when `current == total`; `Pipeline.LoopProgress` and `Pipeline.NewlineOnlyAtEnd` prove that only the final report does |
| Pipeline.ImageEvents | src/main.cpp:78-121 | definition, no contract: one pass of the loop reports progress, then read failure, write failure or save; counted by `Pipeline.LoopOutcomes` |
| Pipeline.LoopEvents | src/main.cpp:77-124 | definition, no contract: the reports of the loop, each image at its own position; `Pipeline.ProcessImages` is proved to produce it, `Pipeline.LoopOutcomes` and `Pipeline.LoopProgress` state what it contains |
| Pipeline.RunEvents | src/main.cpp:52-128 | definition, no contract: the reports of a whole run; `Pipeline.Run` produces it, `Pipeline.RunOutcomes`, `Pipeline.NewlineOnlyAtEnd` and `Pipeline.NoImageFails` state what it contains |
| Pipeline.ExitCode | src/main.cpp:56-57 | definition, no contract: -1 on a model load failure or an empty image list, else 0; `Pipeline.Run` returns it |
| Pipeline.ProcessImages | src/main.cpp:75-126 | the counter ends equal to the number of images, and the loop reports per image a progress line and one outcome, then the final `Done` line |
| Pipeline.Run | src/main.cpp:52-128 | the exit status is -1 iff the model does not load or no image is selected, and the log is the one `RunEvents` gives |
| Pipeline.LoopOutcomes | src/main.cpp:77-124 | the loop gives one progress line per image; saved outcomes are the images read and written, and saved plus failed outcomes are as many as the images |
| Pipeline.LoopProgress | src/main.cpp:77-79 | every progress line inside the loop has `current` below the number of images seen and does not end its line |
| Pipeline.NewlineOnlyAtEnd | src/main.cpp:73-127 | in a completed run the final progress line has `current == total`, only the closing message follows it, and it is the only progress line that ends its line |
| Pipeline.RunOutcomes | src/main.cpp:52-128 | a fatal run reports only its reason and saves nothing; a completed run saves exactly the images read and written, reports every other as failed, and prints one more progress line than there are images |
| Pipeline.OneBadOneGood | src/main.cpp:77-124 | one unreadable and one good image give one save, one failure and exit status 0 |
| Pipeline.SelectedPair | src/main.cpp:65-70 | two accepted entries are listed in their enumeration order |
| Pipeline.SucceededPair | src/main.cpp:77-124 | of an unreadable image followed by one read and written, one succeeds |
| Pipeline.NoImageFails | src/main.cpp:73-74 | a folder with no accepted entry ends the run with status -1 and the "no images" report only |

## Left out

- The image transforms between upscaling and saving: denoising, Lanczos resize, Lab conversion with CLAHE, Gaussian sharpening and the 8-bit saturation (src/main.cpp:88-114). They are single OpenCV calls on floating-point data. The main loop is modelled without them, so it does not call `TileUpscale`: an image's fate is decided by `decodes` and `writes` alone.
- The inside of the super-resolution network and its loading and configuration (src/main.cpp:52-61). The network is the parameter `up`, constrained only by `ScalesBy`, which is stated as a precondition. OpenCV would raise an exception on a size mismatch, and that is not modelled. Whether the model loads is the parameter `modelLoads`.
- Upscale.TileUpscale: requires `scale > 0` and `tileSize > 0`. The program always calls it with scale 4 and tile size 1024, and with a zero tile size the source loop would never end.
- Pixels are opaque integers. The colour channels and 8-bit depth play no part in the tiling.
- Upscale.TileUpscale: the source loop body is split into the methods `UpscaleTileRow` (inner loop) and `PlaceTile` (loop body), each proved on its own. The order of writes and the final buffer are the same as the source's.
- Directory enumeration, `create_directories`, `imread` and `imwrite` (src/main.cpp:49, 65, 81, 118). Enumeration order is the order of the `entries` sequence. Success of reading and writing is given by `decodes` and `writes`.
- Image entries carry only their file name, not the input folder part of the path. The read-failure report therefore names the file rather than the full path.
- ImageFiles.OutputNameRoundTrip: excludes the name `..`, which is never a regular file and so never listed.
- The percentage printed by `printProgress` (src/main.cpp:14) is a float computation and is not modelled. The text of the terminal lines is not modelled either. Only the event, its counter values and whether it ends the line are kept.
- Argument count checking and `std::stoi` parsing of the target size (src/main.cpp:37-47) are not modelled. They are argument glue around a library parser.
- Abnormal termination by an uncaught exception is not modelled: `fs::exists` or `create_directories` on the output folder (src/main.cpp:49), `directory_iterator` on a missing or unreadable input folder (src/main.cpp:65), and a `cv::Exception` from `sr.upsample` (src/main.cpp:30) or `imwrite` (src/main.cpp:118). Each ends the process with neither -1 nor 0 and, inside the loop, without the outcomes of the remaining images; the model's runs all end by a `return`.
- Integers are unbounded. The source's `int` counters and sizes could only overflow on inputs far beyond what the loops can handle.
