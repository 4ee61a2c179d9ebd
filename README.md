# ProImageViewer: directory navigation and edit history, modelled in Dafny

ProImageViewer is a desktop image viewer and editor. This project models
and proves three parts of it:

- **The directory scanner.** When a file or directory is opened, it lists
  the supported image files of that directory in sorted order. It keeps a
  cursor over the list that steps forward and backward with wrap-around.
- **The main window's edit session.** The session has three image
  buffers: the clean image (as loaded or last saved), the base (all
  committed edits) and the display (the base seen through the live slider
  values). It also has a linear undo history of full images with a cursor,
  four slider values, a grayscale flag and a crop-mode flag. Slider moves
  only preview. Releasing a slider, rotate, sharpen, grayscale and crop all
  commit to the history.
- **The image utilities.** These are the parameter rules and guards around
  the pixel transforms: the blur kernel rule, the crop clamp, the
  saturation and grayscale early returns, and the type dispatch that turns
  a matrix into a displayable image.

## Files

- `Sorting.dfy` — the lexicographic order that `path` comparison gives for
  siblings of one directory, and a sort. It proves that every sorted
  permutation of a sequence is the same sequence, so any sorting
  algorithm, `std::sort` included, produces the list modelled here.
- `DirectoryScanner.dfy` — the path functions, the extension allow-list,
  the scan, the index functions and the class `DirectoryScanner`.
- `ImageUtils.dfy` — matrix headers and OpenCV type codes, rectangles, and
  the transforms. The library's pixel work enters as `PixelOps`, a record
  of arbitrary total functions.
- `EditSession.dfy` — the session as a value, with one function per
  handler, the invariant they keep, and lemmas about undo and redo.
- `MainWindow.dfy` — the class `MainWindow`. Its fields are updated in
  place, and each handler is proved to leave them as the matching
  `EditSession` function says.

The file system, the image decoder and encoder, and the dialogs are inputs
to the model.

## Model

| member | source | states |
|---|---|---|
| Sorting.LessEqTotal | DirectoryScanner.cpp:37 | any two paths are comparable |
| Sorting.LessEqAntisymmetric | DirectoryScanner.cpp:37 | two paths that are each at most the other are equal |
| Sorting.LessEqTransitive | DirectoryScanner.cpp:37 | the path order is transitive |
| Sorting.Sort | DirectoryScanner.cpp:37 | the sorted list keeps exactly the elements it was given, with their multiplicities |
| Sorting.SortSorted | DirectoryScanner.cpp:37 | the sorted list is in ascending order |
| Sorting.InsertSorted | DirectoryScanner.cpp:37 | inserting one path into a sorted list keeps it sorted |
| Sorting.SortedUnique | DirectoryScanner.cpp:37 | two sorted arrangements of the same paths are identical, so the result does not depend on the sorting algorithm |
| Sorting.LessEqFirstDifference | DirectoryScanner.cpp:37 | `LessEq`, the order the sort uses, holds exactly when the first path is a prefix of the second or is smaller at the first character where they differ |
| Scanner.Extension | DirectoryScanner.cpp:14 | the extension is a suffix of the path that starts with '.', lies inside the file name without being all of it, and has no further '.' or '/'; a file name other than ".." with a period after its first character has a non-empty extension, so the extension runs from the last period of the name; the names "." and ".." have no extension |
| Scanner.Filename | DirectoryScanner.cpp:14 | the file name is a suffix of the path that holds no separator and is either the whole path or preceded by a separator, so it starts right after the last separator |
| Scanner.ParentPath | DirectoryScanner.cpp:27 | the parent is empty exactly when the path has no separator; otherwise it is the root, which happens only for a path starting with a separator that has no separator after its second character, or a proper prefix of the path followed by a separator after which no separator follows |
| Scanner.ParentJoinsFilename | DirectoryScanner.cpp:27 | a path with a separator is its parent, a separator and its file name, except when the parent is the root, which `ParentPath` limits to entries directly under it |
| Scanner.ScanRoot | DirectoryScanner.cpp:27 | a directory is scanned itself; the scanned directory is never longer than the path that was opened |
| Scanner.IsSupported | DirectoryScanner.cpp:10-18 | a supported path is never the empty path |
| Scanner.IsSupportedIgnoresCase | DirectoryScanner.cpp:10-18 | a path is supported exactly when its extension equals one of the seven allowed extensions, ignoring case |
| Scanner.IsSupportedCaseInsensitive | DirectoryScanner.cpp:10-18 | two paths whose extensions differ only in case are both supported or both not |
| Scanner.SupportedExtensionLength | DirectoryScanner.cpp:10-18 | the extension of a supported path starts with a period and has four or five characters |
| Scanner.SupportedFiles | DirectoryScanner.cpp:29-34 | the scan loop collects at most one path per child |
| Scanner.SupportedFilesMembers | DirectoryScanner.cpp:29-34 | the scan loop collects exactly the paths of regular-file children with a supported extension |
| Scanner.SupportedFilesSnoc | DirectoryScanner.cpp:30-33 | one more child extends the collected list by its path when it is a supported regular file, and by nothing otherwise |
| Scanner.ImageList | DirectoryScanner.cpp:29-37 | the list is sorted and is a permutation of what the loop collected |
| Scanner.SupportedFilesAppend | DirectoryScanner.cpp:29-34 | scanning two listings one after the other collects the two results one after the other |
| Scanner.SupportedFilesRemove | DirectoryScanner.cpp:29-34 | taking one child out of a listing takes exactly that child's contribution out of the collected paths |
| Scanner.SupportedFilesPermutation | DirectoryScanner.cpp:29-34 | two listings with the same children in any order collect the same paths up to order |
| Scanner.ImageListOrderIndependent | DirectoryScanner.cpp:29-37 | two listings with the same children in any order give the same sorted list, so the enumeration order of the directory does not matter |
| Scanner.ImageListMembers | DirectoryScanner.cpp:29-37 | the list holds exactly the supported regular files of the scan root, every entry is supported, and it is empty exactly when no child qualifies |
| Scanner.IndexOf | DirectoryScanner.cpp:41-42 | the result is the first position of the path, or the list length when the path is absent |
| Scanner.StartIndex | DirectoryScanner.cpp:39-45 | the cursor after a successful open is in bounds; it is the first position of the given file when a file was given and found, and 0 otherwise |
| Scanner.NextIndex | DirectoryScanner.cpp:52 | one step forward stays in bounds and wraps from the last position to 0 |
| Scanner.PrevIndex | DirectoryScanner.cpp:59-60 | one step back stays in bounds |
| Scanner.PrevUndoesNext | DirectoryScanner.cpp:50-62 | a step forward followed by a step back restores the cursor |
| Scanner.NextUndoesPrev | DirectoryScanner.cpp:50-62 | a step back followed by a step forward restores the cursor |
| Scanner.AdvanceWithoutWrap | DirectoryScanner.cpp:52 | `k` steps forward that do not pass the end add `k` to the cursor |
| Scanner.AdvanceAdd | DirectoryScanner.cpp:52 | `a + b` steps forward are `a` steps and then `b` steps |
| Scanner.AdvanceFullCircle | DirectoryScanner.cpp:50-54 | `n` steps forward on a list of `n` entries return to the start |
| Scanner.DirectoryScanner.constructor | DirectoryScanner.cpp:7 | the scanner starts with an empty list and cursor -1 |
| Scanner.DirectoryScanner.CollectSupported | DirectoryScanner.cpp:29-34 | the loop leaves in the list exactly the paths `SupportedFiles` collects, in enumeration order, and changes nothing else |
| Scanner.DirectoryScanner.OpenDirectory | DirectoryScanner.cpp:25-47 | a missing path returns false and changes nothing; otherwise the list becomes the sorted supported children of the scan root (the path, or its parent for a file); the result is true exactly when that list is non-empty, with the cursor at the start index; on false the cursor is kept and the list is left empty |
| Scanner.DirectoryScanner.Next | DirectoryScanner.cpp:50-54 | on an empty list it returns the empty path and keeps the cursor; otherwise it steps forward with wrap-around and returns the new entry, which is not empty |
| Scanner.DirectoryScanner.Previous | DirectoryScanner.cpp:57-62 | on an empty list it returns the empty path and keeps the cursor; otherwise it steps back with wrap-around and returns the new entry |
| Scanner.DirectoryScanner.Current | DirectoryScanner.cpp:64-67 | the empty path on an empty list or a negative cursor, otherwise the entry under the cursor; it changes nothing |
| ImageUtils.MakeType | ImageUtils.h:15-18 | a type code recovers the depth and channel count it was built from |
| ImageUtils.TypeCodes | ImageUtils.h:15-18 | `CV_8UC1` and `CV_8UC3` are the 8-bit codes with one and three channels |
| ImageUtils.Intersect | ImageUtils.h:78 | a pixel lies in the intersection exactly when it lies in both rectangles; a non-overlapping pair gives the empty rectangle |
| ImageUtils.CvtColor | ImageUtils.h:20 | a colour conversion keeps size and depth and gives the channel count of the conversion |
| ImageUtils.AdjustBrightnessContrast | ImageUtils.h:27-31 | the scaled image keeps the size and type of the source |
| ImageUtils.AdjustSaturation | ImageUtils.h:33-44 | anything but an 8-bit 3-channel image comes back unchanged; size and type are kept |
| ImageUtils.Rotate90 | ImageUtils.h:46-50 | a clockwise rotation swaps rows and columns and keeps the type |
| ImageUtils.BlurKernel | ImageUtils.h:55 | the kernel side is odd, at least the request and at most one more, and equals the request exactly when the request is odd |
| ImageUtils.ApplyBlur | ImageUtils.h:53-59 | a non-positive size returns the input unchanged; otherwise the blur uses the odd kernel; size and type are kept |
| ImageUtils.ToGrayscale | ImageUtils.h:62-68 | single-channel input comes back unchanged; anything else comes back with three channels of the same depth and size |
| ImageUtils.Sharpen | ImageUtils.h:69-74 | sharpening keeps size and type |
| ImageUtils.CropRect | ImageUtils.h:76-79 | the extracted rectangle lies inside the image and holds exactly the requested pixels that are inside the image |
| ImageUtils.Crop | ImageUtils.h:76-79 | the crop is never larger than the image and has the size of the clamped rectangle; a non-empty crop keeps the type, and an empty one is the default-constructed matrix |
| ImageUtils.MatToQImage | ImageUtils.h:13-24 | the result is null exactly for an empty matrix or a type other than `CV_8UC1`/`CV_8UC3`; otherwise it has the matrix's size, gray becomes `Format_Grayscale8` with the same pixels, and colour becomes `Format_RGB888` after the BGR-to-RGB swap |
| EditSession.WithSlider | ProImageViewer/MainWindow.cpp:136-171 | moving one slider sets that slider and leaves the other three and the grayscale flag unchanged |
| EditSession.Clamp | ProImageViewer/MainWindow.cpp:136-171 | a slider value lies in the widget's range and is unchanged when it was already in range |
| EditSession.Pipeline | ProImageViewer/MainWindow.cpp:320-339 | with every parameter neutral the display equals the base; the size and emptiness of the base are kept, and so is an 8-bit colour type |
| EditSession.Render | ProImageViewer/MainWindow.cpp:320-339 | with neutral parameters the display is the base, and it is empty exactly when the base is |
| EditSession.InitialValid | ProImageViewer/MainWindow.cpp:16-18 | the constructor's state satisfies the session invariant and allows neither undo nor redo |
| EditSession.OnSliderChanged | ProImageViewer/MainWindow.cpp:320-341 | only the display changes; with an empty base nothing changes; otherwise the display is derived from the base and the live parameters |
| EditSession.ResetSlidersToDefaults | ProImageViewer/MainWindow.cpp:224-231 | the sliders return to 0, 10, 0, 0 and grayscale off, and nothing else changes |
| EditSession.PushUndoState | ProImageViewer/MainWindow.cpp:198-212 | the history becomes its prefix up to the cursor plus the display, with entries up to the old cursor unchanged; the cursor is the last position; the base is the display; the sliders are neutral; the entry under the cursor equals the base and nothing can be redone |
| EditSession.PushUndoStateValid | ProImageViewer/MainWindow.cpp:198-212 | a commit keeps the session invariant, which includes that the cursor is -1 exactly when the history is empty and a valid position otherwise |
| EditSession.PerformUndo | ProImageViewer/MainWindow.cpp:234-244 | the history never changes; at cursor 0 or below nothing changes; otherwise the cursor steps back and that entry becomes base and display with neutral sliders; the invariant is kept |
| EditSession.PerformRedo | ProImageViewer/MainWindow.cpp:246-257 | the history never changes; at the last position nothing changes; otherwise the cursor steps forward and that entry becomes base and display; the invariant is kept |
| EditSession.ResetEdits | ProImageViewer/MainWindow.cpp:387-398 | with an empty clean image nothing changes; otherwise the history becomes the clean image alone, with cursor 0, that image as base and display, and neutral sliders |
| EditSession.LoadImage | ProImageViewer/MainWindow.cpp:261-276 | the decoded image always replaces the clean image; on a decode failure nothing else changes; on success the history is the decoded image alone, with cursor 0, and it is the base and the display |
| EditSession.SaveFileWrite | ProImageViewer/MainWindow.cpp:278-287 | a write is attempted exactly when the display is not empty and there is a current path, and it writes the display to that path |
| EditSession.SaveFile | ProImageViewer/MainWindow.cpp:278-295 | only the clean image can change, and it becomes the display exactly when the write was attempted and succeeded |
| EditSession.SaveAsFileWrite | ProImageViewer/MainWindow.cpp:298-316 | a write is attempted exactly when the display is not empty and a file was chosen, and it writes the display there |
| EditSession.SetSliderValue | ProImageViewer/MainWindow.cpp:136-171 | a slider move changes that slider to the clamped value, leaves the others, the history, the base and the clean image alone, and keeps the invariant |
| EditSession.ReplaceBase | ProImageViewer/MainWindow.cpp:362-364 | with neutral sliders, installing an edited image and recomputing leaves that image as base and display, and changes nothing else |
| EditSession.RotateRight | ProImageViewer/MainWindow.cpp:356-365 | with an empty base nothing changes; otherwise a commit records the display before the edit and installs its rotation as base and display |
| EditSession.ApplySharpen | ProImageViewer/MainWindow.cpp:376-385 | with an empty base nothing changes; otherwise a commit records the display before the edit and installs its sharpened form |
| EditSession.ToggleGrayscale | ProImageViewer/MainWindow.cpp:367-374 | the flag is off after every call; from a valid state every call commits the grayscale rendering of the base; with the flag already on it does not commit |
| EditSession.ToggleCropMode | ProImageViewer/MainWindow.cpp:402-415 | only the crop-mode flag changes, and it flips |
| EditSession.CropRelease | ProImageViewer/MainWindow.cpp:417-452 | outside crop mode nothing changes; in crop mode a selection wider and taller than 10 commits the pre-crop display and installs the crop, and crop mode ends whether or not a crop happened |
| EditSession.UndoAfterCommit | ProImageViewer/MainWindow.cpp:198-244 | undo right after a commit from a synced state restores the previous base and cursor |
| EditSession.RedoAfterUndoAfterCommit | ProImageViewer/MainWindow.cpp:198-257 | redo after that undo restores what the commit recorded, which is the installed image exactly when the two are equal |
| EditSession.UndoThenRedo | ProImageViewer/MainWindow.cpp:234-257 | from a synced state with neutral sliders, undo followed by redo is the identity |
| EditSession.RedoThenUndo | ProImageViewer/MainWindow.cpp:234-257 | from a synced state with neutral sliders, redo followed by undo is the identity |
| EditSession.CommitAfterUndoDiscardsRedo | ProImageViewer/MainWindow.cpp:198-212 | a commit after an undo cuts the history at the new entry, keeps the entries before it and makes redo a no-op |
| EditSession.FailedLoadDisablesReset | ProImageViewer/MainWindow.cpp:261-269 | after a failed decode, the history, base and display are unchanged and "Reset All" does nothing |
| EditSession.FailedLoadThenSaveWritesPrevious | ProImageViewer/MainWindow.cpp:261-287 | after a failed decode, "Save" writes the previous display to the path given, which is the path of the file that failed to load |
| EditSession.ResetAfterSaveRestoresSaved | ProImageViewer/MainWindow.cpp:278-295 | after a successful save, "Reset All" makes the saved image the base and the display and the only history entry |
| EditSession.RotateRightRedoLosesRotation | ProImageViewer/MainWindow.cpp:356-365 | for a non-square image, undo then redo after a rotation yields the unrotated image; the entry under the cursor is not the base |
| EditSession.CommitEdited | ProImageViewer/MainWindow.cpp:198-212 | the corrected commit records and installs the edited image, so the entry under the cursor is the base |
| EditSession.RotateRightRecorded | ProImageViewer/MainWindow.cpp:356-365 | the corrected rotation installs the same base as the code and keeps history and base in step |
| EditSession.RotateRightRecordedUndoRedo | ProImageViewer/MainWindow.cpp:356-365 | with the corrected rotation, undo restores the previous base and redo restores exactly the rotated state |
| EditSession.BrightnessScenario | ProImageViewer/MainWindow.cpp:320-354 | load A, move brightness to 50, release, undo: the base stays A during the preview while history holds one entry; the release gives two entries with cursor 1; the undo gives base A with cursor 0 and two entries |
| EditSession.RotateTwiceScenario | ProImageViewer/MainWindow.cpp:356-365 | load A, rotate twice, undo twice: the cursor is 0 with A as the base, three entries remain, and the first undo already yields A |
| EditSession.GrayscaleScenario | ProImageViewer/MainWindow.cpp:367-374 | two grayscale presses from a valid state add two history entries and leave the flag off |
| Viewer.MainWindow.constructor | ProImageViewer/MainWindow.cpp:16-18 | the window starts with empty images, an empty history, cursor -1, neutral sliders and both flags off |
| Viewer.MainWindow.PushUndoState | ProImageViewer/MainWindow.cpp:198-212 | the fields change as `EditSession.PushUndoState` says, and the scene is not repainted |
| Viewer.MainWindow.ResetSlidersToDefaults | ProImageViewer/MainWindow.cpp:224-231 | the sliders return to neutral, and nothing is recomputed or repainted |
| Viewer.MainWindow.PerformUndo | ProImageViewer/MainWindow.cpp:234-244 | the fields change as `EditSession.PerformUndo` says, and the invariant is kept; an empty base afterwards means the scene was not repainted |
| Viewer.MainWindow.PerformRedo | ProImageViewer/MainWindow.cpp:246-257 | the fields change as `EditSession.PerformRedo` says, and the invariant is kept; an empty base afterwards means the scene was not repainted |
| Viewer.MainWindow.LoadImage | ProImageViewer/MainWindow.cpp:261-276 | the fields change as `EditSession.LoadImage` says for the decoder's result, and the invariant is kept; an empty base afterwards means the scene was not repainted |
| Viewer.MainWindow.SaveFile | ProImageViewer/MainWindow.cpp:278-295 | the write attempted is `EditSession.SaveFileWrite` for the scanner's current path, and the clean image follows the encoder's result; the scene is not repainted |
| Viewer.MainWindow.SaveAsFile | ProImageViewer/MainWindow.cpp:298-316 | the write attempted is `EditSession.SaveAsFileWrite` for the chosen name, and no field changes |
| Viewer.MainWindow.OnSliderChanged | ProImageViewer/MainWindow.cpp:320-349 | the display is set as `EditSession.OnSliderChanged` says, and the scene then shows it |
| Viewer.MainWindow.SetSliderValue | ProImageViewer/MainWindow.cpp:136-171 | the fields change as `EditSession.SetSliderValue` says; an empty base afterwards means the scene was not repainted |
| Viewer.MainWindow.OnSliderReleased | ProImageViewer/MainWindow.cpp:351-354 | a release commits the previewed display, and the scene is not repainted |
| Viewer.MainWindow.RotateRight | ProImageViewer/MainWindow.cpp:356-365 | the fields change as `EditSession.RotateRight` says; an empty base afterwards means the scene was not repainted |
| Viewer.MainWindow.ToggleGrayscale | ProImageViewer/MainWindow.cpp:367-374 | the fields change as `EditSession.ToggleGrayscale` says; an empty base afterwards means the scene was not repainted |
| Viewer.MainWindow.ApplySharpen | ProImageViewer/MainWindow.cpp:376-385 | the fields change as `EditSession.ApplySharpen` says; an empty base afterwards means the scene was not repainted |
| Viewer.MainWindow.ResetEdits | ProImageViewer/MainWindow.cpp:387-398 | the fields change as `EditSession.ResetEdits` says, and the invariant is kept |
| Viewer.MainWindow.ToggleCropMode | ProImageViewer/MainWindow.cpp:402-415 | only the crop-mode flag flips, and the scene is not repainted |
| Viewer.MainWindow.EventFilter | ProImageViewer/MainWindow.cpp:417-458 | the event is handled exactly in crop mode on the viewport for a press, move or release; only a release changes fields, as `EditSession.CropRelease` says, and only a release can repaint the scene |
| Viewer.MainWindow.OpenFile | ProImageViewer/MainWindow.cpp:462-476 | a cancelled dialog changes nothing; a path that does not exist leaves the window and the scanner's list and cursor unchanged; otherwise the list becomes the sorted supported files of the scan root; an empty result keeps the cursor and the window; a non-empty one places the cursor at the start index and loads the current image |
| Viewer.MainWindow.NextImage | ProImageViewer/MainWindow.cpp:478-483 | with no images nothing changes, the scene included; otherwise the scanner steps forward and the new current image is loaded; an empty base afterwards means the scene was not repainted |
| Viewer.MainWindow.PrevImage | ProImageViewer/MainWindow.cpp:486-491 | with no images nothing changes, the scene included; otherwise the scanner steps back and the new current image is loaded; an empty base afterwards means the scene was not repainted |

## Left out

- Qt widget construction and wiring, menus, the toolbar and the dock are
  not modelled. The slider ranges appear only as the bounds of
  `EditSession.Clamp`. Valid slider moves appear as `SetSliderValue`: the
  widget clamps the value and emits its change signal only when the value
  differs.
- Scene drawing, `updateView`, zoom, fit-to-window and the resize
  handling are rendering and floating-point work. The scene is modelled
  only as the image it is given.
- Status-bar text and message boxes are presentation only.
- Settings persistence and the close handler are I/O.
- The open and save dialogs are not modelled; the chosen name is an input.
- Mapping mouse positions to image coordinates and drawing the rubber band
  are GUI and floating-point work. `EventFilter` takes the selection in
  image coordinates.
- OpenCV's pixel arithmetic is not modelled. `convertTo`, `cvtColor`,
  `GaussianBlur`, `filter2D`, `rotate` and region copies are arbitrary
  functions in `PixelOps`. `imread` and `imwrite` are arbitrary functions
  in `Viewer.Disk`.
- `Viewer.Disk`: `imwrite` is modelled as returning a success flag. OpenCV
  raises an exception for a file name without a known image extension,
  which "Save As" can pass on unchanged and which then ends the program;
  the model does not capture that. Likewise `cvtColor` raises for
  2-channel input, which `ImageUtils.ToGrayscale` maps to 3 channels
  instead; `imread`'s colour mode never produces such an image.
- `ImageUtils.AdjustBrightnessContrast`: takes the contrast slider value in
  tenths instead of the floating-point gain. The pipeline's test "gain
  differs from 1.0" is written as "value differs from 10", which is
  equivalent for integer slider values.
- Directory enumeration, `exists` and `is_directory` are inputs. An
  exception thrown by the directory iterator is not modelled.
- `Scanner.ToLower`: `::tolower` follows the locale of the process, and the
  application takes its locale from the environment. The model fixes the
  "C" locale, where only 'A' to 'Z' change. In a locale with other case
  rules (Turkish, where 'I' does not lower to 'i') an extension such as
  ".TIF" may not be recognised; the model and `Scanner.IsSupportedIgnoresCase`
  do not capture that.
- `Scanner.ParentPath`: `parent_path` is modelled for POSIX paths as
  everything before the last separator. It does not collapse repeated or
  trailing separators.
- `Sorting.LessEq`: `path` comparison is modelled as lexicographic order on
  the characters. That is the order for paths that share their directory
  prefix, which is the case for the children of one directory.
- The undo history is unbounded, as in the code. No size limit exists to
  model.
- `ProImageViewer/main.cpp` is application start-up and is not part of
  this model.

The model follows the code in these places, where a reader of the
program might expect other behaviour:

- A failed scan leaves the list empty, because the list is cleared before
  the scan. The list of an earlier successful open is lost, while the
  cursor keeps its old value.
- "Toggle Grayscale" can never turn grayscale off. Its commit resets the
  flag, so every press commits the grayscale rendering; a second press
  does not bring the colour display back.
- The crop branch has no check for an empty base.
- A failed load overwrites the clean image with the empty result. After
  that, "Reset All" does nothing.
- When "Next" or "Previous" moves to a file that fails to decode, the
  display keeps the previous image while the scanner's current path is the
  new file. "Save" then writes the previous image over that file
  (`EditSession.FailedLoadThenSaveWritesPrevious`).

## Findings

| source | as written | input that shows it | evidently intended | confidence | as-written member | corrected member |
|---|---|---|---|---|---|---|
| ProImageViewer/MainWindow.cpp:361-362 (likewise 381-382 and 446-447) | `rotateRight`, `applySharpen` and the crop branch commit the display from before the edit and then transform the base. The history entry under the cursor is then not the base, and redo after undo brings back the unedited image. | Load a 2×3 image A, rotate, undo, redo: the base is A instead of A rotated. Load A, rotate twice, undo: the base is A, not A rotated once. | The commit records the edited image, so the entry under the cursor equals the base and redo restores the edit. | high; not executed | EditSession.RotateRightRedoLosesRotation | EditSession.RotateRightRecorded |

`EditSession.CommitEdited` is the corrected commit that all three edits
should use. `EditSession.RotateRightRecordedUndoRedo` proves the intended
undo and redo behaviour for it. The class `Viewer.MainWindow` keeps the
code as written.
