/** The main window: its image fields, undo history, slider positions and
    flags, updated in place by its handlers. Every handler is proved to leave
    the fields as the matching function of `EditSession` says, and to keep
    the window's invariant. Widgets, dialogs and the file system are inputs. */
module Viewer {
  import opened ImageUtils
  import ES = EditSession
  import Scanner

  /** What the window asks of the disk: the file-system queries of the
      scanner, the image decoder (an empty matrix on failure) and the encoder
      (whether the write succeeded). */
  datatype Disk = Disk(
    pathExists: Scanner.Path -> bool,
    isDirectory: Scanner.Path -> bool,
    listing: Scanner.Path -> seq<Scanner.DirEntry>,
    imread: Scanner.Path -> Mat,
    imwrite: (Scanner.Path, Mat) -> bool)

  /** The mouse events the crop tool looks at; the release carries the
      selection already mapped to image coordinates. */
  datatype MouseEvent = Press | Move | Release(selection: Rect) | OtherEvent

  class MainWindow {
    var cleanMat: Mat
    var originalMat: Mat
    var displayMat: Mat
    var undoHistory: seq<Mat>
    var undoIndex: int
    // slider positions
    var brightness: int
    var contrast: int
    var saturation: int
    var blur: int
    var isGrayscale: bool
    var cropMode: bool
    /** What the scene shows, set only when the display is recomputed. */
    var sceneImage: QImage

    const ops: PixelOps
    const scanner: Scanner.DirectoryScanner

    function Params(): ES.Params
      reads this
    {
      ES.Params(brightness, contrast, saturation, blur, isGrayscale)
    }

    /** The fields as an edit session. */
    function State(): ES.Session
      reads this
    {
      ES.Session(cleanMat, originalMat, displayMat, undoHistory, undoIndex, Params(), cropMode)
    }

    /** The session invariant, a valid scanner, and a scene that shows the
        display whenever an image is loaded. */
    ghost predicate Valid()
      reads this, scanner
    {
      ES.Valid(State(), ops) && scanner.Valid() &&
      (!originalMat.IsEmpty() ==> sceneImage == MatToQImage(displayMat, ops))
    }

    constructor (ops: PixelOps)
      ensures Valid() && fresh(scanner) && this.ops == ops
      ensures State() == ES.Initial && sceneImage == NullImage
      ensures scanner.imageFiles == [] && scanner.currentIndex == -1
    {
      this.ops := ops;
      scanner := new Scanner.DirectoryScanner();
      undoIndex := -1;
      isGrayscale := false;
      cropMode := false;
      cleanMat := EmptyMat;
      originalMat := EmptyMat;
      displayMat := EmptyMat;
      undoHistory := [];
      brightness := 0;
      contrast := 10;
      saturation := 0;
      blur := 0;
      sceneImage := NullImage;
    }

    // ----- history -----

    method PushUndoState()
      requires ES.HistoryValid(State())
      modifies this
      ensures State() == ES.PushUndoState(old(State())) && sceneImage == old(sceneImage)
    {
      if undoIndex < |undoHistory| - 1 {
        undoHistory := undoHistory[..undoIndex + 1];
      }
      undoHistory := undoHistory + [displayMat];
      undoIndex := undoIndex + 1;
      originalMat := displayMat;
      ResetSlidersToDefaults();
    }

    /** Moves the sliders without signals, so nothing is recomputed. */
    method ResetSlidersToDefaults()
      modifies this
      ensures State() == ES.ResetSlidersToDefaults(old(State())) && sceneImage == old(sceneImage)
    {
      brightness := 0;
      contrast := 10;
      saturation := 0;
      blur := 0;
      isGrayscale := false;
    }

    method PerformUndo()
      requires Valid()
      modifies this
      ensures Valid() && State() == ES.PerformUndo(old(State()), ops)
      ensures originalMat.IsEmpty() ==> sceneImage == old(sceneImage)
    {
      if undoIndex > 0 {
        undoIndex := undoIndex - 1;
        originalMat := undoHistory[undoIndex];
        displayMat := originalMat;
        ResetSlidersToDefaults();
        OnSliderChanged();
      }
    }

    method PerformRedo()
      requires Valid()
      modifies this
      ensures Valid() && State() == ES.PerformRedo(old(State()), ops)
      ensures originalMat.IsEmpty() ==> sceneImage == old(sceneImage)
    {
      if undoIndex < |undoHistory| - 1 {
        undoIndex := undoIndex + 1;
        originalMat := undoHistory[undoIndex];
        displayMat := originalMat;
        ResetSlidersToDefaults();
        OnSliderChanged();
      }
    }

    // ----- loading and saving -----

    /** `loadImage`, given what the decoder returned for the path. */
    method LoadImage(decoded: Mat)
      requires Valid()
      modifies this
      ensures Valid() && State() == ES.LoadImage(old(State()), decoded, ops)
      ensures originalMat.IsEmpty() ==> sceneImage == old(sceneImage)
    {
      cleanMat := decoded;
      if cleanMat.IsEmpty() {
        return;
      }
      undoHistory := [];
      originalMat := cleanMat;
      undoHistory := undoHistory + [originalMat];
      undoIndex := 0;
      ResetEdits();
    }

    /** `saveFile`: returns the write it attempts; on success the display
        becomes the clean image. */
    method SaveFile(disk: Disk) returns (w: ES.ImageWrite)
      requires Valid()
      modifies this
      ensures Valid()
      ensures w == ES.SaveFileWrite(old(State()), scanner.Current())
      ensures State() == ES.SaveFile(old(State()), scanner.Current(), w.Write? && disk.imwrite(w.path, w.image))
      ensures sceneImage == old(sceneImage)
    {
      if displayMat.IsEmpty() {
        return ES.NoWrite;
      }
      var currentPath := scanner.Current();
      if currentPath == "" {
        return ES.NoWrite;
      }
      w := ES.Write(currentPath, displayMat);
      if disk.imwrite(currentPath, displayMat) {
        ghost var before := State();
        ES.ValidIgnoresClean(before, displayMat, ops);
        cleanMat := displayMat;
        assert State() == before.(cleanMat := displayMat);
      }
    }

    /** `saveAsFile` with the name the dialog returned ("" when cancelled):
        returns the write it attempts and changes no field. */
    method SaveAsFile(filename: string) returns (w: ES.ImageWrite)
      requires Valid()
      ensures w == ES.SaveAsFileWrite(State(), filename)
    {
      if displayMat.IsEmpty() {
        return ES.NoWrite;
      }
      if filename != "" {
        w := ES.Write(filename, displayMat);
      } else {
        w := ES.NoWrite;
      }
    }

    // ----- editing -----

    /** `onSliderChanged`: runs the pipeline on the base and shows the result. */
    method OnSliderChanged()
      modifies this
      ensures State() == ES.OnSliderChanged(old(State()), ops)
      ensures old(originalMat).IsEmpty() ==> sceneImage == old(sceneImage)
      ensures !old(originalMat).IsEmpty() ==> sceneImage == MatToQImage(displayMat, ops)
    {
      if originalMat.IsEmpty() {
        return;
      }
      var result := originalMat;
      if saturation != 0 {
        result := AdjustSaturation(result, saturation, ops);
      }
      if contrast != 10 || brightness != 0 {
        result := AdjustBrightnessContrast(result, contrast, brightness, ops);
      }
      if blur > 0 {
        result := ApplyBlur(result, blur, ops);
      }
      if isGrayscale {
        result := ToGrayscale(result, ops);
      }
      displayMat := result;
      sceneImage := MatToQImage(displayMat, ops);
    }

    /** A slider moved by the user to `v`. */
    method SetSliderValue(which: ES.Slider, v: int)
      requires Valid()
      modifies this
      ensures Valid() && State() == ES.SetSliderValue(old(State()), which, v, ops)
      ensures originalMat.IsEmpty() ==> sceneImage == old(sceneImage)
    {
      var c := ES.Clamp(v, ES.SliderMin(which), ES.SliderMax(which));
      if c == ES.SliderValue(Params(), which) {
        return;
      }
      match which {
        case Brightness => brightness := c;
        case Contrast => contrast := c;
        case Saturation => saturation := c;
        case Blur => blur := c;
      }
      OnSliderChanged();
    }

    /** `onSliderReleased`: commits the previewed display. */
    method OnSliderReleased()
      requires Valid()
      modifies this
      ensures Valid() && State() == ES.PushUndoState(old(State()))
      ensures sceneImage == old(sceneImage)
    {
      PushUndoState();
    }

    method RotateRight()
      requires Valid()
      modifies this
      ensures Valid() && State() == ES.RotateRight(old(State()), ops)
      ensures originalMat.IsEmpty() ==> sceneImage == old(sceneImage)
    {
      if originalMat.IsEmpty() {
        return;
      }
      ghost var before := State();
      PushUndoState();
      ghost var pushed := State();
      originalMat := Rotate90(originalMat, ops);
      displayMat := originalMat;
      OnSliderChanged();
      assert State() == ES.ReplaceBase(pushed, Rotate90(pushed.originalMat, ops), ops);
      assert State() == ES.RotateRight(before, ops);
    }

    method ToggleGrayscale()
      requires Valid()
      modifies this
      ensures Valid() && State() == ES.ToggleGrayscale(old(State()), ops)
      ensures originalMat.IsEmpty() ==> sceneImage == old(sceneImage)
    {
      isGrayscale := !isGrayscale;
      OnSliderChanged();
      if isGrayscale {
        PushUndoState();
      }
    }

    method ApplySharpen()
      requires Valid()
      modifies this
      ensures Valid() && State() == ES.ApplySharpen(old(State()), ops)
      ensures originalMat.IsEmpty() ==> sceneImage == old(sceneImage)
    {
      if originalMat.IsEmpty() {
        return;
      }
      ghost var before := State();
      PushUndoState();
      ghost var pushed := State();
      originalMat := Sharpen(originalMat, ops);
      displayMat := originalMat;
      OnSliderChanged();
      assert State() == ES.ReplaceBase(pushed, Sharpen(pushed.originalMat, ops), ops);
      assert State() == ES.ApplySharpen(before, ops);
    }

    /** `resetEdits`; also the last step of a successful load, where the
        session is not yet valid. */
    method ResetEdits()
      modifies this
      ensures State() == ES.ResetEdits(old(State()), ops)
      ensures old(cleanMat).IsEmpty() ==> sceneImage == old(sceneImage)
      ensures !old(cleanMat).IsEmpty() ==> sceneImage == MatToQImage(displayMat, ops)
      ensures old(Valid()) ==> Valid()
    {
      if cleanMat.IsEmpty() {
        return;
      }
      undoHistory := [];
      originalMat := cleanMat;
      undoHistory := undoHistory + [originalMat];
      undoIndex := 0;
      ResetSlidersToDefaults();
      OnSliderChanged();
    }

    // ----- crop tool -----

    method ToggleCropMode()
      requires Valid()
      modifies this
      ensures Valid() && State() == ES.ToggleCropMode(old(State()))
      ensures sceneImage == old(sceneImage)
    {
      cropMode := !cropMode;
    }

    /** `eventFilter` on the view: outside crop mode, or for another object,
        the event is passed on; a press or a move only draws the selection;
        a release crops as `CropRelease` says. */
    method EventFilter(onViewport: bool, event: MouseEvent) returns (handled: bool)
      requires Valid()
      modifies this
      ensures Valid()
      ensures handled <==> old(cropMode) && onViewport && !event.OtherEvent?
      ensures State() ==
        if old(cropMode) && onViewport && event.Release?
        then ES.CropRelease(old(State()), event.selection, ops)
        else old(State())
      ensures originalMat.IsEmpty() ==> sceneImage == old(sceneImage)
      ensures !(old(cropMode) && onViewport && event.Release?) ==> sceneImage == old(sceneImage)
    {
      if !cropMode || !onViewport {
        return false;
      }
      match event {
        case Press => return true;
        case Move => return true;
        case Release(rect) =>
          if rect.width > 10 && rect.height > 10 {
            PushUndoState();
            originalMat := Crop(originalMat, rect, ops);
            displayMat := originalMat;
            OnSliderChanged();
          }
          ToggleCropMode();
          return true;
        case OtherEvent => return false;
      }
    }

    // ----- navigation -----

    /** `openFile` with the name the dialog returned ("" when cancelled). */
    method OpenFile(fileName: Scanner.Path, disk: Disk)
      requires Valid()
      modifies this, scanner
      ensures Valid()
      ensures originalMat.IsEmpty() ==> sceneImage == old(sceneImage)
      ensures fileName == "" ==>
        State() == old(State()) && scanner.imageFiles == old(scanner.imageFiles) &&
        scanner.currentIndex == old(scanner.currentIndex)
      ensures fileName != "" && !disk.pathExists(fileName) ==>
        scanner.imageFiles == old(scanner.imageFiles) && scanner.currentIndex == old(scanner.currentIndex)
      ensures scanner.imageFiles == [] ==> scanner.currentIndex == old(scanner.currentIndex)
      ensures fileName != "" && disk.pathExists(fileName) ==>
        scanner.imageFiles ==
          Scanner.ImageList(disk.listing(Scanner.ScanRoot(fileName, disk.isDirectory(fileName))))
      ensures scanner.imageFiles == [] || fileName == "" || !disk.pathExists(fileName) ==>
        State() == old(State()) && sceneImage == old(sceneImage)
      ensures fileName != "" && disk.pathExists(fileName) && scanner.imageFiles != [] ==>
        scanner.currentIndex ==
          Scanner.StartIndex(scanner.imageFiles, fileName, disk.isDirectory(fileName)) &&
        State() == ES.LoadImage(old(State()), disk.imread(scanner.Current()), ops)
    {
      if fileName != "" {
        var ok := scanner.OpenDirectory(fileName, disk.pathExists(fileName), disk.isDirectory(fileName), disk.listing);
        if ok {
          LoadImage(disk.imread(scanner.Current()));
        }
      }
    }

    method NextImage(disk: Disk)
      requires Valid()
      modifies this, scanner`currentIndex
      ensures Valid()
      ensures originalMat.IsEmpty() ==> sceneImage == old(sceneImage)
      ensures old(scanner.imageFiles) == [] ==>
        State() == old(State()) && sceneImage == old(sceneImage) &&
        scanner.currentIndex == old(scanner.currentIndex)
      ensures old(scanner.imageFiles) != [] ==>
        scanner.currentIndex == Scanner.NextIndex(old(scanner.currentIndex), |scanner.imageFiles|) &&
        State() == ES.LoadImage(old(State()), disk.imread(scanner.Current()), ops)
    {
      var p := scanner.Next();
      if p != "" {
        LoadImage(disk.imread(p));
      }
    }

    method PrevImage(disk: Disk)
      requires Valid()
      modifies this, scanner`currentIndex
      ensures Valid()
      ensures originalMat.IsEmpty() ==> sceneImage == old(sceneImage)
      ensures old(scanner.imageFiles) == [] ==>
        State() == old(State()) && sceneImage == old(sceneImage) &&
        scanner.currentIndex == old(scanner.currentIndex)
      ensures old(scanner.imageFiles) != [] ==>
        scanner.currentIndex == Scanner.PrevIndex(old(scanner.currentIndex), |scanner.imageFiles|) &&
        State() == ES.LoadImage(old(State()), disk.imread(scanner.Current()), ops)
    {
      var p := scanner.Previous();
      if p != "" {
        LoadImage(disk.imread(p));
      }
    }
  }
}
