/** `start_resizing` (image_resizer.py:43-73): check that images and a folder
    were chosen, read the percent, width and height fields, then run
    `resize_image` over the files in order inside one `try`, so that the first
    exception ends the whole run. The text fields, the file list (already split
    by the toolkit) and the folder arrive as parameters; the message box shown
    at the end is the result. */
module StartResizing {
  import opened Wrappers
  import opened PyText
  import opened ResizeImage

  /** What the `except Exception` branch caught. */
  datatype Cause =
    | InvalidLiteral(text: string)   // `int()` rejected a text field
    | ImageError(failure: Failure)   // `resize_image` raised

  /** The one message box a run ends with. */
  datatype Message =
    | SelectImagesAndFolder          // "Please select images and output folder."
    | EnterSizeOrPercent             // "Enter width & height OR percentage."
    | SomethingWentWrong(cause: Cause)
    | ResizedSuccessfully            // "Images resized successfully!"

  /** The `width`, `height` and `percent` arguments every `resize_image` call gets. */
  datatype Request = Request(width: int, height: int, percent: Option<int>)

  /** Line 55: `int(percent) if percent.strip() else None`. A blank field is
      no percentage, any other text must be a number `int()` accepts. */
  function ParsePercent(percentText: string): (r: Result<Option<int>, Message>)
    ensures r.Ok? <==> IsBlank(percentText) || ParseInt(percentText).Some?
    ensures r.Ok? ==> r.value == (if IsBlank(percentText) then None else ParseInt(percentText))
    ensures r.Err? ==> r.error == SomethingWentWrong(InvalidLiteral(percentText))
  {
    if IsBlank(percentText) then Ok(None)
    else match ParseInt(percentText)
      case None => Err(SomethingWentWrong(InvalidLiteral(percentText)))
      case Some(p) => Ok(Some(p))
  }

  /** Lines 57-64: with a truthy percentage, width and height become 0;
      otherwise both fields must be non-blank and are read with `int()`. */
  function ResolveSize(widthText: string, heightText: string, percent: Option<int>): (r: Result<Request, Message>)
    ensures r.Ok? ==> r.value.percent == percent
    ensures IsTruthy(percent) ==> r == Ok(Request(0, 0, percent))
    ensures !IsTruthy(percent) ==>
      (r == Err(EnterSizeOrPercent) <==> IsBlank(widthText) || IsBlank(heightText))
    ensures !IsTruthy(percent) ==>
      (r.Ok? <==> ParseInt(widthText).Some? && ParseInt(heightText).Some?)
    ensures !IsTruthy(percent) && r.Ok? ==>
      Some(r.value.width) == ParseInt(widthText) && Some(r.value.height) == ParseInt(heightText)
    ensures r.Err? && r.error != EnterSizeOrPercent ==>
      r.error == SomethingWentWrong(InvalidLiteral(if ParseInt(widthText).None? then widthText else heightText))
  {
    if IsTruthy(percent) then Ok(Request(0, 0, percent))
    else if IsBlank(widthText) || IsBlank(heightText) then Err(EnterSizeOrPercent)
    else match (ParseInt(widthText), ParseInt(heightText))
      case (None, _) => Err(SomethingWentWrong(InvalidLiteral(widthText)))
      case (Some(_), None) => Err(SomethingWentWrong(InvalidLiteral(heightText)))
      case (Some(width), Some(height)) => Ok(Request(width, height, percent))
  }

  /** Lines 55-64 read as a function of the three text fields: the request the
      loop will use, or the message that ends the run before any file. */
  function ResolveRequest(widthText: string, heightText: string, percentText: string): (r: Result<Request, Message>)
    ensures r.Ok? ==> r.value.percent == (if IsBlank(percentText) then None else ParseInt(percentText))
    ensures r.Ok? && IsTruthy(r.value.percent) ==> r.value.width == 0 && r.value.height == 0
    ensures r.Ok? && !IsTruthy(r.value.percent) ==>
      Some(r.value.width) == ParseInt(widthText) && Some(r.value.height) == ParseInt(heightText)
    ensures r.Ok? <==>
      && (IsBlank(percentText) || ParseInt(percentText).Some?)
      && (|| IsTruthy(if IsBlank(percentText) then None else ParseInt(percentText))
          || (ParseInt(widthText).Some? && ParseInt(heightText).Some?))
    ensures r.Err? ==>
      || r.error == EnterSizeOrPercent
      || r.error == SomethingWentWrong(InvalidLiteral(percentText))
      || r.error == SomethingWentWrong(InvalidLiteral(widthText))
      || r.error == SomethingWentWrong(InvalidLiteral(heightText))
  {
    match ParsePercent(percentText)
    case Err(m) => Err(m)
    case Ok(percent) => ResolveSize(widthText, heightText, percent)
  }

  /** One `resize_image` call of the loop: the file varies, the backend, the
      output folder and the resolved width, height and percentage do not. */
  function ResizeWith(io: Backend, folder: string, request: Request): string -> Result<(Size, Size), Failure> {
    file => Resize(io, file, folder, request.width, request.height, request.percent)
  }

  /** The loop's outcome, fail-fast and in list order: `reports` holds what
      `resizeOne` returned for the first files, one per file, and either every
      file succeeded or the file right after them raised `failure`. */
  ghost predicate FailFast(resizeOne: string -> Result<(Size, Size), Failure>, files: seq<string>,
                           reports: seq<(Size, Size)>, failure: Option<Failure>) {
    && |reports| <= |files|
    && (forall i :: 0 <= i < |reports| ==> resizeOne(files[i]) == Ok(reports[i]))
    && (failure.None? ==> |reports| == |files|)
    && (failure.Some? ==> |reports| < |files| && resizeOne(files[|reports|]) == Err(failure.value))
  }

  /** Lines 66-68: `for file in files: resize_image(...)`, left at the first
      exception; `resizeOne` is the call with the run's other arguments. */
  method ResizeAll(resizeOne: string -> Result<(Size, Size), Failure>, files: seq<string>)
    returns (reports: seq<(Size, Size)>, failure: Option<Failure>)
    ensures FailFast(resizeOne, files, reports, failure)
  {
    reports, failure := [], None;
    var i := 0;
    while i < |files|
      invariant i <= |files| && |reports| == i
      invariant forall k :: 0 <= k < i ==> resizeOne(files[k]) == Ok(reports[k])
    {
      var result := resizeOne(files[i]);
      if result.Err? {
        failure := Some(result.error);
        break;
      }
      reports := reports + [result.value];
      i := i + 1;
    }
  }

  /** The whole of `start_resizing`: returns the message box it ends with and
      the `(original, resized)` pairs of the files it finished. */
  method StartResizing(io: Backend, files: seq<string>, folder: string,
                       widthText: string, heightText: string, percentText: string)
    returns (message: Message, reports: seq<(Size, Size)>)
    ensures files == [] || folder == [] ==> message == SelectImagesAndFolder && reports == []
    ensures files != [] && folder != [] ==>
      match ResolveRequest(widthText, heightText, percentText)
      case Err(m) => message == m && reports == []
      case Ok(request) =>
        || (message == ResizedSuccessfully && FailFast(ResizeWith(io, folder, request), files, reports, None))
        || (message.SomethingWentWrong? && message.cause.ImageError?
            && FailFast(ResizeWith(io, folder, request), files, reports, Some(message.cause.failure)))
  {
    reports := [];
    if files == [] || folder == [] {
      message := SelectImagesAndFolder;
      return;
    }
    var percent: Option<int> := None;
    if !IsBlank(percentText) {
      percent := ParseInt(percentText);
      if percent.None? {
        message := SomethingWentWrong(InvalidLiteral(percentText));
        return;
      }
    }
    var width, height;
    if IsTruthy(percent) {
      width, height := 0, 0;
    } else {
      if IsBlank(widthText) || IsBlank(heightText) {
        message := EnterSizeOrPercent;
        return;
      }
      var w := ParseInt(widthText);
      if w.None? {
        message := SomethingWentWrong(InvalidLiteral(widthText));
        return;
      }
      var h := ParseInt(heightText);
      if h.None? {
        message := SomethingWentWrong(InvalidLiteral(heightText));
        return;
      }
      width, height := w.value, h.value;
    }
    var failure;
    reports, failure := ResizeAll(ResizeWith(io, folder, Request(width, height, percent)), files);
    message := if failure.None? then ResizedSuccessfully else SomethingWentWrong(ImageError(failure.value));
  }

  /** A percentage that parses to a non-zero number wins: the width and height
      fields are not even read, and every call gets width and height 0. */
  lemma PercentOverridesSize(widthText: string, heightText: string, percentText: string, p: int)
    requires ParseInt(percentText) == Some(p) && p != 0
    ensures ResolveRequest(widthText, heightText, percentText) == Ok(Request(0, 0, Some(p)))
  {
  }

  /** A percentage of zero (`"0"`, `" -0 "`, `"0_0"`, ...) is falsy: the run goes
      exactly as with an empty percent field, and `resize_image` sizes every
      file from the width and height as it would without a percentage. */
  lemma ZeroPercentFallsThrough(widthText: string, heightText: string, percentText: string)
    requires ParseInt(percentText) == Some(0)
    ensures ResolveRequest(widthText, heightText, percentText).Err? ==>
      ResolveRequest(widthText, heightText, percentText) == ResolveRequest(widthText, heightText, "")
    ensures ResolveRequest(widthText, heightText, percentText).Ok? ==>
      && ResolveRequest(widthText, heightText, "").Ok?
      && ResolveRequest(widthText, heightText, percentText).value
         == ResolveRequest(widthText, heightText, "").value.(percent := Some(0))
    ensures forall original, width, height ::
      TargetSize(original, width, height, Some(0)) == TargetSize(original, width, height, None)
  {
    assert ResolveRequest(widthText, heightText, "") == ResolveSize(widthText, heightText, None) by {
      assert IsBlank("");
    }
    assert ResolveRequest(widthText, heightText, percentText) == ResolveSize(widthText, heightText, Some(0));
    ZeroLikeNone(widthText, heightText);
  }

  lemma ZeroLikeNone(widthText: string, heightText: string)
    ensures ResolveSize(widthText, heightText, Some(0)) ==
      match ResolveSize(widthText, heightText, None)
      case Ok(r) => Ok(r.(percent := Some(0)))
      case Err(m) => Err(m)
  {
  }

  /** A percent field such as `"\U{1c}50"` is not blank to `strip()`, but `int()`
      does not skip the separator, so the run ends with an error box before
      any file. */
  lemma SeparatorInPercentRaises(widthText: string, heightText: string, c: char, digits: string)
    requires 0x1C <= c as int <= 0x1F && !IsBlank([c] + digits)
    ensures ResolveRequest(widthText, heightText, [c] + digits)
            == Err(SomethingWentWrong(InvalidLiteral([c] + digits)))
  {
    SeparatorsNotSkipped(c, digits);
  }

  /** Without a usable percentage, a blank width or height ends the run with
      the "Enter width & height OR percentage." message. */
  lemma BlankSizeRejected(widthText: string, heightText: string, percentText: string)
    requires IsBlank(percentText) || ParseInt(percentText) == Some(0)
    requires IsBlank(widthText) || IsBlank(heightText)
    ensures ResolveRequest(widthText, heightText, percentText) == Err(EnterSizeOrPercent)
  {
  }

  /** The loop's outcome is determined by the files: two outcomes that both
      satisfy `FailFast` are the same. */
  lemma FailFastUnique(resizeOne: string -> Result<(Size, Size), Failure>, files: seq<string>,
                       reports1: seq<(Size, Size)>, failure1: Option<Failure>,
                       reports2: seq<(Size, Size)>, failure2: Option<Failure>)
    requires FailFast(resizeOne, files, reports1, failure1)
    requires FailFast(resizeOne, files, reports2, failure2)
    ensures reports1 == reports2 && failure1 == failure2
  {
  }

  /** Files after the one that raised are never reached: whatever follows it
      in the file list, the run ends the same way. */
  lemma LaterFilesNeverReached(resizeOne: string -> Result<(Size, Size), Failure>, files: seq<string>,
                               reports: seq<(Size, Size)>, failure: Failure, later: seq<string>)
    requires FailFast(resizeOne, files, reports, Some(failure))
    ensures FailFast(resizeOne, files[..|reports| + 1] + later, reports, Some(failure))
  {
    var files' := files[..|reports| + 1] + later;
    forall i | 0 <= i <= |reports| ensures files'[i] == files[i] {}
  }
}
