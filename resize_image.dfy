/** `resize_image` (image_resizer.py:6-24): open one image, work out its new
    size, resize it, save it as `<stem>_resized<ext>` in the output folder, and
    return the original and the new size. The imaging library is a `Backend`
    whose three calls either succeed or raise. */
module ResizeImage {
  import opened Wrappers
  import opened PosixPath

  /** An image size as the library reports it: `(width, height)`. */
  datatype Size = Size(width: int, height: int)

  /** What `Image.open`, `img.resize` and `resized_img.save` do for a given
      file: `open` yields the decoded image's size, or `None` when it raises;
      `resize` and `save` are `false` when they raise. */
  datatype Backend = Backend(
    open: string -> Option<Size>,
    resize: (string, Size) -> bool,
    save: (string, Size, string) -> bool)

  /** The exception that leaves `resize_image`, by the call that raised it. */
  datatype Failure =
    | CannotOpen(imagePath: string)
    | CannotResize(imagePath: string, target: Size)
    | CannotSave(imagePath: string, savePath: string)

  /** Python's `if percent:` on `None` or an `int`. */
  predicate IsTruthy(percent: Option<int>) {
    percent.Some? && percent.value != 0
  }

  /** `int(original * percent / 100)`: the exact quotient truncated toward
      zero, as `int()` truncates the float. */
  function ScaleDimension(original: int, percent: int): (d: int)
    ensures original * percent >= 0 ==> d * 100 <= original * percent < d * 100 + 100
    ensures original * percent < 0 ==> d * 100 - 100 < original * percent <= d * 100
  {
    var product := original * percent;
    if product >= 0 then product / 100 else -((-product) / 100)
  }

  /** The size handed to `img.resize` (image_resizer.py:11-13): scaled from
      the original when `percent` is truthy, else the given width and height. */
  function TargetSize(original: Size, width: int, height: int, percent: Option<int>): (r: Size)
    ensures IsTruthy(percent) ==>
      r == Size(ScaleDimension(original.width, percent.value), ScaleDimension(original.height, percent.value))
    ensures !IsTruthy(percent) ==> r == Size(width, height)
  {
    if IsTruthy(percent) then
      Size(ScaleDimension(original.width, percent.value), ScaleDimension(original.height, percent.value))
    else Size(width, height)
  }

  /** The file name `resize_image` saves to: the input's base name with
      `_resized` put between its stem and its extension. */
  function OutputName(imagePath: string): (r: string)
    ensures '/' !in r
  {
    var b := Basename(imagePath);
    var (name, ext) := SplitExt(b);
    NoSlashInserted(b, name, ext);
    name + "_resized" + ext
  }

  /** `os.path.join(output_folder, new_name)`. */
  function SavePath(outputFolder: string, imagePath: string): (r: string)
    ensures outputFolder <= r
  {
    var name := OutputName(imagePath);
    var r := Join(outputFolder, name);
    assert |name| > 0 ==> name[0] != '/';
    r
  }

  /** `resize_image(image_path, output_folder, width, height, percent)`. */
  function Resize(io: Backend, imagePath: string, outputFolder: string,
                  width: int, height: int, percent: Option<int>): (r: Result<(Size, Size), Failure>)
    ensures r.Ok? ==>
              && io.open(imagePath) == Some(r.value.0)
              && io.resize(imagePath, r.value.1)
              && io.save(imagePath, r.value.1, SavePath(outputFolder, imagePath))
    ensures r.Ok? && IsTruthy(percent) ==>
      r.value.1 == Size(ScaleDimension(r.value.0.width, percent.value),
                        ScaleDimension(r.value.0.height, percent.value))
    ensures r.Ok? && !IsTruthy(percent) ==> r.value.1 == Size(width, height)
    ensures r.Err? ==> r.error.imagePath == imagePath
    ensures r.Err? <==>
      match io.open(imagePath)
      case None => true
      case Some(original) =>
        var target := TargetSize(original, width, height, percent);
        !io.resize(imagePath, target) || !io.save(imagePath, target, SavePath(outputFolder, imagePath))
  {
    match io.open(imagePath)
    case None => Err(CannotOpen(imagePath))
    case Some(original) =>
      var target := TargetSize(original, width, height, percent);
      if !io.resize(imagePath, target) then Err(CannotResize(imagePath, target))
      else
        var savePath := SavePath(outputFolder, imagePath);
        if !io.save(imagePath, target, savePath) then Err(CannotSave(imagePath, savePath))
        else Ok((original, target))
  }

  /** A 100% scale keeps a dimension as it is. */
  lemma ScaleByHundred(original: int)
    ensures ScaleDimension(original, 100) == original
  {
  }

  /** A scale of at most 100% never enlarges a dimension nor makes it negative. */
  lemma ScaleAtMostHundred(original: nat, percent: int)
    requires 0 <= percent <= 100
    ensures 0 <= ScaleDimension(original, percent) <= original
  {
    MulMonotone(original, percent, 100);
  }

  lemma MulMonotone(a: nat, b: int, c: int)
    requires 0 <= b <= c
    ensures 0 <= a * b <= a * c
  {
  }

  /** A larger percentage never yields a smaller dimension. */
  lemma ScaleMonotone(original: nat, p1: int, p2: int)
    requires 0 <= p1 <= p2
    ensures ScaleDimension(original, p1) <= ScaleDimension(original, p2)
  {
    MulMonotone(original, p1, p2);
  }

  /** The output name is the input's base name with `_resized` between stem
      and extension, and `splitext` recovers that stem and the very same
      extension from it. */
  lemma {:induction false} OutputNameKeepsExtension(imagePath: string)
    ensures var (name, ext) := SplitExt(Basename(imagePath));
            && OutputName(imagePath) == name + "_resized" + ext
            && SplitExt(OutputName(imagePath)) == (name + "_resized", ext)
  {
    var b := Basename(imagePath);
    var (name, ext) := SplitExt(b);
    InsertSuffixKeepsExtension(b, name, ext);
  }

  lemma InsertSuffixKeepsExtension(b: string, name: string, ext: string)
    requires '/' !in b && SplitExt(b) == (name, ext)
    ensures '/' !in name + "_resized" + ext
    ensures SplitExt(name + "_resized" + ext) == (name + "_resized", ext)
  {
    NoSlashInserted(b, name, ext);
    if ext == [] {
      SuffixWithoutExtension(b, name, ext);
    } else {
      SuffixBeforeExtension(b, name, ext);
    }
  }

  lemma SuffixWithoutExtension(b: string, name: string, ext: string)
    requires '/' !in b && SplitExt(b) == (name, ext) && ext == []
    ensures SplitExt(name + "_resized" + ext) == (name + "_resized", ext)
  {
    var out := name + "_resized" + ext;
    BasenameOfPlainName(b);
    SplitExtFindsExtension(b);
    NoSlashInserted(b, name, ext);
    BasenameOfPlainName(out);
    assert out == b + "_resized";
    NoExtensionAfterSuffix(b, "_resized");
    SplitExtFindsExtension(out);
  }

  lemma SuffixBeforeExtension(b: string, name: string, ext: string)
    requires '/' !in b && SplitExt(b) == (name, ext) && ext != []
    ensures SplitExt(name + "_resized" + ext) == (name + "_resized", ext)
  {
    var out := name + "_resized" + ext;
    NoSlashInserted(b, name, ext);
    BasenameOfPlainName(out);
    ExtensionAfterInsert(name, ext);
    SplitExtFindsExtension(out);
    var (name', ext') := SplitExt(out);
    SameExtension(out, name + "_resized", ext, name', ext');
  }

  lemma NoSlashInserted(b: string, name: string, ext: string)
    requires '/' !in b && name + ext == b
    ensures '/' !in name + "_resized" + ext
  {
    var out := name + "_resized" + ext;
    forall k | 0 <= k < |out| ensures out[k] != '/' {
      if k < |name| { assert out[k] == b[k]; }
      else if k >= |name| + 8 { assert out[k] == b[k - 8]; }
    }
  }

  lemma ExtensionAfterInsert(name: string, ext: string)
    requires ext != [] && ext[0] == '.'
    ensures HasExtension(name + "_resized" + ext)
  {
    var out := name + "_resized" + ext;
    assert out[|name|] == '_' && out[|name| + 8] == '.';
  }

  lemma BasenameOfPlainName(s: string)
    requires '/' !in s
    ensures Basename(s) == s
  {
  }

  /** Appending dot-free text to a name without extension leaves it without one. */
  lemma NoExtensionAfterSuffix(b: string, suffix: string)
    requires '/' !in b && '.' !in suffix
    requires !HasExtension(b)
    ensures !HasExtension(b + suffix)
  {
    var s := b + suffix;
    forall i, j | 0 <= i < j < |s| && s[i] != '.' ensures s[j] != '.' {
      if j < |b| {
        assert s[i] == b[i] && s[j] == b[j];
      } else {
        assert s[j] == suffix[j - |b|];
      }
    }
  }

  /** Two splits of one string whose extension parts start with the string's
      last dot are the same split. */
  lemma SameExtension(s: string, n1: string, e1: string, n2: string, e2: string)
    requires n1 + e1 == s && n2 + e2 == s
    requires e1 != [] && e1[0] == '.' && '.' !in e1[1..]
    requires e2 != [] && e2[0] == '.' && '.' !in e2[1..]
    ensures n1 == n2 && e1 == e2
  {
    assert e1 == s[|n1|..] && e2 == s[|n2|..];
  }

  /** The saved file lies directly in the output folder: the path is the
      folder, a `/` when the folder is not empty and does not already end in
      one, then the output name. */
  lemma SavePathInFolder(outputFolder: string, imagePath: string)
    ensures Basename(SavePath(outputFolder, imagePath)) == OutputName(imagePath)
    ensures SavePath(outputFolder, imagePath) ==
      if outputFolder == [] || outputFolder[|outputFolder| - 1] == '/'
      then outputFolder + OutputName(imagePath)
      else outputFolder + "/" + OutputName(imagePath)
  {
    var name := OutputName(imagePath);
    assert |name| > 0 ==> name[0] != '/';
    JoinKeepsBasename(outputFolder, name);
    BasenameOfPlainName(name);
  }
}
