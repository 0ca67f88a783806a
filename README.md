# Image resizer: a Dafny model of the resizing core

`image_resizer.py` is a small Tkinter desktop tool. The user picks image
files, an output folder, and either a width and height or a percentage. The
tool joins the chosen paths into one text, splits that text again as a Tcl
list, resizes every path of that list with PIL and writes
`<stem>_resized<ext>` into the folder. Almost all of it is widget wiring. This project models the logic
under the widgets and proves what it does:

- `resize_image` (`resize_image.dfy`, module `ResizeImage`):
  - open the image and compute the target size (a truthy percentage scales
    each side by `int(side * percent / 100)`; otherwise the width and height
    are used as given);
  - resize, derive the save path from the input's base name, save;
  - return `(original_size, (width, height))`.
- `start_resizing` (`start_resizing.dfy`, module `StartResizing`):
  - require files and a folder;
  - read the percent field with `int()` when it is not blank; a non-zero
    percentage sets width and height to 0;
  - otherwise require non-blank width and height and read them with `int()`;
  - run `resize_image` over the files in order inside one `try`, so the first
    exception ends the run with "Something went wrong" and later files are
    never reached.
- The Python library behaviour the core depends on, written out:
  - `str.isspace`, `str.strip` and `int(str)` in `py_text.dfy` (module
    `PyText`). `strip()` and `int()` skip different whitespace:
    `int()` does not skip the ASCII separators U+001C to U+001F, which
    `str.isspace` counts as whitespace. `int()` also refuses numerals of more
    than 4300 digits, CPython's default limit;
  - `os.path.basename`, `os.path.splitext` and `os.path.join` as `posixpath`
    defines them, in `posix_path.dfy` (module `PosixPath`);
  - `Option` and `Result` in `wrappers.dfy`.

PIL is a `Backend` value of three functions: `open` (the size of the decoded
image, or `None` when `Image.open` raises), `resize` and `save` (`false` when
they raise). A `resize_image` call is then a function of that backend. The
loop in `start_resizing` is an imperative method proved against the ghost
predicate `FailFast`. The method takes the per-file call as a parameter,
`ResizeWith(io, folder, request)`: `resize_image` with the run's backend,
folder and resolved sizes. `FailFast` says which files completed, with which
sizes, and which file raised. The message box the run ends with is
`StartResizing`'s result.

## Model

| member | source | states |
|---|---|---|
| ResizeImage.Resize | image_resizer.py:6-24 | On success the first component is the size `Image.open` reported. The second is the size the image was resized to and saved at. The file is saved at `SavePath`. A truthy percent gives the truncated scaled size; otherwise the width and height as passed. The call fails exactly when open, resize or save raises. A failure names the input path. |
| ResizeImage.ScaleDimension | image_resizer.py:11-13 | `int(side * percent / 100)` is the quotient truncated toward zero. It lies within 100 of `side * percent` on the side toward zero, for either sign. |
| ResizeImage.TargetSize | image_resizer.py:11-13 | With a truthy percentage, each side is the original side scaled by `ScaleDimension`, and the width and height passed in are ignored. With `None` or 0, the width and height pass through unchanged. |
| ResizeImage.OutputName | image_resizer.py:18-20 | The new file name never holds a `/`, so it is never taken as an absolute path. |
| ResizeImage.SavePath | image_resizer.py:21 | The save path starts with the output folder. |
| ResizeImage.ScaleByHundred | image_resizer.py:12-13 | A 100% scale returns the side unchanged. |
| ResizeImage.ScaleAtMostHundred | image_resizer.py:12-13 | A percent from 0 to 100 gives a side between 0 and the original. |
| ResizeImage.ScaleMonotone | image_resizer.py:12-13 | A larger percent never gives a smaller side. |
| ResizeImage.OutputNameKeepsExtension | image_resizer.py:18-20 | The new name is the base name's stem, then `_resized`, then its extension. `splitext` of the new name gives back that extension unchanged, with stem + `_resized` as its stem. |
| ResizeImage.SavePathInFolder | image_resizer.py:18-21 | The save path is the folder followed by the new name, with a `/` between them unless the folder already ends in one. Its base name is the new name, so the file lands directly in the output folder. |
| PosixPath.RFind | image_resizer.py:18 | The index of the last occurrence of a character, or -1. No occurrence follows it. |
| PosixPath.Basename | image_resizer.py:18 | The base name is the suffix of the path after its last `/`. It holds no `/`. |
| PosixPath.SplitExt | image_resizer.py:19 | Stem and extension concatenate to the input. A non-empty extension starts with its only `.` and holds no `/`. |
| PosixPath.ExtensionStart | image_resizer.py:19 | The extension begins at the last `.` of the last path component, or the extension is empty. |
| PosixPath.Join | image_resizer.py:21 | An absolute name replaces the folder. Otherwise the result is the folder, then a `/` unless the folder is empty or already ends in one, then the name. |
| PosixPath.JoinKeepsBasename | image_resizer.py:21 | Joining a non-empty name to any folder keeps the name's base name. |
| PosixPath.SplitExtFindsExtension | image_resizer.py:19 | The extension is non-empty exactly when the base name has a `.` somewhere after a non-`.` character. So a leading dot, as in `.bashrc`, does not start an extension. |
| PyText.Trim | image_resizer.py:60 | Trimming a set of characters gives an empty text exactly when the text consists of them. Otherwise its result starts and ends outside the set. `strip()` trims the `str.isspace` set. |
| PyText.ParseInt | image_resizer.py:63-64 | `int()` rejects any text that `strip()` leaves empty. |
| PyText.ParseShowRoundTrip | image_resizer.py:63-64 | `int()` reads back every integer of at most 4300 digits written in decimal, and rejects longer ones. |
| PyText.ParseIgnoresSurroundingSpace | image_resizer.py:55 | The whitespace `int()` skips (ASCII space, tab, line feed, vertical tab, form feed, carriage return, and the non-ASCII `str.isspace` characters) does not change what `int()` returns. |
| PyText.SeparatorsNotSkipped | image_resizer.py:55 | U+001C to U+001F are whitespace to `strip()`, yet `int()` rejects a text that starts or ends with one. |
| StartResizing.ParsePercent | image_resizer.py:55 | A blank percent field means no percentage. Any other text gives the number `int()` reads, or the error box naming that text. |
| StartResizing.ResolveSize | image_resizer.py:57-64 | A truthy percentage gives width 0 and height 0. Otherwise a blank width or height gives "Enter width & height OR percentage.". Otherwise the result holds exactly the numbers `int()` reads from both fields, or the error box names the first field it rejects. The percentage is kept. |
| StartResizing.ResolveRequest | image_resizer.py:55-64 | It succeeds exactly when the percent field is blank or read by `int()`, and either that percentage is truthy or `int()` reads both width and height. The resolved percentage is what `int()` reads from a non-blank percent field. A truthy one comes with width and height 0; otherwise width and height are what `int()` reads from their fields. Any error is the blank-size message or `int()` rejecting one of the three fields. |
| StartResizing.ResizeAll | image_resizer.py:66-68 | The loop returns what the per-file call returned for the files it completed, in list order. Either every file completed, or the file right after them raised and the loop stopped there. |
| StartResizing.StartResizing | image_resizer.py:43-73 | Without files or a folder: "Please select images and output folder.", with no file processed. If reading the fields fails: that message, with no file processed. Otherwise `resize_image` runs with the resolved request: "Images resized successfully!" with every file processed, or "Something went wrong" with the failure of the first file that raised. |
| StartResizing.SeparatorInPercentRaises | image_resizer.py:54-73 | A non-blank percent field that starts with U+001C to U+001F (such as `"\x1c50"`) ends the run in the error box before any file. |
| StartResizing.PercentOverridesSize | image_resizer.py:55-58 | A non-zero percentage makes every call use width 0, height 0 and that percentage. The width and height fields are not read. |
| StartResizing.ZeroPercentFallsThrough | image_resizer.py:55-60 | A percentage that reads as 0 resolves as an empty percent field does. It gives the same error, or the same width and height. The size computation then treats 0 as no percentage. |
| StartResizing.BlankSizeRejected | image_resizer.py:59-62 | With no usable percentage, a blank width or height ends the run with "Enter width & height OR percentage.". |
| StartResizing.FailFastUnique | image_resizer.py:66-73 | The files and the per-file call determine the loop's outcome: the completed sizes and the failure. |
| StartResizing.LaterFilesNeverReached | image_resizer.py:66-73 | Once a file raises, the files after it do not matter. Replacing them with any others gives the same outcome. |

## Left out

- The Tkinter window and its widgets are not modelled (image_resizer.py:27-40 and 76-106): `StringVar` state, the file and folder dialogs, and `root.mainloop()`. `start_resizing` receives the field texts, the file list and the folder as parameters. The message box it would show is its result.
- `root.tk.splitlist` is not modelled (image_resizer.py:44). `files` is the list line 44 produces, not the user's selection. Line 33 stores the selection as one text joined with `", "`, and line 44 splits it again by Tcl list rules, at whitespace. So two chosen paths `/p/a.png` and `/p/b.png` come back as `/p/a.png,` and `/p/b.png`; `Image.open` raises on the first, and the run ends with "Something went wrong" before any file is saved. A single path with a space, such as `/p/my photo.png`, comes back as two entries. The model starts from the split list and says nothing about how it relates to what was chosen.
- The `print` lines are not modelled (image_resizer.py:34 and 68). The `(original, resized)` pairs they would print are returned instead.
- PIL's decoding, resampling and encoding are not modelled. The `Backend` oracle stands for them; it reports a size or a failure per call. Invalid sizes (zero or negative) reach the oracle unchanged, and its `resize` function decides whether they raise.
- Side effects of a stage that raises partway are not modelled. One example is a partly written output file.
- ResizeImage.ScaleDimension: the model computes the exact rational quotient and truncates it. Python computes a float and truncates that. The two agree while `|side * percent|` stays below about 2^53. Beyond that, float rounding and the `OverflowError` of a huge float are not modelled.
- PyText.ParseInt: `int()` is modelled for ASCII digits, an optional sign, single underscores between digits, and the surrounding whitespace it skips. Non-ASCII Unicode decimal digits, which `int()` also accepts, are not modelled.
- PyText.ParseInt: the digit limit is fixed at 4300, the default since CPython introduced the limit (3.11, and security releases of 3.7 to 3.10). Versions without it accept any length. A limit set through `sys.set_int_max_str_digits` or `PYTHONINTMAXSTRDIGITS` is not modelled.
- StartResizing.ResizeAll: the backend is one fixed function of the path for the whole run. A save during the run is not visible to a later `Image.open` of the same file. If the output folder holds an input of the list (`d/a.png`, then `d/a_resized.png`, saved into `d`), the later file is opened with its new contents in the program, but with its contents before the run in the model. Paths that name the same file in different spellings are not identified either.
- PosixPath.Join: only POSIX paths (`posixpath`) are modelled. Windows path rules (`ntpath`), with `\` separators and drive letters, are not.
- The exception text that `str(e)` puts in the error box is not modelled. The model keeps the structured cause instead: which field `int()` rejected, or which backend call raised for which file.
