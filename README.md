# Cat drawing checks and gallery, modelled in Dafny

This project models the two scripts of the cat drawing repository.

`scripts/cat_checker.py` runs preliminary checks on a submitted cat drawing:
- the file is a valid PNG;
- its name follows `cat_sitting_*.png`;
- its size matches the template;
- the drawing stays inside the template's outline.

The outline check compares the drawing with the template pixel by pixel. The
template's background colour is `#99D9EA`, decoded to `(153, 217, 234, 255)`.
Where a background pixel was painted over, the check marks a translucent red
pixel in a fresh overlay and the check fails. Where the white outline was
changed, it marks a translucent blue pixel and the check still passes. The
checks run in order, and each runs only while all earlier ones passed. A
markdown report of the results closes the run.

`scripts/generate_gallery.py` groups the image file names into rows and
renders each group as a three-line markdown table.

Files:
- `wrappers.dfy` (`Wrappers`): the `Option` type.
- `strings.dfy` (`Strings`): the Python `str` and `pathlib` behaviour the
  scripts use (`join`, `removeprefix`, `rfind`, slicing, `Path.stem`). It
  also holds `Split`, a reader that the lemmas use to read generated text
  back into lines and cells.
- `colour.dfy` (`Colour`): bytes, RGBA pixels, `int(s, 16)` on hex digits,
  and `#RRGGBB` decoding with an encoder as its inverse.
- `cat_checker.dfy` (`CatChecker`): the structural checks, the pixel
  classification, the outline scan (an imperative method over `array2`), the
  report builder and the check sequence.
- `gallery.dfy` (`Gallery`): `group_list`, the cell builders and the table.

Modelling choices:
- Images are `array2<Pixel>` indexed `[x, y]`. `Length0` is the width and
  `Length1` the height, as in PIL's `size` and `getpixel((x, y))`.
- The scan allocates its overlay with `new` and fills it in place in a
  column-by-column double loop, as the source does with `putpixel`.
- The check sequence is a method. It threads a record of four booleans,
  which starts all-`false`, and a `checksPass` flag through four guarded
  stages, as `main` does with the global `CHECKS` dict.
- The report builder appends to a string step by step. The block repeated
  for each status row is factored into `AppendStatusRow`, and the heading
  into `StartReport`.
- The report's first row, "Image file is a valid .png", shows the result of
  the NAME check, as the source does (`scripts/cat_checker.py:72`). Lemma
  `ReportRevealsChecks` proves that the PNG result never appears in the
  report.
- The report builder reads the global `CHECKS`, not its `checks` parameter.
  `main` passes that same dict, so the model passes the one `Checks` record
  and drops the unused parameter and `report_path`.
- `main` reads `cat_name` for the report even when the PNG check failed.
  There the name was never assigned and Python stops with a `NameError`. The
  model returns `None` for the name and for the report on that path.
- File names are bare names (the last path component). `Path.stem` follows
  Python 3.12: the text before the last dot, when that dot is neither the
  first nor the last character. The source needs 3.12 or later, since it
  nests double quotes inside f-strings.

## Model

| member | source | states |
|---|---|---|
| `Colour.HexValue` | scripts/cat_checker.py:43 | `int(s, 16)` succeeds exactly on a non-empty string of hex digits (either case), and its value is below 16 to the power of the length |
| `Colour.ParseColour` | scripts/cat_checker.py:43 | the colour decodes exactly when the two-character slices at offsets 1, 3 and 5 are all hex numbers; the alpha channel is always 255 |
| `Colour.ParseFormatColour` | scripts/cat_checker.py:43 | decoding undoes `#RRGGBB` encoding for every opaque colour |
| `CatChecker.BackgroundColourDecodes` | scripts/cat_checker.py:6 | `"#99D9EA"` decodes to `(153, 217, 234, 255)` |
| `CatChecker.TemplateBackground` | scripts/cat_checker.py:43 | the background colour the scan compares against is `(153, 217, 234, 255)` |
| `CatChecker.IsValidFilename` | scripts/cat_checker.py:33-34 | a name passes the `cat_sitting_*.png` check exactly when it is the conventional file name of the cat name extracted from it |
| `CatChecker.ExtractCatName` | scripts/cat_checker.py:36-37 | the extracted name is the stem, with `cat_sitting_` stripped exactly when the stem starts with it |
| `CatChecker.ExtractFromSubmission` | scripts/cat_checker.py:36-37 | from `cat_sitting_<middle>.png` the extracted cat name is exactly `<middle>`, dots included |
| `CatChecker.ValidFilenameOf` | scripts/cat_checker.py:33-37 | every name `cat_sitting_<middle>.png` passes the name check, and the extracted cat name is exactly `<middle>`, dots included |
| `CatChecker.ValidFilenameShape` | scripts/cat_checker.py:34 | every name that passes the check is `cat_sitting_` + some middle + `.png` (with `ValidFilenameOf`: valid if and only if of that shape) |
| `CatChecker.ExtractWithoutPrefix` | scripts/cat_checker.py:36-37 | when the stem lacks the prefix, extraction returns the stem unchanged |
| `CatChecker.FilenameExamples` | scripts/cat_checker.py:34-37 | `cat_sitting_Tom.png` is valid with name `Tom`; `tom.png`, `Cat_sitting_Tom.png` and `cat_sitting_Tom.PNG` are not valid (case-sensitive) |
| `CatChecker.SameDimensions` | scripts/cat_checker.py:39-40 | equal sizes give both images exactly the same pixel coordinates; for a non-empty template, different sizes leave a coordinate that only one image has |
| `CatChecker.OverlayPixel` | scripts/cat_checker.py:55-60 | an overlay pixel is red exactly where the template is background and the drawing differs, blue exactly where the template is opaque white and the drawing differs, and clear everywhere else |
| `CatChecker.CheckWithinTemplateOutline` | scripts/cat_checker.py:42-63 | the scan returns a fresh overlay of the template's size holding the overlay pixel of every coordinate, and the verdict is true exactly when no background pixel was painted over |
| `CatChecker.WithinOutlineIff` | scripts/cat_checker.py:51-63 | the verdict is true if and only if the drawing equals the template at every background-coloured template pixel |
| `CatChecker.IdenticalSubmissionConforms` | scripts/cat_checker.py:46-55 | a drawing identical to the template conforms and leaves the overlay entirely clear |
| `CatChecker.OutlineChangesConform` | scripts/cat_checker.py:56-60 | changes only at white outline pixels never fail the check |
| `CatChecker.PaintedBackgroundFails` | scripts/cat_checker.py:56-58 | one painted-over background pixel fails the check and is marked red |
| `CatChecker.StartReport` | scripts/cat_checker.py:67-69 | the report starts with the heading naming the cat and the two lines of the table head |
| `CatChecker.AppendStatusRow` | scripts/cat_checker.py:71-75 | each status block appends the row's title, a tick or a cross, and a newline |
| `CatChecker.GenerateMarkdownReport` | scripts/cat_checker.py:66-97 | the report is the heading, the table head, the png / name / dimensions / outline rows in that order and a blank line; the png and name rows both show the name check |
| `CatChecker.ReportReadsBack` | scripts/cat_checker.py:66-97 | for a name without line breaks, the report splits into exactly those lines, so it has four status rows in fixed order, each ending in its glyph |
| `CatChecker.ReportRevealsChecks` | scripts/cat_checker.py:71-93 | for any name, two reports for that name are equal if and only if the name, dimension and outline results agree, so the PNG result never shows |
| `CatChecker.CheckSubmission` | scripts/cat_checker.py:112-133 | each check's result is recorded only when every earlier check passed, and checks not attempted stay `false`; the name is extracted once the PNG check passed; the scan runs, and the overlay exists, exactly when the sizes matched; there is a report exactly when a name was extracted |
| `Strings.StemOfSuffixed` | scripts/cat_checker.py:37 | the stem of `<base>.<ext>`, with a non-empty base and a non-empty dot-free extension, is `<base>` |
| `Strings.RemovePrefix` | scripts/cat_checker.py:37 | with the prefix present, the prefix followed by the result rebuilds the input; without it, the input comes back unchanged |
| `Strings.SplitJoin` | scripts/generate_gallery.py:34-42 | joining non-empty parts with a one-character separator that no part contains, then splitting on it, gives the parts back |
| `Strings.JoinSplit` | scripts/generate_gallery.py:34-42 | splitting on a character, then joining with it, rebuilds the text |
| `Strings.SplitUnlines` | scripts/cat_checker.py:67-95 | text built from newline-terminated lines without inner line breaks splits back into those lines plus a trailing empty piece |
| `Gallery.GroupList` | scripts/generate_gallery.py:13-18 | grouping fails exactly for group size 0, where `range` raises; a negative size gives no groups |
| `Gallery.GroupListConcat` | scripts/generate_gallery.py:15-18 | concatenating the groups gives back the input exactly |
| `Gallery.GroupListSizes` | scripts/generate_gallery.py:16-17 | every group is non-empty and at most `n` long, and all groups but the last are exactly `n` long |
| `Gallery.GroupListCount` | scripts/generate_gallery.py:17 | the number of groups is the ceiling of `len(xs) / n`, and empty input gives no groups |
| `Gallery.ImageHtml` | scripts/generate_gallery.py:20-21 | the image cell is `<img src="cats/<file>" width="200" />`, the folder and the width written out |
| `Gallery.GetCatName` | scripts/generate_gallery.py:23-25 | a stem of twelve or fewer characters gives the empty name; a longer stem is its first twelve characters followed by the name |
| `Gallery.CaptionMarkdown` | scripts/generate_gallery.py:27-28 | the caption cell is `[<cat name>](cats/<file>)` |
| `Gallery.GetCatNameOfConventional` | scripts/generate_gallery.py:23-25 | for `cat_sitting_<middle>.png` the caption name is `<middle>` |
| `Gallery.GetCatNameUnchecked` | scripts/generate_gallery.py:23-25 | the prefix is never checked: `tom.png` gives the empty name and `dog_standing_Rex.png` gives `_Rex` |
| `Gallery.GalleryTable` | scripts/generate_gallery.py:30-32 | the table is empty exactly when there are no file names |
| `Gallery.TableLineCells` | scripts/generate_gallery.py:34-35 | a table row without bars in its cells splits at its bars into an empty piece, its cells and another empty piece |
| `Gallery.GalleryTableShape` | scripts/generate_gallery.py:30-44 | for non-empty names without bars or line breaks, the table is three newline-terminated rows (images, alignment, captions), and each row holds exactly one cell per file name |

## Left out

- `check_if_valid_png` (`scripts/cat_checker.py:25-31`) decodes the file with PIL. The model takes its verdict as a boolean input.
- `convert("RGBA")` is not modelled: both grids are taken to be RGBA already.
- `Image.alpha_composite` is not modelled. The model returns the overlay that would be composited onto the drawing, not the composited image.
- `CatChecker.CheckSubmission`: assumes the drawing is RGBA already. `Image.alpha_composite(cat_image, diff_mask)` (`scripts/cat_checker.py:62`) gets the drawing as opened, not its RGBA conversion, and PIL accepts only RGBA there. A drawing saved as an RGB or palette PNG passes the name and size checks and is scanned. Then `alpha_composite` raises `ValueError`, so no overlay, no outline result and no report are written. The model's "a report exactly when a name was extracted" does not hold for such a drawing.
- `Image.open`, `save`, file writes, `mkdir`, `print`, argparse and `validate_path` are I/O. The template and the drawing are method parameters, and the report and overlay are results, not files.
- `CatChecker.CheckSubmission`: when the PNG check fails, Python stops with a `NameError` before writing any report. The model returns no name and no report instead of raising.
- `Colour.HexValue`: accepts only hex digits. Python's `int(s, 16)` also accepts surrounding whitespace, a sign, underscores between digits, a `0x` prefix and non-ASCII digits. None of these occur in the constant `#99D9EA`.
- Only the one fixed pattern `cat_sitting_*.png` is modelled, not a general `fnmatch` engine.
- `Path` handling of directories is not modelled: names are the final path component.
- `main` of `scripts/generate_gallery.py` is left out. It lists the directory, sorts, filters by suffix and prints the tables joined by newlines.
