/** The preliminary checks run on a submitted cat drawing: the file-name
    convention, the size match against the template, the pixel scan that
    tells whether the drawing stays inside the template's outline (and marks
    where it does not), the short-circuiting sequence of those checks and the
    markdown report built from their results. */
module CatChecker {
  import opened Wrappers
  import opened Strings
  import opened Colour

  /** The template's background colour, as written in the source. */
  const TemplateBackgroundColour := "#99D9EA"

  const NamePrefix := "cat_sitting_"
  const PngSuffix := ".png"

  /** Overlay tints: translucent red for a painted background pixel,
      translucent blue for a changed outline pixel. */
  const RedTint := Pixel(255, 0, 0, 128)
  const BlueTint := Pixel(0, 0, 255, 128)

  // ---------------------------------------------------------------------------
  // Background colour

  /** Reading "#99D9EA" two hex digits at a time, from offsets 1, 3 and 5, and
      appending an opaque alpha gives (153, 217, 234, 255). */
  lemma BackgroundColourDecodes()
    ensures ParseColour(TemplateBackgroundColour) == Some(Pixel(153, 217, 234, 255))
  {
    var p := Pixel(153, 217, 234, 255);
    assert FormatColour(p) == TemplateBackgroundColour;
    ParseFormatColour(p);
  }

  /** The background colour as the scan derives it from the hex constant. */
  function TemplateBackground(): (p: Pixel)
    ensures p == Pixel(153, 217, 234, 255)
  {
    BackgroundColourDecodes();
    ParseColour(TemplateBackgroundColour).value
  }

  // ---------------------------------------------------------------------------
  // Structural checks

  /** `fnmatchcase(name, "cat_sitting_*.png")`: the name starts with the prefix
      and ends with the suffix, case-sensitively, with anything in between.
      `name` is the final component of the submitted path. */
  function IsValidFilename(name: string): (valid: bool)
    ensures valid <==> name == SubmissionFilename(ExtractCatName(name))
  {
    var valid := |name| >= |NamePrefix| + |PngSuffix|
      && name[..|NamePrefix|] == NamePrefix
      && name[|name| - |PngSuffix|..] == PngSuffix;
    if valid then
      var middle := name[|NamePrefix|..|name| - |PngSuffix|];
      assert name == name[..|NamePrefix|] + middle + name[|name| - |PngSuffix|..];
      ExtractFromSubmission(middle);
      valid
    else
      var rebuilt := SubmissionFilename(ExtractCatName(name));
      assert rebuilt[..|NamePrefix|] == NamePrefix;
      assert rebuilt[|rebuilt| - |PngSuffix|..] == PngSuffix;
      valid
  }

  /** The file name a submission for `catName` is expected to carry. */
  function SubmissionFilename(catName: string): string
  {
    NamePrefix + catName + PngSuffix
  }

  /** `path.stem.removeprefix("cat_sitting_")`: the stem, with the prefix
      stripped exactly when the stem starts with it. */
  function ExtractCatName(name: string): (catName: string)
    ensures Stem(name) == catName || Stem(name) == NamePrefix + catName
    ensures IsPrefix(NamePrefix, Stem(name)) <==> Stem(name) == NamePrefix + catName
  {
    RemovePrefix(Stem(name), NamePrefix)
  }

  /** The cat name a conventional file name carries is what lies between the
      prefix and the suffix, dots included. */
  lemma {:induction false} ExtractFromSubmission(catName: string)
    ensures ExtractCatName(SubmissionFilename(catName)) == catName
  {
    assert SubmissionFilename(catName) == (NamePrefix + catName) + "." + "png";
    StemOfSuffixed(NamePrefix + catName, "png");
    assert IsPrefix(NamePrefix, NamePrefix + catName);
    assert (NamePrefix + catName)[|NamePrefix|..] == catName;
  }

  /** `(x, y)` is a pixel coordinate of `image`. */
  predicate InBounds(image: array2<Pixel>, x: int, y: int)
  {
    0 <= x < image.Length0 && 0 <= y < image.Length1
  }

  /** `image1.size == image2.size`; grids are indexed `[x, y]`, so `Length0`
      is the width and `Length1` the height. Equal sizes give both images the
      same pixel coordinates; for a non-empty template, different sizes leave
      a coordinate that only one of them has. */
  function SameDimensions(template: array2<Pixel>, submission: array2<Pixel>): (same: bool)
    ensures same ==> forall x, y :: InBounds(template, x, y) <==> InBounds(submission, x, y)
    ensures InBounds(template, 0, 0) && !same ==>
      exists x, y :: InBounds(template, x, y) != InBounds(submission, x, y)
  {
    var same := template.Length0 == submission.Length0 && template.Length1 == submission.Length1;
    if same || !InBounds(template, 0, 0) then same
    else if submission.Length0 < template.Length0 then
      assert InBounds(template, submission.Length0, 0) != InBounds(submission, submission.Length0, 0);
      same
    else if submission.Length1 < template.Length1 then
      assert InBounds(template, 0, submission.Length1) != InBounds(submission, 0, submission.Length1);
      same
    else if template.Length0 < submission.Length0 then
      assert InBounds(template, template.Length0, 0) != InBounds(submission, template.Length0, 0);
      same
    else
      assert InBounds(template, 0, template.Length1) != InBounds(submission, 0, template.Length1);
      same
  }

  /** Every conventional name passes the check, and the name extracted from it
      is exactly the part between prefix and suffix (dots included). */
  lemma {:induction false} ValidFilenameOf(catName: string)
    ensures IsValidFilename(SubmissionFilename(catName))
    ensures ExtractCatName(SubmissionFilename(catName)) == catName
  {
    ExtractFromSubmission(catName);
  }

  /** Conversely, every name that passes the check is a conventional name. */
  lemma ValidFilenameShape(name: string)
    requires IsValidFilename(name)
    ensures name == SubmissionFilename(name[|NamePrefix|..|name| - |PngSuffix|])
  {
    var mid := name[|NamePrefix|..|name| - |PngSuffix|];
    assert name == name[..|NamePrefix|] + mid + name[|name| - |PngSuffix|..];
  }

  /** Without the prefix, extraction silently returns the stem unchanged. */
  lemma ExtractWithoutPrefix(name: string)
    requires !IsPrefix(NamePrefix, Stem(name))
    ensures ExtractCatName(name) == Stem(name)
  {
  }

  lemma FilenameExamples()
    ensures IsValidFilename("cat_sitting_Tom.png") && ExtractCatName("cat_sitting_Tom.png") == "Tom"
    ensures !IsValidFilename("tom.png")
    ensures !IsValidFilename("Cat_sitting_Tom.png") && !IsValidFilename("cat_sitting_Tom.PNG")
  {
    ValidFilenameOf("Tom");
    assert SubmissionFilename("Tom") == "cat_sitting_Tom.png";
    assert "Cat_sitting_Tom.png"[0] != NamePrefix[0];
    assert "cat_sitting_Tom.PNG"[16] != PngSuffix[1];
  }

  // ---------------------------------------------------------------------------
  // Pixel classification

  /** What the scan makes of one coordinate: unchanged, background painted
      over, outline altered, or a change at a pixel of any other template
      colour, which is not marked. */
  datatype Classification = Unchanged | BackgroundViolation | OutlineDifference | OtherDifference

  function Classify(t: Pixel, s: Pixel): Classification
  {
    if t == s then Unchanged
    else if t == TemplateBackground() then BackgroundViolation
    else if t == OpaqueWhite then OutlineDifference
    else OtherDifference
  }

  function Tint(c: Classification): Pixel
  {
    match c
    case BackgroundViolation => RedTint
    case OutlineDifference => BlueTint
    case _ => Transparent
  }

  /** The overlay pixel left at a coordinate with template pixel `t` and
      submission pixel `s`: red exactly where background was painted over,
      blue exactly where the white outline was changed, clear elsewhere. */
  function OverlayPixel(t: Pixel, s: Pixel): (p: Pixel)
    ensures p == RedTint <==> t != s && t == Pixel(153, 217, 234, 255)
    ensures p == BlueTint <==> t != s && t == OpaqueWhite
    ensures p == Transparent <==> t == s || (t != Pixel(153, 217, 234, 255) && t != OpaqueWhite)
  {
    Tint(Classify(t, s))
  }

  /** The drawing conforms when no background pixel of the template was
      altered. */
  predicate WithinOutline(template: array2<Pixel>, submission: array2<Pixel>)
    requires SameDimensions(template, submission)
    reads template, submission
  {
    forall x, y :: 0 <= x < template.Length0 && 0 <= y < template.Length1 ==>
      Classify(template[x, y], submission[x, y]) != BackgroundViolation
  }

  /** `mask` has the template's size and holds the overlay pixel of every
      coordinate. */
  predicate IsOverlayOf(mask: array2<Pixel>, template: array2<Pixel>, submission: array2<Pixel>)
    requires SameDimensions(template, submission)
    reads mask, template, submission
  {
    mask.Length0 == template.Length0 && mask.Length1 == template.Length1
    && forall x, y :: 0 <= x < template.Length0 && 0 <= y < template.Length1 ==>
         mask[x, y] == OverlayPixel(template[x, y], submission[x, y])
  }

  /** The outline scan: a column-by-column pass over both grids that paints a
      fresh transparent overlay at every differing pixel and records whether
      any background pixel was painted over. */
  method CheckWithinTemplateOutline(template: array2<Pixel>, submission: array2<Pixel>)
    returns (conforms: bool, diffMask: array2<Pixel>)
    requires SameDimensions(template, submission)
    ensures fresh(diffMask)
    ensures IsOverlayOf(diffMask, template, submission)
    ensures conforms == WithinOutline(template, submission)
  {
    var parsed := ParseColour(TemplateBackgroundColour);
    BackgroundColourDecodes();
    var backgroundColour := parsed.value;
    var w, h := template.Length0, template.Length1;
    var violationFound := false;
    diffMask := new Pixel[w, h]((x, y) => Transparent);
    for x := 0 to w
      invariant forall i, j :: 0 <= i < x && 0 <= j < h ==>
        diffMask[i, j] == OverlayPixel(template[i, j], submission[i, j])
      invariant forall i, j :: x <= i < w && 0 <= j < h ==> diffMask[i, j] == Transparent
      invariant violationFound <==>
        (exists i, j :: 0 <= i < x && 0 <= j < h && Classify(template[i, j], submission[i, j]) == BackgroundViolation)
    {
      for y := 0 to h
        invariant forall i, j :: 0 <= i < x && 0 <= j < h ==>
          diffMask[i, j] == OverlayPixel(template[i, j], submission[i, j])
        invariant forall j :: 0 <= j < y ==> diffMask[x, j] == OverlayPixel(template[x, j], submission[x, j])
        invariant forall i, j :: x <= i < w && 0 <= j < h && (i != x || y <= j) ==> diffMask[i, j] == Transparent
        invariant violationFound <==>
          (exists i, j :: 0 <= i < x && 0 <= j < h && Classify(template[i, j], submission[i, j]) == BackgroundViolation)
          || (exists j :: 0 <= j < y && Classify(template[x, j], submission[x, j]) == BackgroundViolation)
      {
        var px1 := template[x, y];
        var px2 := submission[x, y];
        if px1 != px2 {
          if px1 == backgroundColour {
            diffMask[x, y] := RedTint;
            violationFound := true;
          }
          if px1 == OpaqueWhite {
            diffMask[x, y] := BlueTint;
          }
        }
      }
    }
    conforms := !violationFound;
  }

  /** Only painted-over background decides the verdict. */
  lemma WithinOutlineIff(template: array2<Pixel>, submission: array2<Pixel>)
    requires SameDimensions(template, submission)
    ensures WithinOutline(template, submission) <==>
      forall x, y :: 0 <= x < template.Length0 && 0 <= y < template.Length1 && template[x, y] == Pixel(153, 217, 234, 255) ==>
        submission[x, y] == template[x, y]
  {
  }

  /** A submission identical to the template conforms and leaves the overlay
      entirely clear. */
  lemma IdenticalSubmissionConforms(template: array2<Pixel>, submission: array2<Pixel>)
    requires SameDimensions(template, submission)
    requires forall x, y :: 0 <= x < template.Length0 && 0 <= y < template.Length1 ==> submission[x, y] == template[x, y]
    ensures WithinOutline(template, submission)
    ensures forall x, y :: 0 <= x < template.Length0 && 0 <= y < template.Length1 ==>
      OverlayPixel(template[x, y], submission[x, y]) == Transparent
  {
  }

  /** Changes confined to the white outline never fail the check. */
  lemma OutlineChangesConform(template: array2<Pixel>, submission: array2<Pixel>)
    requires SameDimensions(template, submission)
    requires forall x, y :: 0 <= x < template.Length0 && 0 <= y < template.Length1 && submission[x, y] != template[x, y] ==>
      template[x, y] == OpaqueWhite
    ensures WithinOutline(template, submission)
  {
  }

  /** One painted background pixel fails the check and is marked red. */
  lemma PaintedBackgroundFails(template: array2<Pixel>, submission: array2<Pixel>, x: int, y: int)
    requires SameDimensions(template, submission)
    requires 0 <= x < template.Length0 && 0 <= y < template.Length1
    requires template[x, y] == Pixel(153, 217, 234, 255) && submission[x, y] != template[x, y]
    ensures !WithinOutline(template, submission)
    ensures OverlayPixel(template[x, y], submission[x, y]) == RedTint
  {
  }

  // ---------------------------------------------------------------------------
  // Report

  /** The first cell of each status row, bar included. */
  const PngRowTitle := "|Image file is a valid .png"
  const NameRowTitle := "|Image file has valid name"
  const DimensionsRowTitle := "|Image file dimensions matches template"
  const OutlineRowTitle := "|Drawing is within outline of template"

  /** The results of the four checks, in the order they run; a check that was
      never attempted keeps its initial `false`. */
  datatype Checks = Checks(validPng: bool, validName: bool, validDimensions: bool, withinTemplateOutline: bool)

  const InitialChecks := Checks(false, false, false, false)

  function Glyph(ok: bool): string
  {
    if ok then ":white_check_mark:" else ":x:"
  }

  function StatusRow(title: string, ok: bool): string
  {
    title + "|" + Glyph(ok) + "|"
  }

  function Heading(catName: string): string
  {
    "### Preliminary Checks Report - `" + catName + "`: "
  }

  /** The lines of the report, each written with a trailing newline. The
      first status row shows the name check, not the PNG check, as the source
      does. */
  function ReportLines(checks: Checks, catName: string): seq<string>
  {
    [ Heading(catName),
      "|Check    |Status |",
      "|:--------|:-----:|",
      StatusRow(PngRowTitle, checks.validName),
      StatusRow(NameRowTitle, checks.validName),
      StatusRow(DimensionsRowTitle, checks.validDimensions),
      StatusRow(OutlineRowTitle, checks.withinTemplateOutline),
      "" ]
  }

  /** The report text, appended piece by piece. */
  method GenerateMarkdownReport(checks: Checks, catName: string) returns (report: string)
    ensures report == Unlines(ReportLines(checks, catName))
  {
    ghost var written := [Heading(catName), "|Check    |Status |", "|:--------|:-----:|"];
    report := StartReport(catName);

    report := AppendStatusRow(report, PngRowTitle, checks.validName);
    UnlinesAppend(written, StatusRow(PngRowTitle, checks.validName));
    written := written + [StatusRow(PngRowTitle, checks.validName)];

    report := AppendStatusRow(report, NameRowTitle, checks.validName);
    UnlinesAppend(written, StatusRow(NameRowTitle, checks.validName));
    written := written + [StatusRow(NameRowTitle, checks.validName)];

    report := AppendStatusRow(report, DimensionsRowTitle, checks.validDimensions);
    UnlinesAppend(written, StatusRow(DimensionsRowTitle, checks.validDimensions));
    written := written + [StatusRow(DimensionsRowTitle, checks.validDimensions)];

    report := AppendStatusRow(report, OutlineRowTitle, checks.withinTemplateOutline);
    UnlinesAppend(written, StatusRow(OutlineRowTitle, checks.withinTemplateOutline));
    written := written + [StatusRow(OutlineRowTitle, checks.withinTemplateOutline)];

    report := report + "\n";
    UnlinesExtend(written, "", "\n");
    written := written + [""];
    assert written == ReportLines(checks, catName);
  }

  /** The heading and the head of the table. */
  method StartReport(catName: string) returns (report: string)
    ensures report == Unlines([Heading(catName), "|Check    |Status |", "|:--------|:-----:|"])
  {
    ghost var written: seq<string> := [];
    HeadText(catName);
    report := "### Preliminary Checks Report - `" + catName + "`: \n";
    UnlinesExtend(written, Heading(catName), report);
    written := written + [Heading(catName)];
    report := report + "|Check    |Status |\n";
    UnlinesExtend(written, "|Check    |Status |", "|Check    |Status |\n");
    written := written + ["|Check    |Status |"];
    report := report + "|:--------|:-----:|\n";
    UnlinesExtend(written, "|:--------|:-----:|", "|:--------|:-----:|\n");
    written := written + ["|:--------|:-----:|"];
  }

  /** The block the source repeats for each check: the row's title cell,
      then a tick or a cross and the end of the line. */
  method AppendStatusRow(report: string, title: string, ok: bool) returns (extended: string)
    ensures extended == report + StatusRow(title, ok) + "\n"
  {
    extended := report + title;
    if ok {
      extended := extended + "|:white_check_mark:|\n";
    } else {
      extended := extended + "|:x:|\n";
    }
    RowText(report, title, ok, extended);
  }

  // HeadText, HeadingSingleLine, GlyphsSingleLine and RowTitlesSingleLine
  // state plain facts about string literals. They exist only to keep each
  // proof obligation about the report small: the solver handles a few
  // literal equalities at a time cheaply, but not many at once.

  /** The text appended for the report's first three lines, newline apart. */
  lemma HeadText(catName: string)
    ensures "### Preliminary Checks Report - `" + catName + "`: \n" == Heading(catName) + "\n"
    ensures "|Check    |Status |\n" == "|Check    |Status |" + "\n"
    ensures "|:--------|:-----:|\n" == "|:--------|:-----:|" + "\n"
  {
  }

  /** A row's title followed by its status cell is the row and a newline. */
  lemma RowText(report: string, title: string, ok: bool, extended: string)
    requires extended == report + title + (if ok then "|:white_check_mark:|\n" else "|:x:|\n")
    ensures extended == report + StatusRow(title, ok) + "\n"
  {
    var cell := if ok then "|:white_check_mark:|\n" else "|:x:|\n";
    assert cell == "|" + Glyph(ok) + "|" + "\n";
    assert StatusRow(title, ok) + "\n" == title + cell;
    Regroup(report, title, cell, StatusRow(title, ok));
  }

  lemma StatusRowInjective(title: string, a: bool, b: bool)
    requires StatusRow(title, a) == StatusRow(title, b)
    ensures a == b
  {
    assert |StatusRow(title, a)| == |title| + 2 + |Glyph(a)|;
  }

  /** None of the report's fixed pieces holds a line break. */
  lemma HeadingSingleLine()
    ensures '\n' !in "### Preliminary Checks Report - `" && '\n' !in "`: "
    ensures '\n' !in "|Check    |Status |" && '\n' !in "|:--------|:-----:|"
  {
  }

  lemma GlyphsSingleLine()
    ensures '\n' !in Glyph(true) && '\n' !in Glyph(false)
  {
  }

  lemma RowTitlesSingleLine()
    ensures '\n' !in PngRowTitle && '\n' !in NameRowTitle
    ensures '\n' !in DimensionsRowTitle && '\n' !in OutlineRowTitle
  {
  }

  /** Below the heading, no line of the report holds a line break, whatever
      the name. */
  lemma ReportBodySingle(checks: Checks, catName: string)
    ensures NoneContains(ReportLines(checks, catName)[1..], '\n')
  {
    HeadingSingleLine();
    GlyphsSingleLine();
    RowTitlesSingleLine();
  }

  lemma ReportLinesSingle(checks: Checks, catName: string)
    requires '\n' !in catName
    ensures NoneContains(ReportLines(checks, catName), '\n')
  {
    HeadingSingleLine();
    ReportBodySingle(checks, catName);
    var lines := ReportLines(checks, catName);
    forall k | 0 <= k < |lines|
      ensures '\n' !in lines[k]
    {
      if k == 0 {
        assert lines[0] == "### Preliminary Checks Report - `" + catName + "`: ";
      } else {
        assert lines[k] == lines[1..][k - 1];
      }
    }
  }

  /** The report reads back as a heading, the table head, four status rows in
      the fixed order png / name / dimensions / outline, and a blank line. */
  lemma ReportReadsBack(checks: Checks, catName: string)
    requires '\n' !in catName
    ensures Split(Unlines(ReportLines(checks, catName)), '\n') == ReportLines(checks, catName) + [""]
  {
    ReportLinesSingle(checks, catName);
    SplitUnlines(ReportLines(checks, catName));
  }

  /** Two reports for the same name are equal exactly when the name,
      dimension and outline results agree: the PNG result never shows. The
      heading is the same in both, so this holds for every name. */
  lemma ReportRevealsChecks(c1: Checks, c2: Checks, catName: string)
    ensures Unlines(ReportLines(c1, catName)) == Unlines(ReportLines(c2, catName)) <==>
      (c1.validName == c2.validName && c1.validDimensions == c2.validDimensions
       && c1.withinTemplateOutline == c2.withinTemplateOutline)
  {
    var l1, l2 := ReportLines(c1, catName), ReportLines(c2, catName);
    if Unlines(l1) == Unlines(l2) {
      var t1, t2 := l1[1..], l2[1..];
      var head := l1[0] + "\n";
      assert Unlines(l1) == head + Unlines(t1);
      assert Unlines(l2) == head + Unlines(t2);
      assert Unlines(t1) == (head + Unlines(t1))[|head|..];
      assert Unlines(t2) == (head + Unlines(t2))[|head|..];
      ReportBodySingle(c1, catName);
      ReportBodySingle(c2, catName);
      SplitUnlines(t1);
      SplitUnlines(t2);
      assert t1 + [""] == t2 + [""];
      assert l1[4] == (t1 + [""])[3] == (t2 + [""])[3] == l2[4];
      assert l1[5] == (t1 + [""])[4] == (t2 + [""])[4] == l2[5];
      assert l1[6] == (t1 + [""])[5] == (t2 + [""])[5] == l2[6];
      StatusRowInjective(NameRowTitle, c1.validName, c2.validName);
      StatusRowInjective(DimensionsRowTitle, c1.validDimensions, c2.validDimensions);
      StatusRowInjective(OutlineRowTitle, c1.withinTemplateOutline, c2.withinTemplateOutline);
    }
  }

  // ---------------------------------------------------------------------------
  // The check sequence

  /** Each result claims that every earlier check passed. */
  predicate ShortCircuited(c: Checks)
  {
    (c.withinTemplateOutline ==> c.validDimensions)
    && (c.validDimensions ==> c.validName)
    && (c.validName ==> c.validPng)
  }

  /** The checks in order, each run only while all earlier ones passed. The
      PNG verdict comes from the image library and is an input; `filename` is
      the final component of the submitted path. The name is extracted once
      the PNG check passed, even if the name check then fails; with no name
      there is no report (the source stops with an unbound variable there).
      The overlay is produced exactly when the outline scan runs. */
  method CheckSubmission(validPng: bool, filename: string, template: array2<Pixel>, submission: array2<Pixel>)
    returns (checks: Checks, catName: Option<string>, changes: Option<array2<Pixel>>, report: Option<string>)
    ensures checks.validPng == validPng
    ensures checks.validName == (validPng && IsValidFilename(filename))
    ensures checks.validDimensions == (checks.validName && SameDimensions(template, submission))
    ensures checks.withinTemplateOutline == (checks.validDimensions && WithinOutline(template, submission))
    ensures ShortCircuited(checks)
    ensures catName == if validPng then Some(ExtractCatName(filename)) else None
    ensures changes.Some? <==> checks.validDimensions
    ensures changes.Some? ==> fresh(changes.value) && IsOverlayOf(changes.value, template, submission)
    ensures report == if validPng then Some(Unlines(ReportLines(checks, ExtractCatName(filename)))) else None
  {
    checks := InitialChecks;
    catName, changes, report := None, None, None;
    var checksPass := true;

    if checksPass {
      checksPass := validPng;
      checks := checks.(validPng := checksPass);
    }
    if checksPass {
      checksPass := IsValidFilename(filename);
      checks := checks.(validName := checksPass);
      catName := Some(ExtractCatName(filename));
    }
    if checksPass {
      checksPass := SameDimensions(template, submission);
      checks := checks.(validDimensions := checksPass);
    }
    if checksPass {
      var annotated;
      checksPass, annotated := CheckWithinTemplateOutline(template, submission);
      checks := checks.(withinTemplateOutline := checksPass);
      changes := Some(annotated);
    }

    if catName.Some? {
      var text := GenerateMarkdownReport(checks, catName.value);
      report := Some(text);
    }
  }
}
