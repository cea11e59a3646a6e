/** The gallery formatter: it groups the cat image file names into rows and
    renders each row as a three-line markdown table (images, column
    alignment, captions). */
module Gallery {
  import opened Wrappers
  import opened Strings

  const ImageSize: nat := 200
  const ImageFolderName := "cats"
  const ImagePrefix := "cat_sitting_"
  const CenterJustificationElement := ":--:"

  // ---------------------------------------------------------------------------
  // Grouping

  function Flatten<T>(groups: seq<seq<T>>): seq<T>
  {
    if |groups| == 0 then [] else groups[0] + Flatten(groups[1..])
  }

  /** The slices `xs[i:i+n]` for `i` in `range(from, len(xs), n)`. */
  function GroupsFrom<T>(xs: seq<T>, n: nat, from: nat): seq<seq<T>>
    requires n > 0
    decreases |xs| - from
  {
    if from < |xs| then [xs[from..Min(from + n, |xs|)]] + GroupsFrom(xs, n, from + n) else []
  }

  /** `group_list(xs, n)`. A zero group size makes `range` raise (None); a
      negative one gives an empty range and so no groups. */
  function GroupList<T>(xs: seq<T>, n: int): (r: Option<seq<seq<T>>>)
    ensures r.None? <==> n == 0
    ensures n < 0 ==> r == Some([])
  {
    if n == 0 then None
    else if n < 0 then Some([])
    else Some(GroupsFrom(xs, n, 0))
  }

  lemma {:induction false} GroupsFromConcat<T>(xs: seq<T>, n: nat, from: nat)
    requires n > 0 && from <= |xs|
    ensures Flatten(GroupsFrom(xs, n, from)) == xs[from..]
    decreases |xs| - from
  {
    if from < |xs| {
      var next := from + n;
      var g := xs[from..Min(next, |xs|)];
      if next <= |xs| {
        GroupsFromConcat(xs, n, next);
        assert xs[from..] == g + xs[next..];
      } else {
        assert GroupsFrom(xs, n, next) == [];
        assert [g][1..] == [];
      }
      assert GroupsFrom(xs, n, from)[1..] == GroupsFrom(xs, n, next);
    }
  }

  /** Concatenating the groups gives back the input exactly. */
  lemma GroupListConcat<T>(xs: seq<T>, n: int)
    requires n > 0
    ensures GroupList(xs, n).Some? && Flatten(GroupList(xs, n).value) == xs
  {
    GroupsFromConcat(xs, n, 0);
  }

  lemma {:induction false} GroupsFromSizes<T>(xs: seq<T>, n: nat, from: nat)
    requires n > 0
    ensures var groups := GroupsFrom(xs, n, from);
      (forall k :: 0 <= k < |groups| ==> 0 < |groups[k]| <= n)
      && (forall k :: 0 <= k < |groups| - 1 ==> |groups[k]| == n)
    decreases |xs| - from
  {
    if from < |xs| {
      GroupsFromSizes(xs, n, from + n);
      var groups := GroupsFrom(xs, n, from);
      assert groups[1..] == GroupsFrom(xs, n, from + n);
      if from + n >= |xs| {
        assert |groups| == 1;
      }
      forall k | 0 <= k < |groups|
        ensures 0 < |groups[k]| <= n
        ensures k < |groups| - 1 ==> |groups[k]| == n
      {
        if k > 0 {
          assert groups[k] == groups[1..][k - 1];
        } else {
          assert groups[0] == xs[from..Min(from + n, |xs|)];
        }
      }
    }
  }

  /** Every group is non-empty and at most `n` long, and every group but the
      last is exactly `n` long. */
  lemma GroupListSizes<T>(xs: seq<T>, n: int)
    requires n > 0
    ensures GroupList(xs, n).Some?
    ensures var groups := GroupList(xs, n).value;
      (forall k :: 0 <= k < |groups| ==> 0 < |groups[k]| <= n)
      && (forall k :: 0 <= k < |groups| - 1 ==> |groups[k]| == n)
  {
    GroupsFromSizes(xs, n, 0);
    assert GroupList(xs, n).value == GroupsFrom(xs, n, 0);
  }

  lemma {:induction false} GroupsFromCount<T>(xs: seq<T>, n: nat, from: nat)
    requires n > 0
    ensures var count := |GroupsFrom(xs, n, from)|;
      (count == 0 <==> |xs| <= from)
      && (from < |xs| ==> (count - 1) * n < |xs| - from <= count * n)
    decreases |xs| - from
  {
    if from < |xs| {
      GroupsFromCount(xs, n, from + n);
      var rest := |GroupsFrom(xs, n, from + n)|;
      assert |GroupsFrom(xs, n, from)| == rest + 1;
      assert (rest + 1) * n == rest * n + n;
    }
  }

  /** The number of groups is the ceiling of `len(xs) / n`: the least count
      whose groups of `n` can hold every element. No input, no groups. */
  lemma GroupListCount<T>(xs: seq<T>, n: int)
    requires n > 0
    ensures GroupList(xs, n).Some?
    ensures var count := |GroupList(xs, n).value|;
      (count == 0 <==> |xs| == 0)
      && |xs| <= count * n
      && (count > 0 ==> (count - 1) * n < |xs|)
  {
    GroupsFromCount(xs, n, 0);
  }

  // ---------------------------------------------------------------------------
  // Cells

  /** A natural number in decimal, as an f-string prints it. */
  function DecimalString(n: nat): (s: string)
    ensures |s| > 0
    ensures forall k :: 0 <= k < |s| ==> '0' <= s[k] <= '9'
  {
    if n < 10 then [('0' as int + n) as char]
    else DecimalString(n / 10) + [('0' as int + n % 10) as char]
  }

  /** `get_image_html(filename)`: an image from the `cats` folder, 200 pixels
      wide. */
  function ImageHtml(filename: string): (html: string)
    ensures html == "<img src=\"cats/" + filename + "\" width=\"200\" />"
  {
    assert DecimalString(ImageSize) == "200";
    assert "<img src=\"" + ImageFolderName + "/" == "<img src=\"cats/";
    assert "\" width=\"" + "200" + "\" />" == "\" width=\"200\" />";
    "<img src=\"" + ImageFolderName + "/" + filename + "\" width=\"" + DecimalString(ImageSize) + "\" />"
  }

  /** `Path(filename).stem[len("cat_sitting_"):]`: the first twelve
      characters of the stem are dropped whatever they are, so a stem of
      twelve or fewer characters gives the empty name. */
  function GetCatName(filename: string): (catName: string)
    ensures |Stem(filename)| <= |ImagePrefix| ==> catName == ""
    ensures |ImagePrefix| < |Stem(filename)| ==>
      Stem(filename) == Stem(filename)[..|ImagePrefix|] + catName
  {
    Drop(Stem(filename), |ImagePrefix|)
  }

  /** `get_caption_markdown(filename)`: a link to the image in the `cats`
      folder, labelled with the cat's name. */
  function CaptionMarkdown(filename: string): (caption: string)
    ensures caption == "[" + GetCatName(filename) + "](cats/" + filename + ")"
  {
    var catName := GetCatName(filename);
    assert "](" + ImageFolderName + "/" == "](cats/";
    assert "[" + catName + "](" + ImageFolderName + "/" + filename + ")"
      == "[" + catName + ("](" + ImageFolderName + "/") + filename + ")";
    "[" + catName + "](" + ImageFolderName + "/" + filename + ")"
  }

  /** For a conventional name the caption shows the part between prefix and
      suffix. */
  lemma {:induction false} GetCatNameOfConventional(catName: string)
    ensures GetCatName(ImagePrefix + catName + ".png") == catName
  {
    assert ImagePrefix + catName + ".png" == (ImagePrefix + catName) + "." + "png";
    StemOfSuffixed(ImagePrefix + catName, "png");
    assert (ImagePrefix + catName)[|ImagePrefix|..] == catName;
  }

  /** Nothing checks that the prefix is there: a stem of twelve or fewer
      characters leaves the empty name, and a longer stem loses its first
      twelve characters whatever they are. */
  lemma GetCatNameUnchecked()
    ensures GetCatName("tom.png") == ""
    ensures GetCatName("dog_standing_Rex.png") == "_Rex"
  {
    StemOfSuffixed("dog_standing_Rex", "png");
    assert "dog_standing_Rex.png" == "dog_standing_Rex" + "." + "png";
    assert "dog_standing_Rex"[|ImagePrefix|..] == "_Rex";
    StemOfSuffixed("tom", "png");
    assert "tom.png" == "tom" + "." + "png";
  }

  lemma GetCatNameAvoids(filename: string, c: char)
    requires c !in filename
    ensures c !in GetCatName(filename)
  {
    var stem := Stem(filename);
    if |ImagePrefix| < |stem| {
      assert GetCatName(filename) == filename[|ImagePrefix|..|stem|];
    }
  }

  function ImageCells(filenames: seq<string>): (cells: seq<string>)
    ensures |cells| == |filenames|
    ensures forall k :: 0 <= k < |cells| ==> cells[k] == ImageHtml(filenames[k])
  {
    seq(|filenames|, k requires 0 <= k < |filenames| => ImageHtml(filenames[k]))
  }

  function AlignmentCells(count: nat): (cells: seq<string>)
    ensures |cells| == count
    ensures forall k :: 0 <= k < |cells| ==> cells[k] == CenterJustificationElement
  {
    seq(count, _ => CenterJustificationElement)
  }

  function CaptionCells(filenames: seq<string>): (cells: seq<string>)
    ensures |cells| == |filenames|
    ensures forall k :: 0 <= k < |cells| ==> cells[k] == CaptionMarkdown(filenames[k])
  {
    seq(|filenames|, k requires 0 <= k < |filenames| => CaptionMarkdown(filenames[k]))
  }

  // ---------------------------------------------------------------------------
  // Table

  /** `"|" + "|".join(cells) + "|"`, one table row without its newline. */
  function TableLine(cells: seq<string>): string
  {
    "|" + Join("|", cells) + "|"
  }

  /** `generate_gallery_table(filenames)`. */
  function GalleryTable(filenames: seq<string>): (table: string)
    ensures table == "" <==> |filenames| == 0
  {
    if |filenames| == 0 then ""
    else
      var imageRow := TableLine(ImageCells(filenames)) + "\n";
      var centerJustificationRow := TableLine(AlignmentCells(|filenames|)) + "\n";
      var captionRow := TableLine(CaptionCells(filenames)) + "\n";
      imageRow + centerJustificationRow + captionRow
  }

  /** A row reads back, split at its bars, as its cells between two empty
      pieces: one cell per entry. */
  lemma TableLineCells(cells: seq<string>)
    requires |cells| > 0 && NoneContains(cells, '|')
    ensures Split(TableLine(cells), '|') == [""] + cells + [""]
  {
    var body := Join("|", cells) + "|" + "";
    assert TableLine(cells) == "" + ['|'] + body;
    SplitAfter("", '|', body);
    SplitJoinThen(cells, '|', "");
  }

  lemma FixedTextAvoidsBar()
    ensures '|' !in "<img src=\"" && '|' !in "\" width=\"" && '|' !in "\" />"
    ensures '|' !in "[" && '|' !in "](" && '|' !in ")" && '|' !in "/"
    ensures '|' !in ImageFolderName && '|' !in CenterJustificationElement
  {
  }

  lemma FixedTextAvoidsNewline()
    ensures '\n' !in "<img src=\"" && '\n' !in "\" width=\"" && '\n' !in "\" />"
    ensures '\n' !in "[" && '\n' !in "](" && '\n' !in ")" && '\n' !in "/" && '\n' !in "|"
    ensures '\n' !in ImageFolderName && '\n' !in CenterJustificationElement
  {
  }

  /** Cells built from file names free of `c` (a bar or a newline) are free
      of `c` too. */
  lemma CellsAvoid(filenames: seq<string>, c: char)
    requires c == '|' || c == '\n'
    requires NoneContains(filenames, c)
    ensures NoneContains(ImageCells(filenames), c)
    ensures NoneContains(AlignmentCells(|filenames|), c)
    ensures NoneContains(CaptionCells(filenames), c)
  {
    FixedTextAvoidsBar();
    FixedTextAvoidsNewline();
    var width := DecimalString(ImageSize);
    assert forall k :: 0 <= k < |width| ==> width[k] != c;
    forall k | 0 <= k < |filenames|
      ensures c !in ImageHtml(filenames[k]) && c !in CaptionMarkdown(filenames[k])
    {
      GetCatNameAvoids(filenames[k], c);
    }
  }

  /** The table is its three rows, each followed by a newline. */
  lemma GalleryTableUnlines(filenames: seq<string>)
    requires |filenames| > 0
    ensures GalleryTable(filenames) ==
      Unlines([TableLine(ImageCells(filenames)), TableLine(AlignmentCells(|filenames|)), TableLine(CaptionCells(filenames))])
  {
    var lines := [TableLine(ImageCells(filenames)), TableLine(AlignmentCells(|filenames|)), TableLine(CaptionCells(filenames))];
    assert lines[1..] == [lines[1], lines[2]];
    assert lines[1..][1..] == [lines[2]];
    assert lines[1..][1..][1..] == [];
    var a, b, c := lines[0] + "\n", lines[1] + "\n", lines[2] + "\n";
    assert Unlines(lines[1..][1..]) == c + "";
    assert Unlines(lines[1..]) == b + (c + "");
    assert Unlines(lines) == a + (b + (c + ""));
    assert a + (b + (c + "")) == a + b + c;
  }

  lemma TableLineAvoidsNewline(cells: seq<string>)
    requires NoneContains(cells, '\n')
    ensures '\n' !in TableLine(cells)
  {
    FixedTextAvoidsNewline();
    JoinAvoids("|", cells, '\n');
  }

  /** For a non-empty list of names without bars or newlines the table is
      three newline-terminated rows (images, alignment, captions), each of
      which splits at its bars into exactly one cell per file name. */
  lemma GalleryTableShape(filenames: seq<string>)
    requires |filenames| > 0
    requires NoneContains(filenames, '|') && NoneContains(filenames, '\n')
    ensures Split(GalleryTable(filenames), '\n') ==
      [TableLine(ImageCells(filenames)), TableLine(AlignmentCells(|filenames|)), TableLine(CaptionCells(filenames)), ""]
    ensures Split(TableLine(ImageCells(filenames)), '|') == [""] + ImageCells(filenames) + [""]
    ensures Split(TableLine(AlignmentCells(|filenames|)), '|') == [""] + AlignmentCells(|filenames|) + [""]
    ensures Split(TableLine(CaptionCells(filenames)), '|') == [""] + CaptionCells(filenames) + [""]
  {
    var images, alignment, captions := ImageCells(filenames), AlignmentCells(|filenames|), CaptionCells(filenames);
    CellsAvoid(filenames, '|');
    CellsAvoid(filenames, '\n');
    TableLineCells(images);
    TableLineCells(alignment);
    TableLineCells(captions);
    TableLineAvoidsNewline(images);
    TableLineAvoidsNewline(alignment);
    TableLineAvoidsNewline(captions);
    var lines := [TableLine(images), TableLine(alignment), TableLine(captions)];
    assert NoneContains(lines, '\n');
    GalleryTableUnlines(filenames);
    SplitUnlines(lines);
  }
}
