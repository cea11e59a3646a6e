/** The parts of Python's `str` and `pathlib` behaviour that the checker and the
    gallery scripts rely on, as functions over `seq<char>`, together with a
    line/cell reader (`Split`) that the lemmas use to read generated text back. */
module Strings {

  function Min(a: int, b: int): int { if a <= b then a else b }

  /** Python `s[i:j]` for `0 <= i <= j`: indices past the end are clamped. */
  function Slice(s: string, i: nat, j: nat): (r: string)
    requires i <= j
    ensures |r| <= j - i
    ensures |r| > 0 ==> i + |r| <= |s|
    ensures forall k :: 0 <= k < |r| ==> r[k] == s[i + k]
  {
    s[Min(i, |s|)..Min(j, |s|)]
  }

  /** Python `s[k:]` for `k >= 0`. */
  function Drop(s: string, k: nat): (r: string)
    ensures |s| <= k ==> r == ""
    ensures k < |s| ==> s == s[..k] + r
  {
    if k <= |s| then s[k..] else ""
  }

  predicate IsPrefix(p: string, s: string)
  {
    |p| <= |s| && s[..|p|] == p
  }

  /** Python `s.removeprefix(p)`. */
  function RemovePrefix(s: string, p: string): (r: string)
    ensures IsPrefix(p, s) ==> p + r == s
    ensures !IsPrefix(p, s) ==> r == s
  {
    if IsPrefix(p, s) then s[|p|..] else s
  }

  /** Python `s.rfind(c)`: the last index holding `c`, or -1 when there is none. */
  function RFind(s: string, c: char): (r: int)
    ensures -1 <= r < |s|
    ensures r == -1 <==> c !in s
    ensures 0 <= r ==> s[r] == c && c !in s[r + 1..]
  {
    if |s| == 0 then -1
    else if s[|s| - 1] == c then |s| - 1
    else
      var r := RFind(s[..|s| - 1], c);
      assert s == s[..|s| - 1] + [s[|s| - 1]];
      assert 0 <= r ==> s[r + 1..] == s[..|s| - 1][r + 1..] + [s[|s| - 1]];
      r
  }

  /** `pathlib.PurePath(name).stem` for a bare file name (Python 3.12): the name
      without its final suffix, where a suffix needs a dot that is neither the
      first nor the last character. */
  function Stem(name: string): (r: string)
    ensures IsPrefix(r, name)
  {
    var i := RFind(name, '.');
    if 0 < i < |name| - 1 then name[..i] else name
  }

  /** Python `sep.join(parts)`. */
  function Join(sep: string, parts: seq<string>): string
  {
    if |parts| == 0 then ""
    else if |parts| == 1 then parts[0]
    else parts[0] + sep + Join(sep, parts[1..])
  }

  /** Each line followed by a newline, the shape of text built by appending
      `"...\n"` pieces one after the other. */
  function Unlines(lines: seq<string>): string
  {
    if |lines| == 0 then "" else lines[0] + "\n" + Unlines(lines[1..])
  }

  lemma {:induction false} UnlinesAppend(lines: seq<string>, line: string)
    ensures Unlines(lines + [line]) == Unlines(lines) + line + "\n"
  {
    if |lines| > 0 {
      assert (lines + [line])[1..] == lines[1..] + [line];
      UnlinesAppend(lines[1..], line);
    } else {
      assert [line][1..] == [];
    }
  }

  /** Appending a line's text and its newline extends the lines by one. */
  lemma UnlinesExtend(lines: seq<string>, line: string, text: string)
    requires text == line + "\n"
    ensures Unlines(lines) + text == Unlines(lines + [line])
  {
    UnlinesAppend(lines, line);
    assert Unlines(lines) + line + "\n" == Unlines(lines) + (line + "\n");
  }

  lemma Regroup(r: string, t: string, c: string, row: string)
    requires row + "\n" == t + c
    ensures r + t + c == r + row + "\n"
  {
    assert r + t + c == r + (t + c);
    assert r + row + "\n" == r + (row + "\n");
  }

  /** Python `s.split(c)` for a one-character separator: the pieces between
      the occurrences of `c`, none of which contains `c`. */
  function Split(s: string, c: char): (r: seq<string>)
    ensures |r| > 0
    ensures forall k :: 0 <= k < |r| ==> c !in r[k]
  {
    if |s| == 0 then [""]
    else if s[0] == c then [""] + Split(s[1..], c)
    else
      var rest := Split(s[1..], c);
      [[s[0]] + rest[0]] + rest[1..]
  }

  predicate NoneContains(parts: seq<string>, c: char)
  {
    forall k :: 0 <= k < |parts| ==> c !in parts[k]
  }

  lemma {:induction false} StemOfSuffixed(base: string, ext: string)
    requires |base| > 0 && |ext| > 0 && '.' !in ext
    ensures Stem(base + "." + ext) == base
  {
    var name := base + "." + ext;
    RFindLast(base, '.', ext);
    assert name[..|base|] == base;
  }

  /** The last occurrence of `c` is found after everything that precedes it. */
  lemma {:induction false} RFindLast(a: string, c: char, b: string)
    requires c !in b
    ensures RFind(a + [c] + b, c) == |a|
  {
    var s := a + [c] + b;
    if |b| > 0 {
      assert s[..|s| - 1] == a + [c] + b[..|b| - 1];
      assert s[|s| - 1] == b[|b| - 1];
      RFindLast(a, c, b[..|b| - 1]);
    }
  }

  lemma {:induction false} SplitWithout(a: string, c: char)
    requires c !in a
    ensures Split(a, c) == [a]
  {
    if |a| > 0 {
      SplitWithout(a[1..], c);
      assert [a[0]] + a[1..] == a;
    }
  }

  /** Splitting at the first separator peels off the text before it. */
  lemma {:induction false} SplitAfter(a: string, c: char, b: string)
    requires c !in a
    ensures Split(a + [c] + b, c) == [a] + Split(b, c)
  {
    var s := a + [c] + b;
    if |a| == 0 {
      assert s == [c] + b;
      assert s[1..] == b;
    } else {
      assert s[0] == a[0];
      assert s[1..] == a[1..] + [c] + b;
      SplitAfter(a[1..], c, b);
      assert [a[0]] + a[1..] == a;
    }
  }

  lemma {:induction false} SplitJoinThen(parts: seq<string>, c: char, t: string)
    requires |parts| > 0 && NoneContains(parts, c)
    ensures Split(Join([c], parts) + [c] + t, c) == parts + Split(t, c)
  {
    if |parts| == 1 {
      SplitAfter(parts[0], c, t);
    } else {
      var rest := Join([c], parts[1..]);
      assert Join([c], parts) + [c] + t == parts[0] + [c] + (rest + [c] + t);
      SplitAfter(parts[0], c, rest + [c] + t);
      SplitJoinThen(parts[1..], c, t);
      assert [parts[0]] + parts[1..] == parts;
    }
  }

  /** Joining with a one-character separator and splitting on it again gives
      the parts back, provided no part contains the separator. */
  lemma {:induction false} SplitJoin(parts: seq<string>, c: char)
    requires |parts| > 0 && NoneContains(parts, c)
    ensures Split(Join([c], parts), c) == parts
  {
    if |parts| == 1 {
      SplitWithout(parts[0], c);
    } else {
      var rest := Join([c], parts[1..]);
      assert Join([c], parts) == parts[0] + [c] + rest;
      SplitAfter(parts[0], c, rest);
      SplitJoin(parts[1..], c);
      assert [parts[0]] + parts[1..] == parts;
    }
  }

  lemma {:induction false} JoinGrowHead(c: char, h: string, parts: seq<string>)
    requires |parts| > 0
    ensures Join([c], [h + parts[0]] + parts[1..]) == h + Join([c], parts)
  {
    var q := [h + parts[0]] + parts[1..];
    assert q[0] == h + parts[0];
    if |parts| > 1 {
      assert q[1..] == parts[1..];
    }
  }

  /** The other direction: splitting and joining again rebuilds the text. */
  lemma {:induction false} JoinSplit(s: string, c: char)
    ensures Join([c], Split(s, c)) == s
  {
    if |s| > 0 {
      var rest := Split(s[1..], c);
      JoinSplit(s[1..], c);
      if s[0] == c {
        var r := [""] + rest;
        assert r[1..] == rest;
        assert Join([c], r) == "" + [c] + Join([c], rest);
        assert [s[0]] + s[1..] == s;
      } else {
        JoinGrowHead(c, [s[0]], rest);
        assert [s[0]] + s[1..] == s;
      }
    }
  }

  /** Text built from newline-terminated lines reads back as those lines, plus
      the empty piece after the final newline. */
  lemma {:induction false} SplitUnlines(lines: seq<string>)
    requires NoneContains(lines, '\n')
    ensures Split(Unlines(lines), '\n') == lines + [""]
  {
    if |lines| > 0 {
      SplitAfter(lines[0], '\n', Unlines(lines[1..]));
      SplitUnlines(lines[1..]);
      assert [lines[0]] + lines[1..] == lines;
    }
  }

  /** A character in neither the separator nor any part is not in the join. */
  lemma {:induction false} JoinAvoids(sep: string, parts: seq<string>, c: char)
    requires c !in sep && NoneContains(parts, c)
    ensures c !in Join(sep, parts)
  {
    if |parts| > 1 {
      JoinAvoids(sep, parts[1..], c);
    }
  }
}
