/**
 * The frame analyzer: per-line measurements of an ANSI-coloured text and the
 * verdict on whether its non-blank lines all have the same visible width.
 *
 * A file is given as the sequence of its lines, each still carrying the line
 * terminator it was read with.
 */
module Frames {
  import opened Ansi

  datatype Option<T> = None | Some(value: T)

  // ---------------------------------------------------------------------
  // Line trimming: `rstrip('\n\r')`.

  predicate IsNewline(c: char) {
    c == '\n' || c == '\r'
  }

  /**
   * Removes every trailing '\n' and '\r', however many there are. The result
   * is the longest prefix of the line that does not end in one of them.
   */
  function TrimNewlines(line: seq<char>): (r: seq<char>)
    ensures |r| <= |line| && r == line[..|r|]
    ensures r == [] || !IsNewline(r[|r| - 1])
    ensures forall k :: |r| <= k < |line| ==> IsNewline(line[k])
  {
    if line != [] && IsNewline(line[|line| - 1]) then TrimNewlines(line[..|line| - 1])
    else line
  }

  /** The three properties of `TrimNewlines` determine its result. */
  lemma TrimNewlinesUnique(line: seq<char>, r: seq<char>)
    requires |r| <= |line| && r == line[..|r|]
    requires r == [] || !IsNewline(r[|r| - 1])
    requires forall k :: |r| <= k < |line| ==> IsNewline(line[k])
    ensures r == TrimNewlines(line)
  {
    var t := TrimNewlines(line);
    if |t| < |r| {
      assert false;
    } else if |r| < |t| {
      assert false;
    }
  }

  /**
   * A line without a trailing '\n' or '\r' is left as it is; in particular
   * trimming twice is the same as trimming once.
   */
  lemma TrimNewlinesKeepsUnterminated(line: seq<char>)
    ensures (line == [] || !IsNewline(line[|line| - 1])) ==> TrimNewlines(line) == line
    ensures TrimNewlines(TrimNewlines(line)) == TrimNewlines(line)
  {
    var t := TrimNewlines(line);
    TrimNewlinesUnique(t, t);
  }

  // ---------------------------------------------------------------------
  // Per-line record.

  /** What is reported for one line: 1-based number, raw and visual length, matches. */
  datatype LineRecord = LineRecord(number: nat, raw: nat, visual: nat, ansi: nat, text: seq<char>)

  /**
   * Measures one already-trimmed line: the raw length counts the escape
   * characters, the visual text is the line with its SGR sequences deleted,
   * and `ansi` is how many sequences were found.
   */
  function Measure(number: nat, line: seq<char>): (r: LineRecord)
    ensures r.number == number && r.raw == |line| && r.visual == |r.text|
    ensures IsSubsequence(r.text, line)
    ensures r.visual + 3 * r.ansi <= r.raw
    ensures r.ansi == 0 <==> r.visual == r.raw
    ensures ESC !in line ==> r.text == line && r.ansi == 0
  {
    LengthAccounting(line);
    StripIsSubsequence(line);
    var rec := LineRecord(number, |line|, |Strip(line)|, CountEsc(line), Strip(line));
    if ESC !in line then NoEscUnchanged(line); rec else rec
  }

  /** The visible text of a raw line as read from the file. */
  function VisualText(line: seq<char>): seq<char> {
    Strip(TrimNewlines(line))
  }

  /**
   * The first loop of the analyzer: one record per line, in order, numbered
   * from 1, each measured on the line with its terminator removed.
   */
  method ReportLines(lines: seq<seq<char>>) returns (records: seq<LineRecord>)
    ensures |records| == |lines|
    ensures forall i :: 0 <= i < |lines| ==> records[i] == Measure(i + 1, TrimNewlines(lines[i]))
  {
    records := [];
    var i := 0;
    while i < |lines|
      invariant 0 <= i <= |lines|
      invariant |records| == i
      invariant forall k :: 0 <= k < i ==> records[k] == Measure(k + 1, TrimNewlines(lines[k]))
    {
      var line := TrimNewlines(lines[i]);
      var rawLen := |line|;
      var stripped := Strip(line);
      var visualLen := |stripped|;
      var ansiCodes := CountEsc(line);
      records := records + [LineRecord(i + 1, rawLen, visualLen, ansiCodes, stripped)];
      i := i + 1;
    }
  }

  // ---------------------------------------------------------------------
  // Width samples.

  /** The sample a line contributes: its visual length, unless it is blank. */
  function Sample(line: seq<char>): seq<nat> {
    var t := VisualText(line);
    if t != [] then [|t|] else []
  }

  /**
   * The width samples of a file, line by line: at most one per line and
   * never 0, since blank lines contribute nothing.
   */
  function Widths(lines: seq<seq<char>>): (ws: seq<nat>)
    ensures |ws| <= |lines|
    ensures forall k :: 0 <= k < |ws| ==> ws[k] >= 1
  {
    if lines == [] then []
    else Widths(lines[..|lines| - 1]) + Sample(lines[|lines| - 1])
  }

  /**
   * The second loop of the analyzer: it appends the visual length of every
   * non-blank line, in line order.
   */
  method CollectWidths(lines: seq<seq<char>>) returns (widths: seq<nat>)
    ensures widths == Widths(lines)
  {
    widths := [];
    var i := 0;
    while i < |lines|
      invariant 0 <= i <= |lines|
      invariant widths == Widths(lines[..i])
    {
      var line := TrimNewlines(lines[i]);
      var stripped := Strip(line);
      if stripped != [] {
        widths := widths + [|stripped|];
      }
      assert lines[..i + 1][..i] == lines[..i];
      i := i + 1;
    }
    assert lines[..i] == lines;
  }

  /**
   * The samples follow the lines: the samples of two consecutive blocks of
   * lines are those of the first block followed by those of the second.
   * With `Sample` this gives one entry per non-blank line, in line order.
   */
  lemma {:induction false} WidthsAppend(a: seq<seq<char>>, b: seq<seq<char>>)
    ensures Widths(a + b) == Widths(a) + Widths(b)
    decreases |b|
  {
    if b == [] {
      assert a + b == a;
    } else {
      var b' := b[..|b| - 1];
      var last := b[|b| - 1];
      WidthsAppend(a, b');
      assert (a + b)[..|a + b| - 1] == a + b';
      assert (a + b)[|a + b| - 1] == last;
      assert Widths(a + b) == Widths(a + b') + Sample(last);
      assert Widths(b) == Widths(b') + Sample(last);
    }
  }

  /** A file with one line has that line's sample. */
  lemma WidthsSingle(line: seq<char>)
    ensures Widths([line]) == Sample(line)
  {
    assert [line][..0] == [];
  }

  /** A width is among the samples exactly when some line has it as its sample. */
  lemma {:induction false} WidthsHasSample(lines: seq<seq<char>>, w: nat)
    ensures w in Widths(lines) <==> exists i :: 0 <= i < |lines| && w in Sample(lines[i])
    decreases |lines|
  {
    if lines != [] {
      var init := lines[..|lines| - 1];
      var last := lines[|lines| - 1];
      WidthsHasSample(init, w);
      assert Widths(lines) == Widths(init) + Sample(last);
      assert forall i :: 0 <= i < |init| ==> init[i] == lines[i];
      if w in Sample(last) {
        assert w in Widths(lines);
      }
    }
  }

  /**
   * A width is among the samples exactly when some non-blank line has that
   * visual length.
   */
  lemma WidthsMembership(lines: seq<seq<char>>, w: nat)
    ensures w in Widths(lines) <==>
      exists i :: 0 <= i < |lines| && VisualText(lines[i]) != [] && |VisualText(lines[i])| == w
  {
    WidthsHasSample(lines, w);
    forall i | 0 <= i < |lines|
      ensures w in Sample(lines[i]) <==> VisualText(lines[i]) != [] && |VisualText(lines[i])| == w
    {
    }
  }

  /** There are no samples exactly when every line is blank after stripping. */
  lemma {:induction false} WidthsEmpty(lines: seq<seq<char>>)
    ensures Widths(lines) == [] <==> forall i :: 0 <= i < |lines| ==> VisualText(lines[i]) == []
  {
    if Widths(lines) != [] {
      WidthsMembership(lines, Widths(lines)[0]);
    } else {
      forall i | 0 <= i < |lines| ensures VisualText(lines[i]) == [] {
        if VisualText(lines[i]) != [] {
          WidthsMembership(lines, |VisualText(lines[i])|);
          assert false;
        }
      }
    }
  }

  // ---------------------------------------------------------------------
  // Minimum, maximum and the verdict.

  /** The smallest sample. */
  function SeqMin(ws: seq<nat>): (m: nat)
    requires |ws| > 0
    ensures m in ws
    ensures forall k :: 0 <= k < |ws| ==> m <= ws[k]
  {
    if |ws| == 1 then ws[0]
    else
      var rest := SeqMin(ws[1..]);
      if ws[0] <= rest then ws[0] else rest
  }

  /** The largest sample. */
  function SeqMax(ws: seq<nat>): (m: nat)
    requires |ws| > 0
    ensures m in ws
    ensures forall k :: 0 <= k < |ws| ==> ws[k] <= m
  {
    if |ws| == 1 then ws[0]
    else
      var rest := SeqMax(ws[1..]);
      if ws[0] >= rest then ws[0] else rest
  }

  /** Whether the samples agree, and if not by how much they differ. */
  datatype Verdict = Consistent | Inconsistent(difference: nat)

  /** The reported range of widths and its verdict. */
  datatype WidthRange = WidthRange(minWidth: nat, maxWidth: nat, verdict: Verdict)

  /**
   * Reduces the samples to their range: nothing for no samples; otherwise a
   * minimum and a maximum that are both samples and bound all of them, and an
   * "inconsistent" verdict, with the positive gap, exactly when they differ.
   */
  function Classify(ws: seq<nat>): (r: Option<WidthRange>)
    ensures r.None? <==> ws == []
    ensures r.Some? ==>
      r.value.minWidth in ws && r.value.maxWidth in ws &&
      forall k :: 0 <= k < |ws| ==> r.value.minWidth <= ws[k] <= r.value.maxWidth
    ensures r.Some? ==> (r.value.verdict.Consistent? <==> r.value.minWidth == r.value.maxWidth)
    ensures r.Some? && r.value.verdict.Inconsistent? ==>
      r.value.verdict.difference == r.value.maxWidth - r.value.minWidth > 0
  {
    if ws == [] then None
    else
      var lo := SeqMin(ws);
      var hi := SeqMax(ws);
      Some(WidthRange(lo, hi, if lo != hi then Inconsistent(hi - lo) else Consistent))
  }

  /**
   * The whole analysis of one file: the per-line records and, when some line
   * is not blank, the width range and its verdict.
   */
  method AnalyzeFrame(lines: seq<seq<char>>) returns (records: seq<LineRecord>, range: Option<WidthRange>)
    ensures |records| == |lines|
    ensures forall i :: 0 <= i < |lines| ==> records[i] == Measure(i + 1, TrimNewlines(lines[i]))
    ensures range == Classify(Widths(lines))
    ensures range.None? <==> forall i :: 0 <= i < |lines| ==> VisualText(lines[i]) == []
  {
    records := ReportLines(lines);
    var widths := CollectWidths(lines);
    WidthsEmpty(lines);
    range := Classify(widths);
  }

  /**
   * When every non-blank line has visual width `w` and there is at least one,
   * the range is `w`..`w` and the verdict is "consistent".
   */
  lemma UniformWidthConsistent(lines: seq<seq<char>>, w: nat)
    requires exists i :: 0 <= i < |lines| && VisualText(lines[i]) != []
    requires forall i :: 0 <= i < |lines| && VisualText(lines[i]) != [] ==> |VisualText(lines[i])| == w
    ensures Classify(Widths(lines)) == Some(WidthRange(w, w, Consistent))
  {
    var ws := Widths(lines);
    WidthsEmpty(lines);
    forall k | 0 <= k < |ws| ensures ws[k] == w {
      WidthsMembership(lines, ws[k]);
    }
  }

  /** A file with a single non-blank line is always consistent. */
  lemma SingleLineConsistent(lines: seq<seq<char>>, i: nat)
    requires i < |lines| && VisualText(lines[i]) != []
    requires forall j :: 0 <= j < |lines| && j != i ==> VisualText(lines[j]) == []
    ensures Classify(Widths(lines)).Some?
    ensures Classify(Widths(lines)).value.verdict == Consistent
  {
    UniformWidthConsistent(lines, |VisualText(lines[i])|);
  }

  /** Samples 5, 7, 5 give the range 5..7 and a difference of 2. */
  lemma SpreadExample()
    ensures Classify([5, 7, 5]) == Some(WidthRange(5, 7, Inconsistent(2)))
  {
  }

  /**
   * A two-line file `ESC[31m AB ESC[0m` / `CD`, each line ending in '\n':
   * raw 11, visual 2, two matches; raw 2, visual 2, no match; consistent
   * at width 2.
   */
  lemma TwoLineExample()
    ensures var red := [ESC, '[', '3', '1', 'm', 'A', 'B', ESC, '[', '0', 'm'];
      var lines := [red + ['\n'], ['C', 'D', '\n']];
      Measure(1, TrimNewlines(lines[0])) == LineRecord(1, 11, 2, 2, "AB") &&
      Measure(2, TrimNewlines(lines[1])) == LineRecord(2, 2, 2, 0, "CD") &&
      Classify(Widths(lines)) == Some(WidthRange(2, 2, Consistent))
  {
    var red := [ESC, '[', '3', '1', 'm', 'A', 'B', ESC, '[', '0', 'm'];
    var lines := [red + ['\n'], ['C', 'D', '\n']];
    RedExample();
    assert (red + ['\n'])[..|red|] == red;
    TrimNewlinesUnique(lines[0], red);
    assert ['C', 'D', '\n'][..2] == ['C', 'D'];
    TrimNewlinesUnique(lines[1], ['C', 'D']);
    NoEscUnchanged(['C', 'D']);
    assert VisualText(lines[0]) == "AB";
    assert VisualText(lines[1]) == "CD";
    UniformWidthConsistent(lines, 2);
  }
}
