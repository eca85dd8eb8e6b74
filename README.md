# Frame width analyzer, modelled in Dafny

This project models the frame analyzer script `server/scripts/analyze-frames.py`. The script reads ANSI-coloured text files, such as ASCII-art banners. For each line it reports the raw length, the visible ("visual") length once SGR escape sequences are removed, and the number of those sequences. It then checks whether all non-blank lines have the same visible width.

- `ansi.dfy` (module `Ansi`) models the fixed pattern `ESC '[' [0-9;]* 'm'`. This is the SGR form of the CSI control sequence in ECMA-48, section 8.3.117.
  - `EscLenAt` is a hand-written matcher, and `EscLenAtExact` proves it against `IsSgr`, a reference definition of the pattern's language.
  - `Strip` models the substitution pass. `CountEsc` models the find-all count.
  - `Scan` splits a line into kept characters and matched sequences. It connects the two: nothing is lost, `Strip` keeps exactly the kept characters, `CountEsc` counts exactly the matched sequences, and the lengths add up.
- `frames.dfy` (module `Frames`) models the rest of the analysis:
  - `TrimNewlines` models `rstrip('\n\r')`.
  - `Measure` builds the per-line record.
  - `ReportLines` and `CollectWidths` model the analyzer's two loops. Each is a method proved against a specification function.
  - `Widths` is the width sample list, `SeqMin`/`SeqMax` are the reductions, and `Classify` reduces the samples to a range and a verdict.
  - `AnalyzeFrame` models the whole per-file analysis.

A file is given as its sequence of lines, each still ending in whatever terminator it was read with. The printed report is modelled as values: a `LineRecord` per line, and an optional `WidthRange` that carries a `Verdict`.

Two consequences of the code are worth stating:
- Stripping is a single substitution pass, and it is not idempotent. `ESC ESC [ m [ m` strips to `ESC [ m`, which still holds a match (`StripNotIdempotent`).
- The line `ESC[31mAB ESC[0m` has 11 characters once its terminator is trimmed: 2 visible and 2 matches (`RedExample`, `TwoLineExample`).

## Model

| member | source | states |
|---|---|---|
| Ansi.ParamRun | server/scripts/analyze-frames.py:9 | the greedy `[0-9;]*` run: it stays in bounds, every character in it is a digit or `;`, and the character after it (if any) is not |
| Ansi.EscLenAt | server/scripts/analyze-frames.py:9 | a non-zero result is at least 3 and marks an in-bounds segment that is an SGR sequence |
| Ansi.EscLenAtExact | server/scripts/analyze-frames.py:9 | a prefix of the text at `i` is an SGR sequence iff the matcher reports exactly that length, so the match is unique and 0 means that no match starts at `i` |
| Ansi.Strip | server/scripts/analyze-frames.py:9 | the stripped text is never longer than the input |
| Ansi.CountEsc | server/scripts/analyze-frames.py:30 | each counted match uses at least 3 characters of the input |
| Ansi.NoEscUnchanged | server/scripts/analyze-frames.py:23-30 | a line without ESC strips to itself and has escape count 0 |
| Ansi.Scan | server/scripts/analyze-frames.py:9 | every piece the scan removes is an SGR sequence |
| Ansi.ScanAccounts | server/scripts/analyze-frames.py:23-30 | joining the pieces gives back the input; `Strip` keeps exactly the kept pieces; `CountEsc` counts exactly the removed pieces; raw length = visual length + removed length |
| Ansi.CodeLengthBound | server/scripts/analyze-frames.py:30 | removed sequences have a total length of at least 3 × their number |
| Ansi.LengthAccounting | server/scripts/analyze-frames.py:23-30 | visual + 3 × escape count ≤ raw; escape count is 0 iff visual = raw |
| Ansi.StripRemovesLeadingMatch | server/scripts/analyze-frames.py:9 | an SGR sequence at the scan position is deleted as a whole and counted once, and scanning resumes after it |
| Ansi.StripKeepsNonMatch | server/scripts/analyze-frames.py:9 | where no prefix of the remaining text is an SGR sequence, the first character is kept, nothing is counted, and the scan advances by one |
| Ansi.PlainThenMatch | server/scripts/analyze-frames.py:7-9 | ESC-free text followed by an SGR sequence: the text survives, the sequence is deleted and counted |
| Ansi.StripIsSubsequence | server/scripts/analyze-frames.py:9 | the stripped text is a subsequence of the input (characters kept in their original order) |
| Ansi.StripNotIdempotent | server/scripts/analyze-frames.py:9 | one pass over `ESC ESC [ m [ m` leaves `ESC [ m`, and a second pass removes that too |
| Ansi.RedExample | server/scripts/analyze-frames.py:23-30 | `ESC[31mAB ESC[0m` has raw length 11, visual text `AB` and 2 matches |
| Frames.TrimNewlines | server/scripts/analyze-frames.py:20 | the result is a prefix of the line that does not end in `\n`/`\r`, and every removed character is `\n` or `\r` |
| Frames.TrimNewlinesUnique | server/scripts/analyze-frames.py:20 | those three properties determine the trimmed line uniquely |
| Frames.TrimNewlinesKeepsUnterminated | server/scripts/analyze-frames.py:37 | a line with no trailing `\n`/`\r` is unchanged, and trimming twice equals trimming once |
| Frames.Measure | server/scripts/analyze-frames.py:23-30 | record of a trimmed line: raw = its length; visual text is a subsequence of it; visual + 3 × ansi ≤ raw; ansi is 0 iff visual = raw; a line without ESC is its own visual text with ansi 0 |
| Frames.ReportLines | server/scripts/analyze-frames.py:18-32 | one record per line, in order, numbered from 1, each measured on the trimmed line |
| Frames.Widths | server/scripts/analyze-frames.py:35-40 | at most one sample per line, and every sample is ≥ 1 |
| Frames.CollectWidths | server/scripts/analyze-frames.py:35-40 | the loop builds exactly the sample list `Widths` |
| Frames.WidthsAppend | server/scripts/analyze-frames.py:36-40 | the samples of two consecutive blocks of lines are the first block's samples followed by the second's (line order) |
| Frames.WidthsSingle | server/scripts/analyze-frames.py:38-40 | a single line contributes its visual length when that is non-zero, and nothing otherwise |
| Frames.WidthsHasSample | server/scripts/analyze-frames.py:36-40 | a width is in the list iff some line contributes it |
| Frames.WidthsMembership | server/scripts/analyze-frames.py:36-40 | a width is in the list iff some non-blank line has that visual length |
| Frames.WidthsEmpty | server/scripts/analyze-frames.py:39-42 | the list is empty iff every line is blank after trimming and stripping |
| Frames.SeqMin | server/scripts/analyze-frames.py:43 | the minimum is a member of the list and bounds every entry from below |
| Frames.SeqMax | server/scripts/analyze-frames.py:44 | the maximum is a member of the list and bounds every entry from above |
| Frames.Classify | server/scripts/analyze-frames.py:42-49 | no range iff no samples; otherwise min and max are samples that bound all samples; "consistent" iff min = max; "inconsistent" reports the gap max − min > 0 |
| Frames.AnalyzeFrame | server/scripts/analyze-frames.py:11-49 | records for every line, and a range equal to `Classify(Widths(lines))`, which is absent iff every line is blank |
| Frames.UniformWidthConsistent | server/scripts/analyze-frames.py:42-49 | if every non-blank line has width W and there is at least one, the range is W..W and the verdict is consistent |
| Frames.SingleLineConsistent | server/scripts/analyze-frames.py:42-49 | a file with exactly one non-blank line is consistent |
| Frames.SpreadExample | server/scripts/analyze-frames.py:43-47 | samples 5, 7, 5 give range 5..7 and "inconsistent" with difference 2 |
| Frames.TwoLineExample | server/scripts/analyze-frames.py:18-49 | lines `ESC[31mAB ESC[0m\n` and `CD\n` give records (11, 2, 2) and (2, 2, 0), with a consistent width of 2 |

## Left out

- File opening, UTF-8 decoding and `readlines` with universal-newline translation (lines 13-14) are I/O. The input is a given sequence of lines.
- Python strings are sequences of code points. Dafny's `char` covers Unicode scalar values, which is everything strict UTF-8 decoding can produce.
- All printing is left out: the header, the padded per-line fields, the 60-character display truncation `stripped[:60]`, and the warning and confirmation messages (lines 16, 32, 45-49). The model returns the values those lines print.
- The command-line driver is left out: the default file pair, the loop over paths, and the per-file `try/except` that prints an error and carries on (lines 51-57).
- Python's general regular-expression engine is not modelled. Only the one fixed pattern is, by a hand-written matcher that is proved exact against the pattern's language.
- Ansi.Strip: its own contract gives only the length bound. What it removes and keeps is stated by `StripRemovesLeadingMatch` and `StripKeepsNonMatch`, which together with `Strip([]) == []` determine it from `IsSgr` alone. `StripIsSubsequence`, `ScanAccounts` and `NoEscUnchanged` add further properties.
- Ansi.CountEsc: its own contract gives only the 3-characters-per-match bound. What it counts is stated by `StripRemovesLeadingMatch` and `StripKeepsNonMatch`. `ScanAccounts` shows that it counts exactly the sequences `Strip` removes.
