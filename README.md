# Cluster listing statistics — a verified model

The analysis script reads a text listing of one cluster of OpenCV source
files. Its first line is the cluster's title. Every later line is a path, and
the script counts two things for the paths that contain `/opencv/`:

- the category: the path segment right after the leftmost `/opencv/` (for
  example `modules`, `3rdparty`, `hal`, `apps`);
- the subcategory: the segment after that, counted only for the categories
  `modules`, `3rdparty` and `hal`.

It then plots both counters and saves the chart under the input's name cut
at its last `.` (wherever that dot is, a directory name included), followed by
`_histogram.png`; a name without `.` is kept whole.

This project models the parsing step (`parse_cluster_file`) and the
derivation of the output file name, and proves what they compute.

- `text.dfy` (module `Text`): the Python string operations used: `strip()`
  (the whitespace set is exactly the characters for which `str.isspace()`
  holds), `split(sep)` with its inverse `join`, `rsplit(sep, 1)` and a
  leftmost literal search, which is all that `re.search(r'/opencv/', line)`
  does for a pattern without metacharacters.
- `counters.dfy` (module `Counters`): `collections.Counter` as a
  `map<string, nat>` that is only incremented. A missing key reads as 0.
  `Tally` is the counter that results from incrementing once per key, and
  `Total` is the sum of its counts.
- `cluster.dfy` (module `ClusterStats`): `ParseClusterFile`, a method that
  takes the title and hands the lines after the first to `CountPaths`, the
  method holding the source's `for` loop. Both guards the source has are
  kept: the `"Unknown Cluster"` fallback and the skip for a path with no
  segment. It is proved equal to `CategoryCounts` and
  `SubcategoryCounts`, which tally the keys that `CategoryOf` and
  `SubcategoryOf` give each line. The lemmas beside it state the properties
  of these counters.
- `output_name.dfy` (module `OutputName`): `HistogramFileName`, the name the
  chart is saved under.

## Model

| member | source | states |
|---|---|---|
| `ClusterStats.Lines` | python_analysis/analysis_script.py:10 | `text.strip().split('\n')`. Characterised by `TitleIsFirstLine`, `TitleAndBody` and `TitleFallbackUnreachable`. |
| `ClusterStats.PathParts` | python_analysis/analysis_script.py:22-30 | What follows the leftmost `/opencv/`, split at `/`, or nothing for a line without `/opencv/`. Characterised by `CategoryOfLine`, `SubcategoryOfLine` and `EmptyPathUnreachable`. |
| `ClusterStats.CategoryOf` | python_analysis/analysis_script.py:22-37 | The key a line adds to the category counter. Characterised by `CategoryOfLine`. |
| `ClusterStats.SubcategoryOf` | python_analysis/analysis_script.py:39-42 | The key a line adds to the subcategory counter. Characterised by `SubcategoryOfLine`. |
| `ClusterStats.CategoryCounts` | python_analysis/analysis_script.py:16-37 | The category counter of a text: the tally of the categories of the lines after the first. `ParseClusterFile` is proved to return it. `CategoryTotal`, `LineOrderIrrelevant` and `TitleNeverCounted` state its properties. |
| `ClusterStats.SubcategoryCounts` | python_analysis/analysis_script.py:16-42 | The subcategory counter of a text, defined the same way. `ParseClusterFile` is proved to return it. `SubcategoryTotal`, `LineOrderIrrelevant` and `TitleNeverCounted` state its properties. |
| `ClusterStats.CollectedKeys` | python_analysis/analysis_script.py:20-42 | A key is collected from the lines exactly when some line is assigned that key. |
| `ClusterStats.ParseClusterFile` | python_analysis/analysis_script.py:6-44 | The title is the first line of the stripped text. Each counter maps every key to the number of lines after the first that count under it, and holds no other key. |
| `ClusterStats.CountPaths` | python_analysis/analysis_script.py:20-42 | The loop over the lines after the first yields, for each counter, the tally of the keys the lines count under, in line order: a line without `/opencv/` changes nothing, a line with it adds one to its category and, when that category is tracked and followed by another segment, one to its subcategory. |
| `ClusterStats.TitleFallbackUnreachable` | python_analysis/analysis_script.py:10-13 | The line list is never empty, so the `"Unknown Cluster"` fallback is dead. |
| `ClusterStats.EmptyPathUnreachable` | python_analysis/analysis_script.py:30-33 | The path after `/opencv/` always splits into at least one part, so the `len(path_parts) < 1` skip never fires. |
| `ClusterStats.TitleIsFirstLine` | python_analysis/analysis_script.py:10-13 | The title holds no line break. It is a prefix of the stripped text and is followed by `\n` or by the end. For all-whitespace text the title is `""`. |
| `ClusterStats.TitleAndBody` | python_analysis/analysis_script.py:10 | For a title line holding some non-whitespace character and no `\n`, followed by `\n` and a body: when the body is blank, the only line is the title stripped on both sides; otherwise the first line is the title without its leading whitespace, followed by the lines of the body without its trailing whitespace. |
| `ClusterStats.TitleNeverCounted` | python_analysis/analysis_script.py:10-20 | Two texts that differ only in their first line have equal counters, even when that line contains `/opencv/` and whatever the body holds, trailing line break included. The first line must hold some non-whitespace character, or `strip()` would make the next line the title. |
| `ClusterStats.CategoryOfLine` | python_analysis/analysis_script.py:22-37 | A line has a category exactly when it contains `/opencv/`. The category is the segment starting right after the leftmost `/opencv/`: no `/` inside, followed by `/` or the end of the line, possibly empty. |
| `ClusterStats.SubcategoryOfLine` | python_analysis/analysis_script.py:39-42 | A line has a subcategory exactly when its category is `modules`, `3rdparty` or `hal` and a `/` follows the category. The subcategory is the next segment, possibly empty. |
| `ClusterStats.UnmarkedLineIgnored` | python_analysis/analysis_script.py:22-24 | Inserting a line without `/opencv/` anywhere among the lines leaves both counters unchanged. |
| `ClusterStats.CollectPermutation` | python_analysis/analysis_script.py:20-42 | Reordering the lines reorders the collected category (or subcategory) keys and changes nothing else. |
| `ClusterStats.LineOrderIrrelevant` | python_analysis/analysis_script.py:20-42 | Texts whose lines after the first are the same multiset have equal counters. |
| `ClusterStats.CategoryTotal` | python_analysis/analysis_script.py:30-37 | The category counts add up to the number of lines after the first that contain `/opencv/`. |
| `ClusterStats.SubcategoryTallyBound` | python_analysis/analysis_script.py:37-42 | Over any lines, the subcategory counts add up to at most the counts of the tracked categories together. |
| `ClusterStats.SubcategoryTotal` | python_analysis/analysis_script.py:39-42 | The subcategory counts add up to at most the counts of `modules`, `3rdparty` and `hal` together. |
| `Counters.Increment` | python_analysis/analysis_script.py:37 | `counter[k] += 1`. Characterised by `IncrementCounts`. |
| `Counters.Tally` | python_analysis/analysis_script.py:37-42 | The counter obtained by incrementing once per key, in order, from an empty counter. Characterised by `TallyCounts`, `TallyPermutation` and `TallyTotal`. |
| `Counters.IncrementCounts` | python_analysis/analysis_script.py:37 | `counter[k] += 1` raises the count of `k` by one and makes `k` present. Every other key keeps its count, and positivity of the counts is kept. |
| `Counters.TallyCounts` | python_analysis/analysis_script.py:37-42 | Counting a sequence of keys gives each key its number of occurrences. The present keys are exactly the keys that occur, and every present key has a count above 0. |
| `Counters.TallyPermutation` | python_analysis/analysis_script.py:37 | Key sequences with the same occurrences, in any order, give the same counter. |
| `Counters.TallyTotal` | python_analysis/analysis_script.py:37 | The counts of a tally add up to the number of keys counted. |
| `Text.Strip` | python_analysis/analysis_script.py:10 | Python's `strip()`. Characterised by `StripSlice`, `StripEnds`, `StripEmpty` and `StripIdempotent`. |
| `Text.StripLeftCut` | python_analysis/analysis_script.py:10 | Removing leading whitespace leaves a suffix that does not start with whitespace, and everything removed is whitespace. |
| `Text.StripRightCut` | python_analysis/analysis_script.py:10 | Removing trailing whitespace leaves a prefix that does not end with whitespace, and everything removed is whitespace. |
| `Text.StripSlice` | python_analysis/analysis_script.py:10 | `strip()` returns a slice of the input with only whitespace cut on each side. |
| `Text.StripEnds` | python_analysis/analysis_script.py:10 | What `strip()` returns is empty or starts and ends with non-whitespace. |
| `Text.StripLeftConcat` | python_analysis/analysis_script.py:10 | Leading whitespace is cut only from a first part that holds some non-whitespace character, and never reaches what follows it. |
| `Text.StripRightConcat` | python_analysis/analysis_script.py:10 | Trailing whitespace is cut only from a last part that holds some non-whitespace character, and never reaches what precedes it. |
| `Text.StripRightSpaceTail` | python_analysis/analysis_script.py:10 | An all-whitespace last part is cut off entirely, together with the trailing whitespace before it. |
| `Text.StripUnchanged` | python_analysis/analysis_script.py:10 | A text that starts and ends with non-whitespace is left alone by `strip()`. |
| `Text.StripIdempotent` | python_analysis/analysis_script.py:10 | Stripping twice is stripping once. |
| `Text.StripEmpty` | python_analysis/analysis_script.py:10 | The stripped text is empty exactly when the text is all whitespace. |
| `Text.Split` | python_analysis/analysis_script.py:10 | `split(sep)` yields at least one piece, and no piece contains the separator. |
| `Text.JoinSplit` | python_analysis/analysis_script.py:10 | Joining the pieces of a split with the separator gives back the string. |
| `Text.SplitCons` | python_analysis/analysis_script.py:10 | A piece without the separator, the separator and a rest split into that piece followed by the pieces of the rest. |
| `Text.SplitJoin` | python_analysis/analysis_script.py:30 | Splitting a join of separator-free pieces gives back the pieces. |
| `Text.SplitFirstPiece` | python_analysis/analysis_script.py:30-36 | The first piece is the prefix before the first separator, or the whole string when it has none. A second piece exists exactly when a separator follows the first piece. |
| `Text.Find` | python_analysis/analysis_script.py:22 | The search returns the leftmost index where the pattern occurs, and nothing exactly when the pattern occurs nowhere. |
| `Text.LastIndexOf` | python_analysis/analysis_script.py:140 | Returns an index holding the character with none after it, or nothing exactly when the character is absent. |
| `Text.LastIndexOfUnique` | python_analysis/analysis_script.py:140 | The index holding the character with none after it is the one returned. |
| `Text.RSplitOnce` | python_analysis/analysis_script.py:140 | `rsplit(sep, 1)` yields one piece exactly when the separator is absent, otherwise two. The last piece holds no separator. |
| `Text.RSplitOnceJoin` | python_analysis/analysis_script.py:140 | Joining the pieces of `rsplit(sep, 1)` with the separator gives back the string. |
| `OutputName.HistogramFileName` | python_analysis/analysis_script.py:140 | `filename.rsplit('.', 1)[0] + '_histogram.png'`. Characterised by `HistogramFileNameShape` and `HistogramFileNameCut`. |
| `OutputName.HistogramFileNameShape` | python_analysis/analysis_script.py:140 | The output name is a stem followed by `_histogram.png`. The stem is the whole input when it has no `.`. Otherwise the stem is the input cut at its last `.`, with no `.` after the cut, even when that `.` is in a directory name. |
| `OutputName.HistogramFileNameCut` | python_analysis/analysis_script.py:140 | When the last `.` of the input is at index `i`, the output name is the input up to `i` followed by `_histogram.png`. |
| `OutputName.ExtensionReplaced` | python_analysis/analysis_script.py:140 | A stem, a `.` and an extension without `.` give the stem followed by `_histogram.png` (`cluster_data.txt` gives `cluster_data_histogram.png`). The extension may contain `/`, so `v1.2/list` gives `v1_histogram.png`. |
| `OutputName.NoExtensionKept` | python_analysis/analysis_script.py:140 | A name without `.` is kept whole and followed by `_histogram.png` (`clusters` gives `clusters_histogram.png`). |

## Left out

- `create_histograms` (python_analysis/analysis_script.py:47-92): drawing with matplotlib, figure sizes in floating point. It reads the counters but computes nothing from them beyond what the chart shows.
- The order of keys in the counters: Python dictionaries keep insertion order, and the first chart draws its bars in that order. Dafny maps are unordered, so the model does not capture this.
- The ordering done by `Counter.most_common` (python_analysis/analysis_script.py:76,129,133). It belongs to the library, and only printing and plotting use it.
- `read_file` (python_analysis/analysis_script.py:95-107): file input, its error messages and `sys.exit`. The model takes the file's text as a parameter.
- The `__main__` block (python_analysis/analysis_script.py:111-144): the argument check, the printing, `plt.savefig` and `plt.show`. Only the file-name expression at line 140 is modelled.
- `re.search` as a regular-expression engine: the pattern `/opencv/` has no metacharacters, so it is modelled as a leftmost literal search.
- `Text.IsSpace` is the fixed list of characters for which Python 3's `str.isspace()` holds. It follows no Unicode database version. A `\r` inside the text stays part of its line, because lines are split on `\n` only.
- The srcML dependency-edge extractor (`srcML analysis/parse_script.py`) is not part of this model.
