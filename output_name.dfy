/**
 The name of the saved histogram image, derived from the input file name as
 `filename.rsplit('.', 1)[0] + '_histogram.png'`.
 */
module OutputName {
  import opened Text

  const HistogramSuffix: string := "_histogram.png"

  /** The input name up to (not including) its last `.`, or the whole name
      when it has no `.`, followed by `_histogram.png`. */
  function HistogramFileName(filename: string): string {
    RSplitOnce(filename, '.')[0] + HistogramSuffix
  }

  /** The histogram name is a stem followed by `_histogram.png`, where the
      stem is the whole input name when it has no `.`, and otherwise the
      input name cut at its last `.`: the input continues after the stem
      with a `.` and then a text with no further `.`. The cut ignores `/`,
      so a dot inside a directory name counts too. */
  lemma {:induction false} HistogramFileNameShape(filename: string)
    ensures var r := HistogramFileName(filename);
      && |r| >= |HistogramSuffix|
      && r[|r| - |HistogramSuffix|..] == HistogramSuffix
    ensures var stem := HistogramFileName(filename)[..|HistogramFileName(filename)| - |HistogramSuffix|];
      && |stem| <= |filename| && filename[..|stem|] == stem
      && ('.' !in filename <==> stem == filename)
      && ('.' in filename ==> filename[|stem|] == '.' && '.' !in filename[|stem| + 1..])
  {
    var parts := RSplitOnce(filename, '.');
    var r := HistogramFileName(filename);
    assert r[..|r| - |HistogramSuffix|] == parts[0];
    RSplitOnceJoin(filename, '.');
    if |parts| == 2 {
      assert filename == parts[0] + ['.'] + parts[1];
      assert filename[..|parts[0]|] == parts[0];
      assert filename[|parts[0]| + 1..] == parts[1];
    }
  }

  /** When the last `.` of the input is at index `i`, the histogram name is
      the input up to that `.`, followed by `_histogram.png`. */
  lemma HistogramFileNameCut(filename: string, i: nat)
    requires i < |filename| && filename[i] == '.'
    requires forall j :: i < j < |filename| ==> filename[j] != '.'
    ensures HistogramFileName(filename) == filename[..i] + HistogramSuffix
  {
    LastIndexOfUnique(filename, '.', i);
  }

  /** A name made of a stem, a `.` and an extension without `.` gives the
      stem followed by `_histogram.png`. The extension may contain `/`, so
      `v1.2/list` gives `v1_histogram.png`. */
  lemma ExtensionReplaced(stem: string, ext: string)
    requires '.' !in ext
    ensures HistogramFileName(stem + "." + ext) == stem + HistogramSuffix
  {
    var filename := stem + "." + ext;
    forall j | |stem| < j < |filename| ensures filename[j] != '.' {
      assert filename[j] == ext[j - |stem| - 1];
    }
    HistogramFileNameCut(filename, |stem|);
    assert filename[..|stem|] == stem;
  }

  /** A name without `.` is kept whole and followed by `_histogram.png`. */
  lemma NoExtensionKept(filename: string)
    requires '.' !in filename
    ensures HistogramFileName(filename) == filename + HistogramSuffix
  {
    HistogramFileNameShape(filename);
  }
}
