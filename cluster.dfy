/**
 `parse_cluster_file` of the cluster-listing analysis: the first line of the
 stripped text is the cluster's title; every later line that contains the
 literal `/opencv/` contributes the path segment right after it (the
 category) to one counter and, for the categories `modules`, `3rdparty` and
 `hal`, the segment after that (the subcategory) to a second counter.
 */
module ClusterStats {
  import opened Text
  import opened Counters

  /** The literal the source searches each line for. */
  const Marker: string := "/opencv/"

  /** The categories whose next path segment is counted as a subcategory. */
  const TrackedCategories: seq<string> := ["modules", "3rdparty", "hal"]

  /** The text used as title when there are no lines at all. */
  const UnknownTitle: string := "Unknown Cluster"

  /** `text.strip().split('\n')`. */
  function Lines(text: string): seq<string> {
    Split(Strip(text), '\n')
  }

  /** The line contains `/opencv/` somewhere. */
  predicate HasMarker(line: string) {
    exists j :: 0 <= j <= |line| && OccursAt(line, Marker, j)
  }

  /** What follows the leftmost `/opencv/`, split at `/`, when the line has one. */
  function PathParts(line: string): Option<seq<string>> {
    match Find(line, Marker)
    case None => None
    case Some(i) => Some(Split(line[i + |Marker|..], '/'))
  }

  /** The category a line counts under, if any. */
  function CategoryOf(line: string): Option<string> {
    match PathParts(line)
    case None => None
    case Some(parts) => Some(parts[0])
  }

  /** The subcategory a line counts under, if any. */
  function SubcategoryOf(line: string): Option<string> {
    match PathParts(line)
    case None => None
    case Some(parts) =>
      if parts[0] in TrackedCategories && |parts| > 1 then Some(parts[1]) else None
  }

  /** The keys `key` assigns to the lines, in line order, skipping the lines
      it assigns none. */
  function Collect(lines: seq<string>, key: string -> Option<string>): seq<string> {
    if lines == [] then []
    else
      var init := Collect(lines[..|lines| - 1], key);
      match key(lines[|lines| - 1])
      case None => init
      case Some(k) => init + [k]
  }

  /** The category counter for a text: the categories of the lines after the first. */
  function CategoryCounts(text: string): Counter
    requires |Lines(text)| >= 1
  {
    Tally(Collect(Lines(text)[1..], CategoryOf))
  }

  /** The subcategory counter for a text: the subcategories of the lines after the first. */
  function SubcategoryCounts(text: string): Counter
    requires |Lines(text)| >= 1
  {
    Tally(Collect(Lines(text)[1..], SubcategoryOf))
  }

  /** Number of lines that contain `/opencv/`. */
  function MarkedCount(lines: seq<string>): nat {
    if lines == [] then 0
    else MarkedCount(lines[..|lines| - 1]) + (if HasMarker(lines[|lines| - 1]) then 1 else 0)
  }

  /** Extending a prefix by one index appends that element. */
  lemma PrefixSnoc<T>(s: seq<T>, n: nat)
    requires n < |s|
    ensures s[..n + 1] == s[..n] + [s[n]]
  {
  }

  /** The prefix of full length is the whole sequence. */
  lemma PrefixFull<T>(s: seq<T>)
    ensures s[..|s|] == s
  {
  }

  /** `parse_cluster_file(text)`: returns the title and the two counters.
      The title is the first line of the stripped text, and each counter holds,
      for every key, the number of lines after the first that count under it. */
  method ParseClusterFile(text: string) returns (title: string, categories: Counter, subcategories: Counter)
    ensures |Lines(text)| >= 1 && title == Lines(text)[0]
    ensures categories == CategoryCounts(text)
    ensures subcategories == SubcategoryCounts(text)
  {
    var lines := Lines(text);
    if |lines| > 0 {
      title := lines[0];
    } else {
      title := UnknownTitle;
    }
    var body := if |lines| > 0 then lines[1..] else [];
    categories, subcategories := CountPaths(body);
  }

  /** The loop of `parse_cluster_file` over the lines after the first: each
      line with `/opencv/` adds one to its category and, for a tracked
      category followed by another segment, one to that subcategory. */
  method CountPaths(body: seq<string>) returns (categories: Counter, subcategories: Counter)
    ensures categories == Tally(Collect(body, CategoryOf))
    ensures subcategories == Tally(Collect(body, SubcategoryOf))
  {
    categories, subcategories := map[], map[];
    for n := 0 to |body|
      invariant categories == Tally(Collect(body[..n], CategoryOf))
      invariant subcategories == Tally(Collect(body[..n], SubcategoryOf))
    {
      var line := body[n];
      PrefixSnoc(body, n);
      var found := Find(line, Marker);
      if found.None? {
        UnmarkedStep(body[..n], line);
        continue;
      }
      var afterMarker := line[found.value + |Marker|..];
      var parts := Split(afterMarker, '/');
      MarkedStep(body[..n], line, parts);
      if |parts| < 1 {
        continue;
      }
      var category := parts[0];
      categories := Increment(categories, category);
      if category in TrackedCategories && |parts| > 1 {
        var subcategory := parts[1];
        subcategories := Increment(subcategories, subcategory);
      }
    }
    PrefixFull(body);
  }

  /** The `"Unknown Cluster"` fallback is never taken: a split always
      yields at least one piece, so a text always has a first line. */
  lemma TitleFallbackUnreachable(text: string)
    ensures |Lines(text)| >= 1
  {
  }

  /** No marked line is skipped for having no path segment: what follows
      `/opencv/` always splits into at least one part. */
  lemma EmptyPathUnreachable(line: string)
    ensures PathParts(line).Some? ==> |PathParts(line).value| >= 1
  {
  }

  /** The title is the first line of the stripped text: it holds no line
      break and is followed by one or by the end of the text. Blank text
      gives the empty title. */
  lemma {:induction false} TitleIsFirstLine(text: string)
    ensures var t := Lines(text)[0];
      && '\n' !in t
      && |t| <= |Strip(text)| && Strip(text)[..|t|] == t
      && (|t| == |Strip(text)| || Strip(text)[|t|] == '\n')
    ensures AllSpace(text) ==> Lines(text)[0] == ""
  {
    SplitFirstPiece(Strip(text), '\n');
    StripEmpty(text);
  }

  /** `k` is the path segment of `line` that starts at index `s`: it holds
      no `/` and runs up to the next `/` or the end of the line. */
  predicate SegmentAt(line: string, s: nat, k: string) {
    && s + |k| <= |line| && line[s..s + |k|] == k && '/' !in k
    && (s + |k| == |line| || line[s + |k|] == '/')
  }

  /** The first piece of splitting `line[s..]` at `/` is the segment at `s`. */
  lemma FirstPieceIsSegment(line: string, s: nat)
    requires s <= |line|
    ensures SegmentAt(line, s, Split(line[s..], '/')[0])
  {
    SplitFirstPiece(line[s..], '/');
    var k := Split(line[s..], '/')[0];
    assert line[s..][..|k|] == line[s..s + |k|];
  }

  /** A line counts under a category exactly when it contains `/opencv/`;
      the category is the segment right after the leftmost `/opencv/`
      (up to the next `/` or the end of the line), and may be empty. */
  lemma {:induction false} CategoryOfLine(line: string)
    ensures CategoryOf(line).Some? <==> HasMarker(line)
    ensures CategoryOf(line).Some? ==>
      SegmentAt(line, Find(line, Marker).value + |Marker|, CategoryOf(line).value)
  {
    var found := Find(line, Marker);
    if found.Some? {
      FirstPieceIsSegment(line, found.value + |Marker|);
    }
  }

  /** A line counts under a subcategory exactly when its category is one of
      `modules`, `3rdparty`, `hal` and a `/` follows the category; the
      subcategory is the segment after that `/`, and may be empty. */
  lemma {:induction false} SubcategoryOfLine(line: string)
    ensures SubcategoryOf(line).Some? <==>
      && CategoryOf(line).Some?
      && CategoryOf(line).value in TrackedCategories
      && Find(line, Marker).value + |Marker| + |CategoryOf(line).value| < |line|
    ensures SubcategoryOf(line).Some? ==>
      SegmentAt(line, Find(line, Marker).value + |Marker| + |CategoryOf(line).value| + 1, SubcategoryOf(line).value)
  {
    var found := Find(line, Marker);
    if found.Some? {
      SecondPieceIsSegment(line, found.value + |Marker|);
    }
  }

  /** Splitting `line[s..]` at `/` gives a second piece exactly when a `/`
      follows the first piece, and that second piece is the segment after it. */
  lemma SecondPieceIsSegment(line: string, s: nat)
    requires s <= |line|
    ensures var parts := Split(line[s..], '/');
      && (|parts| > 1 <==> s + |parts[0]| < |line|)
      && (|parts| > 1 ==> SegmentAt(line, s + |parts[0]| + 1, parts[1]))
  {
    var after := line[s..];
    SplitFirstPiece(after, '/');
    var c := Split(after, '/')[0];
    if |c| < |after| {
      assert after[|c| + 1..] == line[s + |c| + 1..];
      FirstPieceIsSegment(line, s + |c| + 1);
    }
  }

  /** Collecting over one more line appends that line's key, if it has one. */
  lemma CollectSnoc(lines: seq<string>, x: string, key: string -> Option<string>)
    ensures Collect(lines + [x], key) == Collect(lines, key) + (if key(x).Some? then [key(x).value] else [])
  {
    assert (lines + [x])[..|lines|] == lines;
  }

  /** The counter over one more line is the old counter, incremented at
      that line's key if it has one. */
  lemma TallyStep(lines: seq<string>, x: string, key: string -> Option<string>)
    ensures Tally(Collect(lines + [x], key)) ==
      if key(x).Some? then Increment(Tally(Collect(lines, key)), key(x).value) else Tally(Collect(lines, key))
  {
    CollectSnoc(lines, x, key);
    if key(x).Some? {
      TallySnoc(Collect(lines, key), key(x).value);
    }
  }

  /** One loop step over a line without `/opencv/`: both counters stay. */
  lemma UnmarkedStep(done: seq<string>, line: string)
    requires Find(line, Marker).None?
    ensures Tally(Collect(done + [line], CategoryOf)) == Tally(Collect(done, CategoryOf))
    ensures Tally(Collect(done + [line], SubcategoryOf)) == Tally(Collect(done, SubcategoryOf))
  {
    TallyStep(done, line, CategoryOf);
    TallyStep(done, line, SubcategoryOf);
  }

  /** One loop step over a line with `/opencv/`, whose remainder splits into
      `parts`: the first part is counted as category, and the second as
      subcategory when the first is tracked. */
  lemma MarkedStep(done: seq<string>, line: string, parts: seq<string>)
    requires PathParts(line) == Some(parts)
    ensures |parts| >= 1
    ensures Tally(Collect(done + [line], CategoryOf)) == Increment(Tally(Collect(done, CategoryOf)), parts[0])
    ensures Tally(Collect(done + [line], SubcategoryOf)) ==
      if parts[0] in TrackedCategories && |parts| > 1
      then Increment(Tally(Collect(done, SubcategoryOf)), parts[1])
      else Tally(Collect(done, SubcategoryOf))
  {
    TallyStep(done, line, CategoryOf);
    TallyStep(done, line, SubcategoryOf);
  }

  /** A key is collected exactly when some line is assigned it. */
  lemma {:induction false} CollectedKeys(lines: seq<string>, key: string -> Option<string>)
    ensures forall x :: x in Collect(lines, key) <==> exists i :: 0 <= i < |lines| && key(lines[i]) == Some(x)
  {
    if lines != [] {
      var init := lines[..|lines| - 1];
      CollectedKeys(init, key);
      forall x | x in Collect(lines, key) ensures exists i :: 0 <= i < |lines| && key(lines[i]) == Some(x) {
        if x in Collect(init, key) {
          var i :| 0 <= i < |init| && key(init[i]) == Some(x);
          assert lines[i] == init[i];
        } else {
          assert key(lines[|lines| - 1]) == Some(x);
        }
      }
      forall x | exists i :: 0 <= i < |lines| && key(lines[i]) == Some(x) ensures x in Collect(lines, key) {
        var i :| 0 <= i < |lines| && key(lines[i]) == Some(x);
        if i < |lines| - 1 {
          assert init[i] == lines[i];
        }
      }
    }
  }

  /** Collecting over a concatenation collects over each part. */
  lemma {:induction false} CollectConcat(a: seq<string>, b: seq<string>, key: string -> Option<string>)
    ensures Collect(a + b, key) == Collect(a, key) + Collect(b, key)
    decreases |b|
  {
    if b != [] {
      var x := b[|b| - 1];
      var b' := b[..|b| - 1];
      assert b == b' + [x];
      assert a + b == (a + b') + [x];
      CollectConcat(a, b', key);
      CollectSnoc(a + b', x, key);
      CollectSnoc(b', x, key);
    } else {
      assert a + b == a;
    }
  }

  /** The keys collected from a reordering of the lines are a reordering of
      the keys collected from the lines. */
  lemma {:induction false} CollectPermutation(a: seq<string>, b: seq<string>, key: string -> Option<string>)
    requires multiset(a) == multiset(b)
    ensures multiset(Collect(a, key)) == multiset(Collect(b, key))
    decreases |a|
  {
    if a == [] {
      assert |b| == |multiset(b)| == 0;
    } else {
      var x := a[|a| - 1];
      var a' := a[..|a| - 1];
      assert a == a' + [x];
      assert x in multiset(b);
      var p :| 0 <= p < |b| && b[p] == x;
      var b' := b[..p] + b[p + 1..];
      assert b == b[..p] + [x] + b[p + 1..];
      assert multiset(a') == multiset(a) - multiset{x};
      assert multiset(b) == multiset(b') + multiset{x};
      assert multiset(b') == multiset(b) - multiset{x};
      CollectPermutation(a', b', key);
      CollectConcat(a', [x], key);
      CollectConcat(b[..p] + [x], b[p + 1..], key);
      CollectConcat(b[..p], [x], key);
      CollectConcat(b[..p], b[p + 1..], key);
    }
  }

  /** Both counters depend only on which lines follow the first, with their
      multiplicities, not on the order of those lines. */
  lemma LineOrderIrrelevant(text1: string, text2: string)
    requires |Lines(text1)| >= 1 && |Lines(text2)| >= 1
    requires multiset(Lines(text1)[1..]) == multiset(Lines(text2)[1..])
    ensures CategoryCounts(text1) == CategoryCounts(text2)
    ensures SubcategoryCounts(text1) == SubcategoryCounts(text2)
  {
    CollectPermutation(Lines(text1)[1..], Lines(text2)[1..], CategoryOf);
    CollectPermutation(Lines(text1)[1..], Lines(text2)[1..], SubcategoryOf);
    TallyPermutation(Collect(Lines(text1)[1..], CategoryOf), Collect(Lines(text2)[1..], CategoryOf));
    TallyPermutation(Collect(Lines(text1)[1..], SubcategoryOf), Collect(Lines(text2)[1..], SubcategoryOf));
  }

  /** A line without `/opencv/` leaves both counters as they would be
      without it, wherever it stands among the other lines. */
  lemma {:induction false} UnmarkedLineIgnored(before: seq<string>, line: string, after: seq<string>)
    requires !HasMarker(line)
    ensures Tally(Collect(before + [line] + after, CategoryOf)) == Tally(Collect(before + after, CategoryOf))
    ensures Tally(Collect(before + [line] + after, SubcategoryOf)) == Tally(Collect(before + after, SubcategoryOf))
  {
    CategoryOfLine(line);
    CollectConcat(before + [line], after, CategoryOf);
    CollectConcat(before, [line], CategoryOf);
    CollectConcat(before, after, CategoryOf);
    CollectConcat(before + [line], after, SubcategoryOf);
    CollectConcat(before, [line], SubcategoryOf);
    CollectConcat(before, after, SubcategoryOf);
  }

  /** Every line with `/opencv/` counts under exactly one category. */
  lemma {:induction false} CollectedCategories(lines: seq<string>)
    ensures |Collect(lines, CategoryOf)| == MarkedCount(lines)
  {
    if lines != [] {
      CollectedCategories(lines[..|lines| - 1]);
      CategoryOfLine(lines[|lines| - 1]);
    }
  }

  /** A line counts under a subcategory only if its category is tracked. */
  lemma {:induction false} CollectedSubcategories(lines: seq<string>)
    ensures var cats := multiset(Collect(lines, CategoryOf));
      |Collect(lines, SubcategoryOf)| <= cats["modules"] + cats["3rdparty"] + cats["hal"]
  {
    if lines != [] {
      CollectedSubcategories(lines[..|lines| - 1]);
    }
  }

  /** The category counts add up to the number of lines after the first
      that contain `/opencv/`. */
  lemma CategoryTotal(text: string)
    requires |Lines(text)| >= 1
    ensures Total(CategoryCounts(text)) == MarkedCount(Lines(text)[1..])
  {
    CollectedCategories(Lines(text)[1..]);
    TallyTotal(Collect(Lines(text)[1..], CategoryOf));
  }

  /** Over any lines, the subcategory counts add up to at most the counts of
      the tracked categories together. */
  lemma SubcategoryTallyBound(lines: seq<string>)
    ensures var cats := Tally(Collect(lines, CategoryOf));
      Total(Tally(Collect(lines, SubcategoryOf))) <= Count(cats, "modules") + Count(cats, "3rdparty") + Count(cats, "hal")
  {
    var cats, subs := Collect(lines, CategoryOf), Collect(lines, SubcategoryOf);
    var m := multiset(cats);
    assert Total(Tally(subs)) == |subs| by {
      TallyTotal(subs);
    }
    assert |subs| <= m["modules"] + m["3rdparty"] + m["hal"] by {
      CollectedSubcategories(lines);
    }
    TallyCounts(cats);
    assert Count(Tally(cats), "modules") + Count(Tally(cats), "3rdparty") + Count(Tally(cats), "hal")
      == m["modules"] + m["3rdparty"] + m["hal"];
  }

  /** The subcategory counts add up to at most the counts of the categories
      `modules`, `3rdparty` and `hal` together. */
  lemma SubcategoryTotal(text: string)
    requires |Lines(text)| >= 1
    ensures var cats := CategoryCounts(text);
      Total(SubcategoryCounts(text)) <= Count(cats, "modules") + Count(cats, "3rdparty") + Count(cats, "hal")
  {
    SubcategoryTallyBound(Lines(text)[1..]);
  }

  /** Stripping a title line, a line break and a blank body leaves the
      stripped title. */
  lemma StripBlankBody(title: string, body: string)
    requires !AllSpace(title) && AllSpace(body)
    ensures Strip(title + "\n" + body) == Strip(title)
  {
    var t := StripLeft(title);
    assert title + "\n" + body == title + ("\n" + body);
    StripLeftConcat(title, "\n" + body);
    assert AllSpace("\n" + body) by {
      forall k | 0 <= k < |"\n" + body| ensures IsSpace(("\n" + body)[k]) {
        if k > 0 {
          assert ("\n" + body)[k] == body[k - 1];
        }
      }
    }
    StripRightSpaceTail(t, "\n" + body);
  }

  /** Stripping a title line, a line break and a body that is not blank
      cuts leading whitespace from the title and trailing whitespace from
      the body only. */
  lemma StripFullBody(title: string, body: string)
    requires !AllSpace(title) && !AllSpace(body)
    ensures Strip(title + "\n" + body) == StripLeft(title) + "\n" + StripRight(body)
  {
    var t := StripLeft(title);
    assert title + "\n" + body == title + ("\n" + body);
    StripLeftConcat(title, "\n" + body);
    assert t + ("\n" + body) == (t + "\n") + body;
    StripRightConcat(t + "\n", body);
  }

  /** A text made of a title line that holds some non-whitespace
      character, a line break and a body: the first line is the title
      without its leading whitespace, and the other lines are those of the
      body without its trailing whitespace, or none when the body is blank. */
  lemma TitleAndBody(title: string, body: string)
    requires '\n' !in title && !AllSpace(title)
    ensures Lines(title + "\n" + body) ==
      if AllSpace(body) then [Strip(title)]
      else [StripLeft(title)] + Split(StripRight(body), '\n')
  {
    var t := StripLeft(title);
    StripLeftCut(title);
    if AllSpace(body) {
      StripBlankBody(title, body);
      StripRightCut(t);
      SplitNoSep(Strip(title), '\n');
    } else {
      StripFullBody(title, body);
      SplitCons(t, '\n', StripRight(body));
    }
  }

  /** The first line never counts, whatever it holds, `/opencv/` included:
      two texts that differ only in their title line have the same counters. */
  lemma TitleNeverCounted(title1: string, title2: string, body: string)
    requires '\n' !in title1 && !AllSpace(title1)
    requires '\n' !in title2 && !AllSpace(title2)
    ensures |Lines(title1 + "\n" + body)| >= 1 && |Lines(title2 + "\n" + body)| >= 1
    ensures CategoryCounts(title1 + "\n" + body) == CategoryCounts(title2 + "\n" + body)
    ensures SubcategoryCounts(title1 + "\n" + body) == SubcategoryCounts(title2 + "\n" + body)
  {
    TitleAndBody(title1, body);
    TitleAndBody(title2, body);
    var rest := if AllSpace(body) then [] else Split(StripRight(body), '\n');
    assert Lines(title1 + "\n" + body)[1..] == rest;
    assert Lines(title2 + "\n" + body)[1..] == rest;
  }
}
