/**
 The string operations the cluster-listing analysis relies on, modelled after
 the Python `str` methods it calls: `strip()`, `split(sep)`, `rsplit(sep, 1)`
 and a leftmost literal search (what `re.search` does for a pattern without
 metacharacters). Strings are sequences of characters.
 */
module Text {

  datatype Option<T> = None | Some(value: T)

  /** The characters for which Python's `str.isspace()` holds; `strip()` with
      no argument removes exactly these from both ends. */
  predicate IsSpace(c: char) {
    || c == ' ' || c == '\t' || c == '\n' || c == '\r' || c == '\U{B}' || c == '\U{C}'
    || ('\U{1C}' <= c <= '\U{1F}')
    || c == '\U{85}' || c == '\U{A0}' || c == '\U{1680}'
    || ('\U{2000}' <= c <= '\U{200A}')
    || c == '\U{2028}' || c == '\U{2029}' || c == '\U{202F}' || c == '\U{205F}' || c == '\U{3000}'
  }

  predicate AllSpace(s: string) {
    forall i :: 0 <= i < |s| ==> IsSpace(s[i])
  }

  /** `s` with its leading whitespace removed. */
  function StripLeft(s: string): (r: string)
    ensures |r| <= |s|
  {
    if |s| > 0 && IsSpace(s[0]) then StripLeft(s[1..]) else s
  }

  /** `s` with its trailing whitespace removed. */
  function StripRight(s: string): (r: string)
    ensures |r| <= |s|
  {
    if |s| > 0 && IsSpace(s[|s| - 1]) then StripRight(s[..|s| - 1]) else s
  }

  /** Python's `s.strip()`. */
  function Strip(s: string): string {
    StripRight(StripLeft(s))
  }

  /** Removing leading whitespace leaves a suffix that does not start with
      whitespace, and everything cut off is whitespace. */
  lemma {:induction false} StripLeftCut(s: string)
    ensures |StripLeft(s)| <= |s| && StripLeft(s) == s[|s| - |StripLeft(s)|..]
    ensures forall k :: 0 <= k < |s| - |StripLeft(s)| ==> IsSpace(s[k])
    ensures StripLeft(s) == [] || !IsSpace(StripLeft(s)[0])
  {
    if |s| > 0 && IsSpace(s[0]) {
      StripLeftCut(s[1..]);
      forall k | 1 <= k < |s| - |StripLeft(s)| ensures IsSpace(s[k]) {
        assert s[k] == s[1..][k - 1];
      }
    }
  }

  /** Removing trailing whitespace leaves a prefix that does not end with
      whitespace, and everything cut off is whitespace. */
  lemma {:induction false} StripRightCut(s: string)
    ensures |StripRight(s)| <= |s| && StripRight(s) == s[..|StripRight(s)|]
    ensures forall k :: |StripRight(s)| <= k < |s| ==> IsSpace(s[k])
    ensures StripRight(s) == [] || !IsSpace(StripRight(s)[|StripRight(s)| - 1])
  {
    if |s| > 0 && IsSpace(s[|s| - 1]) {
      StripRightCut(s[..|s| - 1]);
    }
  }

  /** `strip()` leaves the slice `s[i..j]` after cutting whitespace, and only
      whitespace, from both ends. */
  lemma StripSlice(s: string)
    ensures var i := |s| - |StripLeft(s)|; var j := i + |Strip(s)|;
      && j <= |s| && Strip(s) == s[i..j]
      && (forall k :: 0 <= k < i ==> IsSpace(s[k]))
      && (forall k :: j <= k < |s| ==> IsSpace(s[k]))
  {
    var l := StripLeft(s);
    StripLeftCut(s);
    RightCut(s, |s| - |l|, l);
  }

  /** Cutting trailing whitespace from the suffix `l` of `s` that starts at
      `i` leaves a slice of `s`, and cuts only whitespace of `s`. */
  lemma RightCut(s: string, i: nat, l: string)
    requires i <= |s| && l == s[i..]
    ensures i + |StripRight(l)| <= |s| && StripRight(l) == s[i..i + |StripRight(l)|]
    ensures forall k :: i + |StripRight(l)| <= k < |s| ==> IsSpace(s[k])
  {
    StripRightCut(l);
    var n := |StripRight(l)|;
    PrefixOfSuffix(s, i, n);
    forall k | i + n <= k < |s| ensures IsSpace(s[k]) {
      assert s[k] == l[k - i];
    }
  }

  /** A prefix of a suffix is a slice. */
  lemma PrefixOfSuffix<T>(s: seq<T>, i: nat, n: nat)
    requires i + n <= |s|
    ensures s[i..][..n] == s[i..i + n]
  {
  }

  /** What `strip()` leaves neither starts nor ends with whitespace. */
  lemma StripEnds(s: string)
    ensures Strip(s) == [] || (!IsSpace(Strip(s)[0]) && !IsSpace(Strip(s)[|Strip(s)| - 1]))
  {
    var l := StripLeft(s);
    var r := StripRight(l);
    StripLeftCut(s);
    StripRightCut(l);
    if r != [] {
      assert r[0] == l[0];
    }
  }

  /** Stripping a string that is already stripped changes nothing. */
  lemma StripIdempotent(s: string)
    ensures Strip(Strip(s)) == Strip(s)
  {
    var t := Strip(s);
    StripEnds(s);
    if t != [] {
      assert StripLeft(t) == t;
      assert StripRight(t) == t;
    }
  }

  /** A string strips to the empty string exactly when it is all whitespace. */
  lemma StripEmpty(s: string)
    ensures Strip(s) == "" <==> AllSpace(s)
  {
    StripSlice(s);
    if AllSpace(s) {
      StripLeftCut(s);
      if StripLeft(s) != [] {
        assert false;
      }
    }
  }

  /** A string that neither starts nor ends with whitespace is already stripped. */
  lemma StripUnchanged(s: string)
    requires s != [] && !IsSpace(s[0]) && !IsSpace(s[|s| - 1])
    ensures Strip(s) == s
  {
    assert StripLeft(s) == s;
    assert StripRight(s) == s;
  }

  /** Leading whitespace is cut from a first part that holds some
      non-whitespace character, and never reaches what follows it. */
  lemma {:induction false} StripLeftConcat(p: string, q: string)
    requires !AllSpace(p)
    ensures StripLeft(p + q) == StripLeft(p) + q
    decreases |p|
  {
    if IsSpace(p[0]) {
      assert (p + q)[1..] == p[1..] + q;
      assert !AllSpace(p[1..]) by {
        var k :| 0 <= k < |p| && !IsSpace(p[k]);
        assert p[1..][k - 1] == p[k];
      }
      StripLeftConcat(p[1..], q);
    }
  }

  /** Trailing whitespace is cut from a last part that holds some
      non-whitespace character, and never reaches what precedes it. */
  lemma {:induction false} StripRightConcat(p: string, q: string)
    requires !AllSpace(q)
    ensures StripRight(p + q) == p + StripRight(q)
    decreases |q|
  {
    var q' := q[..|q| - 1];
    if IsSpace(q[|q| - 1]) {
      assert (p + q)[..|p + q| - 1] == p + q';
      assert !AllSpace(q') by {
        var k :| 0 <= k < |q| && !IsSpace(q[k]);
        assert q'[k] == q[k];
      }
      StripRightConcat(p, q');
    }
  }

  /** An all-whitespace last part is cut off entirely, together with the
      trailing whitespace before it. */
  lemma {:induction false} StripRightSpaceTail(p: string, q: string)
    requires AllSpace(q)
    ensures StripRight(p + q) == StripRight(p)
    decreases |q|
  {
    if q == [] {
      assert p + q == p;
    } else {
      var q' := q[..|q| - 1];
      assert (p + q)[..|p + q| - 1] == p + q';
      assert AllSpace(q') by {
        forall k | 0 <= k < |q'| ensures IsSpace(q'[k]) {
          assert q'[k] == q[k];
        }
      }
      StripRightSpaceTail(p, q');
    }
  }

  /** Python's `sep.join(pieces)` for a single-character separator. */
  function Join(pieces: seq<string>, sep: char): string
    requires |pieces| >= 1
  {
    if |pieces| == 1 then pieces[0] else pieces[0] + [sep] + Join(pieces[1..], sep)
  }

  /** Python's `s.split(sep)` for a single-character separator: the pieces
      between consecutive separators. Never empty (`"".split(sep) == [""]`),
      and no piece contains the separator. */
  function Split(s: string, sep: char): (r: seq<string>)
    ensures |r| >= 1
    ensures forall k :: 0 <= k < |r| ==> sep !in r[k]
    decreases |s|
  {
    if |s| == 0 then [""]
    else
      var rest := Split(s[1..], sep);
      if s[0] == sep then [""] + rest
      else [[s[0]] + rest[0]] + rest[1..]
  }

  /** Joining the pieces of a split gives back the original string. */
  lemma {:induction false} JoinSplit(s: string, sep: char)
    ensures Join(Split(s, sep), sep) == s
    decreases |s|
  {
    if |s| > 0 {
      var rest := Split(s[1..], sep);
      JoinSplit(s[1..], sep);
      if s[0] == sep {
        assert ([""] + rest)[1..] == rest;
      } else {
        var r := [[s[0]] + rest[0]] + rest[1..];
        assert r == Split(s, sep);
        if |rest| > 1 {
          assert r[1..] == rest[1..];
          assert Join(rest, sep) == rest[0] + [sep] + Join(rest[1..], sep);
        }
      }
    }
  }

  /** A string without the separator splits into itself alone. */
  lemma {:induction false} SplitNoSep(s: string, sep: char)
    requires sep !in s
    ensures Split(s, sep) == [s]
    decreases |s|
  {
    if |s| > 0 {
      assert sep !in s[1..];
      SplitNoSep(s[1..], sep);
      assert [s[0]] + s[1..] == s;
    }
  }

  /** Splitting at the first separator: the first piece is everything before
      it, and the remaining pieces are the split of everything after it. */
  lemma {:induction false} SplitAtFirst(s: string, sep: char, i: nat)
    requires i < |s| && s[i] == sep && sep !in s[..i]
    ensures Split(s, sep) == [s[..i]] + Split(s[i + 1..], sep)
    decreases i
  {
    if i == 0 {
      assert s[1..] == s[i + 1..];
    } else {
      assert s[1..][..i - 1] == s[1..i];
      assert sep !in s[1..][..i - 1];
      SplitAtFirst(s[1..], sep, i - 1);
      assert s[1..][i..] == s[i + 1..];
      assert [s[0]] + s[1..i] == s[..i];
    }
  }

  /** A separator-free first piece, a separator and the rest split into
      that piece followed by the pieces of the rest. */
  lemma SplitCons(p: string, sep: char, rest: string)
    requires sep !in p
    ensures Split(p + [sep] + rest, sep) == [p] + Split(rest, sep)
  {
    var s := p + [sep] + rest;
    assert s[..|p|] == p && s[|p| + 1..] == rest;
    SplitAtFirst(s, sep, |p|);
  }

  /** Splitting the join of separator-free pieces gives back the pieces. */
  lemma {:induction false} SplitJoin(pieces: seq<string>, sep: char)
    requires |pieces| >= 1
    requires forall k :: 0 <= k < |pieces| ==> sep !in pieces[k]
    ensures Split(Join(pieces, sep), sep) == pieces
    decreases |pieces|
  {
    if |pieces| == 1 {
      SplitNoSep(pieces[0], sep);
    } else {
      var p := pieces[0];
      var tail := Join(pieces[1..], sep);
      var s := p + [sep] + tail;
      assert s[..|p|] == p && s[|p|] == sep && s[|p| + 1..] == tail;
      SplitAtFirst(s, sep, |p|);
      SplitJoin(pieces[1..], sep);
      assert [p] + pieces[1..] == pieces;
    }
  }

  /** The first piece of a split: the prefix of `s` up to the first
      separator, or all of `s` when it has none; there is a second piece
      exactly when a separator follows the first piece, and then the
      remaining pieces are the split of what follows that separator. */
  lemma {:induction false} SplitFirstPiece(s: string, sep: char)
    ensures var p := Split(s, sep)[0];
      && |p| <= |s| && p == s[..|p|] && sep !in p
      && (|Split(s, sep)| == 1 <==> |p| == |s|)
      && (|p| < |s| ==> s[|p|] == sep && Split(s, sep) == [p] + Split(s[|p| + 1..], sep))
  {
    var ps := Split(s, sep);
    var p := ps[0];
    JoinSplit(s, sep);
    if |ps| == 1 {
      assert Join(ps, sep) == p;
    } else {
      assert s == p + [sep] + Join(ps[1..], sep);
      assert s[..|p|] == p && s[|p|] == sep;
      SplitAtFirst(s, sep, |p|);
    }
  }

  /** `pat` occurs in `s` starting at index `i`. */
  predicate OccursAt(s: string, pat: string, i: nat) {
    i + |pat| <= |s| && s[i..i + |pat|] == pat
  }

  /** An occurrence in the tail of `s` is an occurrence in `s` one index later. */
  lemma OccursInTail(s: string, pat: string, j: nat)
    requires |s| > 0
    ensures OccursAt(s[1..], pat, j) <==> OccursAt(s, pat, j + 1)
  {
    if j + 1 + |pat| <= |s| {
      assert s[1..][j..j + |pat|] == s[j + 1..j + 1 + |pat|];
    }
  }

  /** The index of the leftmost occurrence of `pat` in `s`, if any. */
  function Find(s: string, pat: string): (r: Option<nat>)
    ensures r.Some? ==> OccursAt(s, pat, r.value)
    ensures r.Some? ==> forall j :: 0 <= j < r.value ==> !OccursAt(s, pat, j)
    ensures r.None? ==> forall j :: 0 <= j <= |s| ==> !OccursAt(s, pat, j)
    decreases |s|
  {
    if |pat| <= |s| && s[..|pat|] == pat then Some(0)
    else if |s| == 0 then None
    else
      assert !OccursAt(s, pat, 0) by { assert |pat| <= |s| ==> s[0..|pat|] == s[..|pat|]; }
      match Find(s[1..], pat)
      case Some(i) =>
        assert OccursAt(s, pat, i + 1) by { OccursInTail(s, pat, i); }
        assert forall j :: 1 <= j < i + 1 ==> !OccursAt(s, pat, j) by {
          forall j | 1 <= j < i + 1 ensures !OccursAt(s, pat, j) { OccursInTail(s, pat, j - 1); }
        }
        Some(i + 1)
      case None =>
        assert forall j :: 1 <= j <= |s| ==> !OccursAt(s, pat, j) by {
          forall j | 1 <= j <= |s| ensures !OccursAt(s, pat, j) { OccursInTail(s, pat, j - 1); }
        }
        None
  }

  /** The index of the last occurrence of character `c` in `s`, if any. */
  function LastIndexOf(s: string, c: char): (r: Option<nat>)
    ensures r.Some? ==> r.value < |s| && s[r.value] == c
    ensures r.Some? ==> forall j :: r.value < j < |s| ==> s[j] != c
    ensures r.None? ==> forall j :: 0 <= j < |s| ==> s[j] != c
  {
    if |s| == 0 then None
    else if s[|s| - 1] == c then Some(|s| - 1)
    else LastIndexOf(s[..|s| - 1], c)
  }

  /** The last occurrence is the one index holding `c` with no `c` after it. */
  lemma LastIndexOfUnique(s: string, c: char, i: nat)
    requires i < |s| && s[i] == c
    requires forall j :: i < j < |s| ==> s[j] != c
    ensures LastIndexOf(s, c) == Some(i)
  {
  }

  /** Python's `s.rsplit(sep, 1)`: cut at the last separator into the part
      before it and the part after it; a string without the separator gives
      itself alone. */
  function RSplitOnce(s: string, sep: char): (r: seq<string>)
    ensures 1 <= |r| <= 2
    ensures |r| == 1 <==> sep !in s
    ensures sep !in r[|r| - 1]
  {
    match LastIndexOf(s, sep)
    case None => [s]
    case Some(i) =>
      var tail := s[i + 1..];
      assert forall j :: 0 <= j < |tail| ==> tail[j] == s[i + 1 + j];
      [s[..i], tail]
  }

  /** Joining the two halves of `rsplit(sep, 1)` gives back the string. */
  lemma RSplitOnceJoin(s: string, sep: char)
    ensures Join(RSplitOnce(s, sep), sep) == s
  {
    var r := RSplitOnce(s, sep);
    if |r| == 2 {
      var i := LastIndexOf(s, sep).value;
      assert Join(r, sep) == s[..i] + [sep] + s[i + 1..];
      assert s == s[..i] + [s[i]] + s[i + 1..];
    }
  }
}
