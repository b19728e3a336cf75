/** Tag text handling shared by the upload and gallery routes: the
    `split(/[ ,]+/).filter(Boolean)` tokeniser (routes/index.js, lines 117, 297,
    309 and 323), `Array.prototype.join()` with its default comma, and
    `Array.from(new Set(xs))` (lines 298 and 326). */
module Tags {

  /** The two characters of the class `[ ,]`; tabs and newlines are not among
      them. */
  predicate IsSeparator(c: char)
  {
    c == ' ' || c == ','
  }

  predicate SeparatorFree(s: string)
  {
    forall i :: 0 <= i < |s| ==> !IsSeparator(s[i])
  }

  /** What the tokeniser can produce: non-empty text without a separator. */
  predicate IsToken(s: string)
  {
    s != "" && SeparatorFree(s)
  }

  /** The end of the separator-free stretch that starts at `from`. */
  function WordEnd(s: string, from: nat): (e: nat)
    requires from <= |s|
    ensures from <= e <= |s|
    decreases |s| - from
  {
    if from == |s| || IsSeparator(s[from]) then from else WordEnd(s, from + 1)
  }

  /** The word is free of separators and a separator (or the end) stops it. */
  lemma {:induction false} WordEndSpec(s: string, from: nat)
    requires from <= |s|
    ensures var e := WordEnd(s, from);
      && (forall j :: from <= j < e ==> !IsSeparator(s[j]))
      && (e < |s| ==> IsSeparator(s[e]))
    decreases |s| - from
  {
    if from < |s| && !IsSeparator(s[from]) {
      WordEndSpec(s, from + 1);
    }
  }

  /** The end of the run of separators that starts at `from`. */
  function RunEnd(s: string, from: nat): (e: nat)
    requires from <= |s|
    ensures from <= e <= |s|
    decreases |s| - from
  {
    if from == |s| || !IsSeparator(s[from]) then from else RunEnd(s, from + 1)
  }

  /** The run holds only separators and a non-separator (or the end) stops
      it. */
  lemma {:induction false} RunEndSpec(s: string, from: nat)
    requires from <= |s|
    ensures var e := RunEnd(s, from);
      && (forall j :: from <= j < e ==> IsSeparator(s[j]))
      && (e < |s| ==> !IsSeparator(s[e]))
    decreases |s| - from
  {
    if from < |s| && IsSeparator(s[from]) {
      RunEndSpec(s, from + 1);
    }
  }

  /** `s.substring(from).split(/[ ,]+/)`: the pieces between maximal runs of
      separators. A run at either end yields an empty piece there, and the empty
      string splits into one empty piece. */
  function SplitFrom(s: string, from: nat): (pieces: seq<string>)
    requires from <= |s|
    ensures |pieces| >= 1
    decreases |s| - from
  {
    var w := WordEnd(s, from);
    if w == |s| then [s[from..]]
    else [s[from..w]] + SplitFrom(s, RunEnd(s, w))
  }

  /** No piece of a split contains a separator. */
  lemma {:induction false} SplitFromPieces(s: string, from: nat)
    requires from <= |s|
    ensures forall x :: x in SplitFrom(s, from) ==> SeparatorFree(x)
    decreases |s| - from
  {
    var w := WordEnd(s, from);
    WordEndSpec(s, from);
    if w < |s| {
      SplitFromPieces(s, RunEnd(s, w));
    }
  }

  /** A maximal run of separators, as the `+` of `[ ,]+` matches it. */
  predicate IsRun(r: string)
  {
    r != "" && forall i :: 0 <= i < |r| ==> IsSeparator(r[i])
  }

  /** The separator runs the split removes, in order: the run after each
      piece but the last. */
  function SplitRunsFrom(s: string, from: nat): seq<string>
    requires from <= |s|
    decreases |s| - from
  {
    var w := WordEnd(s, from);
    if w == |s| then [] else [s[w..RunEnd(s, w)]] + SplitRunsFrom(s, RunEnd(s, w))
  }

  /** The pieces with the i-th run put back between the i-th and the next. */
  function Weave(pieces: seq<string>, runs: seq<string>): string
    requires |pieces| == |runs| + 1
  {
    if runs == [] then pieces[0] else pieces[0] + runs[0] + Weave(pieces[1..], runs[1..])
  }

  /** Pieces and runs that alternate: one run between neighbouring pieces,
      each run a non-empty stretch of separators, and every piece but the
      first and the last non-empty. */
  predicate Separated(pieces: seq<string>, runs: seq<string>)
  {
    && |pieces| == |runs| + 1
    && (forall k :: 0 <= k < |runs| ==> IsRun(runs[k]))
    && (forall k :: 0 < k < |pieces| - 1 ==> pieces[k] != "")
  }

  /** What the split returns: the pieces and the runs it removes alternate,
      and putting the runs back between the pieces gives the text back. With
      `SplitFromPieces` (no piece holds a separator) this makes the pieces
      exactly the maximal separator-free stretches of the text, with an empty
      first or last piece when the text starts or ends with a run. */
  lemma {:induction false} SplitFromWeave(s: string, from: nat)
    requires from <= |s|
    ensures var pieces, runs := SplitFrom(s, from), SplitRunsFrom(s, from);
      Separated(pieces, runs) && Weave(pieces, runs) == s[from..]
    decreases |s| - from
  {
    var w := WordEnd(s, from);
    WordEndSpec(s, from);
    if w < |s| {
      var r := RunEnd(s, w);
      RunAt(s, w);
      SplitFromWeave(s, r);
      var pieces, runs := SplitFrom(s, r), SplitRunsFrom(s, r);
      if |pieces| > 1 {
        WordAfterRun(s, w);
      }
      SplitFromUnfold(s, from, w, r);
      assert SplitRunsFrom(s, from) == [s[w..r]] + runs;
      SeparatedCons(s[from..w], s[w..r], pieces, runs);
      WeaveCons(s[from..w], s[w..r], pieces, runs);
      SliceThree(s, from, w, r);
    }
  }

  /** The run that starts at a separator is a non-empty stretch of them. */
  lemma RunAt(s: string, w: nat)
    requires w < |s| && IsSeparator(s[w])
    ensures IsRun(s[w..RunEnd(s, w)])
  {
    RunEndSpec(s, w);
  }

  /** When more than one piece follows a run, the first of them is
      non-empty. */
  lemma WordAfterRun(s: string, w: nat)
    requires w < |s| && IsSeparator(s[w])
    requires |SplitFrom(s, RunEnd(s, w))| > 1
    ensures SplitFrom(s, RunEnd(s, w))[0] != ""
  {
    var r := RunEnd(s, w);
    RunEndSpec(s, w);
    WordEndSpec(s, r);
    assert SplitFrom(s, r)[0] == s[r..WordEnd(s, r)];
  }

  lemma SeparatedCons(p: string, q: string, pieces: seq<string>, runs: seq<string>)
    requires Separated(pieces, runs) && IsRun(q)
    requires |pieces| > 1 ==> pieces[0] != ""
    ensures Separated([p] + pieces, [q] + runs)
  {
    var ps, rs := [p] + pieces, [q] + runs;
    forall k | 0 < k < |ps| - 1
      ensures ps[k] != ""
    {
      assert ps[k] == pieces[k - 1];
    }
    forall k | 0 <= k < |rs|
      ensures IsRun(rs[k])
    {
      if k > 0 {
        assert rs[k] == runs[k - 1];
      }
    }
  }

  /** A slice cut at two inner positions. */
  lemma SliceThree(s: string, from: nat, w: nat, r: nat)
    requires from <= w <= r <= |s|
    ensures s[from..] == s[from..w] + s[w..r] + s[r..]
  {
    assert s[from..] == s[from..w] + s[w..];
    assert s[w..] == s[w..r] + s[r..];
  }

  lemma WeaveCons(p: string, q: string, pieces: seq<string>, runs: seq<string>)
    requires |pieces| == |runs| + 1
    ensures Weave([p] + pieces, [q] + runs) == p + q + Weave(pieces, runs)
  {
    assert ([p] + pieces)[1..] == pieces;
    assert ([q] + runs)[1..] == runs;
  }

  /** The three JavaScript edge cases: the empty text gives one empty piece,
      a leading run an empty first piece and a trailing run an empty last
      piece. */
  lemma SplitEdgeCases(a: string)
    requires IsToken(a)
    ensures Split("") == [""]
    ensures Split(" " + a) == ["", a]
    ensures Split(a + ",") == [a, ""]
  {
    var s1, s2 := " " + a, a + ",";
    WordEndIs(s1, 1, |s1|);
    assert s1[0] == ' ' && s1[1] == a[0];
    assert WordEnd(s1, 0) == 0;
    assert RunEnd(s1, 1) == 1;
    assert RunEnd(s1, 0) == 1;
    assert SplitFrom(s1, 1) == [s1[1..]];
    assert Split(s1) == [s1[..0]] + SplitFrom(s1, 1);
    WordEndIs(s2, 0, |a|);
    assert s2[|a|] == ',';
    assert RunEnd(s2, |a|) == |s2|;
    assert WordEnd(s2, |s2|) == |s2|;
    assert s2[|s2|..] == "";
    assert SplitFrom(s2, |s2|) == [s2[|s2|..]];
    assert Split(s2) == [s2[..|a|]] + SplitFrom(s2, |s2|);
    assert s1[1..] == a;
    assert s2[..|a|] == a;
  }

  function Split(s: string): seq<string>
  {
    SplitFrom(s, 0)
  }

  /** `.filter(Boolean)` on an array of strings: drops the empty ones. */
  function Compact(xs: seq<string>): (r: seq<string>)
    ensures forall k :: 0 <= k < |r| ==> r[k] != ""
    ensures forall x :: x in r <==> x in xs && x != ""
  {
    if xs == [] then []
    else if xs[0] == "" then Compact(xs[1..])
    else [xs[0]] + Compact(xs[1..])
  }

  /** `s.split(/[ ,]+/).filter(Boolean)`. */
  function Tokenize(s: string): (tokens: seq<string>)
    ensures forall k :: 0 <= k < |tokens| ==> IsToken(tokens[k])
  {
    SplitFromPieces(s, 0);
    Compact(Split(s))
  }

  /** `xs.join()`: the elements with a comma between neighbours. */
  function Join(xs: seq<string>): string
  {
    if |xs| == 0 then ""
    else if |xs| == 1 then xs[0]
    else xs[0] + "," + Join(xs[1..])
  }

  /** The tokens of every element, element by element. */
  function TokensOfAll(xs: seq<string>): seq<string>
  {
    if xs == [] then [] else Tokenize(xs[0]) + TokensOfAll(xs[1..])
  }

  predicate NoDuplicates(xs: seq<string>)
  {
    forall i, j :: 0 <= i < j < |xs| ==> xs[i] != xs[j]
  }

  /** `Array.from(new Set(xs))`: each element added in turn, an element already
      present being ignored. */
  function Dedup(xs: seq<string>): (r: seq<string>)
    ensures NoDuplicates(r)
    ensures forall x :: x in r <==> x in xs
  {
    if xs == [] then []
    else
      var d := Dedup(xs[..|xs| - 1]);
      var last := xs[|xs| - 1];
      assert forall x :: x in xs <==> x in xs[..|xs| - 1] || x == last by {
        assert xs == xs[..|xs| - 1] + [last];
      }
      if last in d then d else d + [last]
  }

  /** The position of the first occurrence of x in xs. */
  function FirstIndex(xs: seq<string>, x: string): (k: nat)
    requires x in xs
    ensures k < |xs| && xs[k] == x
    ensures forall j :: 0 <= j < k ==> xs[j] != x
  {
    if xs[0] == x then 0 else 1 + FirstIndex(xs[1..], x)
  }

  // ---------------------------------------------------------------------------
  // Properties of the tokeniser

  lemma {:induction false} CompactAppend(xs: seq<string>, ys: seq<string>)
    ensures Compact(xs + ys) == Compact(xs) + Compact(ys)
    decreases |xs|
  {
    if xs == [] {
      assert xs + ys == ys;
    } else {
      assert (xs + ys)[1..] == xs[1..] + ys;
      CompactAppend(xs[1..], ys);
    }
  }

  lemma {:induction false} WordEndIs(s: string, from: nat, e: nat)
    requires from <= e <= |s|
    requires forall j :: from <= j < e ==> !IsSeparator(s[j])
    requires e < |s| ==> IsSeparator(s[e])
    ensures WordEnd(s, from) == e
    decreases e - from
  {
    if from < e {
      WordEndIs(s, from + 1, e);
    }
  }

  lemma {:induction false} RunEndIs(s: string, from: nat, e: nat)
    requires from <= e <= |s|
    requires forall j :: from <= j < e ==> IsSeparator(s[j])
    requires e < |s| ==> !IsSeparator(s[e])
    ensures RunEnd(s, from) == e
    decreases e - from
  {
    if from < e {
      RunEndIs(s, from + 1, e);
    }
  }

  /** Word and run boundaries do not depend on text in front. */
  lemma EndsShift(p: string, b: string, j: nat)
    requires j <= |b|
    ensures WordEnd(p + b, |p| + j) == |p| + WordEnd(b, j)
    ensures RunEnd(p + b, |p| + j) == |p| + RunEnd(b, j)
  {
    var s := p + b;
    forall m | 0 <= m < |b|
      ensures s[|p| + m] == b[m]
    {
    }
    var w := WordEnd(b, j);
    var r := RunEnd(b, j);
    WordEndSpec(b, j);
    RunEndSpec(b, j);
    WordEndIs(s, |p| + j, |p| + w);
    RunEndIs(s, |p| + j, |p| + r);
  }

  /** One step of the induction below: a word of b followed by a run. */
  lemma SplitFromShiftStep(p: string, b: string, j: nat)
    requires j <= |b| && WordEnd(b, j) < |b|
    requires var r := RunEnd(b, WordEnd(b, j)); SplitFrom(p + b, |p| + r) == SplitFrom(b, r)
    ensures SplitFrom(p + b, |p| + j) == SplitFrom(b, j)
  {
    var w := WordEnd(b, j);
    var r := RunEnd(b, w);
    EndsShift(p, b, j);
    EndsShift(p, b, w);
    SliceShift(p, b, j, w);
    SplitFromUnfold(b, j, w, r);
    SplitFromUnfold(p + b, |p| + j, |p| + w, |p| + r);
    ConsCongruence(SplitFrom(p + b, |p| + j), (p + b)[|p| + j..|p| + w], SplitFrom(p + b, |p| + r),
                   SplitFrom(b, j), b[j..w], SplitFrom(b, r));
  }

  lemma ConsCongruence(xs: seq<string>, x: string, t: seq<string>, ys: seq<string>, y: string, u: seq<string>)
    requires xs == [x] + t && ys == [y] + u && x == y && t == u
    ensures xs == ys
  {
  }

  /** SplitFrom past a word that a run of separators ends. */
  lemma SplitFromUnfold(s: string, from: nat, w: nat, r: nat)
    requires from <= w < |s| && w <= r <= |s|
    requires WordEnd(s, from) == w && RunEnd(s, w) == r
    ensures SplitFrom(s, from) == [s[from..w]] + SplitFrom(s, r)
  {
  }

  /** The last piece: a word of b that reaches its end. */
  lemma SplitFromShiftLast(p: string, b: string, j: nat)
    requires j <= |b| && WordEnd(b, j) == |b|
    ensures SplitFrom(p + b, |p| + j) == SplitFrom(b, j)
  {
    var s := p + b;
    EndsShift(p, b, j);
    assert s[|p| + j..] == b[j..];
  }

  /** Splitting looks only at the text from its starting point on. */
  lemma {:induction false} SplitFromShift(p: string, b: string, j: nat)
    requires j <= |b|
    ensures SplitFrom(p + b, |p| + j) == SplitFrom(b, j)
    decreases |b| - j
  {
    var w := WordEnd(b, j);
    if w < |b| {
      SplitFromShift(p, b, RunEnd(b, w));
      SplitFromShiftStep(p, b, j);
    } else {
      SplitFromShiftLast(p, b, j);
    }
  }

  lemma SliceShift(p: string, b: string, j: nat, w: nat)
    requires j <= w <= |b|
    ensures (p + b)[|p| + j..|p| + w] == b[j..w]
  {
  }

  /** A leading run of separators contributes only an empty piece. */
  lemma SkipRun(s: string, from: nat)
    requires from <= |s|
    ensures Compact(SplitFrom(s, RunEnd(s, from))) == Compact(SplitFrom(s, from))
  {
    if from < |s| && IsSeparator(s[from]) {
      assert WordEnd(s, from) == from;
      assert s[from..from] == "";
      CompactAppend([""], SplitFrom(s, RunEnd(s, from)));
    }
  }

  /** The pieces after a separator that follows a, from position |a| + 1 on,
      are the pieces of b. */
  lemma TokensAfterSeparator(a: string, c: char, b: string, e: nat)
    requires IsSeparator(c)
    requires |a| < e <= |a + [c] + b|
    requires e == RunEnd(a + [c] + b, |a| + 1)
    ensures Compact(SplitFrom(a + [c] + b, e)) == Tokenize(b)
  {
    var s := a + [c] + b;
    assert s == (a + [c]) + b;
    SkipRun(s, |a| + 1);
    SplitFromShift(a + [c], b, 0);
  }

  /** A word of a ends where it ends in a + [c] + b: the separator c stops
      it at the latest. */
  lemma WordEndBeforeSeparator(a: string, c: char, b: string, i: nat)
    requires IsSeparator(c) && i <= |a|
    ensures WordEnd(a + [c] + b, i) == WordEnd(a, i)
  {
    var s := a + [c] + b;
    var w := WordEnd(a, i);
    WordEndSpec(a, i);
    forall m | i <= m < w
      ensures !IsSeparator(s[m])
    {
      assert s[m] == a[m];
    }
    assert s[w] == if w < |a| then a[w] else c;
    WordEndIs(s, i, w);
  }

  /** A run of separators in a ends where it ends in a + [c] + b, unless it
      reaches the end of a, when it goes on through c. */
  lemma RunEndBeforeSeparator(a: string, c: char, b: string, w: nat)
    requires IsSeparator(c) && w <= |a|
    ensures var s := a + [c] + b;
      && (RunEnd(a, w) < |a| ==> RunEnd(s, w) == RunEnd(a, w))
      && (RunEnd(a, w) == |a| ==> RunEnd(s, w) == RunEnd(s, |a| + 1))
  {
    var s := a + [c] + b;
    var r := RunEnd(a, w);
    RunEndSpec(a, w);
    if r < |a| {
      forall m | w <= m < r
        ensures IsSeparator(s[m])
      {
        assert s[m] == a[m];
      }
      assert s[r] == a[r];
      RunEndIs(s, w, r);
    } else {
      var e := RunEnd(s, |a| + 1);
      RunEndSpec(s, |a| + 1);
      forall m | w <= m < e
        ensures IsSeparator(s[m])
      {
        if m < |a| {
          assert s[m] == a[m];
        }
      }
      RunEndIs(s, w, e);
    }
  }

  /** The last word of a, when the split has reached it. */
  lemma AppendLastWord(a: string, c: char, b: string, i: nat)
    requires IsSeparator(c) && i <= |a| && WordEnd(a, i) == |a|
    ensures Compact(SplitFrom(a + [c] + b, i)) == Compact(SplitFrom(a, i)) + Tokenize(b)
  {
    var s := a + [c] + b;
    WordEndBeforeSeparator(a, c, b, i);
    var e := RunEnd(s, |a| + 1);
    assert RunEnd(s, |a|) == e;
    assert SplitFrom(s, i) == [s[i..|a|]] + SplitFrom(s, e);
    assert s[i..|a|] == a[i..];
    assert SplitFrom(a, i) == [a[i..]];
    TokensAfterSeparator(a, c, b, e);
    CompactAppend([a[i..]], SplitFrom(s, e));
  }

  /** A word of a that a run of separators follows inside a: both splits
      begin with it and go on from the end of the run. */
  lemma AppendInnerWord(a: string, c: char, b: string, i: nat)
    requires IsSeparator(c) && i <= |a| && WordEnd(a, i) < |a|
    ensures var s := a + [c] + b;
      var w := WordEnd(a, i);
      var ra := RunEnd(a, w);
      && Compact(SplitFrom(s, i)) == Compact([a[i..w]]) + Compact(SplitFrom(s, RunEnd(s, w)))
      && Compact(SplitFrom(a, i)) == Compact([a[i..w]]) + Compact(SplitFrom(a, ra))
      && (ra < |a| ==> RunEnd(s, w) == ra)
      && (ra == |a| ==> RunEnd(s, w) == RunEnd(s, |a| + 1))
  {
    var s := a + [c] + b;
    var w := WordEnd(a, i);
    var ra := RunEnd(a, w);
    WordEndBeforeSeparator(a, c, b, i);
    RunEndBeforeSeparator(a, c, b, w);
    assert SplitFrom(s, i) == [s[i..w]] + SplitFrom(s, RunEnd(s, w));
    assert s[i..w] == a[i..w];
    assert SplitFrom(a, i) == [a[i..w]] + SplitFrom(a, ra);
    CompactAppend([a[i..w]], SplitFrom(s, RunEnd(s, w)));
    CompactAppend([a[i..w]], SplitFrom(a, ra));
  }

  /** A run of separators that ends a: nothing more from a, then the tokens
      of b. */
  lemma AppendTrailingRun(a: string, c: char, b: string)
    requires IsSeparator(c)
    ensures Compact(SplitFrom(a + [c] + b, RunEnd(a + [c] + b, |a| + 1))) == Tokenize(b)
    ensures Compact(SplitFrom(a, |a|)) == []
  {
    var s := a + [c] + b;
    TokensAfterSeparator(a, c, b, RunEnd(s, |a| + 1));
    assert SplitFrom(a, |a|) == [a[|a|..]];
    assert a[|a|..] == "";
  }

  /** One step of the induction below: the claim from the end of the first
      run of separators on gives the claim from i (t stands for the tokens of
      b). */
  lemma AppendInnerStep(a: string, c: char, b: string, i: nat, t: seq<string>)
    requires IsSeparator(c) && i <= |a| && WordEnd(a, i) < |a|
    requires RunEnd(a, WordEnd(a, i)) < |a|
    requires Compact(SplitFrom(a + [c] + b, RunEnd(a, WordEnd(a, i)))) ==
      Compact(SplitFrom(a, RunEnd(a, WordEnd(a, i)))) + t
    ensures Compact(SplitFrom(a + [c] + b, i)) == Compact(SplitFrom(a, i)) + t
  {
    var s := a + [c] + b;
    var w := WordEnd(a, i);
    var ra := RunEnd(a, w);
    AppendInnerWord(a, c, b, i);
    assert RunEnd(s, w) == ra;
    ConcatRegroup(Compact(SplitFrom(s, i)), Compact(SplitFrom(a, i)),
                  Compact([a[i..w]]), Compact(SplitFrom(s, ra)), Compact(SplitFrom(a, ra)), t);
  }

  lemma ConcatRegroup(whole: seq<string>, front: seq<string>, x: seq<string>,
                      rest: seq<string>, y: seq<string>, t: seq<string>)
    requires whole == x + rest && rest == y + t && front == x + y
    ensures whole == front + t
  {
  }

  /** The last step: a word of a followed by separators up to the end of a. */
  lemma AppendFinalStep(a: string, c: char, b: string, i: nat)
    requires IsSeparator(c) && i <= |a| && WordEnd(a, i) < |a|
    requires RunEnd(a, WordEnd(a, i)) == |a|
    ensures Compact(SplitFrom(a + [c] + b, i)) == Compact(SplitFrom(a, i)) + Tokenize(b)
  {
    var w := WordEnd(a, i);
    AppendInnerWord(a, c, b, i);
    AppendTrailingRun(a, c, b);
    var x := Compact([a[i..w]]);
    assert x + [] == x;
  }

  lemma {:induction false} TokenizeAppendFrom(a: string, c: char, b: string, i: nat)
    requires IsSeparator(c) && i <= |a|
    ensures Compact(SplitFrom(a + [c] + b, i)) == Compact(SplitFrom(a, i)) + Tokenize(b)
    decreases |a| - i
  {
    var w := WordEnd(a, i);
    if w == |a| {
      AppendLastWord(a, c, b, i);
    } else {
      var ra := RunEnd(a, w);
      if ra < |a| {
        TokenizeAppendFrom(a, c, b, ra);
        AppendInnerStep(a, c, b, i, Tokenize(b));
      } else {
        AppendFinalStep(a, c, b, i);
      }
    }
  }

  /** Tokenising text that has a separator in it is tokenising the two sides
      and concatenating the results: tokens keep the order of the input. */
  lemma TokenizeAppend(a: string, c: char, b: string)
    requires IsSeparator(c)
    ensures Tokenize(a + [c] + b) == Tokenize(a) + Tokenize(b)
  {
    TokenizeAppendFrom(a, c, b, 0);
  }

  /** Separator-free text is one token, or none when it is empty. */
  lemma TokenizeWord(w: string)
    requires SeparatorFree(w)
    ensures Tokenize(w) == if w == "" then [] else [w]
  {
    WordEndIs(w, 0, |w|);
    assert w[0..] == w;
    assert Split(w) == [w];
    assert [w][1..] == [];
    if w == "" {
      assert Compact([w]) == Compact([]);
    } else {
      assert Compact([w]) == [w] + Compact([]);
    }
  }

  /** Absent or empty text has no tokens. */
  lemma TokenizeEmpty()
    ensures Tokenize("") == []
  {
    TokenizeWord("");
  }

  /** A token is its own only token. */
  lemma TokenizeToken(t: string)
    requires IsToken(t)
    ensures Tokenize(t) == [t]
  {
    TokenizeWord(t);
  }

  /** Joining with commas and tokenising again yields the tokens of each
      element in turn. */
  lemma {:induction false} TokenizeJoin(xs: seq<string>)
    ensures Tokenize(Join(xs)) == TokensOfAll(xs)
    decreases |xs|
  {
    if |xs| == 0 {
      TokenizeEmpty();
    } else if |xs| == 1 {
      assert xs[1..] == [];
    } else {
      TokenizeAppend(xs[0], ',', Join(xs[1..]));
      assert xs[0] + "," + Join(xs[1..]) == xs[0] + [','] + Join(xs[1..]);
      TokenizeJoin(xs[1..]);
    }
  }

  lemma {:induction false} TokensOfTokens(ts: seq<string>)
    requires forall k :: 0 <= k < |ts| ==> IsToken(ts[k])
    ensures TokensOfAll(ts) == ts
    decreases |ts|
  {
    if ts != [] {
      TokenizeToken(ts[0]);
      TokensOfTokens(ts[1..]);
    }
  }

  /** The second pass on the filter route (`tagArray.join().split(...)`)
      changes nothing: re-tokenising tokens gives them back. */
  lemma RetokenizeIsIdentity(s: string)
    ensures Tokenize(Join(Tokenize(s))) == Tokenize(s)
  {
    TokenizeJoin(Tokenize(s));
    TokensOfTokens(Tokenize(s));
  }

  /** A value is among the tokens of a list of strings exactly when it is a
      token of one of them. */
  lemma {:induction false} TokensOfAllMembers(xs: seq<string>, x: string)
    ensures x in TokensOfAll(xs) <==> exists t :: t in xs && x in Tokenize(t)
    decreases |xs|
  {
    if xs != [] {
      TokensOfAllMembers(xs[1..], x);
      if exists t :: t in xs && x in Tokenize(t) {
        var t :| t in xs && x in Tokenize(t);
        if t != xs[0] {
          assert t in xs[1..];
        }
      }
    }
  }

  /** A leading token followed by a separator is the first token. */
  lemma TokenizeTokenThen(w: string, c: char, rest: string)
    requires IsToken(w) && IsSeparator(c)
    ensures Tokenize(w + [c] + rest) == [w] + Tokenize(rest)
  {
    TokenizeAppend(w, c, rest);
    TokenizeToken(w);
  }

  /** A leading separator contributes nothing. */
  lemma TokenizeSeparatorThen(c: char, rest: string)
    requires IsSeparator(c)
    ensures Tokenize([c] + rest) == Tokenize(rest)
  {
    TokenizeAppend("", c, rest);
    TokenizeEmpty();
    assert "" + [c] + rest == [c] + rest;
  }

  /** A comma followed by a space, and a run of two spaces, each separate
      two tokens and leave nothing of their own (`"cat, dog  fox"` gives
      `cat`, `dog`, `fox`). */
  lemma TokenizeSeparatorRuns(a: string, b: string, c: string)
    requires IsToken(a) && IsToken(b) && IsToken(c)
    ensures Tokenize(a + ", " + b + "  " + c) == [a, b, c]
  {
    var r3 := [' '] + c;
    var r2 := b + [' '] + r3;
    var r1 := [' '] + r2;
    assert a + ", " + b + "  " + c == a + [','] + r1;
    TokenizeToken(c);
    TokenizeSeparatorThen(' ', c);
    TokenizeTokenThen(b, ' ', r3);
    TokenizeSeparatorThen(' ', r2);
    TokenizeTokenThen(a, ',', r1);
  }

  // ---------------------------------------------------------------------------
  // Properties of the set-based deduplication

  lemma FirstIndexOfPrefix(xs: seq<string>, y: string, x: string)
    requires x in xs
    ensures x in xs + [y] && FirstIndex(xs + [y], x) == FirstIndex(xs, x)
  {
    var k := FirstIndex(xs, x);
    assert (xs + [y])[k] == x;
    assert forall j :: 0 <= j < k ==> (xs + [y])[j] == xs[j];
  }

  /** Each value appears in the order of its first occurrence in the input. */
  lemma {:induction false} DedupFirstAppearance(xs: seq<string>)
    ensures forall i, j :: 0 <= i < j < |Dedup(xs)| ==>
      FirstIndex(xs, Dedup(xs)[i]) < FirstIndex(xs, Dedup(xs)[j])
    decreases |xs|
  {
    if xs != [] {
      var init := xs[..|xs| - 1];
      var last := xs[|xs| - 1];
      assert xs == init + [last];
      var d := Dedup(init);
      DedupFirstAppearance(init);
      forall x | x in d
        ensures FirstIndex(xs, x) == FirstIndex(init, x)
      {
        FirstIndexOfPrefix(init, last, x);
      }
      if last !in d {
        assert last !in init;
        assert FirstIndex(xs, last) == |xs| - 1;
      }
    }
  }

  /** Deduplicating a list that has no duplicates changes nothing. */
  lemma {:induction false} DedupDistinct(xs: seq<string>)
    requires NoDuplicates(xs)
    ensures Dedup(xs) == xs
    decreases |xs|
  {
    if xs != [] {
      var init := xs[..|xs| - 1];
      DedupDistinct(init);
      assert xs[|xs| - 1] !in init;
    }
  }
}
