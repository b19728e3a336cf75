/** The two multer callbacks of the upload route: the extension filter that
    decides whether a file is accepted, and the rule that derives the name under
    which an accepted file is stored (routes/index.js, lines 21-39). */
module Filenames {
  import opened Numerals

  /** The extensions the filter's regular expression alternates over. */
  const EXTENSIONS: seq<string> := ["jpg", "jpeg", "png", "gif"]

  predicate EndsWith(s: string, suffix: string)
  {
    |suffix| <= |s| && s[|s| - |suffix|..] == suffix
  }

  /** `/\.(jpg|jpeg|png|gif)$/` matched against the client's file name:
      case-sensitive, anchored at the end of the name. */
  predicate ImageFilter(name: string)
  {
    HasExtension(name, "jpg") || HasExtension(name, "jpeg") ||
    HasExtension(name, "png") || HasExtension(name, "gif")
  }

  /** The name ends with a period followed by ext. */
  predicate HasExtension(name: string, ext: string)
  {
    EndsWith(name, "." + ext)
  }

  /** `String.prototype.indexOf` for one character: the first position, or -1. */
  function IndexOf(s: string, c: char): (r: int)
    ensures -1 <= r < |s|
    ensures r >= 0 ==> s[r] == c
    ensures forall j :: 0 <= j < |s| && (r < 0 || j < r) ==> s[j] != c
  {
    IndexOfFrom(s, c, 0)
  }

  /** The first position at or after `from` that holds c, or -1. */
  function IndexOfFrom(s: string, c: char, from: nat): (r: int)
    requires from <= |s|
    ensures -1 <= r < |s|
    ensures r >= 0 ==> from <= r && s[r] == c
    ensures forall j :: from <= j < |s| && (r < 0 || j < r) ==> s[j] != c
    decreases |s| - from
  {
    if from == |s| then -1
    else if s[from] == c then from
    else IndexOfFrom(s, c, from + 1)
  }

  /** The last position of c in s, or -1. */
  function LastIndexOf(s: string, c: char): (r: int)
    ensures -1 <= r < |s|
    ensures r >= 0 ==> s[r] == c
    ensures forall j :: r < j < |s| ==> s[j] != c
  {
    LastIndexOfBelow(s, c, |s|)
  }

  /** The last position before `below` that holds c, or -1. */
  function LastIndexOfBelow(s: string, c: char, below: nat): (r: int)
    requires below <= |s|
    ensures -1 <= r < below
    ensures r >= 0 ==> s[r] == c
    ensures forall j :: r < j < below ==> s[j] != c
  {
    if below == 0 then -1
    else if s[below - 1] == c then below - 1
    else LastIndexOfBelow(s, c, below - 1)
  }

  /** A position holding c with no c after it is the last position of c. */
  lemma LastIndexOfAt(s: string, c: char, k: nat)
    requires k < |s| && s[k] == c
    requires forall j :: k < j < |s| ==> s[j] != c
    ensures LastIndexOf(s, c) == k
  {
  }

  /** `String.prototype.substring`: both bounds are clamped to the string and
      swapped when the start lies after the end. */
  function Substring(s: string, start: int, end: int): (r: string)
    ensures 0 <= start <= end <= |s| ==> r == s[start..end]
  {
    var a := if start < 0 then 0 else if start > |s| then |s| else start;
    var b := if end < 0 then 0 else if end > |s| then |s| else end;
    if a <= b then s[a..b] else s[b..a]
  }

  /** The multer `filename` callback, with the clock reading passed in. */
  function StoredFilename(name: string, now: nat): string
  {
    var toPeriod := IndexOf(name, '.');
    if toPeriod >= 4 then
      Substring(name, 0, 4) + "-" + Decimal(now) + Substring(name, toPeriod, |name|)
    else
      Substring(name, 0, toPeriod) + "-" + Decimal(now) + Substring(name, toPeriod, |name|)
  }

  function Min(a: int, b: int): int
  {
    if a <= b then a else b
  }

  predicate NoPeriod(s: string)
  {
    forall m :: 0 <= m < |s| ==> s[m] != '.'
  }

  /** One alternative of the filter: the name ends with a period and ext
      exactly when ext is what follows its last period. */
  lemma EndsWithExtension(name: string, ext: string)
    requires NoPeriod(ext)
    ensures HasExtension(name, ext) <==>
      (var k := LastIndexOf(name, '.'); k >= 0 && name[k + 1..] == ext)
  {
    var k := LastIndexOf(name, '.');
    if HasExtension(name, ext) {
      var j := |name| - |ext| - 1;
      assert name[j..] == "." + ext;
      assert name[j + 1..] == ext;
      assert forall m :: j < m < |name| ==> name[m] == ext[m - j - 1];
      LastIndexOfAt(name, '.', j);
    }
    if k >= 0 && name[k + 1..] == ext {
      assert name[k..] == [name[k]] + name[k + 1..];
    }
  }

  /** What follows the last period of the name ("" when there is none). */
  function AfterLastPeriod(name: string): string
  {
    var k := LastIndexOf(name, '.');
    if k >= 0 then name[k + 1..] else ""
  }

  /** The filter accepts exactly the names that contain a period and whose text
      after the last period is one of the allowed extensions, in exactly that
      letter case. */
  lemma ImageFilterByExtension(name: string)
    ensures ImageFilter(name) <==> '.' in name && AfterLastPeriod(name) in EXTENSIONS
  {
    var k := LastIndexOf(name, '.');
    var after := AfterLastPeriod(name);
    assert k >= 0 <==> '.' in name;
    assert after in EXTENSIONS <==>
      after == "jpg" || after == "jpeg" || after == "png" || after == "gif";
    assert NoPeriod("jpg") && NoPeriod("jpeg") && NoPeriod("png") && NoPeriod("gif");
    EndsWithExtension(name, "jpg");
    EndsWithExtension(name, "jpeg");
    EndsWithExtension(name, "png");
    EndsWithExtension(name, "gif");
  }

  /** Every accepted name contains a period, so the `filename` callback never
      meets the "no period" case when multer calls it after the filter. */
  lemma ImageFilterHasPeriod(name: string)
    requires ImageFilter(name)
    ensures IndexOf(name, '.') >= 0
  {
    ImageFilterByExtension(name);
  }

  /** The filter is case-sensitive and anchored at the end. */
  lemma ImageFilterExamples()
    ensures ImageFilter("cat.jpg") && ImageFilter("cat.jpeg")
    ensures ImageFilter("cat.png") && ImageFilter("a.b.gif")
    ensures !ImageFilter("cat.JPG") && !ImageFilter("cat.jpg.exe")
    ensures !ImageFilter("jpg") && !ImageFilter("cat.jpgx")
  {
    assert "cat.jpg"[3..] == ".jpg";
    assert "cat.jpeg"[3..] == ".jpeg";
    assert "cat.png"[3..] == ".png";
    assert "a.b.gif"[3..] == ".gif";
    assert "cat.JPG"[5] == 'P';
    assert "cat.jpg.exe"[10] == 'e';
    assert "cat.jpgx"[7] == 'x';
  }

  /** The stored name is the first min(4, i) characters of the client's name,
      a hyphen, the timestamp, and the client's name from its first period on,
      where i is the position of that first period. */
  lemma StoredFilenameShape(name: string, now: nat)
    requires '.' in name
    ensures var i := IndexOf(name, '.');
      StoredFilename(name, now) == name[..Min(4, i)] + "-" + Decimal(now) + name[i..]
  {
  }

  /** Called without a period (which the filter rules out), the callback keeps
      the whole name after the timestamp and nothing before the hyphen. */
  lemma StoredFilenameWithoutPeriod(name: string, now: nat)
    requires '.' !in name
    ensures StoredFilename(name, now) == "-" + Decimal(now) + name
  {
  }

  /** The stored name begins with at most four characters of the base (the
      text before the first period) and a hyphen, and ends with the client's
      name from the first period on. */
  lemma StoredFilenameAffixes(name: string, now: nat)
    requires '.' in name
    ensures var i := IndexOf(name, '.');
      var stored := StoredFilename(name, now);
      var stem := Min(4, i);
      && 0 <= stem <= i
      && stem < |stored|
      && stored[..stem] == name[..stem]
      && stored[stem] == '-'
      && EndsWith(stored, name[i..])
  {
    var i := IndexOf(name, '.');
    var stored := StoredFilename(name, now);
    StoredFilenameShape(name, now);
    var tail := name[i..];
    assert stored[|stored| - |tail|..] == tail;
  }

  /** The stored name has the same last period-separated part as the
      client's name. */
  lemma StoredFilenameKeepsExtension(name: string, now: nat)
    requires '.' in name
    ensures '.' in StoredFilename(name, now)
    ensures AfterLastPeriod(StoredFilename(name, now)) == AfterLastPeriod(name)
  {
    var i := IndexOf(name, '.');
    var k := LastIndexOf(name, '.');
    StoredFilenameShape(name, now);
    var head := name[..Min(4, i)] + "-" + Decimal(now);
    var stored := head + name[i..];
    var d := |head| + (k - i);
    NoPeriodAfter(name, i, k, head);
    assert stored[d] == '.';
    LastIndexOfAt(stored, '.', d);
    assert stored[d + 1..] == name[k + 1..];
  }

  lemma NoPeriodAfter(name: string, i: nat, k: nat, head: string)
    requires i <= k < |name|
    requires forall j :: k < j < |name| ==> name[j] != '.'
    ensures forall j :: |head| + (k - i) < j < |head + name[i..]| ==> (head + name[i..])[j] != '.'
  {
    var tail := name[i..];
    var stored := head + tail;
    forall j | |head| + (k - i) < j < |stored|
      ensures stored[j] != '.'
    {
      assert stored[j] == tail[j - |head|];
      assert tail[j - |head|] == name[j - |head| + i];
    }
  }

  /** A name the filter accepts is still accepted once stored. */
  lemma StoredFilenameIsImage(name: string, now: nat)
    requires ImageFilter(name)
    ensures ImageFilter(StoredFilename(name, now))
  {
    ImageFilterByExtension(name);
    StoredFilenameKeepsExtension(name, now);
    ImageFilterByExtension(StoredFilename(name, now));
  }

  /** The same client name stored at two different instants gets two different
      stored names. */
  lemma StoredFilenamesDistinct(name: string, t1: nat, t2: nat)
    requires t1 != t2
    ensures StoredFilename(name, t1) != StoredFilename(name, t2)
  {
    var i := IndexOf(name, '.');
    var head := Substring(name, 0, if i >= 4 then 4 else i) + "-";
    var tail := Substring(name, i, |name|);
    var d1, d2 := Decimal(t1), Decimal(t2);
    var s1, s2 := StoredFilename(name, t1), StoredFilename(name, t2);
    assert s1 == head + d1 + tail;
    assert s2 == head + d2 + tail;
    assert s1[|head|..|head| + |d1|] == d1;
    assert s2[|head|..|head| + |d2|] == d2;
    DecimalInjective(t1, t2);
  }
}
