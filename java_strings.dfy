/** The few pieces of java.lang.String behaviour that the page logic relies on:
    trim(), split() on a one-character literal, replaceFirst() with a literal
    pattern and an empty replacement, and the decimal form of a non-negative int. */
module JavaStrings {
  import opened Options

  // ---------------------------------------------------------------------------
  // trim()
  // ---------------------------------------------------------------------------

  /** String.trim() treats every character at or below U+0020 as space. */
  predicate IsSpace(c: char) { c <= ' ' }

  /** `s.trim().length() == 0` */
  predicate IsBlank(s: string) {
    forall i :: 0 <= i < |s| ==> IsSpace(s[i])
  }

  /** The first position at or after `from` that does not hold space
      (trim()'s first loop). */
  function LeadingSpaceEnd(s: string, from: nat): (n: nat)
    requires from <= |s|
    ensures from <= n <= |s|
    ensures forall k | from <= k < n :: IsSpace(s[k])
    ensures n == |s| || !IsSpace(s[n])
    decreases |s| - from
  {
    if from < |s| && IsSpace(s[from]) then LeadingSpaceEnd(s, from + 1) else from
  }

  /** The end of s[lo..hi] once trailing space is dropped (trim()'s second
      loop, which never moves the end below the start). */
  function TrailingSpaceStart(s: string, lo: nat, hi: nat): (n: nat)
    requires lo <= hi <= |s|
    ensures lo <= n <= hi
    ensures forall k | n <= k < hi :: IsSpace(s[k])
    ensures n == lo || !IsSpace(s[n - 1])
    decreases hi
  {
    if lo < hi && IsSpace(s[hi - 1]) then TrailingSpaceStart(s, lo, hi - 1) else hi
  }

  /** String.trim(): the input without its leading and trailing space. */
  function Trim(s: string): string {
    var i := LeadingSpaceEnd(s, 0);
    s[i..TrailingSpaceStart(s, i, |s|)]
  }

  /** Trim keeps a middle slice of its input; what it drops is space, and what
      it keeps neither starts nor ends with space. */
  lemma TrimSlice(s: string)
    ensures exists i, j :: (0 <= i <= j <= |s| && Trim(s) == s[i..j]
      && IsBlank(s[..i]) && IsBlank(s[j..]))
    ensures Trim(s) == [] || (!IsSpace(Trim(s)[0]) && !IsSpace(Trim(s)[|Trim(s)| - 1]))
  {
    var i, j := TrimBounds(s);
  }

  lemma TrimBounds(s: string) returns (i: nat, j: nat)
    ensures i <= j <= |s| && Trim(s) == s[i..j] && IsBlank(s[..i]) && IsBlank(s[j..])
  {
    i := LeadingSpaceEnd(s, 0);
    j := TrailingSpaceStart(s, i, |s|);
    forall k | 0 <= k < i ensures IsSpace(s[..i][k]) { assert s[..i][k] == s[k]; }
    forall k | 0 <= k < |s| - j ensures IsSpace(s[j..][k]) { assert s[j..][k] == s[j + k]; }
  }

  /** Trimming gives the empty string exactly for blank input. */
  lemma TrimEmptyIffBlank(s: string)
    ensures Trim(s) == [] <==> IsBlank(s)
  {
    var i := LeadingSpaceEnd(s, 0);
    var j := TrailingSpaceStart(s, i, |s|);
    if IsBlank(s) {
      assert i == |s|;
    }
    if Trim(s) == [] {
      assert i == j;
    }
  }

  lemma BlankConcat(a: string, b: string)
    ensures IsBlank(a + b) <==> IsBlank(a) && IsBlank(b)
  {
    if IsBlank(a + b) {
      forall i | 0 <= i < |a| ensures IsSpace(a[i]) {
        assert a[i] == (a + b)[i];
      }
      forall i | 0 <= i < |b| ensures IsSpace(b[i]) {
        assert b[i] == (a + b)[|a| + i];
      }
    }
  }

  /** Trimming a string that neither starts nor ends with space, followed by
      space, gives back the string. */
  lemma TrimPadded(x: string, pad: string)
    requires x != [] && !IsSpace(x[0]) && !IsSpace(x[|x| - 1]) && IsBlank(pad)
    ensures Trim(x + pad) == x
  {
    var s := x + pad;
    assert s[0] == x[0];
    assert LeadingSpaceEnd(s, 0) == 0;
    forall k | |x| <= k < |s| ensures IsSpace(s[k]) {
      assert s[k] == pad[k - |x|];
    }
    TrailingBlank(s, 0, |x|, |s|);
    assert s[0..|x|] == x;
  }

  lemma {:induction false} TrailingBlank(s: string, lo: nat, m: nat, hi: nat)
    requires lo < m <= hi <= |s| && !IsSpace(s[m - 1])
    requires forall k | m <= k < hi :: IsSpace(s[k])
    ensures TrailingSpaceStart(s, lo, hi) == m
    decreases hi
  {
    if hi > m {
      TrailingBlank(s, lo, m, hi - 1);
    }
  }

  // ---------------------------------------------------------------------------
  // indexOf, split(c)
  // ---------------------------------------------------------------------------

  /** The first position at or after `from` that holds c, or -1. */
  function IndexFrom(s: string, c: char, from: nat): (i: int)
    requires from <= |s|
    ensures i == -1 || from <= i < |s|
    ensures i == -1 ==> forall k | from <= k < |s| :: s[k] != c
    ensures 0 <= i ==> s[i] == c && forall k | from <= k < i :: s[k] != c
    decreases |s| - from
  {
    if from == |s| then -1 else if s[from] == c then from else IndexFrom(s, c, from + 1)
  }

  /** String.indexOf(c): the first position of c, or -1. */
  function IndexOf(s: string, c: char): (i: int)
    ensures -1 <= i < |s|
    ensures i == -1 <==> c !in s
    ensures 0 <= i ==> s[i] == c && forall k | 0 <= k < i :: s[k] != c
  {
    var i := IndexFrom(s, c, 0);
    assert 0 <= i ==> s[i] in s;
    i
  }

  /** The fields of s from position `from` on, separated at each c, empty
      fields included (so there is one more field than occurrences). */
  function SplitFrom(s: string, c: char, from: nat): (fs: seq<string>)
    requires from <= |s|
    ensures |fs| >= 1
    decreases |s| - from
  {
    var i := IndexFrom(s, c, from);
    if i < 0 then [s[from..]] else [s[from..i]] + SplitFrom(s, c, i + 1)
  }

  /** Every field that separating s at each occurrence of c yields, in order. */
  function SplitAll(s: string, c: char): seq<string> {
    SplitFrom(s, c, 0)
  }

  /** Joins fields with c between them: the inverse of SplitAll. */
  function Join(fs: seq<string>, c: char): string
    requires |fs| >= 1
  {
    if |fs| == 1 then fs[0] else fs[0] + [c] + Join(fs[1..], c)
  }

  lemma JoinCons(f: string, tail: seq<string>, c: char, joined: string)
    requires |tail| >= 1 && Join(tail, c) == joined
    ensures Join([f] + tail, c) == f + [c] + joined
  {
    assert ([f] + tail)[1..] == tail;
  }

  lemma SliceAround(s: string, from: nat, i: nat)
    requires from <= i < |s|
    ensures s[from..] == s[from..i] + [s[i]] + s[i + 1..]
  {
    assert s[from..i + 1] == s[from..i] + [s[i]];
    assert s[from..] == s[from..i + 1] + s[i + 1..];
  }

  lemma SplitFromCons(s: string, c: char, from: nat)
    requires from <= |s| && IndexFrom(s, c, from) >= 0
    ensures var i := IndexFrom(s, c, from);
      SplitFrom(s, c, from) == [s[from..i]] + SplitFrom(s, c, i + 1)
  {
  }

  lemma {:induction false} SplitFromJoin(s: string, c: char, from: nat)
    requires from <= |s|
    ensures Join(SplitFrom(s, c, from), c) == s[from..]
    decreases |s| - from
  {
    var i := IndexFrom(s, c, from);
    if i >= 0 {
      SplitFromCons(s, c, from);
      SplitFromJoin(s, c, i + 1);
      JoinCons(s[from..i], SplitFrom(s, c, i + 1), c, s[i + 1..]);
      SliceAround(s, from, i);
    }
  }

  /** SplitAll loses nothing: its fields join back to the input. */
  lemma SplitJoin(s: string, c: char)
    ensures Join(SplitAll(s, c), c) == s
  {
    SplitFromJoin(s, c, 0);
  }

  /** Removes the empty strings at the end, as String.split(regex) does. */
  function DropTrailingEmpty(fs: seq<string>): (r: seq<string>)
    ensures |r| <= |fs| && r == fs[..|r|]
    ensures forall k :: |r| <= k < |fs| ==> fs[k] == ""
    ensures r == [] || r[|r| - 1] != ""
  {
    if fs != [] && fs[|fs| - 1] == "" then DropTrailingEmpty(fs[..|fs| - 1]) else fs
  }

  /** String.split(c) for a regex that is the single literal character c: the
      whole string when c does not occur, otherwise the fields with the
      trailing empty ones removed. */
  function JavaSplit(s: string, c: char): seq<string> {
    if c !in s then [s] else DropTrailingEmpty(SplitAll(s, c))
  }

  /** `s.split(c)[1]`, or None where Java throws ArrayIndexOutOfBoundsException. */
  function SecondField(s: string, c: char): Option<string> {
    var fs := JavaSplit(s, c);
    if |fs| >= 2 then Some(fs[1]) else None
  }

  /** Every character of s from position `from` on is c. */
  predicate AllCharFrom(s: string, c: char, from: nat) {
    forall k | from <= k < |s| :: s[k] == c
  }

  predicate AllEmpty(fs: seq<string>) {
    forall j :: 0 <= j < |fs| ==> fs[j] == ""
  }

  /** Every field from position `from` on is empty exactly when the rest of
      s is made of c alone. */
  lemma {:induction false} SplitFromEmpty(s: string, c: char, from: nat)
    requires from <= |s|
    ensures AllEmpty(SplitFrom(s, c, from)) <==> AllCharFrom(s, c, from)
    decreases |s| - from
  {
    var i := IndexFrom(s, c, from);
    var fs := SplitFrom(s, c, from);
    if i < 0 {
      assert fs == [s[from..]];
      if from < |s| {
        assert fs[0][0] == s[from];
      }
    } else {
      SplitFromEmpty(s, c, i + 1);
      var rest := SplitFrom(s, c, i + 1);
      assert fs == [s[from..i]] + rest;
      if AllCharFrom(s, c, from) {
        assert s[from] == c && i == from;
        forall j | 0 <= j < |fs| ensures fs[j] == "" {
          if j > 0 { assert fs[j] == rest[j - 1]; }
        }
      }
      if AllEmpty(fs) {
        assert s[from..i] == fs[0] == "";
        forall j | 0 <= j < |rest| ensures rest[j] == "" {
          assert rest[j] == fs[j + 1];
        }
      }
    }
  }

  lemma SplitAllTail(s: string, c: char, p: int)
    requires p == IndexOf(s, c) && p >= 0
    ensures |SplitAll(s, c)| >= 2 && SplitAll(s, c)[1..] == SplitFrom(s, c, p + 1)
  {
    var rest := SplitFrom(s, c, p + 1);
    assert SplitAll(s, c) == [s[0..p]] + rest;
  }

  /** `s.split(c)[1]` exists exactly when s contains c and some character
      after the first c is not c; it is then the text between the first c and
      the next c (or the end). */
  lemma SecondFieldSpec(s: string, c: char)
    ensures var p := IndexOf(s, c);
      SecondField(s, c).Some? <==> p >= 0 && !AllCharFrom(s, c, p + 1)
    ensures var p := IndexOf(s, c);
      SecondField(s, c).Some? ==>
        var q := IndexFrom(s, c, p + 1);
        SecondField(s, c).value == if q < 0 then s[p + 1..] else s[p + 1..q]
  {
    var p := IndexOf(s, c);
    if p >= 0 {
      SecondFieldOfSplit(s, c, p);
      SplitFromEmpty(s, c, p + 1);
      SplitFromHead(s, c, p + 1);
    }
  }

  /** When s contains c, the second field is the first field after the
      first c, unless every field after the first c is empty. */
  lemma SecondFieldOfSplit(s: string, c: char, p: int)
    requires p == IndexOf(s, c) && p >= 0
    ensures var rest := SplitFrom(s, c, p + 1);
      SecondField(s, c) == if AllEmpty(rest) then None else Some(rest[0])
  {
    var fs := SplitAll(s, c);
    SplitAllTail(s, c, p);
    DropTrailingSecond(fs);
  }

  lemma SplitFromHead(s: string, c: char, from: nat)
    requires from <= |s|
    ensures var q := IndexFrom(s, c, from);
      SplitFrom(s, c, from)[0] == if q < 0 then s[from..] else s[from..q]
  {
  }

  /** After dropping the trailing empty fields, a second field is left
      exactly when some field after the first is non-empty, and it is then
      the second field. */
  lemma DropTrailingSecond(fs: seq<string>)
    requires |fs| >= 2
    ensures |DropTrailingEmpty(fs)| >= 2 <==> !AllEmpty(fs[1..])
    ensures |DropTrailingEmpty(fs)| >= 2 ==> DropTrailingEmpty(fs)[1] == fs[1]
  {
    var r := DropTrailingEmpty(fs);
    if !AllEmpty(fs[1..]) {
      var j :| 0 <= j < |fs[1..]| && fs[1..][j] != "";
      assert fs[j + 1] != "";
    }
    if |r| >= 2 {
      assert r[1] == fs[1];
      assert r[|r| - 1] == fs[|r| - 1];
      assert fs[1..][|r| - 2] == fs[|r| - 1];
    }
  }

  // ---------------------------------------------------------------------------
  // replaceFirst(literal, "")
  // ---------------------------------------------------------------------------

  /** pat occurs in s starting at position i. */
  predicate OccursAt(s: string, pat: string, i: int) {
    0 <= i <= |s| - |pat| && s[i..i + |pat|] == pat
  }

  /** `s.replaceFirst(pat, "")` for a pattern made only of literal characters. */
  function RemoveFirst(s: string, pat: string): string
    decreases |s|
  {
    if |s| < |pat| then s
    else if s[..|pat|] == pat then s[|pat|..]
    else [s[0]] + RemoveFirst(s[1..], pat)
  }

  /** Where pat occurs in s, RemoveFirst cuts out its first occurrence;
      where it does not, RemoveFirst changes nothing. */
  lemma {:induction false} RemoveFirstSpec(s: string, pat: string, i: int)
    requires OccursAt(s, pat, i) && forall j :: 0 <= j < i ==> !OccursAt(s, pat, j)
    ensures RemoveFirst(s, pat) == s[..i] + s[i + |pat|..]
    decreases |s|
  {
    if i > 0 {
      var t := s[1..];
      assert !OccursAt(s, pat, 0);
      OccursShift(s, pat, i - 1);
      forall j | 0 <= j < i - 1 ensures !OccursAt(t, pat, j) {
        OccursShift(s, pat, j);
      }
      RemoveFirstSpec(t, pat, i - 1);
      RemoveFirstSkip(s, pat);
      ConsSlices(s, i, i + |pat|);
    } else {
      assert s[..i] + s[i + |pat|..] == s[|pat|..];
    }
  }

  lemma {:induction false} RemoveFirstAbsent(s: string, pat: string)
    requires forall j :: 0 <= j <= |s| - |pat| ==> !OccursAt(s, pat, j)
    ensures RemoveFirst(s, pat) == s
    decreases |s|
  {
    if s != [] && |s| >= |pat| {
      var t := s[1..];
      assert !OccursAt(s, pat, 0);
      forall j | 0 <= j <= |t| - |pat| ensures !OccursAt(t, pat, j) {
        OccursShift(s, pat, j);
      }
      RemoveFirstAbsent(t, pat);
      RemoveFirstSkip(s, pat);
      assert s == [s[0]] + t;
    }
  }

  /** Where pat does not start s, RemoveFirst keeps the first character. */
  lemma RemoveFirstSkip(s: string, pat: string)
    requires |s| >= |pat| && !OccursAt(s, pat, 0) && s != []
    ensures RemoveFirst(s, pat) == [s[0]] + RemoveFirst(s[1..], pat)
  {
    assert s[0..|pat|] == s[..|pat|];
  }

  lemma OccursShift(s: string, pat: string, j: nat)
    requires s != []
    ensures OccursAt(s[1..], pat, j) <==> OccursAt(s, pat, j + 1)
  {
    if j + 1 <= |s| - |pat| {
      assert s[1..][j..j + |pat|] == s[j + 1..j + 1 + |pat|];
    }
  }

  lemma ConsSlices(s: string, i: nat, m: nat)
    requires 0 < i <= m <= |s|
    ensures [s[0]] + (s[1..][..i - 1] + s[1..][m - 1..]) == s[..i] + s[m..]
  {
    assert s[..i] == [s[0]] + s[1..][..i - 1];
    assert s[m..] == s[1..][m - 1..];
  }

  // ---------------------------------------------------------------------------
  // Integer.toString for non-negative values
  // ---------------------------------------------------------------------------

  predicate IsDigit(c: char) { '0' <= c <= '9' }

  function DigitChar(d: nat): (c: char)
    requires d < 10
    ensures IsDigit(c) && DigitValue(c) == d
  {
    ('0' as int + d) as char
  }

  /** The decimal digits of n, most significant first, with no leading zero. */
  function NatToString(n: nat): string
    decreases n
  {
    if n < 10 then [DigitChar(n)] else NatToString(n / 10) + [DigitChar(n % 10)]
  }

  /** The value of a string of decimal digits: the inverse of NatToString. */
  function DigitValue(c: char): nat
    requires IsDigit(c)
  {
    (c as int) - ('0' as int)
  }

  function DecimalValue(s: string): nat
    requires forall i :: 0 <= i < |s| ==> IsDigit(s[i])
  {
    if s == [] then 0
    else DecimalValue(s[..|s| - 1]) * 10 + DigitValue(s[|s| - 1])
  }

  /** NatToString writes only digits, starts with a non-zero digit unless n is
      zero, and reads back as n. */
  lemma {:induction false} NatToStringRoundTrip(n: nat)
    ensures var s := NatToString(n);
      s != [] && (forall i :: 0 <= i < |s| ==> IsDigit(s[i]))
      && (s[0] == '0' ==> n == 0)
      && DecimalValue(s) == n
    decreases n
  {
    if n >= 10 {
      NatToStringRoundTrip(n / 10);
      var s := NatToString(n);
      assert s[..|s| - 1] == NatToString(n / 10);
    }
  }
}
