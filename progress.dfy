/** The progress read-out of a running search (MainPage.progressBar): a walk
    over the tree of requests that turns every fetching leaf into one table
    row and labels the per-index branches of a search over several indexes. */
module Progress {
  import opened Options
  import opened JavaStrings

  /** Request.RequestState. The page only tests for INPROGRESS and
      PARTIALRESULT; every other state is carried under its own name, which
      is what its toString() prints. */
  datatype RequestState = InProgress | PartialResult | Finished | OtherState(name: string)

  function StateName(s: RequestState): string {
    match s
    case InProgress => "INPROGRESS"
    case PartialResult => "PARTIALRESULT"
    case Finished => "FINISHED"
    case OtherState(name) => name
  }

  /** A snapshot of a request. A Leaf has no sub-requests (getSubRequests()
      is null) and carries what the page reads from it: isDone(),
      partsDone(), partsTotal() and isTotalFinal(). */
  datatype Request =
    | Leaf(subject: string, state: RequestState, currentStage: string, isDone: bool,
           partsDone: nat, partsTotal: nat, totalFinal: bool)
    | Fanout(subject: string, subRequests: seq<Request>)

  /** The two cells after the stage cell of a fetch row: both empty, or a bar
      of the given width (styled final or not) and a text cell. */
  datatype FetchCells =
    | NoProgress
    | Bar(width: nat, final: bool, text: string)

  /** A row of the progress table: one per fetching leaf, or one per index
      of a multi-index search, holding that index's own rows. */
  datatype Row =
    | FetchRow(subject: string, stage: string, cells: FetchCells)
    | IndexRow(indexName: string, rows: seq<Row>)

  /** The text shown when the total number of parts is still an estimate. */
  const UnknownLength: string := "Fetch length unknown"

  /** `(int)(100*partsDone/partsTotal)`: the whole percentage, rounded down. */
  function Percentage(done: nat, total: nat): (p: nat)
    requires total > 0
    ensures p * total <= 100 * done < (p + 1) * total
    ensures done <= total ==> p <= 100
  {
    var n := 100 * done;
    var p := n / total;
    DivisionBounds(n, total);
    assert done <= total ==> p <= 100 by {
      if done <= total && p > 100 { MultiplyMonotone(101, p, total); }
    }
    p
  }

  lemma DivisionBounds(n: nat, d: nat)
    requires d > 0
    ensures (n / d) * d <= n < (n / d + 1) * d
  {
    var q, r := n / d, n % d;
    assert n == q * d + r && 0 <= r < d;
    assert (q + 1) * d == q * d + d;
  }

  lemma MultiplyMonotone(a: nat, b: nat, d: nat)
    requires a <= b
    ensures a * d <= b * d
  {
    assert b * d == a * d + (b - a) * d;
  }

  // ---------------------------------------------------------------------------
  // s.matches(".+%.+[ ;].+")
  // ---------------------------------------------------------------------------

  /** The characters a regular-expression '.' does not match in Java. */
  predicate IsLineTerminator(c: char) {
    c == '\n' || c == '\r' || c == '\U{85}' || c == '\U{2028}' || c == '\U{2029}'
  }

  predicate IsIndexSeparator(c: char) { c == ' ' || c == ';' }

  predicate NoLineTerminator(s: string) {
    forall k :: 0 <= k < |s| ==> !IsLineTerminator(s[k])
  }

  /** What `s.matches(".+%.+[ ;].+")` means: there is a '%' with at least one
      character before it, and after it, past at least one more character, a
      space or ';' that is followed by at least one character; and no
      character of s is a line terminator. */
  ghost predicate MatchesIndexPattern(s: string) {
    NoLineTerminator(s) &&
    exists i, j :: 1 <= i && i + 2 <= j && j + 2 <= |s| && s[i] == '%' && IsIndexSeparator(s[j])
  }

  /** The last position of a space or ';', or -1. */
  function LastSeparator(s: string): (j: int)
    ensures -1 <= j < |s|
    ensures j >= 0 ==> IsIndexSeparator(s[j])
    ensures forall k :: j < k < |s| ==> !IsIndexSeparator(s[k])
  {
    if s == [] then -1
    else if IsIndexSeparator(s[|s| - 1]) then |s| - 1
    else LastSeparator(s[..|s| - 1])
  }

  /** The match decided by the first '%' that is not the first character and
      the last separator that is not the last character. */
  predicate IsIndexFanout(s: string) {
    NoLineTerminator(s) && |s| >= 2 &&
    var i := IndexOf(s[1..], '%');
    var j := LastSeparator(s[..|s| - 1]);
    0 <= i && i + 3 <= j
  }

  lemma IndexFanoutMatchesPattern(s: string)
    ensures IsIndexFanout(s) <==> MatchesIndexPattern(s)
  {
    if IsIndexFanout(s) {
      var i := IndexOf(s[1..], '%') + 1;
      var j := LastSeparator(s[..|s| - 1]);
      assert s[i] == s[1..][i - 1];
      assert s[j] == s[..|s| - 1][j];
    }
    if MatchesIndexPattern(s) {
      var i, j :| 1 <= i && i + 2 <= j && j + 2 <= |s| && s[i] == '%' && IsIndexSeparator(s[j]);
      assert s[1..][i - 1] == s[i];
      assert s[..|s| - 1][j] == s[j];
    }
  }

  // ---------------------------------------------------------------------------
  // progressBar
  // ---------------------------------------------------------------------------

  /** The stage cell of a leaf. */
  function StageText(state: RequestState, currentStage: string): string {
    if state.InProgress? || state.PartialResult? then currentStage else StateName(state)
  }

  /** The progress cells of a leaf. */
  function LeafCells(isDone: bool, partsDone: nat, partsTotal: nat, totalFinal: bool): FetchCells {
    if isDone || partsTotal == 0 then NoProgress
    else
      var percentage := Percentage(partsDone, partsTotal);
      Bar(percentage, totalFinal, if totalFinal then NatToString(percentage) + "%" else UnknownLength)
  }

  /** progressBar: the rows of a request, or None where the Java code throws
      (a child of a multi-index search whose subject has no text after '%'). */
  function ProgressBar(r: Request): Option<seq<Row>>
    decreases r, 1
  {
    match r
    case Leaf(subject, state, stage, isDone, partsDone, partsTotal, totalFinal) =>
      Some([FetchRow(subject, StageText(state, stage), LeafCells(isDone, partsDone, partsTotal, totalFinal))])
    case Fanout(subject, children) =>
      if IsIndexFanout(subject) then IndexRows(children) else ConcatRows(children)
  }

  /** One labelled row per child, in order. */
  function IndexRows(cs: seq<Request>): Option<seq<Row>>
    decreases cs, 0
  {
    if cs == [] then Some([])
    else
      match SecondField(cs[0].subject, '%')
      case None => None
      case Some(name) =>
        match ProgressBar(cs[0])
        case None => None
        case Some(inner) =>
          match IndexRows(cs[1..])
          case None => None
          case Some(rest) => Some([IndexRow(name, inner)] + rest)
  }

  /** The children's rows one after the other. */
  function ConcatRows(cs: seq<Request>): Option<seq<Row>>
    decreases cs, 0
  {
    if cs == [] then Some([])
    else
      match ProgressBar(cs[0])
      case None => None
      case Some(first) =>
        match ConcatRows(cs[1..])
        case None => None
        case Some(rest) => Some(first + rest)
  }

  // ---------------------------------------------------------------------------
  // What the rendering promises
  // ---------------------------------------------------------------------------

  /** A leaf never fails and gives exactly one row: its subject; the current
      stage while it runs or has partial results, its state's name otherwise;
      no percentage once done or while nothing is counted; otherwise the bar
      width is the rounded-down percentage, within [0, 100] when the counters
      are consistent, and the text cell is that percentage followed by '%'
      exactly when the total is final. */
  lemma LeafRendering(r: Request)
    requires r.Leaf?
    ensures ProgressBar(r).Some? && |ProgressBar(r).value| == 1
    ensures var row := ProgressBar(r).value[0];
      && row.FetchRow?
      && row.subject == r.subject
      && ((r.state.InProgress? || r.state.PartialResult?) ==> row.stage == r.currentStage)
      && (!(r.state.InProgress? || r.state.PartialResult?) ==> row.stage == StateName(r.state))
      && (row.cells.NoProgress? <==> r.isDone || r.partsTotal == 0)
      && (row.cells.Bar? ==>
            && row.cells.width * r.partsTotal <= 100 * r.partsDone < (row.cells.width + 1) * r.partsTotal
            && (r.partsDone <= r.partsTotal ==> row.cells.width <= 100)
            && row.cells.final == r.totalFinal
            && (r.totalFinal ==> row.cells.text == NatToString(row.cells.width) + "%")
            && (!r.totalFinal ==> row.cells.text == UnknownLength))
  {
  }

  /** A child of a multi-index search renders when its subject has text
      after '%' and its own rendering succeeds. */
  predicate IndexChildRenders(c: Request) {
    SecondField(c.subject, '%').Some? && ProgressBar(c).Some?
  }

  /** A multi-index fanout fails exactly when some child has no text after
      '%' or fails itself; otherwise it gives one row per child, in order,
      labelled with the text after the child subject's '%' and holding the
      child's own rows. */
  lemma {:induction false} IndexRowsSpec(cs: seq<Request>)
    ensures IndexRows(cs).Some? <==> forall i :: 0 <= i < |cs| ==> IndexChildRenders(cs[i])
    ensures IndexRows(cs).Some? ==>
      && |IndexRows(cs).value| == |cs|
      && forall i :: 0 <= i < |cs| ==>
           IndexRows(cs).value[i] == IndexRow(SecondField(cs[i].subject, '%').value, ProgressBar(cs[i]).value)
  {
    if cs != [] {
      var tail := cs[1..];
      IndexRowsSpec(tail);
      assert forall i :: 0 <= i < |tail| ==> tail[i] == cs[i + 1];
      if IndexRows(cs).Some? {
        var rows := IndexRows(cs).value;
        assert rows[1..] == IndexRows(tail).value;
        forall i | 0 <= i < |cs| ensures IndexChildRenders(cs[i]) &&
          rows[i] == IndexRow(SecondField(cs[i].subject, '%').value, ProgressBar(cs[i]).value)
        {
          if i > 0 { assert cs[i] == tail[i - 1] && rows[i] == rows[1..][i - 1]; }
        }
      } else {
        assert !IndexChildRenders(cs[0]) || IndexRows(tail).None?;
      }
    }
  }

  lemma FanoutByIndex(r: Request)
    requires r.Fanout? && MatchesIndexPattern(r.subject)
    ensures var cs := r.subRequests;
      && (ProgressBar(r).Some? <==>
            forall i :: 0 <= i < |cs| ==> IndexChildRenders(cs[i]))
      && (ProgressBar(r).Some? ==>
            && |ProgressBar(r).value| == |cs|
            && forall i :: 0 <= i < |cs| ==>
                 ProgressBar(r).value[i] == IndexRow(SecondField(cs[i].subject, '%').value, ProgressBar(cs[i]).value))
  {
    IndexFanoutMatchesPattern(r.subject);
    IndexRowsSpec(r.subRequests);
  }

  /** Concatenation of a sequence of row sequences, first to last. */
  function Flatten(parts: seq<seq<Row>>): seq<Row> {
    if parts == [] then [] else parts[0] + Flatten(parts[1..])
  }

  /** The renderings of children that all render. */
  function Renderings(cs: seq<Request>): (parts: seq<seq<Row>>)
    requires forall i :: 0 <= i < |cs| ==> ProgressBar(cs[i]).Some?
    ensures |parts| == |cs| && forall i :: 0 <= i < |cs| ==> parts[i] == ProgressBar(cs[i]).value
  {
    if cs == [] then []
    else
      assert forall i :: 0 <= i < |cs[1..]| ==> cs[1..][i] == cs[i + 1];
      [ProgressBar(cs[0]).value] + Renderings(cs[1..])
  }

  /** Any other fanout fails exactly when a child fails; otherwise its rows
      are its children's rows, child after child. */
  lemma {:induction false} ConcatRowsSpec(cs: seq<Request>)
    ensures ConcatRows(cs).Some? <==> forall i :: 0 <= i < |cs| ==> ProgressBar(cs[i]).Some?
    ensures ConcatRows(cs).Some? ==> ConcatRows(cs).value == Flatten(Renderings(cs))
  {
    if cs != [] {
      ConcatRowsSpec(cs[1..]);
      assert forall i :: 0 <= i < |cs[1..]| ==> cs[1..][i] == cs[i + 1];
      if ConcatRows(cs).Some? {
        assert forall i :: 0 <= i < |cs| ==> ProgressBar(cs[i]).Some? by {
          forall i | 0 <= i < |cs| ensures ProgressBar(cs[i]).Some? {
            if i > 0 { assert cs[i] == cs[1..][i - 1]; }
          }
        }
        assert Renderings(cs)[1..] == Renderings(cs[1..]);
      }
    }
  }

  lemma FanoutFlattened(r: Request)
    requires r.Fanout? && !MatchesIndexPattern(r.subject)
    ensures var cs := r.subRequests;
      && (ProgressBar(r).Some? <==> forall i :: 0 <= i < |cs| ==> ProgressBar(cs[i]).Some?)
      && (ProgressBar(r).Some? ==> ProgressBar(r).value == Flatten(Renderings(cs)))
  {
    IndexFanoutMatchesPattern(r.subject);
    ConcatRowsSpec(r.subRequests);
  }

  // ---------------------------------------------------------------------------
  // Shape: every leaf of the request tree gives exactly one fetch row
  // ---------------------------------------------------------------------------

  function LeafCount(r: Request): nat
    decreases r, 1
  {
    match r
    case Leaf(_, _, _, _, _, _, _) => 1
    case Fanout(_, children) => LeafCountAll(children)
  }

  function LeafCountAll(cs: seq<Request>): nat
    decreases cs, 0
  {
    if cs == [] then 0 else LeafCount(cs[0]) + LeafCountAll(cs[1..])
  }

  /** The number of fetch rows, nested index rows included. */
  function FetchRowCount(rows: seq<Row>): nat
    decreases rows, 1
  {
    if rows == [] then 0 else FetchRowsIn(rows[0]) + FetchRowCount(rows[1..])
  }

  function FetchRowsIn(row: Row): nat
    decreases row, 0
  {
    match row
    case FetchRow(_, _, _) => 1
    case IndexRow(_, inner) => FetchRowCount(inner)
  }

  lemma {:induction false} FetchRowCountAppend(a: seq<Row>, b: seq<Row>)
    ensures FetchRowCount(a + b) == FetchRowCount(a) + FetchRowCount(b)
  {
    if a != [] {
      assert (a + b)[0] == a[0] && (a + b)[1..] == a[1..] + b;
      FetchRowCountAppend(a[1..], b);
    } else {
      assert a + b == b;
    }
  }

  /** Rendering keeps the leaves of the request tree: when it succeeds, there
      is exactly one fetch row per leaf, however the branches are grouped. */
  lemma {:induction false} OneFetchRowPerLeaf(r: Request)
    ensures ProgressBar(r).Some? ==> FetchRowCount(ProgressBar(r).value) == LeafCount(r)
    decreases r, 1
  {
    match r
    case Leaf(_, _, _, _, _, _, _) =>
    case Fanout(subject, children) =>
      if IsIndexFanout(subject) { IndexRowsLeaves(children); } else { ConcatRowsLeaves(children); }
  }

  lemma {:induction false} IndexRowsLeaves(cs: seq<Request>)
    ensures IndexRows(cs).Some? ==> FetchRowCount(IndexRows(cs).value) == LeafCountAll(cs)
    decreases cs, 0
  {
    if cs != [] && IndexRows(cs).Some? {
      OneFetchRowPerLeaf(cs[0]);
      IndexRowsLeaves(cs[1..]);
      var name := SecondField(cs[0].subject, '%').value;
      var inner := ProgressBar(cs[0]).value;
      FetchRowCountAppend([IndexRow(name, inner)], IndexRows(cs[1..]).value);
      assert FetchRowCount([IndexRow(name, inner)]) == FetchRowCount(inner);
    }
  }

  lemma {:induction false} ConcatRowsLeaves(cs: seq<Request>)
    ensures ConcatRows(cs).Some? ==> FetchRowCount(ConcatRows(cs).value) == LeafCountAll(cs)
    decreases cs, 0
  {
    if cs != [] && ConcatRows(cs).Some? {
      OneFetchRowPerLeaf(cs[0]);
      ConcatRowsLeaves(cs[1..]);
      FetchRowCountAppend(ProgressBar(cs[0]).value, ConcatRows(cs[1..]).value);
    }
  }

  // ---------------------------------------------------------------------------
  // A search over two indexes
  // ---------------------------------------------------------------------------

  /** The subject of a per-index request, "<query>%<index>", yields the
      index name as its text after '%'. */
  lemma IndexNameOfSubject(query: string, index: string)
    requires '%' !in query && '%' !in index && index != []
    ensures SecondField(query + "%" + index, '%') == Some(index)
  {
    var s := query + "%" + index;
    var p := |query|;
    assert s[p] == '%';
    forall k | 0 <= k < p ensures s[k] != '%' {
      assert s[k] == query[k];
    }
    assert IndexOf(s, '%') == p;
    assert s[p + 1..] == index;
    forall k | p + 1 <= k < |s| ensures s[k] != '%' {
      assert s[k] == index[k - p - 1];
    }
    assert s[p + 1] == index[0];
    SecondFieldSpec(s, '%');
  }

  lemma IndexRowsCons(cs: seq<Request>, name: string, first: seq<Row>, restRows: seq<Row>)
    requires cs != [] && SecondField(cs[0].subject, '%') == Some(name) && ProgressBar(cs[0]) == Some(first)
    requires IndexRows(cs[1..]) == Some(restRows)
    ensures IndexRows(cs) == Some([IndexRow(name, first)] + restRows)
  {
  }

  lemma TwoIndexSubject(query: string, index1: string, index2: string)
    requires query != [] && index1 != [] && index2 != []
    requires NoLineTerminator(query) && NoLineTerminator(index1) && NoLineTerminator(index2)
    ensures IsIndexFanout(query + "%" + index1 + " " + index2)
  {
    var subject := query + "%" + index1 + " " + index2;
    assert MatchesIndexPattern(subject) by {
      var i, j := |query|, |query| + 1 + |index1|;
      assert subject[i] == '%' && subject[j] == ' ';
      forall k | 0 <= k < |subject| ensures !IsLineTerminator(subject[k]) {
        if k < i { assert subject[k] == query[k]; }
        else if i < k < j { assert subject[k] == index1[k - i - 1]; }
        else if j < k { assert subject[k] == index2[k - j - 1]; }
      }
    }
    IndexFanoutMatchesPattern(subject);
  }

  /** Two per-index leaves, each half fetched with an estimated total, under
      a search over both indexes: two rows, named after the indexes, each at
      50% with the estimated-length text. */
  lemma TwoIndexSearch(query: string, index1: string, index2: string, stage: string)
    requires query != [] && index1 != [] && index2 != []
    requires '%' !in query && '%' !in index1 && '%' !in index2
    requires NoLineTerminator(query) && NoLineTerminator(index1) && NoLineTerminator(index2)
    ensures
      var leaf1 := Leaf(query + "%" + index1, InProgress, stage, false, 5, 10, false);
      var leaf2 := Leaf(query + "%" + index2, InProgress, stage, false, 5, 10, false);
      ProgressBar(Fanout(query + "%" + index1 + " " + index2, [leaf1, leaf2])) == Some([
        IndexRow(index1, [FetchRow(leaf1.subject, stage, Bar(50, false, UnknownLength))]),
        IndexRow(index2, [FetchRow(leaf2.subject, stage, Bar(50, false, UnknownLength))])])
  {
    var leaf1 := Leaf(query + "%" + index1, InProgress, stage, false, 5, 10, false);
    var leaf2 := Leaf(query + "%" + index2, InProgress, stage, false, 5, 10, false);
    TwoIndexSubject(query, index1, index2);
    IndexNameOfSubject(query, index1);
    IndexNameOfSubject(query, index2);
    assert LeafCells(false, 5, 10, false) == Bar(50, false, UnknownLength);
    var row1 := FetchRow(leaf1.subject, stage, Bar(50, false, UnknownLength));
    var row2 := FetchRow(leaf2.subject, stage, Bar(50, false, UnknownLength));
    assert [leaf2][0] == leaf2 && [leaf2][1..] == [];
    IndexRowsCons([leaf2], index2, [row2], []);
    assert [IndexRow(index2, [row2])] + [] == [IndexRow(index2, [row2])];
    assert [leaf1, leaf2][0] == leaf1 && [leaf1, leaf2][1..] == [leaf2];
    IndexRowsCons([leaf1, leaf2], index1, [row1], [IndexRow(index2, [row2])]);
    assert [IndexRow(index1, [row1])] + [IndexRow(index2, [row2])] == [IndexRow(index1, [row1]), IndexRow(index2, [row2])];
  }
}
