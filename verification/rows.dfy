/** Reading the import table: `split_list`, the `IssueRow` record and the
    per-row normalisation of `read_csv` (scripts/gh-import-issues.py).

    The CSV reader itself is not modelled: a row arrives as the items of the
    header-to-cell dictionary `csv.DictReader` yields, in header order with
    any surplus cells last. A line with fewer cells than headers has None for
    the missing cells; a line with more cells than headers carries the
    surplus as a list under the key None, which the normalisation cannot
    strip, so `read_csv` fails on it. */
module Rows {
  import opened Wrappers
  import opened Text
  import opened Seqs

  /** One unit of work. `labels` and `assignees` come from `;`-separated
      cells; `state` is the lower-cased cell, not restricted to "open" and
      "closed". */
  datatype IssueRow = IssueRow(
    title: string,
    body: string,
    labels: seq<string>,
    assignees: seq<string>,
    milestone: Option<string>,
    projectOwner: Option<string>,
    projectNumber: Option<nat>,
    state: string,
    closeReason: Option<string>)

  /** One item of the dictionary `csv.DictReader` yields for a line: a
      header with its cell (None when the line ends before that column), or
      the cells beyond the last header, a list stored under the key None. */
  datatype RawEntry = Field(header: string, cell: Option<string>) | Extra(cells: seq<string>)

  /** The items of one dictionary produced by `csv.DictReader`. */
  type RawRow = seq<RawEntry>

  /** A list element as `split_list` produces it: non-empty, no outer
      whitespace, no separator. */
  predicate IsListItem(x: string) {
    x != [] && NoOuterSpace(x) && ';' !in x
  }

  predicate AllItems(xs: seq<string>) {
    forall k :: 0 <= k < |xs| ==> IsListItem(xs[k])
  }

  predicate NoSeparator(xs: seq<string>) {
    forall k :: 0 <= k < |xs| ==> ';' !in xs[k]
  }

  /** The stripped pieces of a split cell with the empty ones dropped, in
      order. */
  function ListItems(pieces: seq<string>): (r: seq<string>)
    requires NoSeparator(pieces)
    ensures AllItems(r)
  {
    if pieces == [] then []
    else
      var x := Strip(pieces[0]);
      StripPiece(pieces[0]);
      NoSeparatorTail(pieces);
      var rest := ListItems(pieces[1..]);
      AllItemsCons(x, rest);
      if x == [] then rest else [x] + rest
  }

  lemma NoSeparatorTail(xs: seq<string>)
    requires NoSeparator(xs) && xs != []
    ensures ';' !in xs[0] && NoSeparator(xs[1..])
  {
    assert forall k :: 0 <= k < |xs[1..]| ==> xs[1..][k] == xs[k + 1];
  }

  lemma AllItemsCons(x: string, xs: seq<string>)
    requires IsListItem(x) || x == []
    requires AllItems(xs)
    ensures x != [] ==> AllItems([x] + xs)
  {
    if x != [] {
      assert forall k :: 0 < k < |xs| + 1 ==> ([x] + xs)[k] == xs[k - 1];
    }
  }

  /** Pieces that are list items already come through unchanged. */
  lemma {:induction false} ListItemsOfItems(pieces: seq<string>)
    requires AllItems(pieces)
    ensures NoSeparator(pieces) && ListItems(pieces) == pieces
  {
    ItemsHaveNoSeparator(pieces);
    if pieces != [] {
      AllItemsTail(pieces);
      ListItemsOfItems(pieces[1..]);
      StripPiece(pieces[0]);
      assert [pieces[0]] + pieces[1..] == pieces;
    }
  }

  lemma ItemsHaveNoSeparator(xs: seq<string>)
    requires AllItems(xs)
    ensures NoSeparator(xs)
  {
  }

  lemma AllItemsTail(xs: seq<string>)
    requires AllItems(xs) && xs != []
    ensures IsListItem(xs[0]) && AllItems(xs[1..])
  {
    assert forall k :: 0 <= k < |xs[1..]| ==> xs[1..][k] == xs[k + 1];
  }

  /** `split_list`: the `;`-separated pieces of a cell, stripped, empty
      pieces dropped, in cell order. */
  function SplitList(cell: string): (r: seq<string>)
    ensures cell == [] ==> r == []
    ensures forall k :: 0 <= k < |r| ==> IsListItem(r[k])
  {
    if cell == [] then [] else ListItems(Split(cell, ';'))
  }

  /** A piece `split_list` keeps: one that does not strip to nothing. */
  predicate NonBlank(s: string) {
    Strip(s) != []
  }

  /** The positions of the pieces `split_list` keeps. */
  function KeptIndices(pieces: seq<string>): seq<nat> {
    Positions(pieces, NonBlank)
  }

  /** `items` are, in order, the stripped pieces at positions `idx`. */
  predicate StripsAt(pieces: seq<string>, items: seq<string>, idx: seq<nat>) {
    |items| == |idx| && forall k :: 0 <= k < |idx| ==> idx[k] < |pieces| && items[k] == Strip(pieces[idx[k]])
  }

  /** `items` are, in order, the stripped pieces at positions `idx`, which
      increase and take in every piece that does not strip to nothing. */
  predicate ItemsAt(pieces: seq<string>, items: seq<string>, idx: seq<nat>) {
    StripsAt(pieces, items, idx) && PositionsOf(pieces, NonBlank, idx)
  }

  lemma {:induction false} ListItemsAt(pieces: seq<string>)
    requires NoSeparator(pieces)
    ensures StripsAt(pieces, ListItems(pieces), KeptIndices(pieces))
    decreases |pieces|
  {
    if pieces != [] {
      NoSeparatorTail(pieces);
      ListItemsAt(pieces[1..]);
      var idx := KeptIndices(pieces);
      var r := ListItems(pieces);
      ListItemAt(pieces, 0);
      forall k | 0 <= k < |idx|
        ensures idx[k] < |pieces| && r[k] == Strip(pieces[idx[k]])
      {
        ListItemAt(pieces, k);
      }
    }
  }

  /** One step of `ListItemsAt`: item `k` from the items of the tail. */
  lemma ListItemAt(pieces: seq<string>, k: int)
    requires NoSeparator(pieces) && pieces != []
    requires StripsAt(pieces[1..], ListItems(pieces[1..]), KeptIndices(pieces[1..]))
    ensures |ListItems(pieces)| == |KeptIndices(pieces)|
    ensures 0 <= k < |KeptIndices(pieces)| ==>
              KeptIndices(pieces)[k] < |pieces| && ListItems(pieces)[k] == Strip(pieces[KeptIndices(pieces)[k]])
  {
    NoSeparatorTail(pieces);
    var tail := KeptIndices(pieces[1..]);
    var items := ListItems(pieces[1..]);
    var x := Strip(pieces[0]);
    var idx := KeptIndices(pieces);
    var r := ListItems(pieces);
    assert r == if x == [] then items else [x] + items;
    assert idx == if x == [] then Shift(tail) else [0] + Shift(tail) by {
      assert NonBlank(pieces[0]) <==> x != [];
    }
    if 0 <= k < |idx| && (x == [] || k > 0) {
      var k' := if x != [] then k - 1 else k;
      assert idx[k] == tail[k'] + 1;
      assert r[k] == items[k'];
      assert pieces[1..][tail[k']] == pieces[idx[k]];
    }
  }

  /** An empty cell splits into one empty piece, which `split_list` drops:
      its early return agrees with the general case. */
  lemma SplitListPieces(cell: string)
    ensures SplitList(cell) == ListItems(Split(cell, ';'))
  {
    if cell == [] {
      assert Split(cell, ';') == [""];
      assert Strip("") == "";
    }
  }

  /** `split_list` keeps, in cell order, exactly the `;`-separated pieces
      that do not strip to nothing, each stripped. */
  lemma SplitListOrder(cell: string)
    ensures ItemsAt(Split(cell, ';'), SplitList(cell), KeptIndices(Split(cell, ';')))
  {
    var pieces := Split(cell, ';');
    SplitListPieces(cell);
    ListItemsAt(pieces);
    PositionsCorrect(pieces, NonBlank);
    assert StripsAt(pieces, SplitList(cell), KeptIndices(pieces));
  }

  /** Some piece strips to `x`. */
  predicate StripsTo(pieces: seq<string>, x: string) {
    exists j :: 0 <= j < |pieces| && Strip(pieces[j]) == x
  }

  /** A string is an item of a cell exactly when it is non-empty and some
      `;`-separated piece of the cell strips to it. */
  lemma SplitListMembers(cell: string, x: string)
    ensures x in SplitList(cell) <==> x != [] && StripsTo(Split(cell, ';'), x)
  {
    if x in SplitList(cell) {
      ItemHasPiece(cell, x);
    }
    if x != [] && StripsTo(Split(cell, ';'), x) {
      PieceGivesItem(cell, x);
    }
  }

  lemma ItemHasPiece(cell: string, x: string)
    requires x in SplitList(cell)
    ensures x != [] && StripsTo(Split(cell, ';'), x)
  {
    var pieces := Split(cell, ';');
    var r := SplitList(cell);
    var idx := KeptIndices(pieces);
    SplitListOrder(cell);
    var k :| 0 <= k < |r| && r[k] == x;
    assert idx[k] < |pieces| && Strip(pieces[idx[k]]) == x;
    assert IsListItem(r[k]);
  }

  lemma PieceGivesItem(cell: string, x: string)
    requires x != [] && StripsTo(Split(cell, ';'), x)
    ensures x in SplitList(cell)
  {
    var pieces := Split(cell, ';');
    var r := SplitList(cell);
    var idx := KeptIndices(pieces);
    SplitListOrder(cell);
    assert ItemsAt(pieces, r, idx);
    var j :| 0 <= j < |pieces| && Strip(pieces[j]) == x;
    assert NonBlank(pieces[j]);
    assert j in idx by {
      assert PositionsOf(pieces, NonBlank, idx);
    }
    var k :| 0 <= k < |idx| && idx[k] == j;
    assert r[k] == x by {
      assert StripsAt(pieces, r, idx);
    }
  }


  /** Stripping never adds a character. */
  lemma StripKeepsOut(s: string, c: char)
    requires c !in s
    ensures c !in Strip(s)
  {
    var r := Strip(s);
    var i :| StrippedAt(r, s, i);
  }

  /** A piece without a separator strips to nothing or to a list item,
      and a list item strips to itself. */
  lemma StripPiece(s: string)
    requires ';' !in s
    ensures Strip(s) == [] || IsListItem(Strip(s))
    ensures IsListItem(s) ==> Strip(s) == s
  {
    StripKeepsOut(s, ';');
    if IsListItem(s) {
      StripFixed(s);
    }
  }

  /** How a list is written back into one cell. */
  function JoinList(xs: seq<string>): string {
    Join(xs, ';')
  }

  /** Writing well-formed list items into a cell and splitting it again
      gives the same items in the same order. */
  lemma SplitListRoundTrip(xs: seq<string>)
    requires forall k :: 0 <= k < |xs| ==> IsListItem(xs[k])
    ensures SplitList(JoinList(xs)) == xs
  {
    if xs != [] {
      var cell := JoinList(xs);
      JoinNonEmpty(xs);
      assert cell != [];
      SplitJoin(xs, ';');
      assert Split(cell, ';') == xs;
      ListItemsOfItems(xs);
    }
  }

  lemma {:induction false} JoinNonEmpty(xs: seq<string>)
    requires |xs| >= 1 && forall k :: 0 <= k < |xs| ==> IsListItem(xs[k])
    ensures JoinList(xs) != [] && NoOuterSpace(JoinList(xs))
  {
    if |xs| > 1 {
      JoinNonEmpty(xs[1..]);
      var rest := JoinList(xs[1..]);
      var j := xs[0] + [';'] + rest;
      assert JoinList(xs) == j;
      assert j[0] == xs[0][0];
      assert j[|j| - 1] == rest[|rest| - 1];
    }
  }

  /** A header name as `read_csv` matches it: stripped, lower-cased; the key
      None of the surplus cells becomes the empty key. */
  function NormKey(e: RawEntry): string {
    match e
    case Field(header, _) => Lower(Strip(header))
    case Extra(_) => ""
  }

  /** `(v or "").strip()` succeeds on a cell or None, and on the surplus list
      only when it is empty (an empty list is falsy and gives ""); a
      non-empty list has no `strip` and raises. */
  predicate Strippable(e: RawEntry) {
    e.Extra? ==> e.cells == []
  }

  /** Every value of the dictionary can be stripped: the comprehension
      completes. */
  predicate Normalizable(raw: RawRow) {
    forall i :: 0 <= i < |raw| ==> Strippable(raw[i])
  }

  /** A cell as `read_csv` keeps it: stripped, with None read as "". */
  function NormValue(e: RawEntry): string
    requires Strippable(e)
  {
    match e
    case Field(_, cell) => Strip(cell.GetOr(""))
    case Extra(_) => ""
  }

  /** The dictionary comprehension at the start of the row loop: keys
      normalised, values stripped, and where two headers normalise to the
      same key the later column wins. */
  function NormalizeKeys(raw: RawRow): map<string, string>
    requires Normalizable(raw)
    decreases |raw|
  {
    if raw == [] then map[]
    else
      var last := raw[|raw| - 1];
      NormalizeKeys(raw[..|raw| - 1])[NormKey(last) := NormValue(last)]
  }

  /** Column `i` has a header that normalises to `k`. */
  predicate HeaderIs(raw: RawRow, i: int, k: string) {
    0 <= i < |raw| && NormKey(raw[i]) == k
  }

  /** Every key of the normalised row comes from some header. */
  lemma {:induction false} KeyHasHeader(raw: RawRow, k: string)
    requires Normalizable(raw)
    ensures k in NormalizeKeys(raw) ==> exists i :: HeaderIs(raw, i, k)
    decreases |raw|
  {
    if raw != [] {
      var init := raw[..|raw| - 1];
      var n := |raw| - 1;
      KeyHasHeader(init, k);
      if k == NormKey(raw[n]) {
        assert HeaderIs(raw, n, k);
      } else if k in NormalizeKeys(init) {
        var i :| HeaderIs(init, i, k);
        assert init[i] == raw[i];
        assert HeaderIs(raw, i, k);
      }
    }
  }

  /** Every header, once normalised, is a key of the normalised row. */
  lemma {:induction false} HeaderGivesKey(raw: RawRow, k: string, i: int)
    requires Normalizable(raw) && HeaderIs(raw, i, k)
    ensures k in NormalizeKeys(raw)
    decreases |raw|
  {
    var init := raw[..|raw| - 1];
    if i < |raw| - 1 {
      assert init[i] == raw[i];
      HeaderGivesKey(init, k, i);
    }
  }

  /** The value under a key is the stripped cell of the last column whose
      header normalises to it. */
  lemma {:induction false} NormalizeKeysValue(raw: RawRow, i: int)
    requires Normalizable(raw) && 0 <= i < |raw| && LastWithKey(raw, i)
    ensures NormKey(raw[i]) in NormalizeKeys(raw)
    ensures NormalizeKeys(raw)[NormKey(raw[i])] == NormValue(raw[i])
    decreases |raw|
  {
    if i < |raw| - 1 {
      var init := raw[..|raw| - 1];
      assert init[i] == raw[i];
      assert LastWithKey(init, i);
      NormalizeKeysValue(init, i);
    }
  }

  /** Item `i` is the last one whose header normalises to its key. */
  predicate LastWithKey(raw: RawRow, i: int)
    requires 0 <= i < |raw|
  {
    forall j :: i < j < |raw| ==> NormKey(raw[j]) != NormKey(raw[i])
  }

  /** `norm.get(key, "")`. */
  function Cell(norm: map<string, string>, key: string): string {
    if key in norm then norm[key] else ""
  }

  /** `norm.get(key) or None`. */
  function OptCell(norm: map<string, string>, key: string): (r: Option<string>)
    ensures r.Some? <==> Cell(norm, key) != []
    ensures r.Some? ==> r.value == Cell(norm, key)
  {
    if Cell(norm, key) == [] then None else Some(Cell(norm, key))
  }

  /** The `IssueRow` built from a normalised row, or None when its title is
      empty (the row is skipped). */
  function RowFromNorm(norm: map<string, string>): (r: Option<IssueRow>)
    ensures r.None? <==> Cell(norm, "title") == []
    ensures r.Some? ==> r.value.title == Cell(norm, "title")
    ensures r.Some? ==> (r.value.projectNumber.Some? <==> IsDigits(Cell(norm, "project_number")))
    ensures r.Some? && r.value.projectNumber.Some? ==>
              r.value.projectNumber.value == DigitsValue(Cell(norm, "project_number"))
    ensures r.Some? ==> r.value.state == (if Cell(norm, "state") == [] then "open" else Lower(Cell(norm, "state")))
    ensures r.Some? ==> r.value.body == Cell(norm, "body")
    ensures r.Some? ==> r.value.labels == SplitList(Cell(norm, "labels"))
    ensures r.Some? ==> r.value.assignees == SplitList(Cell(norm, "assignees"))
    ensures r.Some? ==> r.value.milestone == OptCell(norm, "milestone")
    ensures r.Some? ==> r.value.projectOwner == OptCell(norm, "project_owner")
    ensures r.Some? ==> r.value.closeReason == OptCell(norm, "close_reason")
  {
    var title := Cell(norm, "title");
    if title == [] then None
    else
      var pn := Cell(norm, "project_number");
      Some(IssueRow(
        title := title,
        body := Cell(norm, "body"),
        labels := SplitList(Cell(norm, "labels")),
        assignees := SplitList(Cell(norm, "assignees")),
        milestone := OptCell(norm, "milestone"),
        projectOwner := OptCell(norm, "project_owner"),
        projectNumber := if IsDigits(pn) then Some(DigitsValue(pn)) else None,
        state := Lower(if Cell(norm, "state") != [] then Cell(norm, "state") else "open"),
        closeReason := OptCell(norm, "close_reason")))
  }

  /** The row normalisation of `read_csv`: None for a row that is skipped,
      otherwise a well-formed row. */
  function NormalizeRow(raw: RawRow): (r: Option<IssueRow>)
    requires Normalizable(raw)
    ensures r.None? <==> Cell(NormalizeKeys(raw), "title") == []
    ensures r == RowFromNorm(NormalizeKeys(raw))
    ensures r.Some? ==> WellFormedRow(r.value)
  {
    var norm := NormalizeKeys(raw);
    ValuesStripped(raw);
    NormWellFormed(norm);
    RowFromNorm(norm)
  }

  /** Lower-casing keeps a string non-empty and without outer whitespace. */
  lemma LowerKeepsOuter(s: string)
    requires NoOuterSpace(s)
    ensures NoOuterSpace(Lower(s))
  {
  }

  predicate CellsStripped(norm: map<string, string>) {
    forall k :: k in norm ==> NoOuterSpace(norm[k])
  }

  lemma CellStripped(norm: map<string, string>, key: string)
    requires CellsStripped(norm)
    ensures NoOuterSpace(Cell(norm, key))
  {
  }

  /** The state `read_csv` derives from a stripped cell. */
  lemma StateWellFormed(cell: string)
    requires NoOuterSpace(cell)
    ensures var st := Lower(if cell != [] then cell else "open");
      st != [] && NoOuterSpace(st) && Lower(st) == st
  {
    var st := if cell != [] then cell else "open";
    LowerKeepsOuter(st);
    LowerIdempotent(st);
  }

  /** An optional field taken from a stripped cell. */
  lemma OptCellWellFormed(norm: map<string, string>, key: string)
    requires CellsStripped(norm)
    ensures WellFormedOpt(OptCell(norm, key))
  {
    CellStripped(norm, key);
  }

  /** A row built from stripped cells is well-formed. */
  lemma NormWellFormed(norm: map<string, string>)
    requires CellsStripped(norm)
    ensures RowFromNorm(norm).Some? ==> WellFormedRow(RowFromNorm(norm).value)
  {
    var r := RowFromNorm(norm);
    if r.Some? {
      CellStripped(norm, "title");
      CellStripped(norm, "body");
      OptCellWellFormed(norm, "milestone");
      OptCellWellFormed(norm, "project_owner");
      OptCellWellFormed(norm, "close_reason");
      CellStripped(norm, "state");
      StateWellFormed(Cell(norm, "state"));
    }
  }

  /** Every value of a normalised row has no outer whitespace. */
  lemma {:induction false} ValuesStripped(raw: RawRow)
    requires Normalizable(raw)
    ensures CellsStripped(NormalizeKeys(raw))
    decreases |raw|
  {
    if raw != [] {
      ValuesStripped(raw[..|raw| - 1]);
    }
  }

  /** The headers `read_csv` recognises, in the order the module docstring
      lists them. */
  const Headers: seq<string> :=
    ["title", "body", "labels", "assignees", "milestone", "project_owner",
     "project_number", "state", "close_reason"]

  /** What a row produced by `read_csv` always satisfies. */
  predicate WellFormedRow(row: IssueRow) {
    && row.title != [] && NoOuterSpace(row.title)
    && NoOuterSpace(row.body)
    && AllItems(row.labels)
    && AllItems(row.assignees)
    && WellFormedOpt(row.milestone)
    && WellFormedOpt(row.projectOwner)
    && row.state != [] && NoOuterSpace(row.state) && Lower(row.state) == row.state
    && WellFormedOpt(row.closeReason)
  }

  predicate WellFormedOpt(o: Option<string>) {
    o.Some? ==> o.value != [] && NoOuterSpace(o.value)
  }

  /** The cell an optional field is written to (empty for None). */
  function OptText(o: Option<string>): string {
    o.GetOr("")
  }

  /** The cell `ToRaw` writes under `Headers[i]`. */
  function ToRawCell(row: IssueRow, i: int): string
    requires 0 <= i < |Headers|
  {
    if i == 0 then row.title
    else if i == 1 then row.body
    else if i == 2 then JoinList(row.labels)
    else if i == 3 then JoinList(row.assignees)
    else if i == 4 then OptText(row.milestone)
    else if i == 5 then OptText(row.projectOwner)
    else if i == 6 then (match row.projectNumber case Some(n) => NatToString(n) case None => "")
    else if i == 7 then row.state
    else OptText(row.closeReason)
  }

  /** A table row with the canonical headers from which `read_csv` reads
      `row` back. */
  function ToRaw(row: IssueRow): (raw: RawRow)
    ensures |raw| == |Headers|
    ensures forall i :: 0 <= i < |Headers| ==> raw[i] == Field(Headers[i], Some(ToRawCell(row, i)))
    ensures Normalizable(raw)
  {
    seq(|Headers|, i requires 0 <= i < |Headers| => Field(Headers[i], Some(ToRawCell(row, i))))
  }

  lemma LowerFixed(s: string)
    requires forall i :: 0 <= i < |s| ==> !('A' <= s[i] <= 'Z')
    ensures Lower(s) == s
  {
  }

  /** A header written in lower case with underscores. */
  predicate IsHeaderWord(h: string) {
    h != [] && forall i :: 0 <= i < |h| ==> ('a' <= h[i] <= 'z' || h[i] == '_')
  }

  lemma HeaderWordNormalizes(h: string, cell: Option<string>)
    requires IsHeaderWord(h)
    ensures NormKey(Field(h, cell)) == h
  {
    assert !IsSpace(h[0]) && !IsSpace(h[|h| - 1]);
    StripFixed(h);
    LowerFixed(h);
  }

  lemma HeadersAreWords()
    ensures forall i :: 0 <= i < |Headers| ==> IsHeaderWord(Headers[i])
  {
  }

  lemma HeadersDistinct()
    ensures forall i, j :: 0 <= i < j < |Headers| ==> Headers[i] != Headers[j]
  {
  }

  /** A canonical header normalises to itself. */
  lemma HeaderCanonical(i: int, cell: Option<string>)
    requires 0 <= i < |Headers|
    ensures NormKey(Field(Headers[i], cell)) == Headers[i]
  {
    HeadersAreWords();
    HeaderWordNormalizes(Headers[i], cell);
  }

  /** In a raw row with the canonical headers, each header's cell is read
      back stripped. */
  lemma CanonicalCell(raw: RawRow, i: int)
    requires |raw| == |Headers| && 0 <= i < |raw|
    requires forall j :: 0 <= j < |raw| ==> raw[j].Field? && raw[j].header == Headers[j] && raw[j].cell.Some?
    requires Normalizable(raw)
    ensures Cell(NormalizeKeys(raw), Headers[i]) == Strip(raw[i].cell.value)
  {
    HeadersDistinct();
    HeaderCanonical(i, raw[i].cell);
    forall j | i < j < |raw|
      ensures NormKey(raw[j]) != NormKey(raw[i])
    {
      HeaderCanonical(j, raw[j].cell);
      assert Headers[i] != Headers[j];
    }
    NormalizeKeysValue(raw, i);
    assert raw[i].cell.GetOr("") == raw[i].cell.value;
  }

  lemma JoinListStripped(xs: seq<string>)
    requires forall k :: 0 <= k < |xs| ==> IsListItem(xs[k])
    ensures NoOuterSpace(JoinList(xs))
  {
    if xs != [] {
      JoinNonEmpty(xs);
    }
  }

  /** Every cell `ToRaw` writes for a well-formed row is already stripped. */
  lemma ToRawCellStripped(row: IssueRow, i: int)
    requires WellFormedRow(row) && 0 <= i < |Headers|
    ensures Strip(ToRawCell(row, i)) == ToRawCell(row, i)
  {
    var t := ToRawCell(row, i);
    if i == 2 {
      JoinListStripped(row.labels);
    } else if i == 3 {
      JoinListStripped(row.assignees);
    } else if i == 6 && row.projectNumber.Some? {
      assert !IsSpace(t[0]) && !IsSpace(t[|t| - 1]);
    }
    StripFixed(t);
  }

  /** `read_csv` reads back under each canonical header the cell `ToRaw`
      wrote there. */
  lemma ToRawCellReadBack(row: IssueRow, i: int)
    requires WellFormedRow(row) && 0 <= i < |Headers|
    ensures Cell(NormalizeKeys(ToRaw(row)), Headers[i]) == ToRawCell(row, i)
  {
    CanonicalCell(ToRaw(row), i);
    ToRawCellStripped(row, i);
  }

  /** The row `RowFromNorm` builds from the cells of a well-formed row. */
  lemma RowFromCells(norm: map<string, string>, row: IssueRow)
    requires WellFormedRow(row)
    requires forall i :: 0 <= i < |Headers| ==> Cell(norm, Headers[i]) == ToRawCell(row, i)
    ensures RowFromNorm(norm) == Some(row)
  {
    assert Headers[0] == "title" && Headers[1] == "body" && Headers[2] == "labels";
    assert Headers[3] == "assignees" && Headers[4] == "milestone" && Headers[5] == "project_owner";
    assert Headers[6] == "project_number" && Headers[7] == "state" && Headers[8] == "close_reason";
    var r := RowFromNorm(norm);
    assert Cell(norm, "title") == row.title;
    assert r.Some?;
    var v := r.value;
    assert v.labels == row.labels by {
      assert Cell(norm, "labels") == JoinList(row.labels);
      SplitListRoundTrip(row.labels);
    }
    assert v.assignees == row.assignees by {
      assert Cell(norm, "assignees") == JoinList(row.assignees);
      SplitListRoundTrip(row.assignees);
    }
    assert v.projectNumber == row.projectNumber by {
      assert Cell(norm, "project_number") == ToRawCell(row, 6);
      if row.projectNumber.Some? {
        NatToStringRoundTrip(row.projectNumber.value);
      }
    }
    assert v.state == row.state by {
      assert Cell(norm, "state") == row.state;
    }
    assert v.milestone == row.milestone by {
      assert Cell(norm, "milestone") == OptText(row.milestone);
    }
    assert v.projectOwner == row.projectOwner by {
      assert Cell(norm, "project_owner") == OptText(row.projectOwner);
    }
    assert v.closeReason == row.closeReason by {
      assert Cell(norm, "close_reason") == OptText(row.closeReason);
    }
    assert v.body == row.body by {
      assert Cell(norm, "body") == row.body;
    }
  }

  /** Writing a well-formed row into a table row with the canonical headers
      and normalising it gives the row back: normalisation loses nothing a
      row can hold. */
  lemma NormalizeRowRoundTrip(row: IssueRow)
    requires WellFormedRow(row)
    ensures NormalizeRow(ToRaw(row)) == Some(row)
  {
    var norm := NormalizeKeys(ToRaw(row));
    forall i | 0 <= i < |Headers|
      ensures Cell(norm, Headers[i]) == ToRawCell(row, i)
    {
      ToRawCellReadBack(row, i);
    }
    RowFromCells(norm, row);
  }


  /** What `read_csv` returns, plus the line numbers of the rows it skipped
      for a missing title (the header is line 1). */
  datatype ReadResult = ReadResult(rows: seq<IssueRow>, skipped: seq<nat>)

  /** How `read_csv` classifies one dictionary: passed over when empty,
      fatal when it holds surplus cells, skipped without a title, or read. */
  datatype RowParse = Blank | Ragged | NoTitle | Parsed(row: IssueRow)

  function ParseRow(raw: RawRow): (p: RowParse)
    ensures p.Blank? <==> raw == []
    ensures p.Ragged? <==> raw != [] && !Normalizable(raw)
    ensures p.NoTitle? <==> raw != [] && Normalizable(raw) && NormalizeRow(raw).None?
    ensures p.Parsed? ==> Normalizable(raw) && NormalizeRow(raw) == Some(p.row) && p.row.title != []
  {
    if raw == [] then Blank
    else if !Normalizable(raw) then Ragged
    else match NormalizeRow(raw)
      case Some(row) => Parsed(row)
      case None => NoTitle
  }

  /** The exception that ends `read_csv` at a row with surplus cells. */
  const ListStripError: string := "AttributeError: 'list' object has no attribute 'strip'"

  predicate AnyRagged(ps: seq<RowParse>) {
    exists i :: 0 <= i < |ps| && ps[i].Ragged?
  }

  function CountBlank(ps: seq<RowParse>): nat {
    if ps == [] then 0 else (if ps[0].Blank? then 1 else 0) + CountBlank(ps[1..])
  }

  /** The loop of `read_csv` over classified rows from line `first` on: a
      blank dictionary is passed over silently, a row without a title is
      skipped and reported, every other row yields its `IssueRow`, in order;
      a row with surplus cells raises, and nothing is returned. */
  function Collect(ps: seq<RowParse>, first: nat): (r: Result<ReadResult, string>)
    ensures r.Failure? <==> AnyRagged(ps)
    ensures r.Failure? ==> r.error == ListStripError
    ensures r.Success? ==> |r.value.rows| + |r.value.skipped| + CountBlank(ps) == |ps|
    decreases |ps|
  {
    if ps == [] then Success(ReadResult([], []))
    else if ps[0].Ragged? then Failure(ListStripError)
    else
      var rest := Collect(ps[1..], first + 1);
      AnyRaggedTail(ps);
      if rest.Failure? then rest
      else if ps[0].Blank? then rest
      else if ps[0].NoTitle? then Success(ReadResult(rest.value.rows, [first] + rest.value.skipped))
      else Success(ReadResult([ps[0].row] + rest.value.rows, rest.value.skipped))
  }

  /** Past a first row that is not ragged, a ragged row is one of the rest. */
  lemma AnyRaggedTail(ps: seq<RowParse>)
    requires ps != [] && !ps[0].Ragged?
    ensures AnyRagged(ps) <==> AnyRagged(ps[1..])
  {
    if AnyRagged(ps) {
      var i :| 0 <= i < |ps| && ps[i].Ragged?;
      assert ps[1..][i - 1] == ps[i];
    }
    if AnyRagged(ps[1..]) {
      var i :| 0 <= i < |ps[1..]| && ps[1..][i].Ragged?;
      assert ps[i + 1] == ps[1..][i];
    }
  }

  predicate IsParsed(p: RowParse) {
    p.Parsed?
  }

  /** The positions of the rows `read_csv` reads. */
  function ParsedIndices(ps: seq<RowParse>): seq<nat> {
    Positions(ps, IsParsed)
  }

  /** `rows` lists, in order, the rows read at positions `idx`. */
  predicate RowsAt(ps: seq<RowParse>, rows: seq<IssueRow>, idx: seq<nat>) {
    |rows| == |idx| && forall k :: 0 <= k < |idx| ==> idx[k] < |ps| && ps[idx[k]] == Parsed(rows[k])
  }

  /** The rows `read_csv` returns are those read, in input order. */
  lemma {:induction false} CollectOrder(ps: seq<RowParse>, first: nat)
    requires Collect(ps, first).Success?
    ensures RowsAt(ps, Collect(ps, first).value.rows, ParsedIndices(ps))
    decreases |ps|
  {
    if ps != [] {
      var rest := Collect(ps[1..], first + 1);
      CollectOrder(ps[1..], first + 1);
      var tail := ParsedIndices(ps[1..]);
      var rows := Collect(ps, first).value.rows;
      var idx := ParsedIndices(ps);
      forall k | 0 <= k < |idx|
        ensures idx[k] < |ps| && ps[idx[k]] == Parsed(rows[k])
      {
        if !ps[0].Parsed? || k > 0 {
          var k' := if ps[0].Parsed? then k - 1 else k;
          assert idx[k] == tail[k'] + 1;
          assert rows[k] == rest.value.rows[k'];
          assert ps[1..][tail[k']] == ps[idx[k]];
        }
      }
    }
  }

  /** Every reported line number belongs to a row without a title. */
  lemma {:induction false} CollectSkippedAt(ps: seq<RowParse>, first: nat, j: int)
    requires Collect(ps, first).Success? && 0 <= j < |Collect(ps, first).value.skipped|
    ensures first <= Collect(ps, first).value.skipped[j] < first + |ps|
    ensures ps[Collect(ps, first).value.skipped[j] - first].NoTitle?
    decreases |ps|
  {
    var rest := Collect(ps[1..], first + 1);
    if ps[0].NoTitle? && j == 0 {
    } else {
      var j' := if ps[0].NoTitle? then j - 1 else j;
      assert Collect(ps, first).value.skipped[j] == rest.value.skipped[j'];
      CollectSkippedAt(ps[1..], first + 1, j');
      var line := rest.value.skipped[j'];
      assert ps[1..][line - (first + 1)] == ps[line - first];
    }
  }

  /** The reported line numbers increase. */
  lemma {:induction false} CollectSkipped(ps: seq<RowParse>, first: nat)
    requires Collect(ps, first).Success?
    ensures forall j :: 0 <= j < |Collect(ps, first).value.skipped| ==>
              first <= Collect(ps, first).value.skipped[j] < first + |ps|
    ensures forall j, j' :: 0 <= j < j' < |Collect(ps, first).value.skipped| ==>
              Collect(ps, first).value.skipped[j] < Collect(ps, first).value.skipped[j']
    decreases |ps|
  {
    if ps != [] {
      CollectSkipped(ps[1..], first + 1);
    }
  }

  /** Every row without a title is reported under its line number. */
  lemma {:induction false} CollectReportsAll(ps: seq<RowParse>, first: nat, i: int)
    requires Collect(ps, first).Success? && 0 <= i < |ps| && ps[i].NoTitle?
    ensures first + i in Collect(ps, first).value.skipped
    decreases |ps|
  {
    if i > 0 {
      assert ps[1..][i - 1] == ps[i];
      CollectReportsAll(ps[1..], first + 1, i - 1);
    }
  }

  function ParseAll(raws: seq<RawRow>): (ps: seq<RowParse>)
    ensures |ps| == |raws| && forall i :: 0 <= i < |raws| ==> ps[i] == ParseRow(raws[i])
  {
    seq(|raws|, i requires 0 <= i < |raws| => ParseRow(raws[i]))
  }

  /** `read_csv`: data rows start on line 2. */
  function ReadCsv(raws: seq<RawRow>): Result<ReadResult, string> {
    Collect(ParseAll(raws), 2)
  }

  /** `read_csv` raises exactly when some row has surplus cells, whatever
      the rows around it. */
  lemma ReadCsvFails(raws: seq<RawRow>)
    ensures ReadCsv(raws).Failure? <==> exists i :: 0 <= i < |raws| && !Normalizable(raws[i])
    ensures ReadCsv(raws).Failure? ==> ReadCsv(raws).error == ListStripError
  {
    var ps := ParseAll(raws);
    if ReadCsv(raws).Failure? {
      var i :| 0 <= i < |ps| && ps[i].Ragged?;
      assert !Normalizable(raws[i]);
    } else {
      forall i | 0 <= i < |raws|
        ensures Normalizable(raws[i])
      {
        assert !ps[i].Ragged?;
      }
    }
  }

  /** `row` is the normalisation of one of the input rows. */
  predicate NormalizesInput(raws: seq<RawRow>, row: IssueRow) {
    exists i :: 0 <= i < |raws| && Normalizable(raws[i]) && NormalizeRow(raws[i]) == Some(row)
  }

  /** `rows` are, in order, the normalisations of the input rows at
      positions `idx`, which increase and take in every non-blank row with a
      title. */
  predicate ReadInOrder(raws: seq<RawRow>, rows: seq<IssueRow>, idx: seq<nat>) {
    && |rows| == |idx|
    && (forall k :: 0 <= k < |idx| ==>
          idx[k] < |raws| && Normalizable(raws[idx[k]]) && NormalizeRow(raws[idx[k]]) == Some(rows[k]))
    && Increasing(idx)
    && (forall i :: 0 <= i < |raws| && raws[i] != [] && Normalizable(raws[i]) && NormalizeRow(raws[i]).Some? ==>
          i in idx)
  }

  /** A successful `read_csv` returns each non-blank titled input row once,
      normalised, in input order. */
  lemma ReadCsvOrder(raws: seq<RawRow>)
    requires ReadCsv(raws).Success?
    ensures ReadInOrder(raws, ReadCsv(raws).value.rows, ParsedIndices(ParseAll(raws)))
  {
    var ps := ParseAll(raws);
    var idx := ParsedIndices(ps);
    CollectOrder(ps, 2);
    PositionsCorrect(ps, IsParsed);
    forall k | 0 <= k < |idx|
      ensures idx[k] < |raws| && Normalizable(raws[idx[k]])
      ensures NormalizeRow(raws[idx[k]]) == Some(ReadCsv(raws).value.rows[k])
    {
      assert ps[idx[k]] == ParseRow(raws[idx[k]]);
    }
    forall i | 0 <= i < |raws| && raws[i] != [] && Normalizable(raws[i]) && NormalizeRow(raws[i]).Some?
      ensures i in idx
    {
      assert ps[i] == ParseRow(raws[i]);
    }
  }

  lemma ReadCsvRowAt(raws: seq<RawRow>, k: int)
    requires ReadCsv(raws).Success? && 0 <= k < |ReadCsv(raws).value.rows|
    ensures ReadCsv(raws).value.rows[k].title != []
    ensures NormalizesInput(raws, ReadCsv(raws).value.rows[k])
  {
    var ps := ParseAll(raws);
    CollectOrder(ps, 2);
    var i := ParsedIndices(ps)[k];
    assert ps[i] == ParseRow(raws[i]);
  }

  lemma SkippedLineParse(raws: seq<RawRow>, j: int)
    requires ReadCsv(raws).Success? && 0 <= j < |ReadCsv(raws).value.skipped|
    ensures 2 <= ReadCsv(raws).value.skipped[j] < |raws| + 2
    ensures ParseRow(raws[ReadCsv(raws).value.skipped[j] - 2]).NoTitle?
  {
    var ps := ParseAll(raws);
    assert ReadCsv(raws) == Collect(ps, 2);
    CollectSkippedAt(ps, 2, j);
    var i := Collect(ps, 2).value.skipped[j] - 2;
    assert ps[i] == ParseRow(raws[i]);
  }

  /** The line numbers `read_csv` reports as skipped belong to non-blank
      rows without a title. */
  lemma ReadCsvSkippedAt(raws: seq<RawRow>, j: int)
    requires ReadCsv(raws).Success? && 0 <= j < |ReadCsv(raws).value.skipped|
    ensures 2 <= ReadCsv(raws).value.skipped[j] < |raws| + 2
    ensures raws[ReadCsv(raws).value.skipped[j] - 2] != []
    ensures Normalizable(raws[ReadCsv(raws).value.skipped[j] - 2])
    ensures NormalizeRow(raws[ReadCsv(raws).value.skipped[j] - 2]).None?
  {
    SkippedLineParse(raws, j);
  }

  /** Every non-blank row without a title is reported under its line. */
  lemma ReadCsvReportsRow(raws: seq<RawRow>, i: int)
    requires ReadCsv(raws).Success?
    requires 0 <= i < |raws| && raws[i] != [] && Normalizable(raws[i]) && NormalizeRow(raws[i]).None?
    ensures i + 2 in ReadCsv(raws).value.skipped
  {
    var ps := ParseAll(raws);
    assert ps[i] == ParseRow(raws[i]);
    CollectReportsAll(ps, 2, i);
  }

  /** Every row `read_csv` returns has a title and is the normalisation of
      one of its input rows. */
  lemma ReadCsvRows(raws: seq<RawRow>)
    requires ReadCsv(raws).Success?
    ensures forall k :: 0 <= k < |ReadCsv(raws).value.rows| ==> ReadCsv(raws).value.rows[k].title != []
    ensures forall k :: 0 <= k < |ReadCsv(raws).value.rows| ==> NormalizesInput(raws, ReadCsv(raws).value.rows[k])
  {
    forall k | 0 <= k < |ReadCsv(raws).value.rows|
      ensures ReadCsv(raws).value.rows[k].title != []
      ensures NormalizesInput(raws, ReadCsv(raws).value.rows[k])
    {
      ReadCsvRowAt(raws, k);
    }
  }

  /** The reported line numbers belong to non-blank rows without a title,
      and come in increasing order. */
  lemma ReadCsvSkipped(raws: seq<RawRow>)
    requires ReadCsv(raws).Success?
    ensures forall j :: 0 <= j < |ReadCsv(raws).value.skipped| ==>
              && 2 <= ReadCsv(raws).value.skipped[j] < |raws| + 2
              && raws[ReadCsv(raws).value.skipped[j] - 2] != []
              && Normalizable(raws[ReadCsv(raws).value.skipped[j] - 2])
              && NormalizeRow(raws[ReadCsv(raws).value.skipped[j] - 2]).None?
    ensures forall j, j' :: 0 <= j < j' < |ReadCsv(raws).value.skipped| ==>
              ReadCsv(raws).value.skipped[j] < ReadCsv(raws).value.skipped[j']
  {
    forall j | 0 <= j < |ReadCsv(raws).value.skipped|
      ensures 2 <= ReadCsv(raws).value.skipped[j] < |raws| + 2
      ensures raws[ReadCsv(raws).value.skipped[j] - 2] != []
      ensures Normalizable(raws[ReadCsv(raws).value.skipped[j] - 2])
      ensures NormalizeRow(raws[ReadCsv(raws).value.skipped[j] - 2]).None?
    {
      ReadCsvSkippedAt(raws, j);
    }
    CollectSkipped(ParseAll(raws), 2);
  }

  /** Every non-blank row without a title is reported under its line
      number; with `ReadCsvSkipped`, exactly those rows are reported. */
  lemma ReadCsvReportsAll(raws: seq<RawRow>)
    requires ReadCsv(raws).Success?
    ensures forall i :: 0 <= i < |raws| && raws[i] != [] && Normalizable(raws[i]) && NormalizeRow(raws[i]).None? ==>
              i + 2 in ReadCsv(raws).value.skipped
  {
    forall i | 0 <= i < |raws| && raws[i] != [] && Normalizable(raws[i]) && NormalizeRow(raws[i]).None?
      ensures i + 2 in ReadCsv(raws).value.skipped
    {
      ReadCsvReportsRow(raws, i);
    }
  }
}
