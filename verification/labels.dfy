/** Label bookkeeping: the sorted set of labels `main` pre-creates
    (scripts/gh-import-issues.py:311-313) and the choice `ensure_labels`
    makes of which of them to create (lines 108-129). */
module Labels {
  import opened Wrappers
  import opened Text
  import opened Json
  import opened Gh
  import opened Rows
  import opened Seqs

  // ---------------------------------------------------------------------
  // Python's string order: code point by code point, a proper prefix first.
  // ---------------------------------------------------------------------

  predicate Less(a: string, b: string)
    decreases |a|
  {
    if a == [] then b != []
    else b != [] && (a[0] < b[0] || (a[0] == b[0] && Less(a[1..], b[1..])))
  }

  lemma {:induction false} LessIrreflexive(a: string)
    ensures !Less(a, a)
    decreases |a|
  {
    if a != [] {
      LessIrreflexive(a[1..]);
    }
  }

  lemma {:induction false} LessTransitive(a: string, b: string, c: string)
    requires Less(a, b) && Less(b, c)
    ensures Less(a, c)
    decreases |a|
  {
    if a != [] && a[0] == b[0] && b[0] == c[0] {
      LessTransitive(a[1..], b[1..], c[1..]);
    }
  }

  lemma {:induction false} LessTotal(a: string, b: string)
    ensures a == b || Less(a, b) || Less(b, a)
    decreases |a|
  {
    if a != [] && b != [] && a[0] == b[0] {
      LessTotal(a[1..], b[1..]);
      if a[1..] == b[1..] {
        assert a == [a[0]] + a[1..] && b == [b[0]] + b[1..];
      }
    }
  }

  lemma LessAsymmetric(a: string, b: string)
    requires Less(a, b)
    ensures !Less(b, a)
  {
    if Less(b, a) {
      LessTransitive(a, b, a);
      LessIrreflexive(a);
    }
  }

  predicate StrictlySorted(xs: seq<string>) {
    forall i, j :: 0 <= i < j < |xs| ==> Less(xs[i], xs[j])
  }

  function Elems(xs: seq<string>): set<string> {
    set x | x in xs
  }

  /** A strictly sorted list stays so under a new least element. */
  lemma ConsSorted(x: string, xs: seq<string>)
    requires StrictlySorted(xs)
    requires forall y :: y in xs ==> Less(x, y)
    ensures StrictlySorted([x] + xs)
    ensures Elems([x] + xs) == {x} + Elems(xs)
  {
    var r := [x] + xs;
    assert forall y :: y in r <==> y == x || y in xs;
    forall i, j | 0 <= i < j < |r| ensures Less(r[i], r[j]) {
      assert r[j] == xs[j - 1];
      if i > 0 {
        assert r[i] == xs[i - 1];
      }
    }
  }

  /** Inserting into a strictly sorted list keeps it strictly sorted and
      adds exactly `x` (nothing when `x` is already there). */
  function Insert(x: string, xs: seq<string>): (r: seq<string>)
    requires StrictlySorted(xs)
    ensures StrictlySorted(r)
    ensures Elems(r) == Elems(xs) + {x}
  {
    if xs == [] then [x]
    else if x == xs[0] then xs
    else if Less(x, xs[0]) then
      assert forall j :: 0 < j < |xs| ==> Less(x, xs[j]) by {
        forall j | 0 < j < |xs| ensures Less(x, xs[j]) {
          LessTransitive(x, xs[0], xs[j]);
        }
      }
      [x] + xs
    else
      var rest := Insert(x, xs[1..]);
      LessTotal(x, xs[0]);
      assert Elems(xs) == {xs[0]} + Elems(xs[1..]) by {
        assert xs == [xs[0]] + xs[1..];
      }
      assert forall y :: y in rest ==> Less(xs[0], y) by {
        forall y | y in rest ensures Less(xs[0], y) {
          assert y in Elems(rest);
          if y != x {
            var j :| 0 <= j < |xs[1..]| && xs[1..][j] == y;
            assert xs[j + 1] == y;
          }
        }
      }
      ConsSorted(xs[0], rest);
      [xs[0]] + rest
  }

  /** Two strictly sorted lists with the same elements are the same list:
      `sorted(set)` has exactly one possible result. */
  lemma {:induction false} SortedUnique(a: seq<string>, b: seq<string>)
    requires StrictlySorted(a) && StrictlySorted(b)
    requires Elems(a) == Elems(b)
    ensures a == b
    decreases |a|
  {
    assert a != [] ==> a[0] in Elems(a);
    assert b != [] ==> b[0] in Elems(b);
    if a != [] && b != [] {
      assert b[0] in Elems(a) && a[0] in Elems(b);
      if a[0] != b[0] {
        var i :| 0 <= i < |a| && a[i] == b[0];
        var j :| 0 <= j < |b| && b[j] == a[0];
        assert Less(a[0], b[0]);
        assert Less(b[0], a[0]);
        LessAsymmetric(a[0], b[0]);
      }
      assert Elems(a[1..]) == Elems(b[1..]) by {
        forall y | y in Elems(a[1..]) ensures y in Elems(b[1..]) {
          var i :| 0 <= i < |a[1..]| && a[1..][i] == y;
          assert a[i + 1] == y && Less(a[0], y);
          assert y in Elems(b);
          var k :| 0 <= k < |b| && b[k] == y;
          LessIrreflexive(a[0]);
          assert k != 0;
          assert b[1..][k - 1] == y;
        }
        forall y | y in Elems(b[1..]) ensures y in Elems(a[1..]) {
          var i :| 0 <= i < |b[1..]| && b[1..][i] == y;
          assert b[i + 1] == y && Less(b[0], y);
          assert y in Elems(a);
          var k :| 0 <= k < |a| && a[k] == y;
          LessIrreflexive(b[0]);
          assert k != 0;
          assert a[1..][k - 1] == y;
        }
      }
      SortedUnique(a[1..], b[1..]);
      assert a == [a[0]] + a[1..] && b == [b[0]] + b[1..];
    }
  }

  function InsertAll(xs: seq<string>, acc: seq<string>): (r: seq<string>)
    requires StrictlySorted(acc)
    ensures StrictlySorted(r)
    ensures Elems(r) == Elems(acc) + Elems(xs)
  {
    if xs == [] then acc
    else
      assert Elems(xs) == {xs[0]} + Elems(xs[1..]) by {
        assert xs == [xs[0]] + xs[1..];
      }
      InsertAll(xs[1..], Insert(xs[0], acc))
  }

  /** `{lbl for r in rows for lbl in r.labels}`. */
  function RowLabels(rows: seq<IssueRow>): set<string> {
    if rows == [] then {} else Elems(rows[0].labels) + RowLabels(rows[1..])
  }

  lemma {:induction false} RowLabelsMeans(rows: seq<IssueRow>, x: string)
    ensures x in RowLabels(rows) <==> exists i :: 0 <= i < |rows| && x in rows[i].labels
  {
    if rows != [] {
      RowLabelsMeans(rows[1..], x);
      if x in RowLabels(rows[1..]) {
        var i :| 0 <= i < |rows[1..]| && x in rows[1..][i].labels;
        assert x in rows[i + 1].labels;
      }
      if exists i :: 0 <= i < |rows| && x in rows[i].labels {
        var i :| 0 <= i < |rows| && x in rows[i].labels;
        if i > 0 {
          assert rows[1..][i - 1] == rows[i];
        }
      }
    }
  }

  /** `sorted({lbl for r in rows for lbl in r.labels})`: strictly sorted and
      holding exactly the labels the rows mention. */
  function AllLabels(rows: seq<IssueRow>): (r: seq<string>)
    ensures StrictlySorted(r)
    ensures Elems(r) == RowLabels(rows)
  {
    if rows == [] then [] else InsertAll(rows[0].labels, AllLabels(rows[1..]))
  }

  /** A label is pre-created exactly when some row carries it, and it is
      pre-created once. */
  lemma AllLabelsMeans(rows: seq<IssueRow>, x: string)
    ensures x in AllLabels(rows) <==> exists i :: 0 <= i < |rows| && x in rows[i].labels
    ensures forall i, j :: 0 <= i < j < |AllLabels(rows)| ==> AllLabels(rows)[i] != AllLabels(rows)[j]
  {
    var r := AllLabels(rows);
    assert x in r <==> x in Elems(r);
    RowLabelsMeans(rows, x);
    forall i, j | 0 <= i < j < |r| ensures r[i] != r[j] {
      LessIrreflexive(r[i]);
    }
  }

  // ---------------------------------------------------------------------
  // ensure_labels
  // ---------------------------------------------------------------------

  /** `[item.get("name", "") for item in data if isinstance(item, dict)]`,
      or nothing when `data` is not a list. The names are JSON values: a
      `name` that is not a string is kept as it is. */
  function ExistingLabelNames(data: Value): (r: seq<Value>)
    ensures !data.Arr? ==> r == []
  {
    if data.Arr? then ObjectNames(data.items) else []
  }

  function ObjectNames(items: seq<Value>): (r: seq<Value>)
    ensures |r| <= |items|
  {
    if items == [] then []
    else
      var rest := ObjectNames(items[1..]);
      if items[0].Obj? then [NameOf(items[0])] + rest else rest
  }

  predicate IsObject(v: Value) {
    v.Obj?
  }

  /** `item.get("name", "")` for an object. */
  function NameOf(item: Value): Value
    requires item.Obj?
  {
    if "name" in item.members then item.members["name"] else Str("")
  }

  /** `names` are, in order, the names of the items at positions `idx`,
      each of them an object. */
  predicate NamesAt(items: seq<Value>, names: seq<Value>, idx: seq<nat>) {
    && |names| == |idx|
    && forall k :: 0 <= k < |idx| ==> idx[k] < |items| && items[idx[k]].Obj? && names[k] == NameOf(items[idx[k]])
  }

  /** The listing's names are, in order, one per object of the list and
      none for any other item. */
  lemma ExistingLabelNamesOrder(data: Value)
    requires data.Arr?
    ensures PositionsOf(data.items, IsObject, Positions(data.items, IsObject))
    ensures NamesAt(data.items, ExistingLabelNames(data), Positions(data.items, IsObject))
  {
    PositionsCorrect(data.items, IsObject);
    ObjectNamesAt(data.items);
  }

  lemma {:induction false} ObjectNamesAt(items: seq<Value>)
    ensures NamesAt(items, ObjectNames(items), Positions(items, IsObject))
    decreases |items|
  {
    if items != [] {
      ObjectNamesAt(items[1..]);
      var idx := Positions(items, IsObject);
      var names := ObjectNames(items);
      forall k | 0 <= k < |idx|
        ensures idx[k] < |items| && items[idx[k]].Obj? && names[k] == NameOf(items[idx[k]])
      {
        ObjectNameAt(items, k);
      }
      ObjectNameAt(items, 0);
    }
  }

  /** One step of `ObjectNamesAt`: name `k` from the names of the tail. */
  lemma ObjectNameAt(items: seq<Value>, k: int)
    requires items != []
    requires NamesAt(items[1..], ObjectNames(items[1..]), Positions(items[1..], IsObject))
    ensures |ObjectNames(items)| == |Positions(items, IsObject)|
    ensures 0 <= k < |Positions(items, IsObject)| ==>
              && Positions(items, IsObject)[k] < |items|
              && items[Positions(items, IsObject)[k]].Obj?
              && ObjectNames(items)[k] == NameOf(items[Positions(items, IsObject)[k]])
  {
    var tail := Positions(items[1..], IsObject);
    var rest := ObjectNames(items[1..]);
    var idx := Positions(items, IsObject);
    var names := ObjectNames(items);
    assert IsObject(items[0]) <==> items[0].Obj?;
    assert idx == if items[0].Obj? then [0] + Shift(tail) else Shift(tail);
    if 0 <= k < |idx| && (!items[0].Obj? || k > 0) {
      var k' := if items[0].Obj? then k - 1 else k;
      assert idx[k] == tail[k'] + 1;
      assert names[k] == rest[k'];
      assert items[1..][tail[k']] == items[idx[k]];
    }
  }

  predicate AllStrings(vs: seq<Value>) {
    forall k :: 0 <= k < |vs| ==> vs[k].Str?
  }

  /** `set(map(str.lower, names))`; None when a name is not a string, where
      Python raises a TypeError. */
  function LowerNames(names: seq<Value>): (r: Option<set<string>>)
    ensures r.Some? <==> AllStrings(names)
  {
    if names == [] then Some({})
    else
      var rest := LowerNames(names[1..]);
      if !names[0].Str? then None
      else if rest.None? then
        assert !AllStrings(names) by {
          var k :| 0 <= k < |names[1..]| && !names[1..][k].Str?;
          assert !names[k + 1].Str?;
        }
        None
      else
        Some({Lower(names[0].s)} + rest.value)
  }

  /** The set `LowerNames` builds holds exactly the lower-cased names. */
  lemma {:induction false} LowerNamesMeans(names: seq<Value>, x: string)
    requires AllStrings(names)
    ensures x in LowerNames(names).value <==> exists k :: 0 <= k < |names| && x == Lower(names[k].s)
  {
    if names != [] {
      assert AllStrings(names[1..]) by {
        forall k | 0 <= k < |names[1..]| ensures names[1..][k].Str? {
          assert names[1..][k] == names[k + 1];
        }
      }
      LowerNamesMeans(names[1..], x);
      if x in LowerNames(names[1..]).value {
        var k :| 0 <= k < |names[1..]| && x == Lower(names[1..][k].s);
        assert names[k + 1] == names[1..][k];
      }
      if exists k :: 0 <= k < |names| && x == Lower(names[k].s) {
        var k :| 0 <= k < |names| && x == Lower(names[k].s);
        if k > 0 {
          assert names[1..][k - 1] == names[k];
        }
      }
    }
  }

  /** The labels `ensure_labels` tries to create, in order: those whose
      lower-cased form is not among the existing names. */
  function LabelsToCreate(labels: seq<string>, existing: set<string>): (r: seq<string>)
    ensures |r| <= |labels|
    ensures forall x :: x in r <==> x in labels && Lower(x) !in existing
  {
    if labels == [] then []
    else
      var rest := LabelsToCreate(labels[1..], existing);
      assert forall x :: x in labels <==> x == labels[0] || x in labels[1..] by {
        assert labels == [labels[0]] + labels[1..];
      }
      if Lower(labels[0]) in existing then rest else [labels[0]] + rest
  }

  /** The lower-cased names of `xs`. */
  function LowerSet(xs: seq<string>): (r: set<string>)
    ensures forall x :: x in xs ==> Lower(x) in r
  {
    set x | x in xs :: Lower(x)
  }

  /** When every label already exists, nothing is created. */
  lemma {:induction false} NothingMissing(labels: seq<string>, existing: set<string>)
    requires forall k :: 0 <= k < |labels| ==> Lower(labels[k]) in existing
    ensures LabelsToCreate(labels, existing) == []
  {
    if labels != [] {
      NothingMissing(labels[1..], existing);
    }
  }

  /** Once the chosen labels exist, choosing again creates nothing: the
      selection is idempotent. */
  lemma LabelsToCreateIdempotent(labels: seq<string>, existing: set<string>)
    ensures LabelsToCreate(labels, existing + LowerSet(LabelsToCreate(labels, existing))) == []
  {
    var made := LabelsToCreate(labels, existing);
    forall k | 0 <= k < |labels| ensures Lower(labels[k]) in existing + LowerSet(made) {
      assert labels[k] in labels;
    }
    NothingMissing(labels, existing + LowerSet(made));
  }

  /** Matching is case-insensitive: a label that differs from an existing
      name only in ASCII case is never created. */
  lemma CaseInsensitiveMatch(labels: seq<string>, existing: seq<string>, x: string)
    requires x in labels
    requires exists k :: 0 <= k < |existing| && Lower(existing[k]) == Lower(x)
    ensures x !in LabelsToCreate(labels, LowerSet(existing))
  {
    var k :| 0 <= k < |existing| && Lower(existing[k]) == Lower(x);
    assert existing[k] in existing;
  }

  /** The `gh label list` command line, as `gh_json` reports it on failure. */
  function LabelListCommand(repo: string): string {
    "gh label list --json name -R " + repo
  }

  /** The text of the exception `str.lower` raises on a non-string name;
      its exact wording is not modelled. */
  const NonStringNameError: string := "TypeError: a label name is not a string"

  /** `ensure_labels(repo, labels)`: which labels it creates (or, in a dry
      run, reports it would create), or the exception it raises. An empty
      list returns at once without listing; a failed listing raises; so
      does a label name that is not a string. */
  function EnsureLabels(repo: string, labels: seq<string>, listing: Reply<Value>): (r: Result<seq<string>, string>)
    ensures labels == [] ==> r == Success([])
    ensures labels != [] && listing.CommandFailed? ==>
              r == Failure("Command failed: " + LabelListCommand(repo) + "\n" + listing.stderr)
    ensures labels != [] && listing.BadReply? ==> r == Failure(listing.text)
    ensures labels != [] && listing.Replied? ==>
              (r.Success? <==> AllStrings(ExistingLabelNames(listing.value)))
    ensures r.Success? ==> forall x :: x in r.value ==> x in labels
  {
    if labels == [] then Success([])
    else match listing
      case CommandFailed(err) => Failure("Command failed: " + LabelListCommand(repo) + "\n" + err)
      case BadReply(text) => Failure(text)
      case Replied(data) =>
        match LowerNames(ExistingLabelNames(data))
        case None => Failure(NonStringNameError)
        case Some(existing) => Success(LabelsToCreate(labels, existing))
  }

  /** After a good listing, `ensure_labels` creates exactly the requested
      labels that no listed name matches case-insensitively. */
  lemma EnsureLabelsChooses(repo: string, labels: seq<string>, data: Value, x: string)
    requires labels != [] && AllStrings(ExistingLabelNames(data))
    ensures var r := EnsureLabels(repo, labels, Replied(data));
      var names := ExistingLabelNames(data);
      && r.Success?
      && (x in r.value <==> x in labels && forall k :: 0 <= k < |names| ==> Lower(names[k].s) != Lower(x))
  {
    LowerNamesMeans(ExistingLabelNames(data), Lower(x));
  }
}
