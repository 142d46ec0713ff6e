/** Milestone bookkeeping: the title→number map `get_milestones_map` builds
    from `gh api --paginate` output (scripts/gh-import-issues.py:132-157),
    `ensure_milestone` (lines 160-175), and the per-row cache step of `main`
    (lines 344-356). */
module Milestones {
  import opened Wrappers
  import opened Text
  import opened Json
  import opened Gh

  /** What `gh api --paginate` printed, once decoded: either the whole
      output parsed as one JSON document, or — when it did not — the parse
      of each non-blank line (None for a line that is not JSON). */
  datatype Listing =
    | Whole(doc: Value)
    | Lines(parts: seq<Option<Value>>)

  /** The items of a line-wise listing: the lines that are JSON lists,
      concatenated in order. */
  function LineItems(parts: seq<Option<Value>>): seq<Value> {
    if parts == [] then []
    else
      (match parts[0]
       case Some(Arr(xs)) => xs
       case _ => [])
      + LineItems(parts[1..])
  }

  /** The milestone items of a listing. A whole document that is not a list
      has none (`isinstance(items, list)` fails). */
  function Items(l: Listing): seq<Value> {
    match l
    case Whole(Arr(xs)) => xs
    case Whole(_) => []
    case Lines(parts) => LineItems(parts)
  }

  /** The map entry one item contributes: an object with a string `title`
      and an integer `number` maps the lower-cased title to the number. */
  function Entry(m: Value): (e: Option<(string, int)>)
    ensures e.Some? <==>
              && m.Obj? && "title" in m.members && "number" in m.members
              && m.members["title"].Str? && m.members["number"].Int?
    ensures e.Some? ==> e.value == (Lower(m.members["title"].s), m.members["number"].i)
    ensures e.Some? ==> Lower(e.value.0) == e.value.0
  {
    if m.Obj? && "title" in m.members && "number" in m.members
       && m.members["title"].Str? && m.members["number"].Int?
    then
      LowerIdempotent(m.members["title"].s);
      Some((Lower(m.members["title"].s), m.members["number"].i))
    else None
  }

  /** The map built from `items` in order; a later entry for the same
      lower-cased title replaces an earlier one. */
  function MilestonesMap(items: seq<Value>): (r: map<string, int>)
    ensures forall k :: k in r ==> Lower(k) == k
  {
    if items == [] then map[]
    else
      var m := MilestonesMap(items[..|items| - 1]);
      match Entry(items[|items| - 1])
      case Some((k, n)) => m[k := n]
      case None => m
  }

  /** Item `i` contributes `key`. */
  predicate Gives(items: seq<Value>, i: int, key: string) {
    0 <= i < |items| && Entry(items[i]).Some? && Entry(items[i]).value.0 == key
  }

  /** A key is in the map exactly when some item contributes it. */
  lemma {:induction false} MilestonesMapKeys(items: seq<Value>, key: string)
    ensures key in MilestonesMap(items) <==> exists i :: Gives(items, i, key)
  {
    if items != [] {
      var init := items[..|items| - 1];
      var last := |items| - 1;
      var e := Entry(items[last]);
      MilestonesMapKeys(init, key);
      assert MilestonesMap(items) == if e.Some? then MilestonesMap(init)[e.value.0 := e.value.1] else MilestonesMap(init);
      if key in MilestonesMap(items) {
        if e.Some? && e.value.0 == key {
          assert Gives(items, last, key);
        } else {
          var i :| Gives(init, i, key);
          assert init[i] == items[i];
          assert Gives(items, i, key);
        }
      }
      if exists i :: Gives(items, i, key) {
        var i :| Gives(items, i, key);
        if i < last {
          assert init[i] == items[i];
          assert Gives(init, i, key);
        }
      }
    }
  }

  /** The number a key maps to is that of the last item contributing it. */
  lemma {:induction false} MilestonesMapLast(items: seq<Value>, key: string, i: int)
    requires Gives(items, i, key)
    requires forall j :: i < j < |items| ==> !Gives(items, j, key)
    ensures key in MilestonesMap(items)
    ensures MilestonesMap(items)[key] == Entry(items[i]).value.1
  {
    var init := items[..|items| - 1];
    if i < |items| - 1 {
      assert init[i] == items[i];
      forall j | i < j < |init| ensures !Gives(init, j, key) {
        assert init[j] == items[j];
        assert !Gives(items, j, key);
      }
      MilestonesMapLast(init, key, i);
      assert !Gives(items, |items| - 1, key);
    }
  }

  /** Later pages override earlier ones: the map of two runs of items is
      the first map updated by the second. */
  lemma {:induction false} MilestonesMapAppend(a: seq<Value>, b: seq<Value>)
    ensures MilestonesMap(a + b) == MilestonesMap(a) + MilestonesMap(b)
    decreases |b|
  {
    if b == [] {
      assert a + b == a;
    } else {
      var b0, x := b[..|b| - 1], b[|b| - 1];
      assert (a + b)[..|a + b| - 1] == a + b0;
      assert (a + b)[|a + b| - 1] == x;
      MilestonesMapAppend(a, b0);
      var ma, mb := MilestonesMap(a), MilestonesMap(b0);
      match Entry(x) {
        case Some((k, n)) =>
          assert (ma + mb)[k := n] == ma + mb[k := n];
        case None =>
      }
    }
  }

  /** Reading the listing line by line loses nothing: a line-wise listing of
      pages gives the map the whole listing of their concatenation would. */
  lemma {:induction false} PagesMerge(pages: seq<seq<Value>>)
    ensures MilestonesMap(Items(Lines(seq(|pages|, k requires 0 <= k < |pages| => Some(Arr(pages[k]))))))
         == MilestonesMap(Concat(pages))
  {
    PagesItems(pages);
  }

  function Concat(pages: seq<seq<Value>>): seq<Value> {
    if pages == [] then [] else pages[0] + Concat(pages[1..])
  }

  lemma {:induction false} PagesItems(pages: seq<seq<Value>>)
    ensures LineItems(seq(|pages|, k requires 0 <= k < |pages| => Some(Arr(pages[k])))) == Concat(pages)
  {
    var parts := seq(|pages|, k requires 0 <= k < |pages| => Some(Arr(pages[k])));
    if pages != [] {
      PagesItems(pages[1..]);
      assert parts[1..] == seq(|pages[1..]|, k requires 0 <= k < |pages[1..]| => Some(Arr(pages[1..][k])));
    }
  }

  /** `get_milestones_map`: the failure text when `gh api` exits non-zero
      (`listing` holds its stderr), else the map of the listing's items. */
  function GetMilestonesMap(listing: Result<Listing, string>): (r: Result<map<string, int>, string>)
    ensures listing.Failure? ==> r == Failure("Failed to list milestones: " + listing.error)
    ensures listing.Success? ==> r == Success(MilestonesMap(Items(listing.value)))
  {
    match listing
    case Failure(err) => Failure("Failed to list milestones: " + err)
    case Success(l) => Success(MilestonesMap(Items(l)))
  }

  /** `ensure_milestone`: the number of the milestone titled `title`
      (case-insensitively), creating it when missing. It lists the
      milestones itself (`listing`); `create` is the reply of the POST that
      creates it. A dry run creates nothing and answers -1. */
  function EnsureMilestone(listing: Result<Listing, string>, title: string, dryRun: bool, create: Reply<int>)
    : (r: Result<int, string>)
    ensures listing.Failure? ==> r == Failure("Failed to list milestones: " + listing.error)
    ensures listing.Success? && Lower(title) in MilestonesMap(Items(listing.value)) ==>
              r == Success(MilestonesMap(Items(listing.value))[Lower(title)])
    ensures listing.Success? && Lower(title) !in MilestonesMap(Items(listing.value)) ==>
              r == if dryRun then Success(-1)
                   else match create
                     case Replied(n) => Success(n)
                     case CommandFailed(err) => Failure("Failed to create milestone '" + title + "': " + err)
                     case BadReply(text) => Failure(text)
  {
    match GetMilestonesMap(listing)
    case Failure(e) => Failure(e)
    case Success(ms) =>
      var key := Lower(title);
      if key in ms then Success(ms[key])
      else if dryRun then Success(-1)
      else match create
        case Replied(n) => Success(n)
        case CommandFailed(err) => Failure("Failed to create milestone '" + title + "': " + err)
        case BadReply(text) => Failure(text)
  }

  /** Whether `ensure_milestone` sends the POST that creates a milestone. */
  predicate CreatesMilestone(listing: Result<Listing, string>, title: string, dryRun: bool) {
    listing.Success? && Lower(title) !in MilestonesMap(Items(listing.value)) && !dryRun
  }

  /** The cache after one row's milestone step, the milestone number to
      attach (or the exception raised), and whether a milestone was
      created. */
  datatype MilestoneStep = MilestoneStep(
    cache: Option<map<string, int>>,
    number: Result<Option<int>, string>,
    created: bool)

  /** The inputs of one row's milestone step that come from `gh`: the
      listing `main` reads when its cache is still empty, the listing
      `ensure_milestone` reads, and the reply to the creating POST. */
  datatype MilestoneReplies = MilestoneReplies(
    fetch: Result<Listing, string>,
    ensureListing: Result<Listing, string>,
    create: Reply<int>)

  /** The cache to look the key up in: the one held, else the map fetched
      now (or the fetch's failure). */
  function LoadedCache(cache: Option<map<string, int>>, fetch: Result<Listing, string>)
    : (r: Result<map<string, int>, string>)
    ensures cache.Some? ==> r == Success(cache.value)
    ensures cache.None? ==> r == GetMilestonesMap(fetch)
  {
    if cache.Some? then Success(cache.value) else GetMilestonesMap(fetch)
  }

  /** Lines 344-356 for a row whose milestone cell is `milestone`. */
  function ResolveMilestone(cache: Option<map<string, int>>, milestone: Option<string>,
                            noCreate: bool, dryRun: bool, replies: MilestoneReplies)
    : (r: MilestoneStep)
    // no milestone: nothing is read or changed
    ensures milestone.None? || milestone == Some([]) ==> r == MilestoneStep(cache, Success(None), false)
    // a failed first listing leaves the cache empty
    ensures r.cache.None? ==> cache.None? && (r.number.Failure? || milestone.None? || milestone == Some([]))
    // an existing key: the cache is kept and its id attached
    ensures milestone.Some? && milestone.value != [] && LoadedCache(cache, replies.fetch).Success? ==>
              var c := LoadedCache(cache, replies.fetch).value;
              var key := Lower(milestone.value);
              && r.cache.Some?
              && (key in c ==> r == MilestoneStep(Some(c), Success(Some(c[key])), false))
              && (key !in c && noCreate ==> r == MilestoneStep(Some(c), Success(None), false))
              && (r.cache.value == c
                  || (key in r.cache.value && r.cache.value == c[key := r.cache.value[key]] && r.cache.value[key] > 0))
  {
    if milestone.None? || milestone.value == [] then MilestoneStep(cache, Success(None), false)
    else match LoadedCache(cache, replies.fetch)
      case Failure(e) => MilestoneStep(cache, Failure(e), false)
      case Success(c) =>
        var key := Lower(milestone.value);
        if key in c then MilestoneStep(Some(c), Success(Some(c[key])), false)
        else if noCreate then MilestoneStep(Some(c), Success(None), false)
        else
          var created := CreatesMilestone(replies.ensureListing, milestone.value, dryRun);
          match EnsureMilestone(replies.ensureListing, milestone.value, dryRun, replies.create)
          case Failure(e) => MilestoneStep(Some(c), Failure(e), created)
          case Success(msn) =>
            if msn > 0 then MilestoneStep(Some(c[key := msn]), Success(Some(msn)), created)
            else MilestoneStep(Some(c), Success(None), created)
  }

  /** A missing key that `ensure_milestone` resolves to a positive number is
      inserted under that key alone and attached; a dry run's -1 (or any
      number that is not positive) leaves the cache as it was and attaches
      nothing. */
  lemma ResolveMissing(cache: Option<map<string, int>>, milestone: string,
                       dryRun: bool, replies: MilestoneReplies)
    requires milestone != []
    requires LoadedCache(cache, replies.fetch).Success?
    requires Lower(milestone) !in LoadedCache(cache, replies.fetch).value
    ensures var c := LoadedCache(cache, replies.fetch).value;
      var r := ResolveMilestone(cache, Some(milestone), false, dryRun, replies);
      match EnsureMilestone(replies.ensureListing, milestone, dryRun, replies.create)
      case Success(n) =>
        if n > 0 then r.cache == Some(c[Lower(milestone) := n]) && r.number == Success(Some(n))
        else r.cache == Some(c) && r.number == Success(None)
      case Failure(e) => r.cache == Some(c) && r.number == Failure(e)
  {
  }

  /** In a dry run no milestone is created, and a milestone missing from
      both listings is attached to nothing. */
  lemma DryRunCreatesNoMilestone(cache: Option<map<string, int>>, milestone: Option<string>,
                                 noCreate: bool, replies: MilestoneReplies)
    ensures !ResolveMilestone(cache, milestone, noCreate, true, replies).created
  {
  }

  /** Lookup is case-insensitive: two spellings of a milestone that differ
      only in ASCII case end in the same cache and attach the same number,
      and fail together. */
  lemma ResolveCaseInsensitive(cache: Option<map<string, int>>, m1: string, m2: string,
                               noCreate: bool, dryRun: bool, replies: MilestoneReplies)
    requires m1 != [] && m2 != [] && Lower(m1) == Lower(m2)
    ensures var r1 := ResolveMilestone(cache, Some(m1), noCreate, dryRun, replies);
      var r2 := ResolveMilestone(cache, Some(m2), noCreate, dryRun, replies);
      && r1.cache == r2.cache
      && r1.created == r2.created
      && r1.number.Success? == r2.number.Success?
      && (r1.number.Success? ==> r1.number == r2.number)
  {
    var l := replies.ensureListing;
    assert CreatesMilestone(l, m1, dryRun) == CreatesMilestone(l, m2, dryRun);
    var e1 := EnsureMilestone(l, m1, dryRun, replies.create);
    var e2 := EnsureMilestone(l, m2, dryRun, replies.create);
    assert e1.Success? == e2.Success? && (e1.Success? ==> e1 == e2) by {
      if l.Success? {
        var ms := MilestonesMap(Items(l.value));
        if Lower(m1) !in ms && !dryRun && replies.create.CommandFailed? {
          assert e1.Failure? && e2.Failure?;
        }
      }
    }
  }
}
