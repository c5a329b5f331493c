/**
 * One pass of the bot (`App::run`): read the guids already announced,
 * load the feed, keep the entries that passed validation, take them
 * oldest first, drop those already announced, process the new ones and
 * write the guid set back once.
 *
 * The guid file is read as `stored` (`None` when it is missing or
 * unreadable) and each write is recorded in `writes`; the feed download,
 * the price lookup and the outcome of the write are parameters.
 */
module App {
  import opened Wrappers
  import opened Text
  import opened Classifieds
  import Feed

  /** The three lines printed for a processed listing. */
  datatype Report = Report(title: Bytes, price: Bytes, link: Bytes)

  /** `Panicked` is the panic of `&new_items[..1]` on an empty list. */
  datatype RunOutcome = Completed | Failed(reason: Bytes) | Panicked

  /** The guid set a run starts with: the stored one, or empty when there is none. */
  function InitialGuids(stored: Option<set<Bytes>>): (r: set<Bytes>)
    ensures stored.None? ==> r == {}
    ensures stored.Some? ==> r == stored.value
  {
    if stored.Some? then stored.value else {}
  }

  /** `filter_map(|result| result.ok())`: the accepted entries, in feed order. */
  function ValidItems(entries: seq<Result<ClassifiedsItem, Feed.FeedError>>): (r: seq<ClassifiedsItem>)
    ensures |r| <= |entries|
    ensures forall x | x in r :: Ok(x) in entries
    ensures forall e | e in entries && e.Ok? :: e.value in r
  {
    if |entries| == 0 then []
    else
      var rest := ValidItems(entries[1..]);
      assert entries == [entries[0]] + entries[1..];
      match entries[0]
      case Ok(x) => [x] + rest
      case Err(_) => rest
  }

  function Reversed<T>(s: seq<T>): (r: seq<T>)
    ensures |r| == |s|
    ensures forall i | 0 <= i < |s| :: r[i] == s[|s| - 1 - i]
    ensures forall x | x in s :: x in r
  {
    if |s| == 0 then []
    else
      assert s == [s[0]] + s[1..];
      Reversed(s[1..]) + [s[0]]
  }

  /** `filter(|it| !guids.contains(it.guid()))`, order kept. */
  function Unseen(items: seq<ClassifiedsItem>, guids: set<Bytes>): (r: seq<ClassifiedsItem>)
    ensures |r| <= |items|
    ensures forall x | x in r :: x in items && x.Guid() !in guids
    ensures forall x | x in items && x.Guid() !in guids :: x in r
  {
    if |items| == 0 then []
    else
      var rest := Unseen(items[1..], guids);
      assert items == [items[0]] + items[1..];
      if items[0].Guid() in guids then rest else [items[0]] + rest
  }

  /** `new_items` before the cut: unannounced accepted entries, most recent feed position last in and first out. */
  function Candidates(entries: seq<Result<ClassifiedsItem, Feed.FeedError>>, guids: set<Bytes>): (r: seq<ClassifiedsItem>)
    ensures |r| <= |entries|
    ensures forall x | x in r :: x.Guid() !in guids && Ok(x) in entries
    ensures forall e | e in entries && e.Ok? && e.value.Guid() !in guids :: e.value in r
  {
    Unseen(Reversed(ValidItems(entries)), guids)
  }

  /** The guids of the items, as the set `process_new_items` adds to. */
  function GuidSet(items: seq<ClassifiedsItem>): (r: set<Bytes>)
    ensures forall x | x in items :: x.Guid() in r
    ensures forall g | g in r :: exists i | 0 <= i < |items| :: items[i].Guid() == g
  {
    set x | x in items :: x.Guid()
  }

  /** How far the loop over the selected items gets: the reports printed, and the price error that stopped it, if any. */
  datatype Progress = Progress(reports: seq<Report>, failure: Option<Bytes>)

  /**
   * The loop body for each item in turn: load the price (an error ends
   * the run), print the report. Every report printed belongs to an item
   * whose price loaded; a failure is the price error of the next item.
   */
  function Process(items: seq<ClassifiedsItem>, loadPrice: ClassifiedsItem -> Result<Bytes, Bytes>): (p: Progress)
    ensures |p.reports| <= |items|
    ensures p.failure.None? ==> |p.reports| == |items|
    ensures forall j | 0 <= j < |p.reports| ::
      loadPrice(items[j]).Ok? && p.reports[j] == Report(items[j].Title(), loadPrice(items[j]).value, items[j].Link())
    ensures p.failure.Some? ==> |p.reports| < |items| && loadPrice(items[|p.reports|]) == Err(p.failure.value)
  {
    if |items| == 0 then Progress([], None)
    else
      match loadPrice(items[0])
      case Err(e) => Progress([], Some(e))
      case Ok(price) =>
        var rest := Process(items[1..], loadPrice);
        Progress([Report(items[0].Title(), price, items[0].Link())] + rest.reports, rest.failure)
  }

  /** Processing one more item, after the ones before it. */
  lemma {:induction false} ProcessSnoc(items: seq<ClassifiedsItem>, x: ClassifiedsItem, loadPrice: ClassifiedsItem -> Result<Bytes, Bytes>)
    requires Process(items, loadPrice).failure.None?
    ensures Process(items + [x], loadPrice) ==
      match loadPrice(x)
      case Err(e) => Progress(Process(items, loadPrice).reports, Some(e))
      case Ok(price) => Progress(Process(items, loadPrice).reports + [Report(x.Title(), price, x.Link())], None)
  {
    if |items| > 0 {
      assert (items + [x])[1..] == items[1..] + [x];
      ProcessSnoc(items[1..], x, loadPrice);
    }
  }

  /**
   * `App::run`. A failed feed download ends the run before anything is
   * printed or written; an empty candidate list panics; otherwise only the
   * first candidate is processed, and if its price loads the guid set,
   * grown by its guid, is written exactly once.
   */
  method Run(
    stored: Option<set<Bytes>>,
    feed: Result<seq<Result<ClassifiedsItem, Feed.FeedError>>, Bytes>,
    loadPrice: ClassifiedsItem -> Result<Bytes, Bytes>,
    writeResult: Result<(), Bytes>)
    returns (outcome: RunOutcome, reports: seq<Report>, writes: seq<set<Bytes>>)
    ensures feed.Err? ==> outcome == Failed(feed.error) && reports == [] && writes == []
    ensures feed.Ok? && |Candidates(feed.value, InitialGuids(stored))| == 0 ==>
      outcome == Panicked && reports == [] && writes == []
    ensures feed.Ok? && |Candidates(feed.value, InitialGuids(stored))| > 0 ==>
      var selected := Candidates(feed.value, InitialGuids(stored))[..1];
      var progress := Process(selected, loadPrice);
      && reports == progress.reports
      && (progress.failure.Some? ==> outcome == Failed(progress.failure.value) && writes == [])
      && (progress.failure.None? ==>
            && writes == [InitialGuids(stored) + GuidSet(selected)]
            && outcome == (if writeResult.Ok? then Completed else Failed(writeResult.error)))
    ensures |writes| <= 1
    ensures outcome == Completed ==> |writes| == 1 && InitialGuids(stored) <= writes[0]
  {
    var guids := InitialGuids(stored);
    reports, writes := [], [];
    if feed.Err? {
      outcome := Failed(feed.error);
      return;
    }
    var items := ValidItems(feed.value);
    var newItems := Unseen(Reversed(items), guids);
    if |newItems| < 1 {
      outcome := Panicked;
      return;
    }
    var selected := newItems[..1];
    for i := 0 to |selected|
      invariant Process(selected[..i], loadPrice) == Progress(reports, None)
      invariant guids == InitialGuids(stored) + GuidSet(selected[..i])
    {
      var item := selected[i];
      assert selected[..i + 1] == selected[..i] + [item];
      ProcessSnoc(selected[..i], item, loadPrice);
      match loadPrice(item) {
        case Err(e) =>
          ProcessStopped(selected, i, loadPrice);
          outcome := Failed(e);
          return;
        case Ok(price) =>
          reports := reports + [Report(item.Title(), price, item.Link())];
          guids := guids + {item.Guid()};
      }
    }
    assert selected[..|selected|] == selected;
    writes := [guids];
    outcome := if writeResult.Ok? then Completed else Failed(writeResult.error);
  }

  /** A price error ends the loop: later items change nothing. */
  lemma {:induction false} ProcessStopped(items: seq<ClassifiedsItem>, i: nat, loadPrice: ClassifiedsItem -> Result<Bytes, Bytes>)
    requires i < |items| && Process(items[..i], loadPrice).failure.None? && loadPrice(items[i]).Err?
    ensures Process(items, loadPrice) == Progress(Process(items[..i], loadPrice).reports, Some(loadPrice(items[i]).error))
  {
    if i > 0 {
      assert items[..i][1..] == items[1..][..i - 1];
      ProcessStopped(items[1..], i - 1, loadPrice);
    }
  }

  /** An entry further down the feed comes first: the feed is taken in reverse. */
  lemma {:induction false} CandidatesReverseFeed(entries: seq<Result<ClassifiedsItem, Feed.FeedError>>, x: ClassifiedsItem, guids: set<Bytes>)
    ensures Candidates(entries + [Ok(x)], guids) ==
      (if x.Guid() in guids then [] else [x]) + Candidates(entries, guids)
  {
    ValidItemsSnoc(entries, Ok(x));
    assert Reversed(ValidItems(entries) + [x]) == [x] + Reversed(ValidItems(entries));
    assert ([x] + Reversed(ValidItems(entries)))[1..] == Reversed(ValidItems(entries));
  }

  /** An entry that failed validation is dropped without a trace. */
  lemma {:induction false} InvalidEntryIgnored(entries: seq<Result<ClassifiedsItem, Feed.FeedError>>, e: Feed.FeedError, guids: set<Bytes>)
    ensures Candidates(entries + [Err(e)], guids) == Candidates(entries, guids)
  {
    ValidItemsSnoc(entries, Err(e));
    assert ValidItems(entries) + [] == ValidItems(entries);
  }

  lemma {:induction false} ValidItemsSnoc(entries: seq<Result<ClassifiedsItem, Feed.FeedError>>, r: Result<ClassifiedsItem, Feed.FeedError>)
    ensures ValidItems(entries + [r]) == ValidItems(entries) + (if r.Ok? then [r.value] else [])
  {
    if |entries| > 0 {
      assert (entries + [r])[1..] == entries[1..] + [r];
      ValidItemsSnoc(entries[1..], r);
    }
  }

  /**
   * Two new listings `b` then `a` in the feed: `a`, the later one, is the
   * only one processed, and the written set is the old one plus its guid.
   */
  lemma OnlyLastInFeedProcessed(
    b: ClassifiedsItem, a: ClassifiedsItem, guids: set<Bytes>)
    requires a.Guid() !in guids && b.Guid() !in guids
    ensures Candidates([Ok(b), Ok(a)], guids) == [a, b]
    ensures Candidates([Ok(b), Ok(a)], guids)[..1] == [a]
    ensures guids + GuidSet([a]) == guids + {a.Guid()}
  {
    var older: seq<Result<ClassifiedsItem, Feed.FeedError>> := [Ok(b)];
    CandidatesReverseFeed(older, a, guids);
    assert older + [Ok(a)] == [Ok(b), Ok(a)];
    CandidatesReverseFeed([], b, guids);
    assert [] + [Ok(b)] == older;
  }
}
