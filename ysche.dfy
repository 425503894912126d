/**
 * Y_Sche.py's main(): a month-by-month crawl of a browser-rendered schedule
 * calendar, the dedup of its events against the ledger keys, and the
 * skip-or-render decision. The browser is replaced by an injected outcome per
 * month; the markup lookups by the day blocks they would return.
 */
module YSche {
  import opened Common
  import opened Ledger
  import opened Dedup
  import opened Calendar
  import opened YScheKeys

  /** One schedule link of a day block. A missing category tag is None: the
      source reads its `.text`, which raises and ends that month's processing. */
  datatype Event = Event(title: string, href: Url, category: Option<string>, startTime: string)

  /** One day block: its date tag's text, if the tag is there, and its links. */
  datatype DayBlock = DayBlock(dateTag: Option<string>, events: seq<Event>)

  /** What one month's page yields. */
  datatype MonthOutcome =
    | Rendered(scheduleList: Option<seq<DayBlock>>) // page ready; None: no list container (AttributeError)
    | TimedOut                                      // goto or a readiness wait exceeded its timeout
    | Failed                                        // any other exception while loading the page
    | NewPageFailed                                 // browser.newPage() raised, outside the per-month handler

  /** A scanned event with the date string of its day block. */
  datatype Cand = Cand(date: string, ev: Event)

  /** Months strftime('%Y%m') renders with four year digits. */
  predicate Formattable(d: Date) {
    1000 <= d.year <= 9999 && 1 <= d.month <= 12
  }

  function CandKey(c: Cand): (string, string) {
    (c.date, ExtractUrlPart(c.ev.href))
  }

  /** The strptime(date, "%Y/%m/%d") gate. */
  predicate CandAdmit(c: Cand) {
    ParseSlashDate(c.date).Some?
  }

  function ToRow(c: Cand): (r: SchedRow)
    ensures RowKey(r) == CandKey(c)
  {
    SchedRow(c.date, c.ev.title, c.ev.href, if c.ev.category.Some? then c.ev.category.value else "", c.ev.startTime)
  }

  function ToRows(cs: seq<Cand>): (rs: seq<SchedRow>)
    ensures |rs| == |cs| && forall i :: 0 <= i < |cs| ==> rs[i] == ToRow(cs[i])
  {
    seq(|cs|, i requires 0 <= i < |cs| => ToRow(cs[i]))
  }

  // ---------------------------------------------------------------------------
  // Scanning one month.

  function EventCands(date: string, evs: seq<Event>): (r: seq<Cand>)
    ensures |r| == |evs| && forall i :: 0 <= i < |evs| ==> r[i] == Cand(date, evs[i])
  {
    seq(|evs|, i requires 0 <= i < |evs| => Cand(date, evs[i]))
  }

  /** A day block without a date tag is skipped. */
  function BlockCands(month: Date, b: DayBlock): seq<Cand>
    requires Formattable(month)
  {
    if b.dateTag.None? then [] else EventCands(DayBlockDate(month, b.dateTag.value), b.events)
  }

  /** All events of a month's day blocks, in page order. */
  function MonthCands(month: Date, blocks: seq<DayBlock>): seq<Cand>
    requires Formattable(month)
  {
    if blocks == [] then []
    else MonthCands(month, blocks[..|blocks| - 1]) + BlockCands(month, blocks[|blocks| - 1])
  }

  /** The position of the first event whose category lookup raises, or the
      length when none does. */
  function RaiseAt(cs: seq<Cand>): (k: nat)
    ensures k <= |cs|
    ensures forall i :: 0 <= i < k ==> cs[i].ev.category.Some?
    ensures k < |cs| ==> cs[k].ev.category.None?
  {
    if cs == [] || cs[0].ev.category.None? then 0
    else 1 + RaiseAt(cs[1..])
  }

  predicate Raises(cs: seq<Cand>) {
    RaiseAt(cs) < |cs|
  }

  /** The events processed before the first one that raises. */
  function UntilRaise(cs: seq<Cand>): seq<Cand> {
    cs[..RaiseAt(cs)]
  }

  /** The first raise is the position before which every category is there
      and at which (unless it is the end) one is missing. */
  lemma {:induction false} RaiseAtIs(cs: seq<Cand>, k: nat)
    requires k <= |cs|
    requires forall i :: 0 <= i < k ==> cs[i].ev.category.Some?
    requires k < |cs| ==> cs[k].ev.category.None?
    ensures RaiseAt(cs) == k
  {
    if cs != [] && k > 0 {
      assert cs[0].ev.category.Some?;
      assert forall i :: 0 <= i < k - 1 ==> cs[1..][i] == cs[i + 1];
      RaiseAtIs(cs[1..], k - 1);
    }
  }

  /** How the first raise of a concatenation follows from its parts'. */
  lemma RaiseAtAppend(p: seq<Cand>, q: seq<Cand>)
    ensures RaiseAt(p + q) == if Raises(p) then RaiseAt(p) else |p| + RaiseAt(q)
  {
    var t := p + q;
    if Raises(p) {
      RaiseAtIs(t, RaiseAt(p));
    } else {
      var k := |p| + RaiseAt(q);
      forall i | 0 <= i < k ensures t[i].ev.category.Some? {
        if i >= |p| {
          assert t[i] == q[i - |p|];
        }
      }
      if k < |t| {
        assert t[k] == q[RaiseAt(q)];
      }
      RaiseAtIs(t, k);
    }
  }

  lemma {:induction false} MonthCandsAppend(month: Date, a: seq<DayBlock>, b: seq<DayBlock>)
    requires Formattable(month)
    ensures MonthCands(month, a + b) == MonthCands(month, a) + MonthCands(month, b)
    decreases |b|
  {
    if b == [] {
      assert a + b == a;
    } else {
      var ab, b', x := a + b, b[..|b| - 1], b[|b| - 1];
      assert ab[..|ab| - 1] == a + b';
      assert ab[|ab| - 1] == x;
      assert MonthCands(month, ab) == MonthCands(month, a + b') + BlockCands(month, x);
      MonthCandsAppend(month, a, b');
      ConcatAssoc(MonthCands(month, a), MonthCands(month, b'), BlockCands(month, x));
    }
  }

  /** The month's candidates up to and including day block i. */
  lemma MonthCandsTake(month: Date, blocks: seq<DayBlock>, i: nat)
    requires Formattable(month) && i < |blocks|
    ensures MonthCands(month, blocks[..i + 1]) == MonthCands(month, blocks[..i]) + BlockCands(month, blocks[i])
  {
    var pre := blocks[..i + 1];
    assert pre[..|pre| - 1] == blocks[..i];
    assert pre[|pre| - 1] == blocks[i];
  }

  /** The month's candidates around day block i. */
  lemma MonthCandsSplit(month: Date, blocks: seq<DayBlock>, i: nat)
    requires Formattable(month) && i < |blocks|
    ensures MonthCands(month, blocks) ==
      MonthCands(month, blocks[..i]) + BlockCands(month, blocks[i]) + MonthCands(month, blocks[i + 1..])
    ensures MonthCands(month, blocks[..i + 1]) == MonthCands(month, blocks[..i]) + BlockCands(month, blocks[i])
  {
    var a, b := blocks[..i + 1], blocks[i + 1..];
    assert a + b == blocks;
    MonthCandsTake(month, blocks, i);
    MonthCandsAppend(month, a, b);
    assert MonthCands(month, blocks) == MonthCands(month, a) + MonthCands(month, b);
  }

  /** The link loop of one day block (lines 130-154), up to the link whose
      category lookup raises. */
  method ScanEvents(date: string, evs: seq<Event>) returns (got: seq<Cand>, raised: bool)
    ensures got == UntilRaise(EventCands(date, evs))
    ensures raised <==> Raises(EventCands(date, evs))
  {
    got := [];
    var j := 0;
    while j < |evs| && evs[j].category.Some?
      invariant 0 <= j <= |evs|
      invariant got == EventCands(date, evs[..j])
      invariant forall i :: 0 <= i < j ==> evs[i].category.Some?
    {
      assert EventCands(date, evs[..j + 1]) == got + [Cand(date, evs[j])];
      got := got + [Cand(date, evs[j])];
      j := j + 1;
    }
    RaiseAtIs(EventCands(date, evs), j);
    raised := j < |evs|;
  }

  /** A raise inside the middle part of p + b + q, after a p that does not raise. */
  lemma RaiseSplit(p: seq<Cand>, b: seq<Cand>, q: seq<Cand>)
    requires !Raises(p)
    ensures Raises(b) ==> UntilRaise(p + (b + q)) == p + UntilRaise(b) && Raises(p + (b + q))
    ensures !Raises(b) ==> !Raises(p + b)
  {
    RaiseAtAppend(p, b + q);
    RaiseAtAppend(b, q);
    RaiseAtAppend(p, b);
    if Raises(b) {
      assert (p + (b + q))[..|p| + RaiseAt(b)] == p + b[..RaiseAt(b)];
    }
  }

  /** Scanning day block i after blocks that did not raise. */
  lemma MonthStep(month: Date, blocks: seq<DayBlock>, i: nat)
    requires Formattable(month) && i < |blocks|
    requires !Raises(MonthCands(month, blocks[..i]))
    ensures var pre := MonthCands(month, blocks[..i]);
      var bc := BlockCands(month, blocks[i]);
      var all := MonthCands(month, blocks);
      && (Raises(bc) ==> UntilRaise(all) == pre + UntilRaise(bc) && Raises(all))
      && (!Raises(bc) ==> MonthCands(month, blocks[..i + 1]) == pre + bc && !Raises(pre + bc))
  {
    MonthCandsSplit(month, blocks, i);
    var pre := MonthCands(month, blocks[..i]);
    var bc := BlockCands(month, blocks[i]);
    var rest := MonthCands(month, blocks[i + 1..]);
    ConcatAssoc(pre, bc, rest);
    RaiseSplit(pre, bc, rest);
  }

  /** The day-block loop of lines 120-154, up to the event that raises. */
  method ScanMonth(month: Date, blocks: seq<DayBlock>) returns (cands: seq<Cand>, raised: bool)
    requires Formattable(month)
    ensures cands == UntilRaise(MonthCands(month, blocks))
    ensures raised <==> Raises(MonthCands(month, blocks))
  {
    cands, raised := [], false;
    var i := 0;
    while i < |blocks| && !raised
      invariant 0 <= i <= |blocks|
      invariant !raised ==> cands == MonthCands(month, blocks[..i]) && !Raises(cands)
      invariant raised ==> cands == UntilRaise(MonthCands(month, blocks)) && Raises(MonthCands(month, blocks))
    {
      var b := blocks[i];
      MonthStep(month, blocks, i);
      if b.dateTag.Some? {
        var got, r := ScanEvents(DayBlockDate(month, b.dateTag.value), b.events);
        if !r {
          assert got == BlockCands(month, b);
        }
        cands, raised := cands + got, r;
      } else {
        assert BlockCands(month, b) == [];
        assert cands + [] == cands;
      }
      i := i + 1;
    }
    if !raised {
      assert blocks[..|blocks|] == blocks;
      assert cands[..|cands|] == cands;
    }
  }

  // ---------------------------------------------------------------------------
  // The month walk.

  predicate AllFormattable(months: seq<Date>) {
    forall i :: 0 <= i < |months| ==> Formattable(months[i])
  }

  /** The candidates one month contributes: nothing unless the page rendered
      its list; otherwise the events before any that raises. */
  function MonthYield(month: Date, o: MonthOutcome): seq<Cand>
    requires Formattable(month)
  {
    match o
    case Rendered(Some(blocks)) => UntilRaise(MonthCands(month, blocks))
    case _ => []
  }

  /** The candidates of the walk, month by month; a failing newPage() ends
      the walk, keeping what earlier months gave. */
  function CrawlCands(months: seq<Date>, outcome: Date -> MonthOutcome): seq<Cand>
    requires AllFormattable(months)
  {
    if months == [] || outcome(months[0]).NewPageFailed? then []
    else MonthYield(months[0], outcome(months[0])) + CrawlCands(months[1..], outcome)
  }

  /** The number of pages the walk opens (each is closed again). */
  function PagesOpened(months: seq<Date>, outcome: Date -> MonthOutcome): (r: nat)
    ensures r <= |months|
  {
    if months == [] || outcome(months[0]).NewPageFailed? then 0
    else 1 + PagesOpened(months[1..], outcome)
  }

  /** The months the walk visits for a given day. */
  function WalkMonths(today: Date): seq<Date>
    requires Valid(today)
  {
    WalkStartIsPreviousMonth(today);
    Walk(WalkStart(today), WalkEnd(WalkStart(today)))
  }

  /** Every visited month is formattable, and there are 3 or 4 of them. */
  lemma WalkMonthsFormattable(today: Date)
    requires Valid(today) && 1001 <= today.year <= 9998
    ensures |WalkMonths(today)| == 3 || |WalkMonths(today)| == 4
    ensures AllFormattable(WalkMonths(today))
  {
    WalkStartIsPreviousMonth(today);
    WalkLength(WalkStart(today));
  }

  /** The candidates of the whole crawl: none if the browser failed to launch. */
  function CrawlInput(today: Date, launched: bool, outcome: Date -> MonthOutcome): seq<Cand>
    requires Valid(today) && 1001 <= today.year <= 9998
  {
    WalkMonthsFormattable(today);
    if launched then CrawlCands(WalkMonths(today), outcome) else []
  }

  /** What the whole crawl accepts against the known keys. */
  function CrawlResult(today: Date, launched: bool, outcome: Date -> MonthOutcome, known: set<(string, string)>)
    : Sifted<Cand, (string, string)>
    requires Valid(today) && 1001 <= today.year <= 9998
  {
    Sieve(CrawlInput(today, launched, outcome), known, CandKey, CandAdmit)
  }

  /** One month of the walk unfolded. */
  lemma CrawlUnfold(months: seq<Date>, i: nat, outcome: Date -> MonthOutcome)
    requires AllFormattable(months) && i < |months|
    ensures AllFormattable(months[i..]) && AllFormattable(months[i + 1..])
    ensures CrawlCands(months[i..], outcome) ==
      if outcome(months[i]).NewPageFailed? then [] else MonthYield(months[i], outcome(months[i])) + CrawlCands(months[i + 1..], outcome)
    ensures PagesOpened(months[i..], outcome) ==
      if outcome(months[i]).NewPageFailed? then 0 else 1 + PagesOpened(months[i + 1..], outcome)
  {
    assert months[i..][0] == months[i];
    assert months[i..][1..] == months[i + 1..];
  }

  /** The month step of the walk: the accepted rows so far followed by what
      the rest of the walk accepts stay equal to what the whole walk accepts. */
  lemma CrawlStep(acc: seq<Cand>, got: seq<Cand>, more: seq<Cand>, tail: seq<Cand>,
                  keys: set<(string, string)>, keys2: set<(string, string)>)
    requires Sieve(got, keys, CandKey, CandAdmit) == Sifted(more, keys2)
    ensures var r := Sieve(got + tail, keys, CandKey, CandAdmit);
      var r2 := Sieve(tail, keys2, CandKey, CandAdmit);
      acc + r.accepted == (acc + more) + r2.accepted && r.keys == r2.keys
  {
    SieveAppend(got, tail, keys, CandKey, CandAdmit);
    ConcatAssoc(acc, more, Sieve(tail, keys2, CandKey, CandAdmit).accepted);
  }

  /** The month walk's loop invariant after i months: the rows accepted so
      far, followed by what the remaining months accept against the keys so
      far, are what the whole walk accepts, and the pages opened so far plus
      those the remaining months open are the walk's. */
  ghost predicate WalkInv(W: seq<Date>, i: nat, outcome: Date -> MonthOutcome, known: set<(string, string)>,
                          acc: seq<Cand>, keys: set<(string, string)>, pages: nat)
  {
    && i <= |W| && AllFormattable(W) && AllFormattable(W[i..])
    && (var r := Sieve(CrawlCands(W[i..], outcome), keys, CandKey, CandAdmit);
        Sieve(CrawlCands(W, outcome), known, CandKey, CandAdmit) == Sifted(acc + r.accepted, r.keys))
    && PagesOpened(W, outcome) == pages + PagesOpened(W[i..], outcome)
  }

  /** The invariant holds before the first month. */
  lemma WalkInvStart(W: seq<Date>, outcome: Date -> MonthOutcome, known: set<(string, string)>)
    requires AllFormattable(W)
    ensures WalkInv(W, 0, outcome, known, [], known, 0)
  {
    assert W[0..] == W;
  }

  /** The invariant carried over one month whose page opened. */
  lemma WalkInvStep(W: seq<Date>, i: nat, outcome: Date -> MonthOutcome, known: set<(string, string)>,
                    acc: seq<Cand>, keys: set<(string, string)>, pages: nat, more: seq<Cand>, keys2: set<(string, string)>)
    requires WalkInv(W, i, outcome, known, acc, keys, pages)
    requires i < |W| && !outcome(W[i]).NewPageFailed?
    requires Sifted(more, keys2) == Sieve(MonthYield(W[i], outcome(W[i])), keys, CandKey, CandAdmit)
    ensures WalkInv(W, i + 1, outcome, known, acc + more, keys2, pages + 1)
  {
    CrawlUnfold(W, i, outcome);
    CrawlStep(acc, MonthYield(W[i], outcome(W[i])), more, CrawlCands(W[i + 1..], outcome), keys, keys2);
  }

  /** When the walk runs out of months or newPage() fails, the invariant
      gives the whole walk's result. */
  lemma WalkInvEnd(W: seq<Date>, i: nat, outcome: Date -> MonthOutcome, known: set<(string, string)>,
                   acc: seq<Cand>, keys: set<(string, string)>, pages: nat)
    requires WalkInv(W, i, outcome, known, acc, keys, pages)
    requires i == |W| || outcome(W[i]).NewPageFailed?
    ensures Sifted(acc, keys) == Sieve(CrawlCands(W, outcome), known, CandKey, CandAdmit)
    ensures pages == PagesOpened(W, outcome)
  {
    if i < |W| {
      CrawlUnfold(W, i, outcome);
    } else {
      assert W[i..] == [];
    }
    assert acc + [] == acc;
  }

  /** One month's page that opened (lines 102-163): its events up to any that
      raises, filtered against the keys so far. */
  method VisitMonth(month: Date, o: MonthOutcome, keys: set<(string, string)>)
    returns (more: seq<Cand>, keys2: set<(string, string)>)
    requires Formattable(month)
    ensures Sifted(more, keys2) == Sieve(MonthYield(month, o), keys, CandKey, CandAdmit)
  {
    var got: seq<Cand> := [];
    match o {
      case Rendered(Some(blocks)) =>
        var raised;
        got, raised := ScanMonth(month, blocks);
      case _ =>
    }
    more, keys2 := FilterNew(got, keys, CandKey, CandAdmit);
  }

  /** One month of the walk whose page opened: the rows it accepts are
      appended, and the walk's invariant moves past the month. */
  method WalkMonth(ghost W: seq<Date>, ghost i: nat, cur: Date, o: MonthOutcome, ghost outcome: Date -> MonthOutcome,
                   ghost known: set<(string, string)>, acc: seq<Cand>, keys: set<(string, string)>, ghost pages: nat)
    returns (acc2: seq<Cand>, keys2: set<(string, string)>)
    requires WalkInv(W, i, outcome, known, acc, keys, pages)
    requires i < |W| && W[i] == cur && o == outcome(cur) && !o.NewPageFailed?
    ensures WalkInv(W, i + 1, outcome, known, acc2, keys2, pages + 1)
  {
    var more, k2 := VisitMonth(cur, o, keys);
    WalkInvStep(W, i, outcome, known, acc, keys, pages, more, k2);
    acc2, keys2 := acc + more, k2;
  }

  /** A month not after end is the walk's next month, and the walk goes on
      from the month after it. */
  lemma WalkAt(W: seq<Date>, i: nat, cur: Date, end: Date)
    requires Valid(cur) && cur.day == 1 && Valid(end) && i <= |W|
    requires Walk(cur, end) == W[i..] && Le(cur, end)
    ensures i < |W| && W[i] == cur && Walk(Step(cur), end) == W[i + 1..]
  {
    WalkUnfold(cur, end);
    assert W[i..][1..] == W[i + 1..];
  }

  /** A month after end means the walk is over. */
  lemma WalkOver(W: seq<Date>, i: nat, cur: Date, end: Date)
    requires Valid(cur) && cur.day == 1 && Valid(end) && i <= |W|
    requires Walk(cur, end) == W[i..] && !Le(cur, end)
    ensures i == |W|
  {
    WalkUnfold(cur, end);
  }

  /** The month loop of lines 97-168, from start while the month is not
      after end. */
  method WalkLoop(start: Date, end: Date, outcome: Date -> MonthOutcome, known: set<(string, string)>)
    returns (acc: seq<Cand>, keys: set<(string, string)>, pagesOpened: nat, pagesClosed: nat)
    requires Valid(start) && start.day == 1 && Valid(end)
    requires AllFormattable(Walk(start, end))
    ensures Sifted(acc, keys) == Sieve(CrawlCands(Walk(start, end), outcome), known, CandKey, CandAdmit)
    ensures pagesOpened == pagesClosed == PagesOpened(Walk(start, end), outcome)
  {
    ghost var W := Walk(start, end);
    acc, keys, pagesOpened, pagesClosed := [], known, 0, 0;
    var cur := start;
    ghost var i := 0;
    WalkInvStart(W, outcome, known);
    while Le(cur, end)
      invariant 0 <= i <= |W| && Valid(cur) && cur.day == 1
      invariant Walk(cur, end) == W[i..]
      invariant pagesOpened == pagesClosed
      invariant WalkInv(W, i, outcome, known, acc, keys, pagesOpened)
      decreases |W| - i
    {
      WalkAt(W, i, cur, end);
      var o := outcome(cur);
      if o.NewPageFailed? {
        // the exception reaches the outer handler: the walk is over
        WalkInvEnd(W, i, outcome, known, acc, keys, pagesOpened);
        return;
      }
      pagesOpened := pagesOpened + 1;
      acc, keys := WalkMonth(W, i, cur, o, outcome, known, acc, keys, pagesOpened - 1);
      pagesClosed := pagesClosed + 1;
      cur := Step(cur);
      i := i + 1;
    }
    WalkOver(W, i, cur, end);
    WalkInvEnd(W, i, outcome, known, acc, keys, pagesOpened);
  }

  /** Lines 75-176: the walk with its per-month isolation and the browser's
      clean-up. Returns the new rows, the key set after them, how many pages
      were opened and closed, and whether the browser was closed. */
  method Crawl(today: Date, launched: bool, outcome: Date -> MonthOutcome, known: set<(string, string)>)
    returns (newRows: seq<SchedRow>, keys: set<(string, string)>, pagesOpened: nat, pagesClosed: nat, browserClosed: bool)
    requires Valid(today) && 1001 <= today.year <= 9998
    ensures Sifted(newRows, keys) == Sifted(ToRows(CrawlResult(today, launched, outcome, known).accepted), CrawlResult(today, launched, outcome, known).keys)
    ensures pagesOpened == pagesClosed
    ensures pagesOpened == if launched then PagesOpened(WalkMonths(today), outcome) else 0
    ensures browserClosed == launched
  {
    WalkMonthsFormattable(today);
    var acc: seq<Cand> := [];
    keys, pagesOpened, pagesClosed := known, 0, 0;
    if launched {
      var start := WalkStart(today);
      WalkStartIsPreviousMonth(today);
      acc, keys, pagesOpened, pagesClosed := WalkLoop(start, WalkEnd(start), outcome, known);
    }
    newRows := ToRows(acc);
    browserClosed := launched;
  }

  /** A month that times out or fails adds nothing, and the walk goes on:
      the crawl is the concatenation of the other months' yields. */
  lemma {:induction false} CrawlSkipsFailedMonth(months: seq<Date>, outcome: Date -> MonthOutcome, k: nat)
    requires AllFormattable(months)
    requires k < |months| && (outcome(months[k]).TimedOut? || outcome(months[k]).Failed?)
    requires forall i :: 0 <= i < k ==> !outcome(months[i]).NewPageFailed?
    ensures AllFormattable(months[..k]) && AllFormattable(months[k + 1..])
    ensures CrawlCands(months, outcome) == CrawlCands(months[..k], outcome) + CrawlCands(months[k + 1..], outcome)
  {
    var m1, p, q := months[1..], months[..k], months[k + 1..];
    assert AllFormattable(m1);
    if k == 0 {
      assert m1 == q && p == [];
    } else {
      CrawlSkipsFailedMonth(m1, outcome, k - 1);
      assert m1[..k - 1] == p[1..] && m1[k..] == q && p[0] == months[0];
      var y0 := MonthYield(months[0], outcome(months[0]));
      assert CrawlCands(months, outcome) == y0 + CrawlCands(m1, outcome);
      assert CrawlCands(p, outcome) == y0 + CrawlCands(p[1..], outcome);
      ConcatAssoc(y0, CrawlCands(p[1..], outcome), CrawlCands(q, outcome));
    }
  }

  /** Earlier months' candidates are never discarded, whatever happens later. */
  lemma {:induction false} CrawlKeepsEarlier(months: seq<Date>, outcome: Date -> MonthOutcome, k: nat)
    requires AllFormattable(months)
    requires k <= |months|
    ensures AllFormattable(months[..k])
    ensures CrawlCands(months[..k], outcome) <= CrawlCands(months, outcome)
  {
    if k > 0 {
      assert months[..k][0] == months[0];
      assert AllFormattable(months[1..]);
      if !outcome(months[0]).NewPageFailed? {
        CrawlKeepsEarlier(months[1..], outcome, k - 1);
        assert months[1..][..k - 1] == months[..k][1..];
      }
    }
  }

  /** So the rows accepted from earlier months open the crawl's result. */
  lemma EarlierRowsKept(months: seq<Date>, outcome: Date -> MonthOutcome, k: nat, known: set<(string, string)>)
    requires AllFormattable(months)
    requires k <= |months|
    ensures AllFormattable(months[..k])
    ensures Sieve(CrawlCands(months[..k], outcome), known, CandKey, CandAdmit).accepted
         <= Sieve(CrawlCands(months, outcome), known, CandKey, CandAdmit).accepted
  {
    CrawlKeepsEarlier(months, outcome, k);
    SievePrefix(CrawlCands(months[..k], outcome), CrawlCands(months, outcome), known, CandKey, CandAdmit);
  }

  /** Within a month, the events before the one that raises are kept. */
  lemma MonthKeepsBeforeRaise(month: Date, blocks: seq<DayBlock>, k: nat)
    requires Formattable(month)
    requires k <= |MonthCands(month, blocks)|
    requires forall i :: 0 <= i < k ==> MonthCands(month, blocks)[i].ev.category.Some?
    ensures MonthCands(month, blocks)[..k] <= MonthYield(month, Rendered(Some(blocks)))
  {
  }

  /** An event is admitted exactly when its day tag is a %d field naming a
      day of the month being walked. */
  lemma DateGate(month: Date, dayText: string, e: Event)
    requires Formattable(month)
    ensures CandAdmit(Cand(DayBlockDate(month, dayText), e)) <==>
      DayField(dayText).Some? && DayField(dayText).value <= DaysInMonth(month.year, month.month)
  {
    DayBlockDateParses(month, dayText);
  }

  // ---------------------------------------------------------------------------
  // The ledger side.

  /** read_last_n_lines: [] for a missing file, otherwise the last n rows
      sorted by pubDate, descending and stable. */
  method ReadLastNByDate(ledger: AppendLedger<SchedRow>, n: nat) returns (w: seq<SchedRow>)
    ensures ledger.file.Absent? ==> w == []
    ensures ledger.file.Present? ==> w == SortByDateDesc(LastN(Rows(ledger.file), n))
  {
    if ledger.file.Absent? {
      return [];
    }
    var last := ledger.ReadTail(n);
    w := SortByDateDesc(last);
  }

  /** The Y_Sche window holds min(300, ledger size) rows, newest date first,
      and is a permutation of the ledger's last rows. */
  lemma WindowShape(rows: seq<SchedRow>)
    ensures var w := SortByDateDesc(LastN(rows, MaxXmlItems));
      && |w| == Min(MaxXmlItems, |rows|)
      && SortedDesc(w)
      && multiset(w) == multiset(LastN(rows, MaxXmlItems))
  {
    var t := LastN(rows, MaxXmlItems);
    SortByDateDescCorrect(t);
    assert |multiset(SortByDateDesc(t))| == |multiset(t)|;
  }

  /** The run after the crawl: no new rows means no append and no XML;
      otherwise the rows are appended and the window is rebuilt. */
  method Run(ledger: AppendLedger<SchedRow>, today: Date, launched: bool, outcome: Date -> MonthOutcome)
    returns (xml: Option<seq<SchedRow>>)
    requires Valid(today) && 1001 <= today.year <= 9998
    modifies ledger
    ensures var r := CrawlResult(today, launched, outcome, KeysOf(Rows(old(ledger.file)), RowKey));
      r.accepted == [] ==> ledger.file == old(ledger.file) && xml == None
    ensures var r := CrawlResult(today, launched, outcome, KeysOf(Rows(old(ledger.file)), RowKey));
      r.accepted != [] ==> ledger.file == Appended(old(ledger.file), ToRows(r.accepted))
    ensures var r := CrawlResult(today, launched, outcome, KeysOf(Rows(old(ledger.file)), RowKey));
      r.accepted != [] ==> xml == Some(SortByDateDesc(LastN(Rows(ledger.file), MaxXmlItems)))
    ensures ledger.file == RunFile(old(ledger.file), today, launched, outcome)
  {
    var known := ledger.LoadKeys(RowKey);
    var newRows, keys, pagesOpened, pagesClosed, browserClosed := Crawl(today, launched, outcome, known);
    if newRows == [] {
      return None;
    }
    ledger.Append(newRows);
    var w := ReadLastNByDate(ledger, MaxXmlItems);
    xml := Some(w);
  }

  /** The rows a crawl accepts have keys distinct from each other and from
      the ledger's. */
  lemma CrawlAcceptsFreshKeys(today: Date, launched: bool, outcome: Date -> MonthOutcome, known: set<(string, string)>)
    requires Valid(today) && 1001 <= today.year <= 9998
    ensures var rows := ToRows(CrawlResult(today, launched, outcome, known).accepted);
      && (forall i, j :: 0 <= i < j < |rows| ==> RowKey(rows[i]) != RowKey(rows[j]))
      && (forall i :: 0 <= i < |rows| ==> RowKey(rows[i]) !in known)
  {
    var cs := CrawlInput(today, launched, outcome);
    SieveDistinct(cs, known, CandKey, CandAdmit);
    SieveSound(cs, known, CandKey, CandAdmit);
  }

  /** Running again over the same pages after a run adds nothing. */
  lemma CrawlRerunAddsNothing(today: Date, launched: bool, outcome: Date -> MonthOutcome, known: set<(string, string)>)
    requires Valid(today) && 1001 <= today.year <= 9998
    ensures var keys := CrawlResult(today, launched, outcome, known).keys;
      CrawlResult(today, launched, outcome, keys).accepted == []
  {
    SieveIdempotent(CrawlInput(today, launched, outcome), known, CandKey, CandAdmit);
  }

  /** The ledger after one run: the accepted rows appended, unchanged when
      there are none. */
  ghost function RunFile(f: CsvFile<SchedRow>, today: Date, launched: bool, outcome: Date -> MonthOutcome)
    : CsvFile<SchedRow>
    requires Valid(today) && 1001 <= today.year <= 9998
  {
    Appended(f, ToRows(CrawlResult(today, launched, outcome, KeysOf(Rows(f), RowKey)).accepted))
  }

  /** The keys of the ledger after a run are the key set the crawl ended with. */
  lemma RunLedgerKeys(f: CsvFile<SchedRow>, today: Date, launched: bool, outcome: Date -> MonthOutcome)
    requires Valid(today) && 1001 <= today.year <= 9998
    ensures KeysOf(Rows(RunFile(f, today, launched, outcome)), RowKey)
         == CrawlResult(today, launched, outcome, KeysOf(Rows(f), RowKey)).keys
  {
    var known := KeysOf(Rows(f), RowKey);
    var cs := CrawlInput(today, launched, outcome);
    var r := CrawlResult(today, launched, outcome, known);
    var n := ToRows(r.accepted);
    SieveDistinct(cs, known, CandKey, CandAdmit);
    KeysOfMapped(r.accepted, n, CandKey, RowKey);
    KeysOfConcat(Rows(f), n, RowKey);
    assert Rows(RunFile(f, today, launched, outcome)) == Rows(f) + n;
  }

  /** Running again over the same pages, against the ledger the first run
      left, accepts nothing and leaves that ledger as it is. */
  lemma RerunAddsNothing(f: CsvFile<SchedRow>, today: Date, launched: bool, outcome: Date -> MonthOutcome)
    requires Valid(today) && 1001 <= today.year <= 9998
    ensures var f2 := RunFile(f, today, launched, outcome);
      && CrawlResult(today, launched, outcome, KeysOf(Rows(f2), RowKey)).accepted == []
      && RunFile(f2, today, launched, outcome) == f2
  {
    RunLedgerKeys(f, today, launched, outcome);
    CrawlRerunAddsNothing(today, launched, outcome, KeysOf(Rows(f), RowKey));
  }

  /** A ledger whose keys are distinct keeps them distinct after a run. */
  lemma RunKeepsKeysDistinct(f: CsvFile<SchedRow>, today: Date, launched: bool, outcome: Date -> MonthOutcome)
    requires Valid(today) && 1001 <= today.year <= 9998
    requires KeysDistinct(Rows(f), RowKey)
    ensures KeysDistinct(Rows(RunFile(f, today, launched, outcome)), RowKey)
  {
    var known := KeysOf(Rows(f), RowKey);
    var r := CrawlResult(today, launched, outcome, known);
    var n := ToRows(r.accepted);
    CrawlAcceptsFreshKeys(today, launched, outcome, known);
    assert KeysDistinct(n, RowKey);
    AppendedKeysDistinct(f, n, RowKey);
  }
}
