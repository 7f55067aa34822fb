/** The stock check of server.js (`check`): a strict flip-flop on the
    persisted `wasInStock` flag, with a minimum gap between restock notices.
    A cycle reads the cards, and unless none of them yields an item, loads the
    stored record, decides on at most one notice and writes the record back. */
module FlipFlop {
  import opened Options
  import opened Text
  import opened Page
  import opened Seqs
  import QuantityPattern

  /** One parsed card: its trimmed name and the count read from its text. */
  datatype Item = Item(name: string, count: nat)

  /** The persisted record `{lastNotify, wasInStock}`. */
  datatype FlipState = FlipState(lastNotify: int, wasInStock: bool)

  /** The record used when no state file can be read. */
  const Fresh: FlipState := FlipState(0, false)

  /** The two notices server.js sends; a restock carries the in-stock items. */
  datatype Notice = Restock(items: seq<Item>) | SoldOut

  /** What one cycle does: the notices sent, the record written (if any), and
      the item list published to the dashboard (if any). */
  datatype Outcome = Outcome(notices: seq<Notice>, saved: Option<FlipState>, shown: Option<seq<Item>>)

  /** A card yields an item when its trimmed name is non-empty and its text
      matches the quantity pattern; the count is the first digit run's value. */
  function CardItem(c: Card): (r: Option<Item>)
    ensures r.Some? <==> Name(c) != [] && exists j :: 0 <= j < |QuantityText(c)| && IsDigit(QuantityText(c)[j])
    ensures r.Some? ==> r.value.name == Name(c) && !AllSpace(c.heading)
    ensures r.Some? ==> QuantityPattern.ReadsFirstRun(QuantityText(c), r.value.count)
  {
    match QuantityPattern.Quantity(QuantityText(c))
    case Some(n) => if Name(c) != [] then Some(Item(Name(c), n)) else None
    case None => None
  }

  /** What each card yields, card by card. */
  function CardItems(cards: seq<Card>): (r: seq<Option<Item>>)
    ensures |r| == |cards|
    ensures forall k :: 0 <= k < |cards| ==> r[k] == CardItem(cards[k])
  {
    if |cards| == 0 then [] else [CardItem(cards[0])] + CardItems(cards[1..])
  }

  /** The items of the page: the cards that yield one, in page order. */
  function Items(cards: seq<Card>): (r: seq<Item>)
    ensures Wrap(r) == Filter(CardItems(cards), IsSome)
    ensures forall i :: 0 <= i < |r| ==> r[i].name != []
  {
    if |cards| == 0 then []
    else
      var s := CardItems(cards);
      assert s == [s[0]] + CardItems(cards[1..]);
      match CardItem(cards[0])
      case Some(it) =>
        var rest := Items(cards[1..]);
        assert Wrap([it] + rest) == [Some(it)] + Wrap(rest);
        [it] + rest
      case None => Items(cards[1..])
  }

  /** The page has no item exactly when no card yields one. */
  lemma {:induction false} ItemsEmpty(cards: seq<Card>)
    ensures Items(cards) == [] <==> forall k :: 0 <= k < |cards| ==> CardItem(cards[k]).None?
    decreases |cards|
  {
    if |cards| > 0 {
      ItemsEmpty(cards[1..]);
      assert forall k :: 0 < k < |cards| ==> cards[1..][k - 1] == cards[k];
    }
  }

  /** The filter of server.js's in-stock test. */
  predicate Positive(it: Item) {
    it.count > 0
  }

  /** `items.filter(i => i.count > 0)`: the items with a positive count, in
      order, each as often as it occurs. */
  function InStock(items: seq<Item>): (r: seq<Item>)
    ensures forall it :: it in r <==> it in items && it.count > 0
    ensures Subsequence(r, items)
    ensures forall it :: multiset(r)[it] == if it.count > 0 then multiset(items)[it] else 0
    ensures |r| == 0 <==> forall k :: 0 <= k < |items| ==> items[k].count == 0
  {
    if |items| == 0 then []
    else
      assert items == [items[0]] + items[1..];
      if items[0].count > 0 then [items[0]] + InStock(items[1..])
      else InStock(items[1..])
  }

  /** The in-stock list is `Array.prototype.filter` with the positive-count test. */
  lemma InStockIsFilter(items: seq<Item>)
    ensures InStock(items) == Filter(items, Positive)
  {
    FilterUnique(items, Positive, InStock(items));
  }

  /** The decision of `check` for a non-empty item list and the loaded record:
      the notice to send (if any) and the record to write back. */
  function Decide(items: seq<Item>, state: FlipState, now: int, gap: int): (r: (seq<Notice>, FlipState))
    ensures r.0 == [] || r.0 == [Restock(InStock(items))] || r.0 == [SoldOut]
    // restock fires exactly on a not-in-stock to in-stock edge outside the gap
    ensures r.0 == [Restock(InStock(items))] <==>
              InStock(items) != [] && !state.wasInStock && now - state.lastNotify > gap
    ensures r.0 == [Restock(InStock(items))] ==> r.1 == FlipState(now, true)
    // sold-out fires exactly on the in-stock to not-in-stock edge, keeping lastNotify
    ensures r.0 == [SoldOut] <==> InStock(items) == [] && state.wasInStock
    ensures r.0 == [SoldOut] ==> r.1 == FlipState(state.lastNotify, false)
    // a silent cycle leaves the record as it was
    ensures r.0 == [] ==> r.1 == state
  {
    var inStock := InStock(items);
    if inStock != [] then
      if !state.wasInStock then
        if now - state.lastNotify > gap then
          ([Restock(inStock)], FlipState(now, true))
        else
          // inside the gap: stay "not in stock" so a later cycle can still fire
          ([], state)
      else
        ([], state.(wasInStock := true))
    else if state.wasInStock then
      ([SoldOut], state.(wasInStock := false))
    else
      ([], state)
  }

  /** One run of `check`, after the page has been fetched and parsed.
      `stored` is the state file's record (`None` when it is missing or does
      not parse), `now` is `Date.now()`, and `gap` is the configured minimum
      spacing between restock notices. */
  function Check(cards: seq<Card>, stored: Option<FlipState>, now: int, gap: int): (r: Outcome)
    // no item: return before touching the state file, notifying or publishing
    ensures Items(cards) == [] <==> r == Outcome([], None, None)
    ensures Items(cards) != [] ==>
              var d := Decide(Items(cards), stored.GetOr(Fresh), now, gap);
              r == Outcome(d.0, Some(d.1), Some(InStock(Items(cards))))
  {
    var items := Items(cards);
    if items == [] then Outcome([], None, None)
    else
      var d := Decide(items, stored.GetOr(Fresh), now, gap);
      Outcome(d.0, Some(d.1), Some(InStock(items)))
  }

  /** One polling cycle of a run: the cards seen and the clock. */
  datatype Poll = Poll(cards: seq<Card>, now: int)

  /** A notice together with the time its cycle ran. */
  datatype Sent = Sent(at: int, notice: Notice)

  /** The state file and the notices sent so far. */
  datatype History = History(file: Option<FlipState>, sent: seq<Sent>)

  /** The notices of one cycle, stamped with its time. */
  function Stamp(at: int, ns: seq<Notice>): (r: seq<Sent>)
    ensures |r| == |ns|
    ensures forall i :: 0 <= i < |ns| ==> r[i] == Sent(at, ns[i])
  {
    if |ns| == 0 then [] else [Sent(at, ns[0])] + Stamp(at, ns[1..])
  }

  /** One cycle on top of a history: a cycle that writes nothing leaves the file alone. */
  function Step(h: History, p: Poll, gap: int): History {
    var o := Check(p.cards, h.file, p.now, gap);
    History(if o.saved.Some? then o.saved else h.file, h.sent + Stamp(p.now, o.notices))
  }

  /** A sequence of cycles, each reading the file the previous one left. */
  function Replay(polls: seq<Poll>, file: Option<FlipState>, gap: int): History
    decreases |polls|
  {
    if |polls| == 0 then History(file, [])
    else Step(Replay(polls[..|polls| - 1], file, gap), polls[|polls| - 1], gap)
  }

  /** The notices of a run that started from a record with flag `wasIn`
      alternate: the first is a restock exactly when the flag was clear, and
      no two neighbours are of the same kind. */
  ghost predicate Alternates(sent: seq<Sent>, wasIn: bool) {
    && (|sent| > 0 ==> (sent[0].notice.Restock? <==> !wasIn))
    && forall i :: 0 < i < |sent| ==> sent[i].notice.Restock? != sent[i - 1].notice.Restock?
  }

  /** The flag a run leaves behind: set by the last restock, cleared by the last sold-out. */
  ghost predicate FlagFollowsLast(flag: bool, sent: seq<Sent>, wasIn: bool) {
    flag == (if |sent| == 0 then wasIn else sent[|sent| - 1].notice.Restock?)
  }

  /** What one cycle does, read off its single notice (if any): the notice
      flips the flag, a restock moves `lastNotify` to a time past the gap, and
      a silent cycle leaves the record as it was. */
  lemma StepFacts(h: History, p: Poll, gap: int) returns (ns: seq<Notice>)
    ensures Step(h, p, gap).sent == h.sent + Stamp(p.now, ns)
    ensures |ns| <= 1
    ensures var before := h.file.GetOr(Fresh);
            var after := Step(h, p, gap).file.GetOr(Fresh);
            && (ns == [] ==> after == before)
            && (|ns| == 1 ==> (ns[0].Restock? <==> !before.wasInStock) && after.wasInStock == !before.wasInStock)
            && (|ns| == 1 && ns[0].Restock? ==> after.lastNotify == p.now && p.now - before.lastNotify > gap)
            && (|ns| == 1 && ns[0].SoldOut? ==> after.lastNotify == before.lastNotify)
  {
    var o := Check(p.cards, h.file, p.now, gap);
    ns := o.notices;
    if Items(p.cards) != [] {
      var d := Decide(Items(p.cards), h.file.GetOr(Fresh), p.now, gap);
      assert o.notices == d.0 && o.saved == Some(d.1);
    }
  }

  /** Appending at most one notice that flips the flag keeps the alternation. */
  lemma AlternatesExtend(sent: seq<Sent>, wasIn: bool, flag: bool, x: Sent)
    requires Alternates(sent, wasIn) && FlagFollowsLast(flag, sent, wasIn)
    requires x.notice.Restock? <==> !flag
    ensures Alternates(sent + [x], wasIn) && FlagFollowsLast(x.notice.Restock?, sent + [x], wasIn)
  {
  }

  /** The alternation invariant survives one more cycle. */
  lemma StepAlternates(h: History, p: Poll, gap: int, wasIn: bool)
    requires Alternates(h.sent, wasIn)
    requires FlagFollowsLast(h.file.GetOr(Fresh).wasInStock, h.sent, wasIn)
    ensures Alternates(Step(h, p, gap).sent, wasIn)
    ensures FlagFollowsLast(Step(h, p, gap).file.GetOr(Fresh).wasInStock, Step(h, p, gap).sent, wasIn)
  {
    var ns := StepFacts(h, p, gap);
    if |ns| == 0 {
      assert h.sent + Stamp(p.now, ns) == h.sent;
    } else {
      assert Stamp(p.now, ns) == [Sent(p.now, ns[0])];
      AlternatesExtend(h.sent, wasIn, h.file.GetOr(Fresh).wasInStock, Sent(p.now, ns[0]));
    }
  }

  /** Across any run, restock and sold-out notices strictly alternate, and the
      stored flag says which of the two was sent last. */
  lemma {:induction false} NoticesAlternate(polls: seq<Poll>, file: Option<FlipState>, gap: int)
    ensures Alternates(Replay(polls, file, gap).sent, file.GetOr(Fresh).wasInStock)
    ensures FlagFollowsLast(Replay(polls, file, gap).file.GetOr(Fresh).wasInStock,
                            Replay(polls, file, gap).sent, file.GetOr(Fresh).wasInStock)
    decreases |polls|
  {
    if |polls| > 0 {
      NoticesAlternate(polls[..|polls| - 1], file, gap);
      StepAlternates(Replay(polls[..|polls| - 1], file, gap), polls[|polls| - 1], gap, file.GetOr(Fresh).wasInStock);
    }
  }

  /** The times of the restock notices of a run, in order. */
  function RestockTimes(sent: seq<Sent>): (r: seq<int>)
    ensures |r| <= |sent|
  {
    if |sent| == 0 then []
    else RestockTimes(sent[..|sent| - 1]) + (if sent[|sent| - 1].notice.Restock? then [sent[|sent| - 1].at] else [])
  }

  /** `current` is the last restock time (or `initial` before any), the first
      restock is more than `gap` after `initial`, and consecutive ones are more
      than `gap` apart. */
  ghost predicate RestockChain(ts: seq<int>, initial: int, current: int, gap: int) {
    && current == (if |ts| == 0 then initial else ts[|ts| - 1])
    && (|ts| > 0 ==> ts[0] - initial > gap)
    && forall k :: 0 < k < |ts| ==> ts[k] - ts[k - 1] > gap
  }

  /** A restock more than `gap` after the current time keeps the chain. */
  lemma RestockExtend(ts: seq<int>, initial: int, current: int, gap: int, now: int)
    requires RestockChain(ts, initial, current, gap) && now - current > gap
    ensures RestockChain(ts + [now], initial, now, gap)
  {
  }

  lemma RestockTimesSnoc(sent: seq<Sent>, x: Sent)
    ensures RestockTimes(sent + [x]) == RestockTimes(sent) + (if x.notice.Restock? then [x.at] else [])
  {
    assert (sent + [x])[..|sent|] == sent;
  }

  lemma StepRestocks(h: History, p: Poll, gap: int, initial: int)
    requires RestockChain(RestockTimes(h.sent), initial, h.file.GetOr(Fresh).lastNotify, gap)
    ensures RestockChain(RestockTimes(Step(h, p, gap).sent), initial, Step(h, p, gap).file.GetOr(Fresh).lastNotify, gap)
  {
    var ns := StepFacts(h, p, gap);
    var ts := RestockTimes(h.sent);
    if |ns| == 0 {
      assert h.sent + Stamp(p.now, ns) == h.sent;
    } else {
      var x := Sent(p.now, ns[0]);
      assert Stamp(p.now, ns) == [x];
      RestockTimesSnoc(h.sent, x);
      if ns[0].Restock? {
        RestockExtend(ts, initial, h.file.GetOr(Fresh).lastNotify, gap, p.now);
      } else {
        assert ts + [] == ts;
      }
    }
  }

  /** `lastNotify` moves only when a restock is sent, and then to that cycle's
      time; consecutive restocks, and the first one against the initial
      record, are more than `gap` apart. */
  lemma {:induction false} RestocksSpaced(polls: seq<Poll>, file: Option<FlipState>, gap: int)
    ensures RestockChain(RestockTimes(Replay(polls, file, gap).sent), file.GetOr(Fresh).lastNotify,
                         Replay(polls, file, gap).file.GetOr(Fresh).lastNotify, gap)
    decreases |polls|
  {
    if |polls| > 0 {
      RestocksSpaced(polls[..|polls| - 1], file, gap);
      StepRestocks(Replay(polls[..|polls| - 1], file, gap), polls[|polls| - 1], gap, file.GetOr(Fresh).lastNotify);
    }
  }

  /** A restock seen inside the gap is not lost: the flag stays clear, so the
      first later in-stock cycle past the gap sends it. */
  lemma SuppressedRestockRetries(items: seq<Item>, state: FlipState, now: int,
                                 later: seq<Item>, now': int, gap: int)
    requires !state.wasInStock && InStock(items) != [] && now - state.lastNotify <= gap
    requires InStock(later) != [] && now' - state.lastNotify > gap
    ensures Decide(items, state, now, gap).0 == []
    ensures Decide(later, Decide(items, state, now, gap).1, now', gap).0 == [Restock(InStock(later))]
  {
    var d := Decide(items, state, now, gap);
    assert d.1 == state;
  }

  /** A sold-out notice does not reset the gap: the next restock still waits
      until more than `gap` has passed since the previous restock. */
  lemma SoldOutKeepsGap(items: seq<Item>, state: FlipState, now: int,
                        later: seq<Item>, now': int, gap: int)
    requires Decide(items, state, now, gap).0 == [SoldOut]
    requires InStock(later) != []
    ensures Decide(later, Decide(items, state, now, gap).1, now', gap).0 != [] <==>
              now' - state.lastNotify > gap
  {
    var d := Decide(items, state, now, gap);
    assert d.1 == FlipState(state.lastNotify, false);
  }
}
