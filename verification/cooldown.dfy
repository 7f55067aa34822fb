/** The stock task of index.js (`runTask`): a level-triggered alert with a
    global cooldown, plus a once-per-date daily report. There is no in-stock
    flag and no sold-out notice. The state file is a JSON object whose two
    known fields are merged over defaults; every other field is carried
    through unchanged. */
module Cooldown {
  import opened Options
  import opened Text
  import opened Page
  import InventoryPattern

  /** A JSON value of the state file. Only numbers and strings matter to the
      task; any other value is kept verbatim and written back. */
  datatype Value = Num(n: int) | Str(s: string) | Other(json: string)

  /** The own properties of the parsed state object. */
  type Record = map<string, Value>

  const NotifyKey: string := "lastNotifyTime"
  const DateKey: string := "lastDailyDate"

  /** `{ lastNotifyTime: 0, lastDailyDate: "" }`. */
  const Defaults: Record := map[NotifyKey := Num(0), DateKey := Str("")]

  /** `{ ...defaults, ...JSON.parse(data) }`; `file` is `None` when the file
      cannot be read or parsed, and the defaults are used as they are. */
  function Load(file: Option<Record>): (st: Record)
    ensures NotifyKey in st && DateKey in st
    ensures forall k :: k in st <==> k in Defaults || (file.Some? && k in file.value)
    ensures file.Some? ==> forall k :: k in file.value ==> st[k] == file.value[k]
    ensures forall k :: k in Defaults && (file.None? || k !in file.value) ==> st[k] == Defaults[k]
  {
    Defaults + file.GetOr(map[])
  }

  /** `NOTIFY_COOLDOWN` and `DAILY_REPORT_HOUR`. */
  datatype Strategy = Strategy(cooldown: int, reportHour: int)

  /** The clock readings of one task: `Date.now()`, and the hour and the
      `YYYY-MM-DD` date of the site's local time. */
  datatype Clock = Clock(now: int, hour: int, today: string)

  /** A stock alert lists the in-stock products; the daily report carries the
      number of monitored products and whether any is in stock. */
  datatype Alert = StockAlert(inStock: map<string, nat>) | DailyReport(monitored: nat, hasStock: bool)

  /** What one task does: the alerts sent and the record written (if any). */
  datatype Outcome = Outcome(alerts: seq<Alert>, saved: Option<Record>)

  /** The `(name, count)` a card contributes: a non-empty trimmed name and a
      match of the inventory pattern in its inventory paragraphs, whose
      leftmost match gives the count. */
  function CardEntry(c: Card): (r: Option<(string, nat)>)
    ensures r.Some? <==> Name(c) != [] && exists m :: InventoryPattern.IsMatch(InventoryText(c), m)
    ensures r.Some? ==> r.value.0 == Name(c)
    ensures r.Some? ==> InventoryPattern.ReadsLeftmostMatch(InventoryText(c), r.value.1)
  {
    match InventoryPattern.Inventory(InventoryText(c))
    case Some(n) => if Name(c) != [] then Some((Name(c), n)) else None
    case None => None
  }

  /** Assigning `stocks[name] = qty` on a plain object literal: the key
      `__proto__` hits the inherited prototype setter, which ignores a number. */
  const ProtoKey: string := "__proto__"

  function Assign(m: map<string, nat>, name: string, qty: nat): map<string, nat> {
    if name == ProtoKey then m else m[name := qty]
  }

  /** The entry each card contributes, in page order. */
  function Entries(cards: seq<Card>): (r: seq<Option<(string, nat)>>)
    ensures |r| == |cards|
    ensures forall i :: 0 <= i < |cards| ==> r[i] == CardEntry(cards[i])
  {
    if |cards| == 0 then [] else [CardEntry(cards[0])] + Entries(cards[1..])
  }

  /** The object built by assigning the entries one after another. */
  function Tally(es: seq<Option<(string, nat)>>): (r: map<string, nat>)
    ensures ProtoKey !in r
    decreases |es|
  {
    if |es| == 0 then map[]
    else
      var m := Tally(es[..|es| - 1]);
      match es[|es| - 1]
      case Some(e) => Assign(m, e.0, e.1)
      case None => m
  }

  /** Entry `e` is for product `name`. */
  predicate Names(e: Option<(string, nat)>, name: string) {
    e.Some? && e.value.0 == name
  }

  /** A product is in the tally exactly when some entry names it (and it is
      not `__proto__`). */
  lemma {:induction false} TallyKeys(es: seq<Option<(string, nat)>>, name: string)
    ensures name in Tally(es) <==> name != ProtoKey && exists i :: 0 <= i < |es| && Names(es[i], name)
    decreases |es|
  {
    if |es| > 0 {
      var n := |es| - 1;
      var init := es[..n];
      TallyKeys(init, name);
      if exists i :: 0 <= i < n && Names(init[i], name) {
        var i :| 0 <= i < n && Names(init[i], name);
        assert Names(es[i], name);
      }
      if exists i :: 0 <= i < |es| && Names(es[i], name) {
        var i :| 0 <= i < |es| && Names(es[i], name);
        if i < n {
          assert Names(init[i], name);
        }
      }
    }
  }

  /** The count of a product is the one of the LAST entry naming it. */
  lemma {:induction false} TallyLastWins(es: seq<Option<(string, nat)>>, name: string)
    requires name in Tally(es)
    ensures exists i :: 0 <= i < |es| && es[i] == Some((name, Tally(es)[name]))
                        && forall j :: i < j < |es| ==> !Names(es[j], name)
    decreases |es|
  {
    var n := |es| - 1;
    var init := es[..n];
    if Names(es[n], name) {
      assert es[n] == Some((name, Tally(es)[name]));
    } else {
      assert name in Tally(init) && Tally(es)[name] == Tally(init)[name];
      TallyLastWins(init, name);
      var i :| 0 <= i < n && init[i] == Some((name, Tally(init)[name]))
               && forall j :: i < j < n ==> !Names(init[j], name);
      assert es[i] == Some((name, Tally(es)[name]));
      forall j | i < j < |es|
        ensures !Names(es[j], name)
      {
        if j < n {
          assert es[j] == init[j];
        }
      }
    }
  }

  /** What assigning the entries in order leaves in the object: a product
      exactly when some entry names it (and it is not `__proto__`), with the
      count of the last entry naming it. */
  ghost predicate IsTally(es: seq<Option<(string, nat)>>, m: map<string, nat>) {
    && (forall name :: name in m <==> name != ProtoKey && exists i :: 0 <= i < |es| && Names(es[i], name))
    && (forall name :: name in m ==>
          exists i :: 0 <= i < |es| && es[i] == Some((name, m[name]))
                      && forall j :: i < j < |es| ==> !Names(es[j], name))
  }

  /** Both facts above, for every product at once. */
  lemma TallyFacts(es: seq<Option<(string, nat)>>)
    ensures IsTally(es, Tally(es))
  {
    forall name: string
      ensures name in Tally(es) <==> name != ProtoKey && exists i :: 0 <= i < |es| && Names(es[i], name)
      ensures name in Tally(es) ==>
                exists i :: 0 <= i < |es| && es[i] == Some((name, Tally(es)[name]))
                            && forall j :: i < j < |es| ==> !Names(es[j], name)
    {
      TallyKeys(es, name);
      if name in Tally(es) {
        TallyLastWins(es, name);
      }
    }
  }

  /** The `stocks` object after visiting the cards in page order: what the
      cards yield (`Entries`), assigned one after another. */
  function Stocks(cards: seq<Card>): (r: map<string, nat>)
    ensures IsTally(Entries(cards), r)
  {
    TallyFacts(Entries(cards));
    Tally(Entries(cards))
  }

  /** The pattern ignores case but the paragraph filter does not: a card whose
      only paragraph reads "Inventory: 5" matches the pattern, yet yields no
      entry because `:contains("inventory")` drops the paragraph first. */
  lemma CapitalisedLabelDropped()
    ensures InventoryPattern.Inventory("Inventory: 5") == Some(5)
    ensures CardEntry(Card("A", ["Inventory: 5"])) == None
  {
    CapitalisedLabelMatches();
    CapitalisedLabelNotMentioned();
    var c := Card("A", ["Inventory: 5"]);
    assert InventoryParagraphs(c.paragraphs) == [];
    assert InventoryText(c) == "";
    InventoryPattern.NoColonNoMatch("");
  }

  lemma CapitalisedLabelMatches()
    ensures InventoryPattern.Inventory("Inventory: 5") == Some(5)
  {
    var t := "Inventory: 5";
    var f := InventoryPattern.Found(0, 9, 11, 12);
    CapitalisedLabelMatchAt();
    assert InventoryPattern.MatchFrom(t, 0) == Some(f);
    assert t[11..12] == "5";
    assert InventoryPattern.MatchValue(t, f) == 5;
  }

  lemma CapitalisedLabelMatchAt()
    ensures InventoryPattern.MatchAt("Inventory: 5", 0) == Some(InventoryPattern.Found(0, 9, 11, 12))
  {
    var t := "Inventory: 5";
    CapitalisedKeyword();
    assert t[9] == ':' && t[10] == ' ' && t[11] == '5';
    SpaceRunUnique(t, 9, 9);
    SpaceRunUnique(t, 10, 11);
    DigitRunUnique(t, 11, 12);
  }

  lemma CapitalisedKeyword()
    ensures InventoryPattern.KeywordAt("Inventory: 5", 0)
  {
    assert "Inventory: 5"[0..9] == "Inventory";
  }

  lemma CapitalisedLabelNotMentioned()
    ensures !Mentions("Inventory: 5")
  {
    var t := "Inventory: 5";
    forall i: nat | i <= |t|
      ensures !OccursAt(t, InventoryWord, i)
    {
      if i + 9 <= |t| {
        assert t[i..i + 9][0] != 'i';
      }
    }
  }

  /** The products with a positive count: what the stock alert lists. */
  function InStock(stocks: map<string, nat>): (r: map<string, nat>)
    ensures forall name :: name in r <==> name in stocks && stocks[name] > 0
    ensures forall name :: name in r ==> r[name] == stocks[name]
  {
    map name | name in stocks && stocks[name] > 0 :: stocks[name]
  }

  /** `now - state.lastNotifyTime`; a stored value that is not a number
      gives NaN (`None`), and every comparison with NaN is false. */
  function SinceNotify(now: int, v: Value): (r: Option<int>)
    ensures v.Num? <==> r.Some?
    ensures v.Num? ==> r.value + v.n == now
  {
    match v
    case Num(n) => Some(now - n)
    case _ => None
  }

  /** `timeSinceNotify > NOTIFY_COOLDOWN`. */
  predicate CooledDown(since: Option<int>, cooldown: int) {
    since.Some? && since.value > cooldown
  }

  /** The daily-maintenance condition: the report hour has come and today's
      date is not the one recorded. */
  predicate DueForReport(state: Record, clock: Clock, cfg: Strategy)
    requires DateKey in state
  {
    clock.hour == cfg.reportHour && state[DateKey] != Str(clock.today)
  }

  /** The alerts and the record update of a task whose page yielded stocks,
      applied to the loaded record. */
  function Evaluate(stocks: map<string, nat>, state: Record, clock: Clock, cfg: Strategy): (r: (seq<Alert>, Record))
    requires NotifyKey in state && DateKey in state
    ensures var cooled := CooledDown(SinceNotify(clock.now, state[NotifyKey]), cfg.cooldown);
            var alert := StockAlert(InStock(stocks));
            var report := DailyReport(|stocks|, InStock(stocks) != map[]);
            && (alert in r.0 <==> InStock(stocks) != map[] && cooled)
            // the report is gated on the cooldown as it stood BEFORE this task's alert
            && (report in r.0 <==> DueForReport(state, clock, cfg) && cooled)
            && (r.0 == [] || r.0 == [alert] || r.0 == [report] || r.0 == [alert, report])
    ensures r.1.Keys == state.Keys
    ensures r.1[NotifyKey] == (if StockAlert(InStock(stocks)) in r.0 then Num(clock.now) else state[NotifyKey])
    // the date is recorded whenever the report is due, even if the report itself was held back
    ensures r.1[DateKey] == (if DueForReport(state, clock, cfg) then Str(clock.today) else state[DateKey])
    ensures forall k :: k in state && k != NotifyKey && k != DateKey ==> r.1[k] == state[k]
  {
    var inStock := InStock(stocks);
    var hasStock := inStock != map[];
    var since := SinceNotify(clock.now, state[NotifyKey]);
    var cooled := CooledDown(since, cfg.cooldown);
    var alerts1 := if hasStock && cooled then [StockAlert(inStock)] else [];
    var state1 := if hasStock && cooled then state[NotifyKey := Num(clock.now)] else state;
    if DueForReport(state1, clock, cfg) then
      var alerts2 := if cooled then alerts1 + [DailyReport(|stocks|, hasStock)] else alerts1;
      (alerts2, state1[DateKey := Str(clock.today)])
    else
      (alerts1, state1)
  }

  /** One run of `runTask` after the page has been fetched: when no card
      yields a stock it returns before loading or saving the state. */
  function RunTask(cards: seq<Card>, file: Option<Record>, clock: Clock, cfg: Strategy): (r: Outcome)
    ensures Stocks(cards) == map[] <==> r == Outcome([], None)
    ensures Stocks(cards) != map[] ==>
              var e := Evaluate(Stocks(cards), Load(file), clock, cfg);
              r == Outcome(e.0, Some(e.1))
  {
    var stocks := Stocks(cards);
    if stocks == map[] then Outcome([], None)
    else
      var e := Evaluate(stocks, Load(file), clock, cfg);
      Outcome(e.0, Some(e.1))
  }

  /** A continuous in-stock period is re-alerted each time the cooldown lapses:
      there is no flag that silences a second alert. */
  lemma RealertsWhileInStock(stocks: map<string, nat>, state: Record, clock: Clock,
                             later: map<string, nat>, clock': Clock, cfg: Strategy)
    requires NotifyKey in state && DateKey in state
    requires StockAlert(InStock(stocks)) in Evaluate(stocks, state, clock, cfg).0
    requires InStock(later) != map[] && clock'.now - clock.now > cfg.cooldown
    ensures StockAlert(InStock(later)) in Evaluate(later, Evaluate(stocks, state, clock, cfg).1, clock', cfg).0
  {
    var e := Evaluate(stocks, state, clock, cfg);
    assert e.1[NotifyKey] == Num(clock.now);
  }

  /** With nothing in stock `runTask` sends no stock alert and keeps
      `lastNotifyTime`; there is no sold-out message. */
  lemma NothingInStockIsQuiet(stocks: map<string, nat>, state: Record, clock: Clock, cfg: Strategy)
    requires NotifyKey in state && DateKey in state
    requires forall name :: name in stocks ==> stocks[name] == 0
    ensures forall a :: a in Evaluate(stocks, state, clock, cfg).0 ==> a.DailyReport?
    ensures Evaluate(stocks, state, clock, cfg).1[NotifyKey] == state[NotifyKey]
  {
    assert InStock(stocks) == map[];
  }

  /** A record that already has both fields reads back as itself: what a
      task writes is what the next task loads. */
  lemma LoadSaved(rec: Record)
    requires NotifyKey in rec && DateKey in rec
    ensures Load(Some(rec)) == rec
  {
    assert Load(Some(rec)).Keys == rec.Keys;
  }

  /** One task of a run: the cards seen and the clock. */
  datatype Tick = Tick(cards: seq<Card>, clock: Clock)

  /** An alert together with the clock of the `runTask` call that sent it. */
  datatype Sent = Sent(clock: Clock, alert: Alert)

  /** The state file, the alerts sent so far, and the dates recorded as
      `lastDailyDate` so far (one per daily-maintenance pass). */
  datatype History = History(file: Option<Record>, sent: seq<Sent>, marks: seq<string>)

  function Stamp(clock: Clock, alerts: seq<Alert>): (r: seq<Sent>)
    ensures |r| == |alerts|
    ensures forall i :: 0 <= i < |alerts| ==> r[i] == Sent(clock, alerts[i])
  {
    if |alerts| == 0 then [] else [Sent(clock, alerts[0])] + Stamp(clock, alerts[1..])
  }

  /** What one task does on a stored file: the file it leaves (a task that
      saves nothing leaves the file alone), the alerts it sends, and whether
      it records its date. */
  function Effect(file: Option<Record>, t: Tick, cfg: Strategy): (Option<Record>, seq<Sent>, bool) {
    var o := RunTask(t.cards, file, t.clock, cfg);
    (if o.saved.Some? then o.saved else file,
     Stamp(t.clock, o.alerts),
     Stocks(t.cards) != map[] && DueForReport(Load(file), t.clock, cfg))
  }

  /** One task on top of a history. */
  function Step(h: History, t: Tick, cfg: Strategy): History {
    var e := Effect(h.file, t, cfg);
    History(e.0, h.sent + e.1, if e.2 then h.marks + [t.clock.today] else h.marks)
  }

  /** A sequence of tasks, each loading the file the previous one left. */
  function Replay(ticks: seq<Tick>, file: Option<Record>, cfg: Strategy): History
    decreases |ticks|
  {
    if |ticks| == 0 then History(file, [], [])
    else Step(Replay(ticks[..|ticks| - 1], file, cfg), ticks[|ticks| - 1], cfg)
  }

  /** Whether a task got past the empty-page return, recorded the date, sent
      a stock alert, or sent a daily report. */
  predicate Ran(t: Tick) {
    Stocks(t.cards) != map[]
  }

  predicate Marked(h: History, t: Tick, cfg: Strategy) {
    Ran(t) && DueForReport(Load(h.file), t.clock, cfg)
  }

  predicate Cooled(h: History, t: Tick, cfg: Strategy) {
    CooledDown(SinceNotify(t.clock.now, Load(h.file)[NotifyKey]), cfg.cooldown)
  }

  predicate Alerted(h: History, t: Tick, cfg: Strategy) {
    Ran(t) && InStock(Stocks(t.cards)) != map[] && Cooled(h, t, cfg)
  }

  /** How one task moves the two stored fields and the recorded dates. */
  lemma StepFileFacts(h: History, t: Tick, cfg: Strategy)
    ensures Step(h, t, cfg).marks == (if Marked(h, t, cfg) then h.marks + [t.clock.today] else h.marks)
    ensures Load(Step(h, t, cfg).file)[DateKey] ==
              (if Marked(h, t, cfg) then Str(t.clock.today) else Load(h.file)[DateKey])
    ensures Load(Step(h, t, cfg).file)[NotifyKey] ==
              (if Alerted(h, t, cfg) then Num(t.clock.now) else Load(h.file)[NotifyKey])
    ensures Marked(h, t, cfg) ==> Load(h.file)[DateKey] != Str(t.clock.today)
    ensures Alerted(h, t, cfg) ==> Load(h.file)[NotifyKey].Num? &&
                                   t.clock.now - Load(h.file)[NotifyKey].n > cfg.cooldown
  {
    var o := RunTask(t.cards, h.file, t.clock, cfg);
    if Ran(t) {
      var e := Evaluate(Stocks(t.cards), Load(h.file), t.clock, cfg);
      assert o.saved == Some(e.1);
      LoadSaved(e.1);
    }
  }

  /** How one task extends the alert times and the report count. */
  lemma StepSentFacts(h: History, t: Tick, cfg: Strategy)
    ensures AlertTimes(Step(h, t, cfg).sent) ==
              AlertTimes(h.sent) + (if Alerted(h, t, cfg) then [t.clock.now] else [])
    ensures ReportCount(Step(h, t, cfg).sent) ==
              ReportCount(h.sent) + (if Marked(h, t, cfg) && Cooled(h, t, cfg) then 1 else 0)
  {
    var o := RunTask(t.cards, h.file, t.clock, cfg);
    var st := Stamp(t.clock, o.alerts);
    AlertTimesAppend(h.sent, st);
    ReportCountAppend(h.sent, st);
    if Ran(t) {
      var e := Evaluate(Stocks(t.cards), Load(h.file), t.clock, cfg);
      assert o.alerts == e.0;
      EvaluateAlerts(Stocks(t.cards), Load(h.file), t.clock, cfg);
      StampCounts(t.clock, e.0);
    } else {
      assert o.alerts == [];
    }
  }

  /** The recorded dates of a run never repeat back to back, and the stored
      `lastDailyDate` is the last of them. */
  ghost predicate MarksChain(marks: seq<string>, initial: Value, current: Value) {
    && current == (if |marks| == 0 then initial else Str(marks[|marks| - 1]))
    && (|marks| > 0 ==> Str(marks[0]) != initial)
    && forall k :: 0 < k < |marks| ==> marks[k] != marks[k - 1]
  }

  /** Recording a date other than the stored one keeps the chain. */
  lemma MarksExtend(marks: seq<string>, initial: Value, current: Value, marked: bool, d: string)
    requires MarksChain(marks, initial, current)
    requires marked ==> current != Str(d)
    ensures MarksChain(if marked then marks + [d] else marks, initial, if marked then Str(d) else current)
  {
  }

  lemma StepMarks(h: History, t: Tick, cfg: Strategy, initial: Value)
    requires MarksChain(h.marks, initial, Load(h.file)[DateKey])
    ensures MarksChain(Step(h, t, cfg).marks, initial, Load(Step(h, t, cfg).file)[DateKey])
  {
    StepFileFacts(h, t, cfg);
    MarksExtend(h.marks, initial, Load(h.file)[DateKey], Marked(h, t, cfg), t.clock.today);
  }

  /** Across any run, the daily-maintenance pass records a date that differs
      from the one before it: the same date is never recorded twice in a row. */
  lemma {:induction false} DatesNeverRepeat(ticks: seq<Tick>, file: Option<Record>, cfg: Strategy)
    ensures MarksChain(Replay(ticks, file, cfg).marks, Load(file)[DateKey],
                       Load(Replay(ticks, file, cfg).file)[DateKey])
    decreases |ticks|
  {
    if |ticks| > 0 {
      DatesNeverRepeat(ticks[..|ticks| - 1], file, cfg);
      StepMarks(Replay(ticks[..|ticks| - 1], file, cfg), ticks[|ticks| - 1], cfg, Load(file)[DateKey]);
    }
  }

  /** The number of daily reports among the alerts. */
  function ReportCount(sent: seq<Sent>): (n: nat)
    ensures n <= |sent|
  {
    if |sent| == 0 then 0
    else ReportCount(sent[..|sent| - 1]) + (if sent[|sent| - 1].alert.DailyReport? then 1 else 0)
  }

  lemma ReportCountAppend(a: seq<Sent>, b: seq<Sent>)
    ensures ReportCount(a + b) == ReportCount(a) + ReportCount(b)
    decreases |b|
  {
    if |b| > 0 {
      assert (a + b)[..|a + b| - 1] == a + b[..|b| - 1];
      assert (a + b)[|a + b| - 1] == b[|b| - 1];
      ReportCountAppend(a, b[..|b| - 1]);
    } else {
      assert a + b == a;
    }
  }

  /** A daily report is only ever sent by a task that records the date, and
      every task of the run saw date `d`: at most one date is recorded, hence
      at most one report is sent, on that date. */
  lemma {:induction false} OneReportPerDate(ticks: seq<Tick>, file: Option<Record>, cfg: Strategy, d: string)
    requires forall i :: 0 <= i < |ticks| ==> ticks[i].clock.today == d
    ensures forall k :: 0 <= k < |Replay(ticks, file, cfg).marks| ==> Replay(ticks, file, cfg).marks[k] == d
    ensures ReportCount(Replay(ticks, file, cfg).sent) <= |Replay(ticks, file, cfg).marks| <= 1
    decreases |ticks|
  {
    if |ticks| > 0 {
      var prev := Replay(ticks[..|ticks| - 1], file, cfg);
      OneReportPerDate(ticks[..|ticks| - 1], file, cfg, d);
      DatesNeverRepeat(ticks, file, cfg);
      StepFileFacts(prev, ticks[|ticks| - 1], cfg);
      StepSentFacts(prev, ticks[|ticks| - 1], cfg);
    }
  }

  /** A task's effect does not depend on the alerts and dates already logged. */
  lemma StepShift(h: History, sent0: seq<Sent>, marks0: seq<string>, t: Tick, cfg: Strategy)
    ensures var after, shifted := Step(h, t, cfg), Step(History(h.file, sent0 + h.sent, marks0 + h.marks), t, cfg);
            && shifted.file == after.file
            && shifted.sent == sent0 + after.sent
            && shifted.marks == marks0 + after.marks
  {
    var e := Effect(h.file, t, cfg);
    assert sent0 + h.sent + e.1 == sent0 + (h.sent + e.1);
    assert marks0 + h.marks + [t.clock.today] == marks0 + (h.marks + [t.clock.today]);
  }

  /** A run split in two is the second part replayed on the file the first
      part left, its alerts and recorded dates following the first part's. */
  lemma {:induction false} ReplayAppend(a: seq<Tick>, b: seq<Tick>, file: Option<Record>, cfg: Strategy)
    ensures var first := Replay(a, file, cfg);
            var second := Replay(b, first.file, cfg);
            Replay(a + b, file, cfg) == History(second.file, first.sent + second.sent, first.marks + second.marks)
    decreases |b|
  {
    var first := Replay(a, file, cfg);
    if |b| == 0 {
      assert a + b == a;
      assert first.sent + [] == first.sent && first.marks + [] == first.marks;
    } else {
      var init := b[..|b| - 1];
      assert (a + b)[..|a + b| - 1] == a + init;
      assert (a + b)[|a + b| - 1] == b[|b| - 1];
      ReplayAppend(a, init, file, cfg);
      StepShift(Replay(init, first.file, cfg), first.sent, first.marks, b[|b| - 1], cfg);
    }
  }

  /** The daily reports among the alerts that were sent on date `d`. */
  function ReportsOn(sent: seq<Sent>, d: string): (n: nat)
    ensures n <= ReportCount(sent)
  {
    if |sent| == 0 then 0
    else ReportsOn(sent[..|sent| - 1], d)
         + (if sent[|sent| - 1].alert.DailyReport? && sent[|sent| - 1].clock.today == d then 1 else 0)
  }

  lemma ReportsOnAppend(a: seq<Sent>, b: seq<Sent>, d: string)
    ensures ReportsOn(a + b, d) == ReportsOn(a, d) + ReportsOn(b, d)
    decreases |b|
  {
    if |b| > 0 {
      assert (a + b)[..|a + b| - 1] == a + b[..|b| - 1];
      assert (a + b)[|a + b| - 1] == b[|b| - 1];
      ReportsOnAppend(a, b[..|b| - 1], d);
    } else {
      assert a + b == a;
    }
  }

  /** Alerts sent under one clock are all on that clock's date. */
  lemma {:induction false} SameClockReportsOn(sent: seq<Sent>, clock: Clock, d: string)
    requires forall i :: 0 <= i < |sent| ==> sent[i].clock == clock
    ensures ReportsOn(sent, d) == (if clock.today == d then ReportCount(sent) else 0)
    decreases |sent|
  {
    if |sent| > 0 {
      SameClockReportsOn(sent[..|sent| - 1], clock, d);
    }
  }

  /** One task adds a report on date `d` exactly when it reports and its date is `d`. */
  lemma StepReportsOn(h: History, t: Tick, cfg: Strategy, d: string)
    ensures ReportsOn(Step(h, t, cfg).sent, d) ==
              ReportsOn(h.sent, d) + (if Marked(h, t, cfg) && Cooled(h, t, cfg) && t.clock.today == d then 1 else 0)
  {
    var o := RunTask(t.cards, h.file, t.clock, cfg);
    var st := Stamp(t.clock, o.alerts);
    ReportsOnAppend(h.sent, st, d);
    ReportCountAppend(h.sent, st);
    SameClockReportsOn(st, t.clock, d);
    StepSentFacts(h, t, cfg);
  }

  /** The tasks of each date come one after another: once the date has moved
      on, an earlier date does not come back, as with a clock that never runs
      backwards. */
  ghost predicate DatesContiguous(ticks: seq<Tick>) {
    forall i, j, k :: 0 <= i < j < k < |ticks| && ticks[i].clock.today == ticks[k].clock.today ==>
      ticks[j].clock.today == ticks[i].clock.today
  }

  /** After a report on `d`, either `d` is still the stored date, or the run
      has moved on to another date after a task of date `d`. */
  ghost predicate ReportedOnce(ticks: seq<Tick>, reports: nat, stored: Value, d: string) {
    && reports <= 1
    && (reports == 1 ==>
          && (exists i :: 0 <= i < |ticks| && ticks[i].clock.today == d)
          && (stored == Str(d) || (|ticks| > 0 && ticks[|ticks| - 1].clock.today != d)))
  }

  /** A task that reports only when its date is not the stored one, and
      stores its date when it does, keeps `ReportedOnce`. */
  lemma ReportedOnceExtend(ticks: seq<Tick>, t: Tick, reports: nat, stored: Value, d: string,
                           marked: bool, cooled: bool)
    requires DatesContiguous(ticks + [t])
    requires ReportedOnce(ticks, reports, stored, d)
    requires marked ==> stored != Str(t.clock.today)
    ensures ReportedOnce(ticks + [t], reports + (if marked && cooled && t.clock.today == d then 1 else 0),
                         if marked then Str(t.clock.today) else stored, d)
  {
    var all := ticks + [t];
    if reports == 1 {
      var i :| 0 <= i < |ticks| && ticks[i].clock.today == d;
      assert all[i] == ticks[i];
      assert all[|all| - 1] == t;
      if |ticks| > 0 {
        assert all[|ticks| - 1] == ticks[|ticks| - 1];
      }
    } else if marked && cooled && t.clock.today == d {
      assert all[|all| - 1] == t;
    }
  }

  lemma {:induction false} ReportedOnceInRun(ticks: seq<Tick>, file: Option<Record>, cfg: Strategy, d: string)
    requires DatesContiguous(ticks)
    ensures var h := Replay(ticks, file, cfg);
            ReportedOnce(ticks, ReportsOn(h.sent, d), Load(h.file)[DateKey], d)
    decreases |ticks|
  {
    if |ticks| > 0 {
      var n := |ticks|;
      var init := ticks[..n - 1];
      var t := ticks[n - 1];
      assert init + [t] == ticks;
      assert DatesContiguous(init) by {
        assert forall i :: 0 <= i < n - 1 ==> init[i] == ticks[i];
      }
      ReportedOnceInRun(init, file, cfg, d);
      var prev := Replay(init, file, cfg);
      StepReportsOn(prev, t, cfg, d);
      StepFileFacts(prev, t, cfg);
      ReportedOnceExtend(init, t, ReportsOn(prev.sent, d), Load(prev.file)[DateKey], d,
                         Marked(prev, t, cfg), Cooled(prev, t, cfg));
    }
  }

  /** Across any run whose dates come one after another, including runs that
      cross midnight, at most one daily report is sent on each date. */
  lemma DailyReportOncePerDate(ticks: seq<Tick>, file: Option<Record>, cfg: Strategy)
    requires DatesContiguous(ticks)
    ensures forall d :: ReportsOn(Replay(ticks, file, cfg).sent, d) <= 1
  {
    forall d
      ensures ReportsOn(Replay(ticks, file, cfg).sent, d) <= 1
    {
      ReportedOnceInRun(ticks, file, cfg, d);
    }
  }

  /** The times of the stock alerts of a run, in order. */
  function AlertTimes(sent: seq<Sent>): (r: seq<int>)
    ensures |r| <= |sent|
  {
    if |sent| == 0 then []
    else AlertTimes(sent[..|sent| - 1]) + (if sent[|sent| - 1].alert.StockAlert? then [sent[|sent| - 1].clock.now] else [])
  }

  /** The alerts of one task, at most a stock alert followed by a report. */
  predicate TaskShape(alerts: seq<Alert>) {
    |alerts| <= 2 && (|alerts| == 2 ==> alerts[0].StockAlert? && alerts[1].DailyReport?)
  }

  /** The alerts of a task, read by position: a stock alert first, a report last. */
  lemma EvaluateAlerts(stocks: map<string, nat>, state: Record, clock: Clock, cfg: Strategy)
    requires NotifyKey in state && DateKey in state
    ensures var a := Evaluate(stocks, state, clock, cfg).0;
            var cooled := CooledDown(SinceNotify(clock.now, state[NotifyKey]), cfg.cooldown);
            && TaskShape(a)
            && ((|a| > 0 && a[0].StockAlert?) <==> InStock(stocks) != map[] && cooled)
            && ((|a| > 0 && a[|a| - 1].DailyReport?) <==> DueForReport(state, clock, cfg) && cooled)
  {
  }

  lemma StampCounts(clock: Clock, alerts: seq<Alert>)
    requires TaskShape(alerts)
    ensures AlertTimes(Stamp(clock, alerts)) == (if |alerts| > 0 && alerts[0].StockAlert? then [clock.now] else [])
    ensures ReportCount(Stamp(clock, alerts)) == (if |alerts| > 0 && alerts[|alerts| - 1].DailyReport? then 1 else 0)
  {
    var st := Stamp(clock, alerts);
    if |st| == 2 {
      assert st[..1][..0] == [];
      assert st[..1] == [st[0]];
    } else if |st| == 1 {
      assert st[..0] == [];
    }
  }

  /** The stored `lastNotifyTime` is the time of the last stock alert, the
      first alert comes more than a cooldown after the initial stored time
      (and never if that was not a number), and consecutive alerts are more
      than a cooldown apart. */
  ghost predicate AlertsChain(ts: seq<int>, initial: Value, current: Value, cooldown: int) {
    && current == (if |ts| == 0 then initial else Num(ts[|ts| - 1]))
    && (|ts| > 0 ==> initial.Num? && ts[0] - initial.n > cooldown)
    && forall k :: 0 < k < |ts| ==> ts[k] - ts[k - 1] > cooldown
  }

  lemma AlertTimesAppend(a: seq<Sent>, b: seq<Sent>)
    ensures AlertTimes(a + b) == AlertTimes(a) + AlertTimes(b)
    decreases |b|
  {
    if |b| > 0 {
      assert (a + b)[..|a + b| - 1] == a + b[..|b| - 1];
      assert (a + b)[|a + b| - 1] == b[|b| - 1];
      AlertTimesAppend(a, b[..|b| - 1]);
    } else {
      assert a + b == a;
    }
  }

  /** Appending an alert more than a cooldown after the stored time keeps the chain. */
  lemma AlertsExtend(ts: seq<int>, initial: Value, current: Value, cooldown: int, alerted: bool, now: int)
    requires AlertsChain(ts, initial, current, cooldown)
    requires alerted ==> current.Num? && now - current.n > cooldown
    ensures AlertsChain(ts + (if alerted then [now] else []), initial, if alerted then Num(now) else current, cooldown)
  {
    if !alerted {
      assert ts + [] == ts;
    }
  }

  lemma StepAlerts(h: History, t: Tick, cfg: Strategy, initial: Value)
    requires AlertsChain(AlertTimes(h.sent), initial, Load(h.file)[NotifyKey], cfg.cooldown)
    ensures AlertsChain(AlertTimes(Step(h, t, cfg).sent), initial, Load(Step(h, t, cfg).file)[NotifyKey], cfg.cooldown)
  {
    StepFileFacts(h, t, cfg);
    StepSentFacts(h, t, cfg);
    AlertsExtend(AlertTimes(h.sent), initial, Load(h.file)[NotifyKey], cfg.cooldown, Alerted(h, t, cfg), t.clock.now);
  }

  /** Across any run, consecutive stock alerts are more than a cooldown apart. */
  lemma {:induction false} AlertsSpaced(ticks: seq<Tick>, file: Option<Record>, cfg: Strategy)
    ensures AlertsChain(AlertTimes(Replay(ticks, file, cfg).sent), Load(file)[NotifyKey],
                        Load(Replay(ticks, file, cfg).file)[NotifyKey], cfg.cooldown)
    decreases |ticks|
  {
    if |ticks| > 0 {
      AlertsSpaced(ticks[..|ticks| - 1], file, cfg);
      StepAlerts(Replay(ticks[..|ticks| - 1], file, cfg), ticks[|ticks| - 1], cfg, Load(file)[NotifyKey]);
    }
  }
}
