/** What the calls of SDIO_Init, SDIO_ReadBlock and SDIO_WriteBlock add up
    to, for every answer the HAL may give: how often each HAL entry point is
    called, when the driver falls back to the one-bit bus, when it gives up,
    and where the watchdog is refreshed. */
module SdioProperties {
  import opened SdioClock
  import opened Retry
  import opened SdioTrace

  // ----- counting within the blocks the loops repeat -----

  /** How often `e` occurs in `b` followed by `x`. */
  lemma CountSnoc(b: seq<Event>, x: Event, e: Event)
    ensures Count(b + [x], e) == Count(b, e) + (if x == e then 1 else 0)
  {
    CountAppend(b, [x], e);
    assert [x][1..] == [];
  }

  /** How often `e` occurs in one attempt that refreshes (when configured)
      and then makes the calls `b`. */
  lemma CountRefreshed(w: bool, b: seq<Event>, e: Event)
    ensures Count(Refreshed(w, b), e)
         == (if w && e == WatchdogRefresh then 1 else 0) + Count(b, e)
  {
    CountAppend(if w then [WatchdogRefresh] else [], b, e);
    assert [WatchdogRefresh][1..] == [];
  }

  lemma CountPair(x: Event, y: Event, e: Event)
    ensures Count([x, y], e) == (if x == e then 1 else 0) + (if y == e then 1 else 0)
  {
    assert [x, y] == [x] + [y];
    CountSnoc([x], y, e);
    assert [x][1..] == [];
  }

  /** How often `e` occurs in `a`, the call `x`, then `b`. */
  lemma CountAround(a: seq<Event>, x: Event, b: seq<Event>, e: Event)
    ensures Count(a + [x] + b, e) == Count(a, e) + (if x == e then 1 else 0) + Count(b, e)
  {
    CountAppend(a + [x], b, e);
    CountSnoc(a, x, e);
  }

  /** `a`, a call other than `x`, then `b`: every `x` is still refreshed. */
  lemma RefreshedAround(a: seq<Event>, y: Event, b: seq<Event>, x: Event)
    requires RefreshedBefore(a, x) && RefreshedBefore(b, x) && y != x
    ensures RefreshedBefore(a + [y] + b, x)
  {
    RefreshedBeforeAppend(a, [y], x);
    RefreshedBeforeAppend(a + [y], b, x);
  }

  lemma {:induction false} LengthRepeat(b: seq<Event>, n: nat)
    ensures |Repeat(b, n)| == n * |b|
    decreases n
  {
    if n > 0 {
      LengthRepeat(b, n - 1);
      assert n * |b| == (n - 1) * |b| + |b|;
    }
  }

  /** `e` occurs in `n` identification attempts once per attempt when it is
      HAL_SD_Init, or the refresh with the watchdog on, and never otherwise. */
  lemma CountIdentify(c: Config, n: nat, e: Event)
    ensures Count(IdentifyEvents(c, n), e)
         == n * ((if c.watchdog && e == WatchdogRefresh then 1 else 0) + (if e == HalSdInit then 1 else 0))
  {
    CountRepeat(Refreshed(c.watchdog, [HalSdInit]), n, e);
    CountRefreshed(c.watchdog, [HalSdInit], e);
    CountSnoc([], HalSdInit, e);
  }

  /** The first SD_LowLevel_Init and the identification attempts after it. */
  lemma CountIdentified(c: Config, n: nat, e: Event)
    ensures Count([LowLevelInit] + IdentifyEvents(c, n), e)
         == (if e == LowLevelInit then 1 else 0) + Count(IdentifyEvents(c, n), e)
  {
    CountAppend([LowLevelInit], IdentifyEvents(c, n), e);
    assert [LowLevelInit][1..] == [];
  }

  /** As CountIdentify, for the wide-bus attempts. */
  lemma CountWideBus(c: Config, n: nat, e: Event)
    ensures Count(WideBusEvents(c, n), e)
         == n * ((if c.watchdog && e == WatchdogRefresh then 1 else 0) + (if e == WideBus then 1 else 0))
  {
    CountRepeat(Refreshed(c.watchdog, [WideBus]), n, e);
    CountRefreshed(c.watchdog, [WideBus], e);
    CountSnoc([], WideBus, e);
  }

  lemma SpeedsAttempts(c: Config, n: nat)
    ensures Speeds(IdentifyEvents(c, n)) == [] && Speeds(WideBusEvents(c, n)) == []
  {
    SpeedsAppend(if c.watchdog then [WatchdogRefresh] else [], [HalSdInit]);
    SpeedsAppend(if c.watchdog then [WatchdogRefresh] else [], [WideBus]);
    SpeedsRepeat(Refreshed(c.watchdog, [HalSdInit]), n);
    SpeedsRepeat(Refreshed(c.watchdog, [WideBus]), n);
  }

  lemma RefreshedAttempts(c: Config, n: nat, x: Event)
    requires c.watchdog && (x == HalSdInit || x == WideBus)
    ensures RefreshedBefore(IdentifyEvents(c, n), x)
    ensures RefreshedBefore(WideBusEvents(c, n), x)
  {
    RefreshedBeforeRepeat(Refreshed(c.watchdog, [HalSdInit]), n, x);
    RefreshedBeforeRepeat(Refreshed(c.watchdog, [WideBus]), n, x);
  }

  // ----- SDIO_Init -----

  /** A card that never answers: SDIO_Init gives up after the whole budget of
      HAL_SD_Init calls, without touching the transfer clock or the bus width. */
  lemma InitGivesUp(c: Config, init: InitConfig, sdInit: nat -> int, wideBus: nat -> int)
    requires TransferClockDefined(c)
    requires forall j :: 0 <= j < Budget(c.retries) ==> sdInit(j) != 0
    ensures var r := InitRun(c, init, sdInit, wideBus);
      && !r.result
      && Count(r.events, HalSdInit) == Budget(c.retries)
      && Count(r.events, LowLevelInit) == 1
      && Count(r.events, WideBus) == 0
      && Speeds(r.events) == []
  {
    var B := Budget(c.retries);
    PassesNever(sdInit, 0, B);
    assert InitRun(c, init, sdInit, wideBus) == Behaviour([LowLevelInit] + IdentifyEvents(c, B), false);
    IdentifiedCounts(c, B);
  }

  /** The calls up to the end of the identification loop, after `n` attempts:
      `n` HAL_SD_Init calls, one SD_LowLevel_Init, nothing else of note. */
  lemma IdentifiedCounts(c: Config, n: nat)
    ensures var identified := [LowLevelInit] + IdentifyEvents(c, n);
      && Count(identified, HalSdInit) == n
      && Count(identified, LowLevelInit) == 1
      && Count(identified, WideBus) == 0
      && Speeds(identified) == []
  {
    CountIdentified(c, n, HalSdInit);
    CountIdentified(c, n, LowLevelInit);
    CountIdentified(c, n, WideBus);
    CountIdentify(c, n, HalSdInit);
    CountIdentify(c, n, LowLevelInit);
    CountIdentify(c, n, WideBus);
    SpeedsAppend([LowLevelInit], IdentifyEvents(c, n));
    SpeedsAttempts(c, n);
  }

  /** On a one-bit bus, a card that answers HAL_SD_Init at the attempt after
      `k` failures is ready: exactly `k + 1` identification calls, and the last
      call switches to the transfer clock. */
  lemma InitOneBitReady(c: Config, init: InitConfig, sdInit: nat -> int, wideBus: nat -> int, k: nat)
    requires TransferClockDefined(c) && !c.wideBusPins
    requires k < Budget(c.retries)
    requires forall j :: 0 <= j < k ==> sdInit(j) != 0
    requires sdInit(k) == 0
    ensures var r := InitRun(c, init, sdInit, wideBus);
      && r.result
      && Count(r.events, HalSdInit) == k + 1
      && Count(r.events, WideBus) == 0
      && r.events[|r.events| - 1] == TransferSpeed(TransferConfig(c, init))
  {
    PassesAfter(sdInit, 0, Budget(c.retries), k);
    var identified := [LowLevelInit] + IdentifyEvents(c, k + 1);
    var speed := TransferSpeed(TransferConfig(c, init));
    assert InitRun(c, init, sdInit, wideBus) == Behaviour(identified + [speed], true);
    CountSnoc(identified, speed, HalSdInit);
    CountSnoc(identified, speed, WideBus);
    CountIdentified(c, k + 1, HalSdInit);
    CountIdentified(c, k + 1, WideBus);
    CountIdentify(c, k + 1, HalSdInit);
    CountIdentify(c, k + 1, WideBus);
  }

  /** On a board with the four-bit bus wired, a card identified after `k`
      failed HAL_SD_Init calls whose wide-bus switch passes after `m` failed
      ones is ready without the fallback: `k + 1` identification calls, `m + 1`
      wide-bus calls and a single SD_LowLevel_Init. */
  lemma InitFourBitReady(c: Config, init: InitConfig, sdInit: nat -> int, wideBus: nat -> int, k: nat, m: nat)
    requires TransferClockDefined(c) && c.wideBusPins && c.retries >= 1
    requires k < c.retries && m < c.retries
    requires forall j :: 0 <= j < k ==> sdInit(j) != 0
    requires sdInit(k) == 0
    requires forall j :: 0 <= j < m ==> wideBus(j) != 0
    requires wideBus(m) == 0
    ensures var r := InitRun(c, init, sdInit, wideBus);
      && r.result
      && Count(r.events, HalSdInit) == k + 1
      && Count(r.events, WideBus) == m + 1
      && Count(r.events, LowLevelInit) == 1
  {
    var B := Budget(c.retries);
    PassesAfter(sdInit, 0, B, k);
    PassesAfter(wideBus, 0, B, m);
    var identified := [LowLevelInit] + IdentifyEvents(c, k + 1);
    var speed := TransferSpeed(TransferConfig(c, init));
    assert ExitCounter(c.retries, Outcome(m + 1, true)) != 0;
    assert InitRun(c, init, sdInit, wideBus)
        == Behaviour(identified + [speed] + WideBusEvents(c, m + 1), true);
    CountAround(identified, speed, WideBusEvents(c, m + 1), HalSdInit);
    CountIdentified(c, k + 1, HalSdInit);
    CountIdentify(c, k + 1, HalSdInit);
    CountWideBus(c, m + 1, HalSdInit);
    CountTried(c, k + 1, speed, m + 1);
  }

  /** go_to_transfer_speed runs once, with hsd.Init and the computed divider,
      exactly when some HAL_SD_Init call of the first loop succeeds; otherwise
      it never runs. The fallback does not run it again. */
  lemma InitTransferSpeedIff(c: Config, init: InitConfig, sdInit: nat -> int, wideBus: nat -> int)
    requires TransferClockDefined(c)
    ensures Speeds(InitRun(c, init, sdInit, wideBus).events)
         == if forall j :: 0 <= j < Budget(c.retries) ==> sdInit(j) != 0
            then [] else [TransferConfig(c, init)]
  {
    var B := Budget(c.retries);
    var r := InitRun(c, init, sdInit, wideBus);
    var ident := Run(Passes(sdInit), 0, B);
    NeverAnswered(sdInit, 0, B);
    var identified := [LowLevelInit] + IdentifyEvents(c, ident.attempts);
    IdentifiedCounts(c, ident.attempts);
    if !ident.passed {
      assert r.events == identified;
      return;
    }
    var speed := TransferSpeed(TransferConfig(c, init));
    var wide := Run(Passes(wideBus), 0, B);
    var again := Run(Passes(sdInit), ident.attempts, B);
    SpeedsAfterIdentified(c, identified, speed, wide.attempts, again.attempts);
    if !c.wideBusPins {
      assert r.events == identified + [speed];
    } else if ExitCounter(c.retries, wide) != 0 {
      assert r.events == identified + [speed] + WideBusEvents(c, wide.attempts);
    } else {
      assert r.events == identified + [speed] + WideBusEvents(c, wide.attempts)
                         + [LowLevelInit] + IdentifyEvents(c, again.attempts);
    }
  }

  /** After the identification loop, only go_to_transfer_speed hands the
      peripheral a configuration. */
  lemma SpeedsAfterIdentified(c: Config, identified: seq<Event>, speed: Event, m: nat, n: nat)
    requires Speeds(identified) == [] && speed.TransferSpeed?
    ensures var tried := identified + [speed] + WideBusEvents(c, m);
      && Speeds(identified + [speed]) == [speed.config]
      && Speeds(tried) == [speed.config]
      && Speeds(tried + [LowLevelInit] + IdentifyEvents(c, n)) == [speed.config]
  {
    SpeedsAppend(identified, [speed]);
    SpeedsAttempts(c, m);
    SpeedsAttempts(c, n);
    SpeedsAppend(identified + [speed], WideBusEvents(c, m));
    var tried := identified + [speed] + WideBusEvents(c, m);
    SpeedsAppend(tried, [LowLevelInit]);
    SpeedsAppend(tried + [LowLevelInit], IdentifyEvents(c, n));
  }

  /** The calls of SDIO_Init up to the end of the wide-bus loop, after `n`
      identification and `m` wide-bus attempts: one SD_LowLevel_Init, and one
      wide-bus call per attempt. */
  lemma CountTried(c: Config, n: nat, speed: Event, m: nat)
    requires speed.TransferSpeed?
    ensures var tried := [LowLevelInit] + IdentifyEvents(c, n) + [speed] + WideBusEvents(c, m);
      Count(tried, LowLevelInit) == 1 && Count(tried, WideBus) == m
  {
    var identified := [LowLevelInit] + IdentifyEvents(c, n);
    CountAround([], LowLevelInit, IdentifyEvents(c, n), LowLevelInit);
    CountAround([], LowLevelInit, IdentifyEvents(c, n), WideBus);
    assert [] + [LowLevelInit] + IdentifyEvents(c, n) == identified;
    CountAround(identified, speed, WideBusEvents(c, m), LowLevelInit);
    CountAround(identified, speed, WideBusEvents(c, m), WideBus);
    CountIdentify(c, n, LowLevelInit);
    CountIdentify(c, n, WideBus);
    CountWideBus(c, m, LowLevelInit);
    CountWideBus(c, m, WideBus);
  }

  /** The fallback adds one SD_LowLevel_Init and no wide-bus call. */
  lemma CountFallback(c: Config, tried: seq<Event>, n: nat)
    ensures var events := tried + [LowLevelInit] + IdentifyEvents(c, n);
      && Count(events, LowLevelInit) == Count(tried, LowLevelInit) + 1
      && Count(events, WideBus) == Count(tried, WideBus)
  {
    CountAround(tried, LowLevelInit, IdentifyEvents(c, n), LowLevelInit);
    CountAround(tried, LowLevelInit, IdentifyEvents(c, n), WideBus);
    CountIdentify(c, n, LowLevelInit);
    CountIdentify(c, n, WideBus);
  }

  /** Once the card is identified on a board with the four-bit bus wired and a
      budget of at least one, the wide-bus switch is tried at most the budget
      times, and SD_LowLevel_Init runs a second time (the fallback to one bit)
      exactly when every attempt of that switch failed; the fallback makes no
      further wide-bus call, so then there were exactly the budget of them. */
  lemma InitFallbackIff(c: Config, init: InitConfig, sdInit: nat -> int, wideBus: nat -> int)
    requires TransferClockDefined(c) && c.wideBusPins && c.retries >= 1
    requires exists j :: 0 <= j < c.retries && sdInit(j) == 0
    ensures var r := InitRun(c, init, sdInit, wideBus);
      && 1 <= Count(r.events, WideBus) <= c.retries
      && (Count(r.events, LowLevelInit) == 2 <==> forall j :: 0 <= j < c.retries ==> wideBus(j) != 0)
      && (Count(r.events, LowLevelInit) == 1 || Count(r.events, LowLevelInit) == 2)
      && (Count(r.events, LowLevelInit) == 2 ==> Count(r.events, WideBus) == c.retries)
  {
    var B := Budget(c.retries);
    var ident := Run(Passes(sdInit), 0, B);
    var wide := Run(Passes(wideBus), 0, B);
    NeverAnswered(sdInit, 0, B);
    NeverAnswered(wideBus, 0, B);
    ExitCounterZeroIff(Passes(wideBus), 0, c.retries);
    var speed := TransferSpeed(TransferConfig(c, init));
    var tried := [LowLevelInit] + IdentifyEvents(c, ident.attempts) + [speed] + WideBusEvents(c, wide.attempts);
    CountTried(c, ident.attempts, speed, wide.attempts);
    if ExitCounter(c.retries, wide) == 0 {
      var again := Run(Passes(sdInit), ident.attempts, B);
      CountFallback(c, tried, again.attempts);
    }
  }

  /** SDIO_READ_RETRIES of 0: the `uint8_t` counter starts at 0, so a wide-bus
      switch that succeeds at once leaves it at 0, and the driver falls back to
      the one-bit bus although the switch succeeded. */
  lemma InitZeroBudgetFallsBack(c: Config, init: InitConfig, sdInit: nat -> int, wideBus: nat -> int)
    requires TransferClockDefined(c) && c.wideBusPins && c.retries == 0
    requires sdInit(0) == 0 && wideBus(0) == 0
    ensures var r := InitRun(c, init, sdInit, wideBus);
      && Count(r.events, WideBus) == 1
      && Count(r.events, LowLevelInit) == 2
  {
    var B := Budget(0);
    RunStopsAtFirstPass(Passes(sdInit), 0, B, 0);
    RunStopsAtFirstPass(Passes(wideBus), 0, B, 0);
    ExitCounterZeroBudget(Passes(wideBus), 0);
    var again := Run(Passes(sdInit), 1, B);
    var speed := TransferSpeed(TransferConfig(c, init));
    var tried := [LowLevelInit] + IdentifyEvents(c, 1) + [speed] + WideBusEvents(c, 1);
    CountTried(c, 1, speed, 1);
    CountFallback(c, tried, again.attempts);
  }

  /** With a budget of at least one, SDIO_Init fails exactly when every
      HAL_SD_Init call of the first loop fails, or when, on a four-bit board,
      every wide-bus call fails and then every HAL_SD_Init call of the
      fallback loop fails (its calls are numbered on from the `n` calls of the
      first loop). */
  lemma InitFailedIff(c: Config, init: InitConfig, sdInit: nat -> int, wideBus: nat -> int)
    requires TransferClockDefined(c) && c.retries >= 1
    ensures var n := Run(Passes(sdInit), 0, c.retries).attempts;
      !InitRun(c, init, sdInit, wideBus).result
      <==> || (forall j :: 0 <= j < c.retries ==> sdInit(j) != 0)
           || (&& c.wideBusPins
               && (forall j :: 0 <= j < c.retries ==> wideBus(j) != 0)
               && (forall j :: n <= j < n + c.retries ==> sdInit(j) != 0))
  {
    var B := Budget(c.retries);
    var ident := Run(Passes(sdInit), 0, B);
    ExitCounterZeroIff(Passes(wideBus), 0, c.retries);
    NeverAnswered(sdInit, 0, B);
    NeverAnswered(wideBus, 0, B);
    NeverAnswered(sdInit, ident.attempts, B);
  }


  /** With USE_WATCHDOG every HAL_SD_Init and every wide-bus call of SDIO_Init
      comes straight after a watchdog refresh; without it there is none. */
  lemma InitWatchdog(c: Config, init: InitConfig, sdInit: nat -> int, wideBus: nat -> int)
    requires TransferClockDefined(c)
    ensures var events := InitRun(c, init, sdInit, wideBus).events;
      && (c.watchdog ==> RefreshedBefore(events, HalSdInit) && RefreshedBefore(events, WideBus))
      && (!c.watchdog ==> Count(events, WatchdogRefresh) == 0)
  {
    if c.watchdog {
      InitRefreshed(c, init, sdInit, wideBus, HalSdInit);
      InitRefreshed(c, init, sdInit, wideBus, WideBus);
    } else {
      InitNoRefresh(c, init, sdInit, wideBus);
    }
  }

  lemma InitRefreshed(c: Config, init: InitConfig, sdInit: nat -> int, wideBus: nat -> int, x: Event)
    requires TransferClockDefined(c) && c.watchdog
    requires x == HalSdInit || x == WideBus
    ensures RefreshedBefore(InitRun(c, init, sdInit, wideBus).events, x)
  {
    var B := Budget(c.retries);
    var r := InitRun(c, init, sdInit, wideBus);
    var ident := Run(Passes(sdInit), 0, B);
    var identified := [LowLevelInit] + IdentifyEvents(c, ident.attempts);
    RefreshedAttempts(c, ident.attempts, x);
    RefreshedAround([], LowLevelInit, IdentifyEvents(c, ident.attempts), x);
    assert [] + [LowLevelInit] + IdentifyEvents(c, ident.attempts) == identified;
    if !ident.passed {
      assert r.events == identified;
      return;
    }
    var speed := TransferSpeed(TransferConfig(c, init));
    if !c.wideBusPins {
      assert r.events == identified + [speed];
      RefreshedAround(identified, speed, [], x);
      assert identified + [speed] + [] == identified + [speed];
      return;
    }
    var wide := Run(Passes(wideBus), 0, B);
    var again := Run(Passes(sdInit), ident.attempts, B);
    TriedRefreshed(c, identified, speed, wide.attempts, again.attempts, x);
    if ExitCounter(c.retries, wide) != 0 {
      assert r.events == identified + [speed] + WideBusEvents(c, wide.attempts);
    } else {
      assert r.events == identified + [speed] + WideBusEvents(c, wide.attempts)
                         + [LowLevelInit] + IdentifyEvents(c, again.attempts);
    }
  }

  /** The wide-bus attempts, and the fallback after them, keep every `x`
      refreshed. */
  lemma TriedRefreshed(c: Config, identified: seq<Event>, speed: Event, m: nat, n: nat, x: Event)
    requires c.watchdog && (x == HalSdInit || x == WideBus)
    requires RefreshedBefore(identified, x) && speed.TransferSpeed?
    ensures var tried := identified + [speed] + WideBusEvents(c, m);
      && RefreshedBefore(tried, x)
      && RefreshedBefore(tried + [LowLevelInit] + IdentifyEvents(c, n), x)
  {
    RefreshedAttempts(c, m, x);
    RefreshedAttempts(c, n, x);
    RefreshedAround(identified, speed, WideBusEvents(c, m), x);
    RefreshedAround(identified + [speed] + WideBusEvents(c, m), LowLevelInit, IdentifyEvents(c, n), x);
  }

  lemma InitNoRefresh(c: Config, init: InitConfig, sdInit: nat -> int, wideBus: nat -> int)
    requires TransferClockDefined(c) && !c.watchdog
    ensures Count(InitRun(c, init, sdInit, wideBus).events, WatchdogRefresh) == 0
  {
    var B := Budget(c.retries);
    var w := WatchdogRefresh;
    var r := InitRun(c, init, sdInit, wideBus);
    var ident := Run(Passes(sdInit), 0, B);
    var identified := [LowLevelInit] + IdentifyEvents(c, ident.attempts);
    CountIdentify(c, ident.attempts, w);
    CountIdentified(c, ident.attempts, w);
    if !ident.passed {
      assert r.events == identified;
      return;
    }
    var speed := TransferSpeed(TransferConfig(c, init));
    CountSnoc(identified, speed, w);
    if !c.wideBusPins {
      assert r.events == identified + [speed];
      return;
    }
    var wide := Run(Passes(wideBus), 0, B);
    var tried := identified + [speed] + WideBusEvents(c, wide.attempts);
    CountWideBus(c, wide.attempts, w);
    CountAround(identified, speed, WideBusEvents(c, wide.attempts), w);
    if ExitCounter(c.retries, wide) != 0 {
      assert r.events == tried;
      return;
    }
    var again := Run(Passes(sdInit), ident.attempts, B);
    assert r.events == tried + [LowLevelInit] + IdentifyEvents(c, again.attempts);
    CountIdentify(c, again.attempts, w);
    CountAround(tried, LowLevelInit, IdentifyEvents(c, again.attempts), w);
  }

  // ----- SDIO_ReadBlock and SDIO_WriteBlock -----


  /** SDIO_ReadBlock fails exactly when every attempt of the budget has a
      nonzero transfer status or a nonzero card state. */
  lemma ReadFailedIff(c: Config, block: u32, transfer: nat -> int, cardState: nat -> int)
    ensures ReadRun(c, block, transfer, cardState).result
        <==> forall j :: 0 <= j < Budget(c.retries) ==> transfer(j) != 0 || cardState(j) != 0
  {
    BlockFailedIff(transfer, cardState, Budget(c.retries));
  }

  /** SDIO_WriteBlock fails exactly when every attempt of the budget has a
      nonzero transfer status or a nonzero card state. */
  lemma WriteFailedIff(c: Config, block: u32, transfer: nat -> int, cardState: nat -> int)
    ensures WriteRun(c, block, transfer, cardState).result
        <==> forall j :: 0 <= j < Budget(c.retries) ==> transfer(j) != 0 || cardState(j) != 0
  {
    BlockFailedIff(transfer, cardState, Budget(c.retries));
  }

  /** How often the calls occur in one read attempt. */
  lemma ReadAttemptCounts(c: Config, block: u32)
    ensures var a := ReadAttempt(c, block);
      && Count(a, GetCardState) == 1
      && Count(a, ReadBlocks(block, 1, ReadTimeout)) == 1
      && Count(a, WatchdogRefresh) == (if c.watchdog then 1 else 0)
      && |a| == (if c.watchdog then 3 else 2)
  {
    var read := ReadBlocks(block, 1, ReadTimeout);
    CountRefreshed(c.watchdog, [read, GetCardState], GetCardState);
    CountRefreshed(c.watchdog, [read, GetCardState], read);
    CountRefreshed(c.watchdog, [read, GetCardState], WatchdogRefresh);
    CountPair(read, GetCardState, GetCardState);
    CountPair(read, GetCardState, read);
    CountPair(read, GetCardState, WatchdogRefresh);
  }

  /** The calls of SDIO_ReadBlock: `n` attempts, between one and the budget and
      the whole budget when the read failed, each reading the one block asked
      for with a 1000 ms timeout and querying the card state, each preceded by
      a refresh exactly when the watchdog is on; nothing else. */
  lemma ReadCalls(c: Config, block: u32, transfer: nat -> int, cardState: nat -> int)
    ensures var r := ReadRun(c, block, transfer, cardState);
      var n := Count(r.events, GetCardState);
      && 1 <= n <= Budget(c.retries)
      && (r.result ==> n == Budget(c.retries))
      && Count(r.events, ReadBlocks(block, 1, ReadTimeout)) == n
      && Count(r.events, WatchdogRefresh) == (if c.watchdog then n else 0)
      && |r.events| == (if c.watchdog then 3 * n else 2 * n)
      && (c.watchdog ==> RefreshedBefore(r.events, ReadBlocks(block, 1, ReadTimeout)))
  {
    var o := Run(BothPass(transfer, cardState), 0, Budget(c.retries));
    var attempt := ReadAttempt(c, block);
    ReadAttemptCounts(c, block);
    CountRepeat(attempt, o.attempts, GetCardState);
    CountRepeat(attempt, o.attempts, ReadBlocks(block, 1, ReadTimeout));
    CountRepeat(attempt, o.attempts, WatchdogRefresh);
    LengthRepeat(attempt, o.attempts);
    if c.watchdog {
      assert RefreshedBefore(attempt, ReadBlocks(block, 1, ReadTimeout)) by {
        assert attempt == [WatchdogRefresh, ReadBlocks(block, 1, ReadTimeout), GetCardState];
      }
      RefreshedBeforeRepeat(attempt, o.attempts, ReadBlocks(block, 1, ReadTimeout));
    }
  }

  /** The calls of SDIO_WriteBlock: as ReadCalls with a 500 ms timeout, and
      never a watchdog refresh. */
  lemma WriteCalls(c: Config, block: u32, transfer: nat -> int, cardState: nat -> int)
    ensures var r := WriteRun(c, block, transfer, cardState);
      var n := Count(r.events, GetCardState);
      && 1 <= n <= Budget(c.retries)
      && (r.result ==> n == Budget(c.retries))
      && Count(r.events, WriteBlocks(block, 1, WriteTimeout)) == n
      && Count(r.events, WatchdogRefresh) == 0
      && |r.events| == 2 * n
  {
    var o := Run(BothPass(transfer, cardState), 0, Budget(c.retries));
    var write := WriteBlocks(block, 1, WriteTimeout);
    var attempt := WriteAttempt(block);
    CountRepeat(attempt, o.attempts, GetCardState);
    CountRepeat(attempt, o.attempts, write);
    CountRepeat(attempt, o.attempts, WatchdogRefresh);
    CountPair(write, GetCardState, GetCardState);
    CountPair(write, GetCardState, write);
    CountPair(write, GetCardState, WatchdogRefresh);
    LengthRepeat(attempt, o.attempts);
  }

  /** A block attempt that passes after `k` failed ones ends SDIO_ReadBlock
      with success after exactly `k + 1` attempts, even when an earlier
      transfer succeeded but its card state did not. */
  lemma ReadStopsAtFirstSuccess(c: Config, block: u32, transfer: nat -> int, cardState: nat -> int, k: nat)
    requires k < Budget(c.retries)
    requires forall j :: 0 <= j < k ==> transfer(j) != 0 || cardState(j) != 0
    requires transfer(k) == 0 && cardState(k) == 0
    ensures var r := ReadRun(c, block, transfer, cardState);
      !r.result && Count(r.events, GetCardState) == k + 1
  {
    BothPassAfter(transfer, cardState, Budget(c.retries), k);
    var attempt := ReadAttempt(c, block);
    ReadAttemptCounts(c, block);
    CountRepeat(attempt, k + 1, GetCardState);
  }

  /** As ReadStopsAtFirstSuccess, for SDIO_WriteBlock. */
  lemma WriteStopsAtFirstSuccess(c: Config, block: u32, transfer: nat -> int, cardState: nat -> int, k: nat)
    requires k < Budget(c.retries)
    requires forall j :: 0 <= j < k ==> transfer(j) != 0 || cardState(j) != 0
    requires transfer(k) == 0 && cardState(k) == 0
    ensures var r := WriteRun(c, block, transfer, cardState);
      !r.result && Count(r.events, GetCardState) == k + 1
  {
    BothPassAfter(transfer, cardState, Budget(c.retries), k);
    var attempt := WriteAttempt(block);
    assert WriteRun(c, block, transfer, cardState) == Behaviour(Repeat(attempt, k + 1), false);
    CountPair(WriteBlocks(block, 1, WriteTimeout), GetCardState, GetCardState);
    assert Count(attempt, GetCardState) == 1;
    CountRepeat(attempt, k + 1, GetCardState);
  }
}
