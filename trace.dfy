/** What the driver does, as the sequence of calls it makes into the HAL.
    `InitRun`, `ReadRun` and `WriteRun` give the calls `SDIO_Init`,
    `SDIO_ReadBlock` and `SDIO_WriteBlock` make and what they return, for
    given answers of the HAL; the driver's methods are proved to make them. */
module SdioTrace {
  import opened SdioClock
  import opened Retry

  /** `SD_InitTypeDef`: the peripheral configuration in `hsd.Init`. */
  datatype InitConfig = InitConfig(
    clockEdge: u32,
    clockBypass: u32,
    clockPowerSave: u32,
    busWide: u32,
    hardwareFlowControl: u32,
    clockDiv: u32)

  /** A zero-initialised `SD_InitTypeDef`, as the global `hsd` starts. */
  const ZeroInit := InitConfig(0, 0, 0, 0, 0, 0)

  /** The build configuration and the platform clock.
      `retries` is SDIO_READ_RETRIES as stored in a `uint8_t`, `transferClock`
      is SDIO_CLOCK, `wideBusPins` is PINS_EXIST(SDIO_D1, SDIO_D2, SDIO_D3),
      `watchdog` is USE_WATCHDOG and `pclk2` what HAL_RCC_GetPCLK2Freq returns. */
  datatype Config = Config(
    retries: uint8,
    transferClock: u32,
    wideBusPins: bool,
    watchdog: bool,
    pclk2: u32)

  /** The build the source sets up when nothing is configured. */
  function DefaultConfig(wideBusPins: bool, watchdog: bool, pclk2: u32): (c: Config)
    ensures c.retries == 3 && c.transferClock == 18_000_000
  {
    Config(3, DefaultTransferClock, wideBusPins, watchdog, pclk2)
  }

  /** Whether go_to_transfer_speed can compute its divider on this platform. */
  predicate TransferClockDefined(c: Config) {
    DividerDefined(c.transferClock, c.pclk2)
  }

  /** Timeouts, in milliseconds, passed to HAL_SD_ReadBlocks and HAL_SD_WriteBlocks. */
  const ReadTimeout: nat := 1000
  const WriteTimeout: nat := 500

  /** One call the driver makes. */
  datatype Event =
    | LowLevelInit                                              // SD_LowLevel_Init()
    | WatchdogRefresh                                           // HAL_watchdog_refresh()
    | HalSdInit                                                 // HAL_SD_Init(&hsd)
    | TransferSpeed(config: InitConfig)                         // SDIO_Init(hsd.Instance, Init)
    | WideBus                                                   // HAL_SD_ConfigWideBusOperation(&hsd, SDIO_BUS_WIDE_4B)
    | ReadBlocks(block: u32, count: nat, timeout: nat)          // HAL_SD_ReadBlocks
    | WriteBlocks(block: u32, count: nat, timeout: nat)         // HAL_SD_WriteBlocks
    | GetCardState                                              // HAL_SD_GetCardState(&hsd)

  /** The result of a whole driver operation: the calls made, and its return value. */
  datatype Behaviour = Behaviour(events: seq<Event>, result: bool)

  /** The attempt `i` of a HAL call passes when the call returns 0 (HAL_OK). */
  function Passes(status: nat -> int): nat -> bool {
    (i: nat) => status(i) == 0
  }

  /** A block attempt passes only when both the transfer and the card-state
      query return 0: `status = transfer; status |= card_state`. */
  function BothPass(transfer: nat -> int, cardState: nat -> int): nat -> bool {
    (i: nat) => transfer(i) == 0 && cardState(i) == 0
  }

  /** A HAL call that fails `k` times and then returns HAL_OK ends its retry
      loop after `k + 1` calls. */
  lemma PassesAfter(status: nat -> int, first: nat, left: nat, k: nat)
    requires k < left
    requires forall j :: first <= j < first + k ==> status(j) != 0
    requires status(first + k) == 0
    ensures Run(Passes(status), first, left) == Outcome(k + 1, true)
  {
    RunStopsAtFirstPass(Passes(status), first, left, k);
  }

  /** A HAL call that fails every time exhausts its retry loop. */
  lemma PassesNever(status: nat -> int, first: nat, left: nat)
    requires left >= 1
    requires forall j :: first <= j < first + left ==> status(j) != 0
    ensures Run(Passes(status), first, left) == Outcome(left, false)
  {
    RunExhausted(Passes(status), first, left);
  }

  /** The wide-bus loop left at a pass after `k` failures: the counter, which
      was decremented once per failure, is the exit counter of that run. */
  lemma CounterAtPass(status: nat -> int, r: uint8, k: nat, cnt: uint8)
    requires k < Budget(r) && Budget(cnt) == Budget(r) - k
    requires forall j :: 0 <= j < k ==> status(j) != 0
    requires status(k) == 0
    ensures Run(Passes(status), 0, Budget(r)) == Outcome(k + 1, true)
    ensures cnt == ExitCounter(r, Outcome(k + 1, true))
  {
    PassesAfter(status, 0, Budget(r), k);
    CounterFromBudget(r, k, cnt);
  }

  /** The wide-bus loop left when its counter reached zero: every call of the
      budget failed and the exit counter is zero. */
  lemma CounterAtExhaustion(status: nat -> int, r: uint8, k: nat)
    requires k == Budget(r)
    requires forall j :: 0 <= j < k ==> status(j) != 0
    ensures Run(Passes(status), 0, Budget(r)) == Outcome(k, false)
    ensures ExitCounter(r, Outcome(k, false)) == 0
  {
    PassesNever(status, 0, Budget(r));
    CounterExhausted(r);
  }

  /** As PassesAfter, for a block attempt. */
  lemma BothPassAfter(transfer: nat -> int, cardState: nat -> int, left: nat, k: nat)
    requires k < left
    requires forall j :: 0 <= j < k ==> transfer(j) != 0 || cardState(j) != 0
    requires transfer(k) == 0 && cardState(k) == 0
    ensures Run(BothPass(transfer, cardState), 0, left) == Outcome(k + 1, true)
  {
    RunStopsAtFirstPass(BothPass(transfer, cardState), 0, left, k);
  }

  /** As PassesNever, for block attempts. */
  lemma BothPassNever(transfer: nat -> int, cardState: nat -> int, left: nat)
    requires left >= 1
    requires forall j :: 0 <= j < left ==> transfer(j) != 0 || cardState(j) != 0
    ensures Run(BothPass(transfer, cardState), 0, left) == Outcome(left, false)
  {
    RunExhausted(BothPass(transfer, cardState), 0, left);
  }

  /** A retry loop over a HAL call fails exactly when every call of its
      budget fails. */
  lemma NeverAnswered(status: nat -> int, first: nat, left: nat)
    requires left >= 1
    ensures !Run(Passes(status), first, left).passed
        <==> forall j :: first <= j < first + left ==> status(j) != 0
  {
    var o := Run(Passes(status), first, left);
    if !o.passed {
      RunFailuresBeforeLast(Passes(status), first, left);
      forall j | first <= j < first + left
        ensures status(j) != 0
      {
        assert !Passes(status)(j);
      }
    } else if forall j :: first <= j < first + left ==> status(j) != 0 {
      PassesNever(status, first, left);
    }
  }

  /** A block retry loop fails exactly when every attempt of its budget has
      a nonzero transfer status or a nonzero card state. */
  lemma BlockFailedIff(transfer: nat -> int, cardState: nat -> int, left: nat)
    requires left >= 1
    ensures !Run(BothPass(transfer, cardState), 0, left).passed
        <==> forall j :: 0 <= j < left ==> transfer(j) != 0 || cardState(j) != 0
  {
    var o := Run(BothPass(transfer, cardState), 0, left);
    if !o.passed {
      RunFailuresBeforeLast(BothPass(transfer, cardState), 0, left);
      forall j | 0 <= j < left
        ensures transfer(j) != 0 || cardState(j) != 0
      {
        assert !BothPass(transfer, cardState)(j);
      }
    } else if forall j :: 0 <= j < left ==> transfer(j) != 0 || cardState(j) != 0 {
      BothPassNever(transfer, cardState, left);
    }
  }

  /** `b` repeated `n` times. */
  function Repeat(b: seq<Event>, n: nat): seq<Event> {
    if n == 0 then [] else Repeat(b, n - 1) + b
  }

  /** The calls of one attempt of a loop whose body starts with
      `TERN_(USE_WATCHDOG, HAL_watchdog_refresh())`. */
  function Refreshed(watchdog: bool, b: seq<Event>): seq<Event> {
    (if watchdog then [WatchdogRefresh] else []) + b
  }

  /** The configuration go_to_transfer_speed passes to the peripheral. */
  function TransferConfig(c: Config, init: InitConfig): (t: InitConfig)
    requires TransferClockDefined(c)
    ensures t.clockEdge == init.clockEdge && t.clockBypass == init.clockBypass
    ensures t.clockPowerSave == init.clockPowerSave && t.busWide == init.busWide
    ensures t.hardwareFlowControl == init.hardwareFlowControl
    ensures Wrap32(t.clockDiv + 2) == CeilDiv(c.pclk2, EffectiveClock(c.transferClock, c.pclk2))
  {
    InitConfig(init.clockEdge, init.clockBypass, init.clockPowerSave, init.busWide,
               init.hardwareFlowControl, ClockToDivider(c.transferClock, c.pclk2))
  }

  /** With the build's defaults, go_to_transfer_speed programs divider 2, 3
      and 1 for a PCLK2 of 72, 84 and 48 MHz, and the wrapped 0xFFFFFFFF for
      12 MHz; the other fields of hsd.Init pass through. */
  lemma DefaultDividers(wideBusPins: bool, watchdog: bool, init: InitConfig)
    ensures TransferConfig(DefaultConfig(wideBusPins, watchdog, 72_000_000), init).clockDiv == 2
    ensures TransferConfig(DefaultConfig(wideBusPins, watchdog, 84_000_000), init).clockDiv == 3
    ensures TransferConfig(DefaultConfig(wideBusPins, watchdog, 48_000_000), init).clockDiv == 1
    ensures TransferConfig(DefaultConfig(wideBusPins, watchdog, 12_000_000), init).clockDiv == 0xFFFF_FFFF
    ensures TransferConfig(DefaultConfig(wideBusPins, watchdog, 72_000_000), init).busWide == init.busWide
  {
  }

  /** The calls of `n` identification attempts. */
  function IdentifyEvents(c: Config, n: nat): seq<Event> {
    Repeat(Refreshed(c.watchdog, [HalSdInit]), n)
  }

  /** The calls of `n` wide-bus attempts. */
  function WideBusEvents(c: Config, n: nat): seq<Event> {
    Repeat(Refreshed(c.watchdog, [WideBus]), n)
  }

  /** `SDIO_Init()`. The i-th HAL_SD_Init call of the run (the fallback's calls
      continue the numbering) returns `sdInit(i)`, the i-th wide-bus call
      returns `wideBus(i)`; `init` is `hsd.Init`. */
  function InitRun(c: Config, init: InitConfig, sdInit: nat -> int, wideBus: nat -> int): (r: Behaviour)
    requires TransferClockDefined(c)
    ensures |r.events| >= 1 && r.events[0] == LowLevelInit
    ensures r.result ==> Run(Passes(sdInit), 0, Budget(c.retries)).passed
    ensures !c.wideBusPins ==> (r.result <==> Run(Passes(sdInit), 0, Budget(c.retries)).passed)
  {
    var ident := Run(Passes(sdInit), 0, Budget(c.retries));
    var identified := [LowLevelInit] + IdentifyEvents(c, ident.attempts);
    if !ident.passed then Behaviour(identified, false)
    else
      var atSpeed := identified + [TransferSpeed(TransferConfig(c, init))];
      if !c.wideBusPins then Behaviour(atSpeed, true)
      else
        var wide := Run(Passes(wideBus), 0, Budget(c.retries));
        var tried := atSpeed + WideBusEvents(c, wide.attempts);
        if ExitCounter(c.retries, wide) != 0 then Behaviour(tried, true)
        else
          var again := Run(Passes(sdInit), ident.attempts, Budget(c.retries));
          Behaviour(tried + [LowLevelInit] + IdentifyEvents(c, again.attempts), again.passed)
  }

  /** The calls of one SDIO_ReadBlock attempt: the card state is queried
      whatever the transfer returned. */
  function ReadAttempt(c: Config, block: u32): seq<Event> {
    Refreshed(c.watchdog, [ReadBlocks(block, 1, ReadTimeout), GetCardState])
  }

  /** The calls of one SDIO_WriteBlock attempt: no watchdog refresh. */
  function WriteAttempt(block: u32): seq<Event> {
    [WriteBlocks(block, 1, WriteTimeout), GetCardState]
  }

  /** `SDIO_ReadBlock(block, dst)`. Attempt i's transfer returns `transfer(i)`
      and its card-state query `cardState(i)`; the result is the failure flag. */
  function ReadRun(c: Config, block: u32, transfer: nat -> int, cardState: nat -> int): (r: Behaviour)
    ensures |r.events| >= |ReadAttempt(c, block)|
    ensures r.result ==> r.events == Repeat(ReadAttempt(c, block), Budget(c.retries))
  {
    var o := Run(BothPass(transfer, cardState), 0, Budget(c.retries));
    Behaviour(Repeat(ReadAttempt(c, block), o.attempts), !o.passed)
  }

  /** `SDIO_WriteBlock(block, src)`, as ReadRun. */
  function WriteRun(c: Config, block: u32, transfer: nat -> int, cardState: nat -> int): (r: Behaviour)
    ensures |r.events| >= |WriteAttempt(block)|
    ensures r.result ==> r.events == Repeat(WriteAttempt(block), Budget(c.retries))
  {
    var o := Run(BothPass(transfer, cardState), 0, Budget(c.retries));
    Behaviour(Repeat(WriteAttempt(block), o.attempts), !o.passed)
  }

  // ----- counting calls -----

  /** How often `e` occurs in `s`. */
  function Count(s: seq<Event>, e: Event): (n: nat)
    ensures n <= |s|
  {
    if s == [] then 0 else (if s[0] == e then 1 else 0) + Count(s[1..], e)
  }

  /** The configurations handed to the peripheral by go_to_transfer_speed, in order. */
  function Speeds(s: seq<Event>): seq<InitConfig> {
    if s == [] then []
    else (if s[0].TransferSpeed? then [s[0].config] else []) + Speeds(s[1..])
  }

  /** Every `e` in `s` comes straight after a watchdog refresh. */
  ghost predicate RefreshedBefore(s: seq<Event>, e: Event) {
    forall i :: 0 <= i < |s| && s[i] == e ==> i > 0 && s[i - 1] == WatchdogRefresh
  }

  lemma {:induction false} CountAppend(a: seq<Event>, b: seq<Event>, e: Event)
    ensures Count(a + b, e) == Count(a, e) + Count(b, e)
    decreases |a|
  {
    if a != [] {
      assert (a + b)[1..] == a[1..] + b;
      CountAppend(a[1..], b, e);
    } else {
      assert a + b == b;
    }
  }

  lemma {:induction false} CountRepeat(b: seq<Event>, n: nat, e: Event)
    ensures Count(Repeat(b, n), e) == n * Count(b, e)
    decreases n
  {
    if n > 0 {
      CountRepeat(b, n - 1, e);
      CountAppend(Repeat(b, n - 1), b, e);
      assert n * Count(b, e) == (n - 1) * Count(b, e) + Count(b, e);
    }
  }

  lemma {:induction false} SpeedsAppend(a: seq<Event>, b: seq<Event>)
    ensures Speeds(a + b) == Speeds(a) + Speeds(b)
    decreases |a|
  {
    if a != [] {
      assert (a + b)[1..] == a[1..] + b;
      SpeedsAppend(a[1..], b);
    } else {
      assert a + b == b;
    }
  }

  lemma {:induction false} SpeedsRepeat(b: seq<Event>, n: nat)
    requires Speeds(b) == []
    ensures Speeds(Repeat(b, n)) == []
    decreases n
  {
    if n > 0 {
      SpeedsRepeat(b, n - 1);
      SpeedsAppend(Repeat(b, n - 1), b);
    }
  }

  lemma RefreshedBeforeAppend(a: seq<Event>, b: seq<Event>, e: Event)
    requires RefreshedBefore(a, e) && RefreshedBefore(b, e)
    ensures RefreshedBefore(a + b, e)
  {
    forall i | 0 <= i < |a + b| && (a + b)[i] == e
      ensures i > 0 && (a + b)[i - 1] == WatchdogRefresh
    {
      if i >= |a| {
        assert b[i - |a|] == e;
        assert (a + b)[i - 1] == b[i - |a| - 1];
      }
    }
  }

  lemma {:induction false} RefreshedBeforeRepeat(b: seq<Event>, n: nat, e: Event)
    requires RefreshedBefore(b, e)
    ensures RefreshedBefore(Repeat(b, n), e)
    decreases n
  {
    if n > 0 {
      RefreshedBeforeRepeat(b, n - 1, e);
      RefreshedBeforeAppend(Repeat(b, n - 1), b, e);
    }
  }
}
