/** The local SDIO driver: the global handle `hsd` and the functions that
    drive it. The HAL is not part of the model: each operation is given the
    statuses its HAL calls return, and the handle records the calls in
    `trace`. */
module SdioDriver {
  import opened SdioClock
  import opened Retry
  import opened SdioTrace

  /** `hsd.Instance`: unset until a driver function stores SDIO in it. */
  datatype Instance = Unset | Sdio

  /** HAL_SD_STATE_RESET. */
  const StateReset: int := 0

  /** The handle `hsd` together with the build configuration it is used with. */
  class Driver {
    const config: Config
    var instance: Instance    // hsd.Instance
    var state: int            // hsd.State, as written by this driver
    var init: InitConfig      // hsd.Init, which this driver only reads
    var trace: seq<Event>     // the calls made so far

    /** The handle as the zero-initialised global `hsd` starts. */
    constructor (config: Config)
      ensures this.config == config
      ensures instance == Unset && state == StateReset && init == ZeroInit && trace == []
    {
      this.config := config;
      instance := Unset;
      state := StateReset;
      init := ZeroInit;
      trace := [];
    }

    /** `go_to_transfer_speed()`: the configuration it hands the peripheral is
        `hsd.Init` with only the clock divider replaced by the one computed for
        SDIO_CLOCK. */
    method GoToTransferSpeed() returns (e: Event)
      requires TransferClockDefined(config)
      ensures e.TransferSpeed?
      ensures e.config.(clockDiv := init.clockDiv) == init
      ensures e.config.clockDiv == ClockToDivider(config.transferClock, config.pclk2)
      ensures e == TransferSpeed(TransferConfig(config, init))
    {
      var cfg := InitConfig(
        clockEdge := init.clockEdge,
        clockBypass := init.clockBypass,
        clockPowerSave := init.clockPowerSave,
        busWide := init.busWide,
        hardwareFlowControl := init.hardwareFlowControl,
        clockDiv := ClockToDivider(config.transferClock, config.pclk2));
      e := TransferSpeed(cfg);
    }

    /** The identification loop of SDIO_Init, whose first HAL_SD_Init call is
        call number `first` of the run. Each attempt refreshes the watchdog (when
        configured) and calls HAL_SD_Init; the loop stops at the first call
        returning HAL_OK, or when the retry counter runs out. */
    method Identify(sdInit: nat -> int, first: nat) returns (passed: bool, calls: nat, events: seq<Event>)
      ensures Run(Passes(sdInit), first, Budget(config.retries)) == Outcome(calls, passed)
      ensures events == IdentifyEvents(config, calls)
    {
      var retryCnt: uint8 := config.retries;
      ghost var budget := Budget(config.retries);
      events := [];
      calls := 0;
      while true
        invariant calls < budget && Budget(retryCnt) == budget - calls
        invariant forall j :: first <= j < first + calls ==> sdInit(j) != 0
        invariant events == IdentifyEvents(config, calls)
        decreases budget - calls
      {
        events := events + Refreshed(config.watchdog, [HalSdInit]);
        var status := sdInit(first + calls);
        calls := calls + 1;
        if status == 0 {
          PassesAfter(sdInit, first, budget, calls - 1);
          passed := true;
          return;
        }
        BudgetAfterDecrement(retryCnt);
        retryCnt := PreDecrement(retryCnt);
        if retryCnt == 0 {
          assert calls == budget;
          PassesNever(sdInit, first, budget);
          passed := false;
          return;
        }
      }
    }

    /** The wide-bus loop of SDIO_Init, HAL_SD_ConfigWideBusOperation in
        place of HAL_SD_Init. It returns the counter as the loop leaves it,
        and, as a ghost, whether the last attempt passed. */
    method TryWideBus(wideBus: nat -> int) returns (retryCnt: uint8, ghost passed: bool, calls: nat, events: seq<Event>)
      ensures Run(Passes(wideBus), 0, Budget(config.retries)) == Outcome(calls, passed)
      ensures retryCnt == ExitCounter(config.retries, Outcome(calls, passed))
      ensures events == WideBusEvents(config, calls)
    {
      retryCnt := config.retries;
      ghost var budget := Budget(config.retries);
      events := [];
      calls := 0;
      while true
        invariant calls < budget && Budget(retryCnt) == budget - calls
        invariant forall j :: 0 <= j < calls ==> wideBus(j) != 0
        invariant events == WideBusEvents(config, calls)
        decreases budget - calls
      {
        events := events + Refreshed(config.watchdog, [WideBus]);
        var status := wideBus(calls);
        calls := calls + 1;
        if status == 0 {
          CounterAtPass(wideBus, config.retries, calls - 1, retryCnt);
          passed := true;
          return;
        }
        BudgetAfterDecrement(retryCnt);
        retryCnt := PreDecrement(retryCnt);
        if retryCnt == 0 {
          assert calls == budget;
          CounterAtExhaustion(wideBus, config.retries, calls);
          passed := false;
          return;
        }
      }
    }

    /** `SDIO_Init()`: true when the card is ready. */
    method Init(sdInit: nat -> int, wideBus: nat -> int) returns (ok: bool)
      requires TransferClockDefined(config)
      modifies this
      ensures instance == Sdio && state == StateReset && init == old(init)
      ensures trace == old(trace) + InitRun(config, init, sdInit, wideBus).events
      ensures ok == InitRun(config, init, sdInit, wideBus).result
    {
      instance := Sdio;
      state := StateReset;
      var passed, calls, identified := Identify(sdInit, 0);
      var events := [LowLevelInit] + identified;
      if !passed {
        trace := trace + events;
        return false;
      }
      var speed := GoToTransferSpeed();
      events := events + [speed];
      if config.wideBusPins {
        var retryCnt, wideOk, wideCalls, tried := TryWideBus(wideBus);
        events := events + tried;
        if retryCnt == 0 {
          state := StateReset;
          var fallbackCalls, again;
          passed, fallbackCalls, again := Identify(sdInit, calls);
          events := events + [LowLevelInit] + again;
          trace := trace + events;
          return passed;
        }
      }
      trace := trace + events;
      return true;
    }

    /** `SDIO_ReadBlock(block, dst)`: false when the block was read. Attempt i's
        HAL_SD_ReadBlocks returns `transfer(i)` and its HAL_SD_GetCardState
        `cardState(i)`. */
    method ReadBlock(block: u32, transfer: nat -> int, cardState: nat -> int) returns (failed: bool)
      modifies this`instance, this`trace
      ensures instance == Sdio
      ensures trace == old(trace) + ReadRun(config, block, transfer, cardState).events
      ensures failed == ReadRun(config, block, transfer, cardState).result
    {
      instance := Sdio;
      var retryCnt: uint8 := config.retries;
      ghost var budget := Budget(config.retries);
      var calls: nat := 0;
      var events: seq<Event> := [];
      while true
        invariant calls < budget && Budget(retryCnt) == budget - calls
        invariant forall j :: 0 <= j < calls ==> transfer(j) != 0 || cardState(j) != 0
        invariant events == Repeat(ReadAttempt(config, block), calls)
        decreases budget - calls
      {
        events := events + ReadAttempt(config, block);
        var status := transfer(calls) != 0;
        status := status || cardState(calls) != 0;
        calls := calls + 1;
        if !status {
          BothPassAfter(transfer, cardState, budget, calls - 1);
          trace := trace + events;
          return status;
        }
        retryCnt := PreDecrement(retryCnt);
        if retryCnt == 0 {
          assert calls == budget;
          BothPassNever(transfer, cardState, budget);
          trace := trace + events;
          return status;
        }
      }
    }

    /** `SDIO_WriteBlock(block, src)`: as ReadBlock, with a 500 ms timeout and
        no watchdog refresh. */
    method WriteBlock(block: u32, transfer: nat -> int, cardState: nat -> int) returns (failed: bool)
      modifies this`instance, this`trace
      ensures instance == Sdio
      ensures trace == old(trace) + WriteRun(config, block, transfer, cardState).events
      ensures failed == WriteRun(config, block, transfer, cardState).result
    {
      instance := Sdio;
      var retryCnt: uint8 := config.retries;
      ghost var budget := Budget(config.retries);
      var calls: nat := 0;
      var events: seq<Event> := [];
      while true
        invariant calls < budget && Budget(retryCnt) == budget - calls
        invariant forall j :: 0 <= j < calls ==> transfer(j) != 0 || cardState(j) != 0
        invariant events == Repeat(WriteAttempt(block), calls)
        decreases budget - calls
      {
        events := events + WriteAttempt(block);
        var status := transfer(calls) != 0;
        status := status || cardState(calls) != 0;
        calls := calls + 1;
        if !status {
          BothPassAfter(transfer, cardState, budget, calls - 1);
          trace := trace + events;
          return status;
        }
        retryCnt := PreDecrement(retryCnt);
        if retryCnt == 0 {
          assert calls == budget;
          BothPassNever(transfer, cardState, budget);
          trace := trace + events;
          return status;
        }
      }
    }
  }
}
