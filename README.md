# Marlin STM32 SDIO driver (local-driver branch), modelled in Dafny

This project models the SD-card SDIO driver Marlin uses on STM32 boards when
the card is not shared with a USB host
(`Marlin/src/HAL/STM32/Sd2Card_sdio_stm32duino.cpp`, the branch without
`HAS_SD_HOST_DRIVE`). The model has four parts:

- **The clock negotiator** `clock_to_divider`. It caps the requested SDIO
  clock at 8/3 of PCLK2 and at SDIOCLK (48 MHz). It then returns the
  rounded-up ratio PCLK2 / clock, minus the 2 that the peripheral adds back.
  All of this is `uint32_t` arithmetic.
- **The bring-up sequence** `SDIO_Init` with `go_to_transfer_speed`. It
  identifies the card in a bounded retry loop, then switches the peripheral
  to the transfer clock. When the D1–D3 pins exist, it tries the four-bit
  bus. If every wide-bus attempt fails, it falls back to a fresh one-bit
  identification.
- **The block transfers** `SDIO_ReadBlock` and `SDIO_WriteBlock`. Each is a
  bounded retry loop. An attempt fails when either the transfer status or the
  card state is nonzero.
- **The retry counter.** It is a `uint8_t` that is decremented before it is
  tested. A budget of 0 therefore wraps round to 256 attempts.

The files are:

- **`clock.dfy`** (module `SdioClock`): `clock_to_divider` as pure functions.
  `CeilDiv` is a ceiling division defined independently of the driver's
  formula, and lemmas connect the two.
- **`retry.dfy`** (module `Retry`): the retry loop as a function `Run` of a
  pass/fail oracle. `ExitCounter` gives the counter value the loop leaves
  behind.
- **`trace.dfy`** (module `SdioTrace`): the calls the driver makes into the
  HAL, as `Event`s. `InitRun`, `ReadRun` and `WriteRun` are the
  specifications: the calls each driver function makes and its return
  value, for given HAL answers.
- **`driver.dfy`** (module `SdioDriver`): the global handle `hsd` as the
  class `Driver`. Its methods run the source's `for (;;)` loops as `while`
  loops over the `uint8_t` counter. They are proved to record exactly the
  calls of the specification and to return its result.
- **`properties.dfy`** (module `SdioProperties`): what those call sequences
  add up to, for every HAL answer. It covers call counts, when the driver
  gives up, when it falls back, and where the watchdog is refreshed.

The HAL is not modelled.

- Every HAL call is an oracle of type `nat -> int` that gives the status of
  the i-th call in one driver operation. A status of 0 means `HAL_OK`.
- The HAL_SD_Init calls of the fallback loop continue the numbering of the
  first loop.
- `HAL_RCC_GetPCLK2Freq()` is the parameter `pclk2`.
- The configuration macros are fields of `Config`:
  - `SDIO_READ_RETRIES` is `retries`;
  - `SDIO_CLOCK` is `transferClock`;
  - `PINS_EXIST(SDIO_D1, SDIO_D2, SDIO_D3)` is `wideBusPins`;
  - `USE_WATCHDOG` is `watchdog`.

Where the code and its comments disagree, the model follows the code:

- The divider is computed from PCLK2, not from the 48 MHz that the comment
  above the constants calls the SDIO clock.
- Reads use a 1000 ms timeout, although the comment beside the call says
  500 ms. Writes use 500 ms.

Of the two block loops, only the read loop refreshes the watchdog (:271);
the write loop (:318-323) has no refresh.

## Model

| member | source | states |
|---|---|---|
| SdioClock.PclkLimit | Marlin/src/HAL/STM32/Sd2Card_sdio_stm32duino.cpp:114 | 8/3 of PCLK2 as the driver computes it: the result is the quotient of the wrapped product `pclk2 * 8` (modulo 2^32) by 3, rounded down. Below 2^29 nothing wraps and it is `8 * pclk2 / 3` rounded down. |
| SdioClock.EffectiveClock | Marlin/src/HAL/STM32/Sd2Card_sdio_stm32duino.cpp:113-115 | The clock aimed for. It is at most the request, at most the 8/3 limit and at most SDIOCLK, and it equals one of the three. |
| SdioClock.CeilDiv | Marlin/src/HAL/STM32/Sd2Card_sdio_stm32duino.cpp:116-119 | Reference ceiling division: the least quotient whose product with the divisor reaches the dividend. |
| SdioClock.ClockToDivider | Marlin/src/HAL/STM32/Sd2Card_sdio_stm32duino.cpp:110-120 | `clock_to_divider`. It is defined only when the effective clock is nonzero; otherwise the division is by zero. The result plus 2, taken modulo 2^32, is the ceiling of PCLK2 divided by the effective clock. |
| SdioClock.QuotientPlusCarry | Marlin/src/HAL/STM32/Sd2Card_sdio_stm32duino.cpp:119 | The driver's `p / c + (p % c != 0)` equals the ceiling division, and it never exceeds the dividend. |
| SdioClock.DividerNeverOverclocks | Marlin/src/HAL/STM32/Sd2Card_sdio_stm32duino.cpp:116-119 | Below PCLK2: `d + 2` is the ceiling and `(d + 2) * c >= pclk2`, so the output `pclk2 / (d + 2)` never exceeds the effective clock. One divider less would: `(d + 1) * c < pclk2`. |
| SdioClock.DividerWrapsAtInputClock | Marlin/src/HAL/STM32/Sd2Card_sdio_stm32duino.cpp:119 | At or above PCLK2 the unsigned `- 2` wraps, and the divider is 0xFFFFFFFF. |
| SdioClock.DividerDefinedIff | Marlin/src/HAL/STM32/Sd2Card_sdio_stm32duino.cpp:113-115 | A divider exists exactly when the request is nonzero and the wrapped `pclk2 * 8` is at least 3. |
| Retry.PreDecrement | Marlin/src/HAL/STM32/Sd2Card_sdio_stm32duino.cpp:204 | `--retry_Cnt` on a `uint8_t`: it subtracts one, and 0 wraps to 255. |
| Retry.Budget | Marlin/src/HAL/STM32/Sd2Card_sdio_stm32duino.cpp:191 | The attempts a loop may make with a given starting counter: between 1 and 256; the counter itself when it is nonzero, and 256 when it is 0. |
| Retry.Run | Marlin/src/HAL/STM32/Sd2Card_sdio_stm32duino.cpp:200-205 | A retry loop makes between one attempt and the budget. It makes the whole budget when no attempt passes. |
| Retry.CounterAfter | Marlin/src/HAL/STM32/Sd2Card_sdio_stm32duino.cpp:204 | The counter after `k` pre-decrements, `k` up to the budget: `r - k` while that is not negative, and `r - k + 256` once the `uint8_t` has wrapped. |
| Retry.CounterAfterDecrements | Marlin/src/HAL/STM32/Sd2Card_sdio_stm32duino.cpp:214 | After `k` pre-decrements the counter holds `(r - k) mod 256`. |
| Retry.RunStopsAtFirstPass | Marlin/src/HAL/STM32/Sd2Card_sdio_stm32duino.cpp:203 | After `k` failures, an attempt that passes ends the loop after exactly `k + 1` attempts. |
| Retry.RunExhausted | Marlin/src/HAL/STM32/Sd2Card_sdio_stm32duino.cpp:204 | When every attempt fails, the loop gives up after exactly the budget. |
| Retry.RunFailuresBeforeLast | Marlin/src/HAL/STM32/Sd2Card_sdio_stm32duino.cpp:200-205 | Every attempt before the last failed. The last attempt passed exactly when the loop reports a pass. |
| Retry.RunPassedIff | Marlin/src/HAL/STM32/Sd2Card_sdio_stm32duino.cpp:200-205 | The loop passes if and only if one of its attempts passes. |
| Retry.ExitCounter | Marlin/src/HAL/STM32/Sd2Card_sdio_stm32duino.cpp:210-216 | The counter the wide-bus loop leaves, which `if (!retry_Cnt)` tests. After a pass it is 0 exactly when the budget was 0 and the first attempt passed. After a failure it is 0 exactly when the whole budget was used. |
| Retry.ExitCounterZeroIff | Marlin/src/HAL/STM32/Sd2Card_sdio_stm32duino.cpp:210-216 | With a budget of at least one, the counter is 0 after the wide-bus loop exactly when every attempt failed. |
| Retry.ExitCounterZeroBudget | Marlin/src/HAL/STM32/Sd2Card_sdio_stm32duino.cpp:210-216 | With a budget of 0, a first attempt that passes still leaves the counter at 0. |
| SdioTrace.DefaultConfig | Marlin/src/HAL/STM32/Sd2Card_sdio_stm32duino.cpp:97-105 | An unconfigured build retries 3 times and aims for 18 MHz. |
| SdioTrace.TransferConfig | Marlin/src/HAL/STM32/Sd2Card_sdio_stm32duino.cpp:122-131 | The configuration go_to_transfer_speed builds keeps every field of `hsd.Init` except the divider. The divider plus 2, modulo 2^32, is the ceiling of PCLK2 divided by the effective clock. |
| SdioTrace.DefaultDividers | Marlin/src/HAL/STM32/Sd2Card_sdio_stm32duino.cpp:99-131 | With the default configuration, the transfer divider for a PCLK2 of 72, 84 and 48 MHz is 2, 3 and 1, and for 12 MHz the wrapped 0xFFFFFFFF. The bus width passes through from `hsd.Init`. |
| SdioTrace.InitRun | Marlin/src/HAL/STM32/Sd2Card_sdio_stm32duino.cpp:190-230 | The calls of `SDIO_Init` and its result. The first call is always SD_LowLevel_Init. It succeeds only if a HAL_SD_Init call of the first loop succeeds. Without D1–D3 pins, it succeeds exactly then. |
| SdioTrace.ReadRun | Marlin/src/HAL/STM32/Sd2Card_sdio_stm32duino.cpp:265-277 | The calls of `SDIO_ReadBlock` and its failure flag. At least one attempt is made. A failed read made the whole budget of attempts. |
| SdioTrace.WriteRun | Marlin/src/HAL/STM32/Sd2Card_sdio_stm32duino.cpp:314-325 | The same for `SDIO_WriteBlock`, whose attempts make no refresh. |
| SdioTrace.NeverAnswered | Marlin/src/HAL/STM32/Sd2Card_sdio_stm32duino.cpp:200-205 | A retry loop over a HAL call fails if and only if every call of its budget returns nonzero. |
| SdioTrace.BlockFailedIff | Marlin/src/HAL/STM32/Sd2Card_sdio_stm32duino.cpp:270-276 | A block loop fails if and only if every attempt has a nonzero transfer status or a nonzero card state. |
| SdioDriver.Driver.constructor | Marlin/src/HAL/STM32/Sd2Card_sdio_stm32duino.cpp:78 | The handle starts zero-initialised: no instance, state RESET, an all-zero `Init`, and no calls made. |
| SdioDriver.Driver.GoToTransferSpeed | Marlin/src/HAL/STM32/Sd2Card_sdio_stm32duino.cpp:122-135 | The configuration handed to the peripheral equals `hsd.Init` in every field except `ClockDiv`. `ClockDiv` is `clock_to_divider(SDIO_CLOCK)`. |
| SdioDriver.Driver.Identify | Marlin/src/HAL/STM32/Sd2Card_sdio_stm32duino.cpp:199-205 | The identification loop makes the attempts `Run` gives and reports whether one passed. Each attempt calls HAL_SD_Init, after a refresh when the watchdog is on. |
| SdioDriver.Driver.TryWideBus | Marlin/src/HAL/STM32/Sd2Card_sdio_stm32duino.cpp:209-215 | The wide-bus loop makes the attempts `Run` gives. It returns the `uint8_t` counter as `ExitCounter` says it is left. |
| SdioDriver.Driver.Init | Marlin/src/HAL/STM32/Sd2Card_sdio_stm32duino.cpp:190-230 | `SDIO_Init` stores SDIO in `hsd.Instance` with state RESET and leaves `hsd.Init` alone. It appends exactly the calls of `InitRun` to the trace and returns its result. |
| SdioDriver.Driver.ReadBlock | Marlin/src/HAL/STM32/Sd2Card_sdio_stm32duino.cpp:265-277 | `SDIO_ReadBlock` stores SDIO in `hsd.Instance`. It appends exactly the calls of `ReadRun` and returns its failure flag. |
| SdioDriver.Driver.WriteBlock | Marlin/src/HAL/STM32/Sd2Card_sdio_stm32duino.cpp:314-325 | `SDIO_WriteBlock` does the same with `WriteRun`. |
| SdioProperties.InitGivesUp | Marlin/src/HAL/STM32/Sd2Card_sdio_stm32duino.cpp:199-205 | A card that never answers makes SDIO_Init fail after exactly the budget of HAL_SD_Init calls. There is one SD_LowLevel_Init, no transfer-speed switch and no wide-bus call. |
| SdioProperties.InitOneBitReady | Marlin/src/HAL/STM32/Sd2Card_sdio_stm32duino.cpp:199-229 | Without D1–D3 pins, after `k` failed identifications and one success, SDIO_Init succeeds after exactly `k + 1` HAL_SD_Init calls. Its last call is the transfer-speed switch, and it makes no wide-bus call. |
| SdioProperties.InitFourBitReady | Marlin/src/HAL/STM32/Sd2Card_sdio_stm32duino.cpp:199-229 | Applies with D1–D3 pins, a budget of at least one, and `k` and `m` below it. A card identified after `k` failures whose wide-bus switch passes after `m` failures is ready. There are exactly `k + 1` HAL_SD_Init calls, `m + 1` wide-bus calls, and one SD_LowLevel_Init, so no fallback. |
| SdioProperties.InitTransferSpeedIff | Marlin/src/HAL/STM32/Sd2Card_sdio_stm32duino.cpp:199-226 | go_to_transfer_speed runs once, with hsd.Init and the computed divider, exactly when some first-loop identification succeeds. Otherwise it never runs, and the fallback never runs it again. |
| SdioProperties.InitFallbackIff | Marlin/src/HAL/STM32/Sd2Card_sdio_stm32duino.cpp:209-226 | Applies to an identified card with D1–D3 pins and a budget of at least one. Wide-bus calls number between 1 and the budget. When the driver falls back there are exactly the budget of them, so none is made after the fallback. A second SD_LowLevel_Init happens if and only if every wide-bus call failed. |
| SdioProperties.InitZeroBudgetFallsBack | Marlin/src/HAL/STM32/Sd2Card_sdio_stm32duino.cpp:191-218 | With SDIO_READ_RETRIES of 0, a wide-bus switch that succeeds at once still leads to the fallback. |
| SdioProperties.InitFailedIff | Marlin/src/HAL/STM32/Sd2Card_sdio_stm32duino.cpp:190-230 | Applies with a budget of at least one. SDIO_Init fails if and only if every first-loop HAL_SD_Init call fails, or, on a four-bit board, every wide-bus call fails and every fallback HAL_SD_Init call (a fresh budget, numbered on) fails. |
| SdioProperties.InitWatchdog | Marlin/src/HAL/STM32/Sd2Card_sdio_stm32duino.cpp:201-221 | With USE_WATCHDOG, every HAL_SD_Init and wide-bus call comes straight after a refresh. Without it there is no refresh. |
| SdioProperties.ReadFailedIff | Marlin/src/HAL/STM32/Sd2Card_sdio_stm32duino.cpp:270-277 | SDIO_ReadBlock reports failure if and only if every attempt of the budget has a nonzero transfer status or a nonzero card state. |
| SdioProperties.WriteFailedIff | Marlin/src/HAL/STM32/Sd2Card_sdio_stm32duino.cpp:318-324 | The same for SDIO_WriteBlock. |
| SdioProperties.ReadCalls | Marlin/src/HAL/STM32/Sd2Card_sdio_stm32duino.cpp:270-276 | `n` attempts, between 1 and the budget, and all of the budget on failure. Each attempt reads the one requested block with count 1 and timeout 1000, and queries the card state. Each is refreshed first exactly when the watchdog is on. The read makes no other calls. |
| SdioProperties.WriteCalls | Marlin/src/HAL/STM32/Sd2Card_sdio_stm32duino.cpp:318-323 | The same for writes, with timeout 500. A write never refreshes the watchdog. |
| SdioProperties.ReadStopsAtFirstSuccess | Marlin/src/HAL/STM32/Sd2Card_sdio_stm32duino.cpp:274 | The first attempt with both statuses zero ends the read with success after exactly `k + 1` attempts, even when an earlier transfer passed but its card state did not. |
| SdioProperties.WriteStopsAtFirstSuccess | Marlin/src/HAL/STM32/Sd2Card_sdio_stm32duino.cpp:321 | The same for writes. |

## Left out

- The HAL and CMSIS calls are oracles. Their internals are not part of this
  model: `HAL_SD_Init`, `HAL_SD_ConfigWideBusOperation`,
  `HAL_SD_ReadBlocks`/`WriteBlocks`, `HAL_SD_GetCardState`,
  `SDIO_Init(instance, Init)` and `HAL_RCC_GetPCLK2Freq`. So are the HAL's
  own writes to `hsd.State`; the `state` field records only the driver's
  writes.
- The card state is treated the way the code treats it: as a status where 0
  means healthy. The model does not look at what values
  `HAL_SD_GetCardState` returns.
- `SD_LowLevel_Init` (:137-183) is one `LowLevelInit` event. Its clock-enable,
  GPIO and register writes are board wiring. `HAL_SD_MspInit` (:185-188) is a
  HAL callback that this file never calls; it is part of the `HAL_SD_Init`
  oracle.
- The data buffer is left out. The driver only passes it to the HAL, and
  nothing in the file reads or changes the bytes.
- Timeouts are values recorded in the events, not real time. The watchdog's
  effect and the timing of the calls are not modelled.
- The `HAS_SD_HOST_DRIVE` branch is left out. It holds thin pass-throughs to
  the USB mass-storage functions.
- The commented-out code (:231-263, :279-309) is left out because it has no
  behaviour.
- The `return true` at :311 is unreachable: the read loop is left only by a
  `break` (:274, :275), and :277 returns the flag. The model's `ReadBlock` has no code after its
  loop.
- The chip selection (:31-33, :61-76, and the `DISABLED(STM32F1xx)` blocks at
  :150 and :167) is left out. The feature macros become fields of `Config`.
- SdioClock.ClockToDivider: requires a nonzero effective clock. In the
  source a zero clock is a division by zero, which is undefined behaviour.
- SdioDriver.Driver.Init: the HAL calls are replaced by oracle values that
  are fixed in advance. The HAL's own changes to `hsd` between the calls are
  not modelled.
- The driver's methods collect the calls of one operation in a local
  sequence and add it to `trace` when the operation returns. Since the
  oracles are fixed in advance, this ordering is not observable.
