# Live AI 3D printer monitor: the supervisory core in Dafny

The monitor watches a print through a camera. A detector finds defects in the
frames: warping, stringing, spaghetti, skipped layers and the like. A
correction engine then sends corrective G-code to the printer over a serial
link. This project models the parts of the monitor that make decisions, and
proves what they do:

- **Correction engine** (`correction_engine.dfy`, module `CorrectionEngine`).
  - A fixed table lists, for each defect type, rules in priority order. A rule
    is a G-code template, a confidence threshold and a description.
  - One global cooldown of 30 s separates corrections.
  - A relative template (`M140 S+5`, `M104 S-5`) is resolved against the
    heater's *target* temperature, which is read from the printer with `M105`.
  - `apply_live_correction` is a class method with the source's `for` loop,
    its `continue` and its `break`. It is proved against the function `Walk`.
- **Printer driver** (`printer_control.dfy`, module `PrinterControl`).
  - The Marlin/RepRap command templates.
  - `send_live` writes the command once. It then reads lines until the first
    `ok` line, error line or transport fault, and reconnects after a fault.
  - `connect_live`, at construction, on a send to a closed port and after a
    fault, opens the port and reads one greeting line, opening it again for
    every fault met while reading it.
  - The link is a value `Link(connected, device, trace)`:
    - `device` is the finite input the device will still deliver;
    - `trace` records every open, write and read.
  - `get_live_temp` parses the reply with a character-level model of the
    regular expression `T:(\d+\.?\d*)\s?/(\d+\.?\d*)\s+B:(\d+\.?\d*)\s?/(\d+\.?\d*)`.
  - The convenience commands `set_temp_live`, `pause_live`, `resume_live`,
    `emergency_stop_live` and `adjust_speed_live`.
- **Detection sampler** (`ai_model.dfy`, module `AiModel`).
  - Every sixth frame reaches the detector.
  - The confidence floor depends on the layer.
  - Class ids are mapped to defect names.
  - A max-search over the detector's boxes picks the defect. The boxes are an
    input.
- **Orchestration** (`main_loop.dfy`, module `Monitor`). Three steps, each run
  alone:
  - one pass of the capture thread: a bounded analysis queue that drops frames
    when full, and a one-slot display queue that is drained and refilled;
  - one pass of the AI thread;
  - one iteration of the main loop: it dispatches at most one defect to the
    logger and the corrector, then builds the dashboard status.
- **Text** (`text.dfy`, module `Text`). Python's string semantics as the core
  uses them:
  - `in` on strings, `str.strip()` and lower-casing;
  - `int()` of digit strings;
  - decimal numbers: the greedy `\d+\.?\d*` reader, and the text a Python
    float prints.

Temperatures are exact decimals, `Decimal(units, scale)`, whose value is
`units / 10^scale`. Confidences and times are `real`. The clock is a
parameter of the engine: `now` is the reading of the cooldown check and
`later` is the reading of the reset.

## Model

| member | source | states |
|---|---|---|
| CorrectionEngine.TableEntries | correction_engine.py:25-46 | The strategy table has exactly the six defect types. Each type has its rules in the source's order, with the source's templates and thresholds. |
| CorrectionEngine.StaticTemplate | correction_engine.py:109-111 | `M220 S90`, `M106 S255`, `M112` and `M220 S80` hold neither `S+` nor `S-`, so they are static. |
| CorrectionEngine.TemplateCodes | correction_engine.py:90-107 | `M140 S+5` and `M104 S-5` are relative. Each holds its own heater code, and `M104 S-5` does not hold `M140`. |
| CorrectionEngine.FirstSignedIntAt | correction_engine.py:97 | A sign followed by a digit run, with no sign before it, is the first match of `[+-]\d+`. It is read in full as a signed int. |
| CorrectionEngine.LeadingSignedInt | correction_engine.py:97 | The same, for any text made of a sign-free prefix, a sign, digits and a rest that does not start with a digit. |
| CorrectionEngine.TableDeltas | correction_engine.py:97 | The table's relative templates read as deltas +5 and -5. |
| CorrectionEngine.ResolvedSetpoint | correction_engine.py:97-107 | A resolved relative template has a delta and holds `M140` or `M104`; any other code resolves to nothing. The command starts with `M140 S` for the bed and `M104 S` for the hotend. When the new target (that heater's target plus the delta) is not negative, the number reads back as exactly that target; for a negative new target only the `M140 S`/`M104 S` head is stated. The measured temperatures play no part. |
| CorrectionEngine.TableResolutions | correction_engine.py:92-107 | With temperatures, the table's relative rules give `M140 S` followed by bed target + 5, and `M104 S` followed by hotend target - 5. Without temperatures they give nothing. |
| CorrectionEngine.WalkSendsInOrder | correction_engine.py:63-83 | The walk's link is exactly its commands sent one after another. The lines written are those commands with their newlines, in order. |
| CorrectionEngine.WalkSendsOneCorrection | correction_engine.py:63-83 | A walk writes some temperature queries and then at most one correction, which is the last thing it sends. |
| CorrectionEngine.WalkNoneTaken | correction_engine.py:64 | When the confidence strictly exceeds no rule's threshold, nothing is sent and nothing is applied. |
| CorrectionEngine.WalkFirstTaken | correction_engine.py:63-83 | The first rule taken decides. A static template is sent as it is. A relative one is queried and then sent resolved; when it does not resolve, the walk continues with the next rule after the query. |
| CorrectionEngine.WalkAppliesTakenRule | correction_engine.py:64-76 | A correction that is applied is the resolution of a rule whose threshold the confidence strictly exceeds, made on the link the walk holds at that rule (after the queries of the rules taken before it). Every earlier rule was either not taken or did not resolve. |
| CorrectionEngine.CooldownFacts | correction_engine.py:123-133 | The cooldown is active right after a reset. Once over, it stays over as time goes on. From the initial time 0 it is over exactly after 30 s. |
| CorrectionEngine.CorrectNothing | correction_engine.py:55-61 | For an unknown defect type, or within the cooldown, the call changes nothing, whatever the confidence. |
| CorrectionEngine.SingleStop | correction_engine.py:63-83 | A one-rule `M112` strategy sends exactly `M112` above its threshold, and nothing otherwise. |
| CorrectionEngine.StopTypes | correction_engine.py:34-45 | spaghetti (0.85), layer_skip (0.80) and anomaly (0.90) stop the printer when the threshold is exceeded, and only then. |
| CorrectionEngine.WarpingOutcomes | correction_engine.py:26-29 | Warping above 0.80: an answered query raises the bed target by 5, and that command is the correction applied and logged. It never slows the print. When the query fails, `M220 S90` is sent and applied above 0.90, and otherwise nothing beyond the query is sent and nothing is applied. |
| CorrectionEngine.StringingOutcomes | correction_engine.py:30-33 | Stringing above 0.75: an answered query lowers the hotend target by 5, and that command is the correction applied and logged. When the query fails, `M106 S255` is sent and applied above 0.85, and otherwise nothing beyond the query is sent and nothing is applied. |
| CorrectionEngine.TwoRuleWalk | correction_engine.py:63-83 | A relative rule followed by a static one: the resolved command, or else the static one above its threshold, or only the query. |
| CorrectionEngine.LastRule | correction_engine.py:63-83 | One static rule is sent exactly when its threshold is exceeded. |
| CorrectionEngine.EventLog.LogDefect | event_logger.py:58-63 | A defect entry is appended to the log. |
| CorrectionEngine.EventLog.LogCorrection | event_logger.py:65-70 | A correction entry, with the defect and the command, is appended to the log. |
| CorrectionEngine.LiveParameterTuner.constructor | correction_engine.py:122-124 | The cooldown is 30 s and the last correction time is 0. |
| CorrectionEngine.LiveParameterTuner.IsCooldownOver | correction_engine.py:127-129 | True exactly when strictly more than the cooldown has passed since the last correction. |
| CorrectionEngine.LiveParameterTuner.ResetCooldown | correction_engine.py:131-133 | The last correction time becomes `now`, and the cooldown is then active. |
| CorrectionEngine.LiveCorrectionEngine.constructor | correction_engine.py:18-46 | The engine keeps its printer and logger, gets a fresh tuner, and uses the strategy table. |
| CorrectionEngine.LiveCorrectionEngine.ParseDynamicCommandLive | correction_engine.py:85-115 | A static template is returned as it is, without a query. A relative one sends `M105` and resolves against the parsed reply, or gives None. |
| CorrectionEngine.LiveCorrectionEngine.ApplyLiveCorrection | correction_engine.py:49-83 | The printer ends in the state of `Correct`, the walk of the defect's strategy. A correction is logged exactly when one is sent, and the cooldown is reset then and only then. Anything else the tuner holds is unchanged. |
| PrinterControl.FormatAfterPrefix | printer_control.py:15-28 | `format` on a template of the form prefix + `{}` gives the prefix followed by the argument. |
| PrinterControl.HotendTempFilled | printer_control.py:136 | The hotend template filled in is `M104 S` + argument. |
| PrinterControl.BedTempFilled | printer_control.py:138 | The bed template filled in is `M140 S` + argument. |
| PrinterControl.SpeedFilled | printer_control.py:142 | The speed template filled in is `M220 S` + argument. |
| PrinterControl.MessageFilled | printer_control.py:146 | The message template filled in is `M117 ` + argument. |
| PrinterControl.ReadingCases | printer_control.py:80-91 | A line is skipped exactly when it is blank after stripping. An `ok` line succeeds even when it also holds an error marker. A line with an error marker and no `ok` fails. Any other line is kept, stripped, with a newline. |
| PrinterControl.ScanStopsAtFirstTerminal | printer_control.py:78-91 | Reading stops at the first fault or terminal line. The buffer then holds every piece up to and including it. |
| PrinterControl.ScanWithoutTerminal | printer_control.py:79-82 | With no terminal line, all input is read and there is no verdict. |
| PrinterControl.AwaitReply | printer_control.py:78-96 | The reading loop ends with the verdict, buffer and count of items read that the scan specification gives. |
| PrinterControl.ConnectSkipsFaults | printer_control.py:44-59 | connect_live opens the port once, and once more for each fault met while reading the greeting. The first line after those faults is the greeting: it is read and consumed. Input made only of faults is consumed whole. Nothing is written. |
| PrinterControl.ConnectExtends | printer_control.py:44-59 | A connection opens the port, only appends to the trace, starting with an opening, writes nothing, and consumes a prefix of the input. |
| PrinterControl.SendWritesOnce | printer_control.py:66-75 | A send writes exactly one line, the command with a newline. On an open port the write comes first. On a closed port it comes after the reconnection and its greeting read, which write nothing. |
| PrinterControl.SendAnswer | printer_control.py:78-96 | The first terminal item of the input left once the port is ready decides. Success gives every non-blank line up to it, in order, each with a newline. An error or a fault gives None, and the command is not re-sent. Reading stops right after that item. A fault, and only a fault, is followed by a reconnection, which reads its greeting from the input after the fault. |
| PrinterControl.ReconnectConsumesGreeting | printer_control.py:93-95 | After a fault, the reconnection uses up the next line as its greeting. With a fault, any line and an error line to come, two sends both give None: the second one meets the error line. |
| PrinterControl.SendWithoutAnswer | printer_control.py:79-82 | Without a terminal item in the input left once the port is ready, the send gives no reply and consumes all of that input. |
| PrinterControl.SendAllWritesInOrder | printer_control.py:61-99 | A run of sends writes each command once, in order. |
| PrinterControl.SendAllAppend | printer_control.py:61-99 | Sending a + b is sending a, then b. |
| PrinterControl.TempCommands | printer_control.py:133-138 | The hotend command comes before the bed command, and each is sent only when its argument is given. Each argument, an int or a float, is printed as `str()` prints it. |
| PrinterControl.TempCommandsIntOrFloat | printer_control.py:136 | The int 200 gives `M104 S200`, and the float 200.0 gives `M104 S200.0`. |
| PrinterControl.PauseCommands | printer_control.py:144-147 | `M117` with the reason's spaces turned into underscores, then `M25`. |
| PrinterControl.DefaultPauseCommands | printer_control.py:144-147 | With the default reason, pause_live sends `M117 AI_PAUSED`, then `M25`. |
| PrinterControl.ResumeCommands | printer_control.py:149-152 | `M117 AI RESUMED`, then `M24`. |
| PrinterControl.SpeedCommand | printer_control.py:140-142 | `M220 S` followed by the percentage as Python prints an int. |
| PrinterControl.ParseTempsLeftmost | printer_control.py:109 | The search finds nothing exactly when the pattern matches nowhere. Otherwise it returns the match at the leftmost matching position. |
| PrinterControl.MatchPieces | printer_control.py:41 | The pattern matched piece by piece: `T:`, a number, ` /`, a number, ` B:`, a number, ` /`, a number. |
| PrinterControl.MatchReport | printer_control.py:112-115 | The four numbers of a report are groups 1-4: hotend, hotend target, bed, bed target. |
| PrinterControl.ParseReport | printer_control.py:106-122 | A report after text with no `T`, and before text that does not start with a digit, parses to its four readings. |
| PrinterControl.ParseTempsReadsBack | printer_control.py:106-122 | The parser reads back the temperatures the firmware prints: four temperatures, each not negative and printed with at least one fractional digit, parse to exactly those temperatures. This holds when the text before the report has no `T` and the text after it does not start with a digit. |
| PrinterControl.ParseTempsExample | printer_control.py:40-41 | `ok T:205.1 /210.0 B:60.2 /70.0` parses to 205.1, 210.0, 60.2 and 70.0. |
| PrinterControl.LivePrinterControl.constructor | printer_control.py:36-42 | The driver is created with its port and baud rate, and connects as `connect_live` does, reading the greeting from the device's input. |
| PrinterControl.LivePrinterControl.ConnectLive | printer_control.py:44-59 | The retry loop ends in the state of `Connect`: the port is open, one opening is recorded per attempt, and the greeting line is read and consumed. |
| PrinterControl.LivePrinterControl.Close | printer_control.py:154-157 | The port is closed, and nothing else changes. |
| PrinterControl.LivePrinterControl.SendLive | printer_control.py:61-99 | The new link state and the reply are those of `Send`. |
| PrinterControl.LivePrinterControl.ReadResponse | printer_control.py:78-96 | The items read are consumed and recorded. After a fault the driver reconnects as `Connect` says, greeting read included. The reply is the buffer on success, and None otherwise. |
| PrinterControl.LivePrinterControl.GetLiveTemp | printer_control.py:101-126 | One `M105` exchange. The result is None for a failed or empty reply or a reply without a match, and the parsed temperatures otherwise. |
| PrinterControl.LivePrinterControl.EmergencyStopLive | printer_control.py:128-131 | Exactly `M112` is sent. |
| PrinterControl.LivePrinterControl.SetTempLive | printer_control.py:133-138 | The commands of `TempCommands` are sent in order. Each argument is an int or a float, and both default to None. |
| PrinterControl.LivePrinterControl.AdjustSpeedLive | printer_control.py:140-142 | Exactly the speed command is sent. |
| PrinterControl.LivePrinterControl.PauseLive | printer_control.py:144-147 | The message, then the pause, are sent. The reason defaults to `AI PAUSED`. |
| PrinterControl.LivePrinterControl.ResumeLive | printer_control.py:149-152 | The message, then the resume, are sent. |
| AiModel.OneInSix | ai_model.py:50-54 | Of any six consecutive frame counts, exactly one is sampled. |
| AiModel.ThresholdMonotone | ai_model.py:109-111 | The confidence floor never decreases as the layer grows. |
| AiModel.ClassNameCases | ai_model.py:90-101 | With a name table, the lookup succeeds exactly for the classes in it and gives the table's name. Without one, it always succeeds, and only class 0 (`anomaly`) is not `unknown`. |
| AiModel.PickRaises | ai_model.py:66-86 | The box loop raises exactly when some box above the floor has no name. |
| AiModel.PickBest | ai_model.py:63-88 | The result is an exception when a box above the floor has no name. Otherwise it is None exactly when no box qualifies. Else it is the defect of the first qualifying box of maximal confidence: no qualifying box exceeds it, and every earlier qualifying box is strictly lower. |
| AiModel.PickedQualifies | ai_model.py:72-77 | A reported defect's confidence exceeds the floor, and its type is not `unknown`. |
| AiModel.LiveAIModel.constructor | ai_model.py:42-43 | The frame count and the current layer start at 0. |
| AiModel.LiveAIModel.GetThreshold | ai_model.py:103-111 | 0.70 below layer 10, 0.75 below layer 50, and 0.80 otherwise. The layer becomes the current layer. |
| AiModel.LiveAIModel.SetCurrentLayer | ai_model.py:113-114 | Only the current layer changes. |
| AiModel.LiveAIModel.MapClassToDefect | ai_model.py:90-101 | The table's name when there is a table, or None when the table lacks the class. Without a table, `anomaly` for class 0 and `unknown` otherwise. |
| AiModel.LiveAIModel.AnalyzeLive | ai_model.py:45-88 | The frame count goes up by exactly 1, and the layer is unchanged. The result is no defect unless the new count is a multiple of six and the detector answered; otherwise it is the pick over the boxes at the current layer's floor. |
| Monitor.Queue.constructor | main.py:28-33 | An empty queue with the given bound. |
| Monitor.Queue.PutNowait | main.py:69 | Succeeds exactly when the queue is not full, and then appends at the tail. Otherwise nothing changes. |
| Monitor.Queue.GetNowait | main.py:78 | The oldest item, removed, or Empty when there is none. |
| Monitor.Queue.Empty | main.py:77 | True exactly when the queue holds nothing. |
| Monitor.Offered | main.py:67-72 | A full queue is left unchanged. Otherwise the frame is appended at the tail. |
| Monitor.OffersKeepBound | main.py:67-72 | Any number of offers keeps the bound. The queue grows by one per offer until it is full. |
| Monitor.RoutingSizes | main.py:28 | With the bound of 10: a queue of 10 drops the masked frame, and a shorter one gains it at the tail. |
| Monitor.CaptureStep | main.py:50-87 | A converted frame goes, masked, to the analysis queue, or is dropped when that queue is full. Unmasked, it becomes the only item of the display queue. Without a frame or a conversion, neither queue changes. |
| Monitor.AiStep | main.py:104-125 | The oldest frame is taken and analysed. Only a found defect is queued; a raised exception queues nothing. An empty queue changes nothing. |
| Monitor.Shown | main.py:191-193 | The parsed temperatures, or all zeros when the query failed. |
| Monitor.MainStep | main.py:169-212 | At most one defect is taken and logged, then corrected exactly once, through `Correct`. Then, when a display frame is waiting, one temperature query is made. The broadcast carries the frame, the current layer, the shown temperatures and no defect. The tuner's last correction time changes only when a correction is applied, and its cooldown length never changes. |
| Text.FirstSome | printer_control.py:109 | The first present value: None exactly when there is none, and otherwise a value with only absent ones before it. |
| Text.ContainsSpec | printer_control.py:87 | Python's `p in s` holds exactly when p occurs at some position of s. |
| Text.StripEmpty | printer_control.py:80-81 | A line strips to nothing exactly when all of it is whitespace. |
| Text.StripLeftSpec | printer_control.py:80 | The longest whitespace prefix is removed. |
| Text.StripRightSpec | printer_control.py:80 | The longest whitespace suffix is removed. |
| Text.NatTextValue | printer_control.py:142 | The decimal text of n reads back as n. |
| Text.DigitsValueAppend | printer_control.py:112-115 | The value of concatenated digit strings is the first value shifted, plus the second. |
| Text.PointedReadsAs | printer_control.py:112-115 | Digits, a point and digits are read as a decimal with those digits, and with one fractional place per digit after the point. |
| Text.RenderReadsBack | printer_control.py:41 | The regex's number group, run over a rendered non-negative number, consumes all of the text and reads back the same value. |
| Text.FloatTextReadsBack | correction_engine.py:101-107 | The text of a new target temperature, read back with the regex's number group, is the same value. |
| Text.Shortest | correction_engine.py:102 | The same value with trailing fractional zeros dropped. |

## Left out

- Threads, queue locking, `join`, the sleeps and `KeyboardInterrupt` handling in main.py are not modelled. Each step runs alone on the shared queues.
- The blocking `get(timeout=…)` calls in main.py:109 and main.py:172 are modelled as `get_nowait`: an empty queue is the `Empty` case.
- Monitor.AiStep requires an unbounded result queue (`maxsize <= 0`), as main.py:30 creates it, so that its put never fails.
- The `running` flags and the endless worker and main loops are not modelled: one pass of each is.
- The serial port, its timeouts and the sleeps are not modelled. The device is a finite scripted input of lines and faults.
- When the script runs out before a terminal line, the driver would read empty lines forever. The model ends the wait with no reply instead.
- PrinterControl.LivePrinterControl.ConnectLive: opening the port never fails in the model. The only failed attempts are faults while reading the greeting, and the sleeps are left out.
- Writing to the port never faults in the model; a transport fault is raised only by a read.
- The `if self.ser is None` check after reconnecting (printer_control.py:69-71) can never be true once `connect_live` returns, so it has no counterpart.
- The generic `except Exception` of send_live (printer_control.py:97-99) is not modelled. Nothing in the modelled driver raises besides the transport fault.
- `decode('utf-8', errors='ignore')` is not modelled: lines are already character strings.
- Lower-casing is ASCII only.
- Digits are the ASCII digits `0`-`9`. Python's `\d`, `int()` and `float()` also accept the other Unicode decimal digits.
- `float()` and float arithmetic are exact decimals. Confidences are reals.
- A new target temperature is rendered as the shortest decimal text of its exact value, with at least one fractional digit (`65.0`, `65.2`). This is what `str()` gives for such short decimals, but binary rounding is not modelled.
- The `ValueError` branch of get_live_temp (printer_control.py:123-125) cannot be reached in the model: every match of the pattern is a valid float.
- The YOLO model, its `conf=0.75` pre-filter, the torch device, model loading, `AITrainer` and `LiveDataCollector` are not modelled. The detector's boxes, or its failure, are an input.
- The result list of the detector is one list of boxes; the nested loop over results then boxes is that list in order.
- kinect_capture.py is not part of this model: the capture is an input, and the ROI mask is a function parameter.
- web_dashboard.py is not part of this model: the broadcast is returned as a value.
- event_logger.py is modelled only as a list of entries; the log text formatting is left out.
- The `except Exception` around the broadcast (main.py:208-209) is not modelled, because the broadcast is a returned value.
- COMMANDS entries that the core never sends (`M221`, `M106 S{}`, `G28`, `G1 …`) are declared but have no operations.

Two behaviours of the code worth knowing:

- After a relative template fails to resolve, the code `continue`s to the next rule (correction_engine.py:69-71). For warping at 0.95 without temperatures, it therefore sends `M220 S90`.
- On a transport fault the driver reconnects inside the failing call (printer_control.py:93-96), not on the next call. The failing call still returns None.
