# Home-automation master: verified model

This project models, in Dafny, the three parts of a home-automation controller that carry state, loops and
arithmetic, and proves what they promise.

1. **Clock, scheduler, calendar.** `Civil` converts between 32-bit epoch seconds and civil dates; `SystemClock` keeps the time
   from a wrapping millisecond timer; `Alarms` is the twelve-slot alarm table over that clock and `AlarmRuns` its runs;
   `CalendarImage`, `CalendarSpec`, `CalendarRuns`, `CalendarEvents`, `CalendarAlternation`, `CalendarCalls`, `CalendarOnce`,
   `CalendarMinutes`, `CalendarDays`, `CalendarRestart` and `CalendarObject` are the thirty-slot calendar with its EEPROM image, its events, its runs and its restarts.
2. **Infrared.** `Signal` is what a sender puts on the LED and what a receiver can see of it. `RcCodes` and `RcRoundTrip` are
   RC5 and RC6, `Capture` the sampling interrupt, `RcOverTheAir` the whole way from sender through interrupt to decoder,
   `RcTimes` the same in microseconds.
   `PulseCodec` and `PulseRoundTrip` are the generic mark/space codec with tolerance windows and both bit orders; `ByteOrder`, `Nec`,
   `NecRoundTrip` and `Pioneer` the NEC family on top of it, `IrRecorder` what its recordings can make them see, `PulseTimes` their times and windows; `Lutron` and
   `LutronRoundTrip` a pure run-length code; `LegoPf` the LEGO Power Functions encoder.
3. **Messaging.** `PacketQueue`, `StopAndWait` and `NodeObject` are the master's side of the protocol with a node;
   `PanelText` and `ControlPanelObject` the text protocol with the panel server.

Code that updates state is a class or a method with loops, proved equal to a specification function. The theorems are
lemmas about those functions: invariants of every run, round trips for all inputs, and, where the code meets a
promise only sometimes, the exact condition. `Sequences`, `Bits` and `MachineWords` hold what all of them share.

Conventions. A machine word is a `nat` with its wrap-around written out. A clock reading is fixed during one call and is a
parameter. Tolerances given as floating-point percentages are exact integer arithmetic. A transmission is a sequence of
marks and spaces with durations; a capture is a sequence of widths of which each is known only to lie in its window.

Where the code and its documentation differ, the model follows the code:

- The Lutron decoder reports fewer bits than were sent when the silence after the message is not recorded, while the
  repository's Lutron tests expect all of them; they record the silence. Both cases are stated.
- `removeAlarm` also finds alarms already freed, and then lowers the counter again. Several theorems about the calendar need
  that it is only given ids of alarms in use, and `RemoveKeepsCount` says exactly when the counter survives.
- A one-time calendar alarm does not look at its year. `StartsInItsYear` and `StartsWhenAsked` say exactly when it still starts in the
  year and in the minute asked for, `StartsAYearEarly` is an input for which it does not.
- A node's error state is only taken back by sending another packet or when nothing is pending. A packet promoted by a late
  acknowledgement can be in error from its first tick: `EarlyError` is the exact condition, `ErrorBeforeSchedule` an input.
- A freed calendar slot keeps its `started`. `AlternatesExactly` says that the calls of the next alarm put there start with on if and
  only if it was not left started.
- A weekly alarm for Sunday midnight is refused, because its value is 0; a daily alarm for second 86400 of the day is accepted.
- Least significant bit first, the generic decoder returns only the last 64 bits of a longer message.
- The length tests of the NEC and Pioneer decoders let a recording pass that ends just before the footer. It is refused all the
  same, because their caller clears the entry behind the recording: `TruncatedNec`, `TruncatedPioneer`.
- The Lutron decoder's test of what is left of a space never refuses anything: `SpaceNeverRefused`.

## Model

| member | source | states |
|---|---|---|
| Signal.MergeKeepsLevels | libraries/IRremote/IRremote.cpp:155-166 | Recording only where the level changes loses nothing but the boundaries between equal neighbours: cut into time units, the merged runs show the same levels as the pulses, and they alternate. |
| RcCodes.SendRC5 | libraries/IRremote/ir_RC5_RC6.cpp:58-80 | The LED receives exactly the start bits, the two half-bits of every data bit from the most significant on in RC5's sense, and the closing space of no length. |
| RcCodes.SendRC6 | libraries/IRremote/ir_RC5_RC6.cpp:132-159 | The same for RC6, with its header, its inverted sense and the double width of the fourth bit. |
| RcCodes.GetRCLevel | libraries/IRremote/ir_RC5_RC6.cpp:14-40 | Successive calls deliver the recorded levels one time unit at a time and spaces for ever after; a width that is no multiple of the unit is an error and holds the cursor. |
| RcCodes.ReadHalf | libraries/IRremote/ir_RC5_RC6.cpp:184-194 | One half of a data bit, read twice for the double-width bit, which must not change in between. |
| RcCodes.ReadBits | libraries/IRremote/ir_RC5_RC6.cpp:181-205 | The decoding loop ends and accepts or rejects what is left on the tape exactly as its parse does. |
| RcCodes.DecodeRC5 | libraries/IRremote/ir_RC5_RC6.cpp:85-113 | For every buffer and length the decoder's answer is the parse of the recorded levels, behind the minimum length and the three start levels. |
| RcCodes.DecodeRC6 | libraries/IRremote/ir_RC5_RC6.cpp:164-206 | For every buffer and length the decoder's answer is the parse of the recorded levels, behind the header windows and the start bit. |
| RcCodes.ShiftedValue | libraries/IRremote/ir_RC5_RC6.cpp:196-203 | Shifting bits into the word one by one leaves the number they spell, modulo 2^32. |
| RcCodes.ParseComplete | libraries/IRremote/ir_RC5_RC6.cpp:181-199 | Every tape that plays the half-bits of some bits, with spaces where nothing was recorded, parses to those bits. |
| RcCodes.ParseSound | libraries/IRremote/ir_RC5_RC6.cpp:181-199 | Whatever parses plays the half-bits of the bits returned. |
| RcCodes.AcceptsExactlyTransmissions | libraries/IRremote/ir_RC5_RC6.cpp:85-206 | A tape is accepted with the given bits if and only if it plays their transmission, for both codes. |
| RcRoundTrip.SpreadBody | libraries/IRremote/ir_RC5_RC6.cpp:58-159 | Cut into time units, what both senders emit behind the header is the half-bit code of the bits, the double-width bit included. |
| RcRoundTrip.TapeOfRuns | libraries/IRremote/ir_RC5_RC6.cpp:14-40 | Widths that match their runs are read back as the levels of the runs, although runs straddle bits. |
| RcRoundTrip.RoundTrip | libraries/IRremote/ir_RC5_RC6.cpp:58-206 | For every length from 1 to 32, every value and every capture of the merged half-bits whose widths match their unit counts, the decoder returns exactly the value and the length; RC5 provided its minimum length is met. |
| RcRoundTrip.Rc5Length | libraries/IRremote/ir_RC5_RC6.cpp:85-92 | The exact number of entries an RC5 message leaves, from its bits and their repetitions; from ten bits on it always passes the minimum-length guard. |
| RcRoundTrip.Rc5RoundTrip | libraries/IRremote/ir_RC5_RC6.cpp:58-113 | From 10 to 32 bits every RC5 message decodes to its value and length, also when the last half-bit is an unrecorded space. |
| RcRoundTrip.Rc5ShortRoundTrip | libraries/IRremote/ir_RC5_RC6.cpp:85-113 | For any length up to 32 the round trip holds if and only if the bits and their repetitions make the recording long enough. |
| RcRoundTrip.RunsOfBody | libraries/IRremote/ir_RC5_RC6.cpp:26-29 | No run of a message lasts anything but one, two or three time units, which are the multiples the reader tries. |
| RcRoundTrip.NominalCapture | libraries/IRremote/IRremote.cpp:65-112 | The widths of every message with marks 100 us long and spaces 100 us short are one such capture, and no 32-bit message fills the buffer. |
| Capture.Receiver.Interrupt | libraries/IRremote/IRremote.cpp:126-186 | One interrupt is one step of the receiver's state machine, and every write to the buffer is in range. |
| Capture.Receiver.Resume | libraries/IRremote/irRecv.cpp:166-170 | The receiver is idle with no entries; timer, buffer and overflow flag stay. |
| Capture.UIntIsMod | libraries/IRremote/IRremote.cpp:134-134 | The count of ticks is kept modulo the width of the type. |
| Capture.TickStaysInStep | libraries/IRremote/IRremote.cpp:134-186 | An interrupt keeps the parity of the number of entries in step with the mark or space state, and the number within the buffer. |
| Capture.AlwaysInStep | libraries/IRremote/IRremote.cpp:126-186 | So does every stream of samples. |
| Capture.OpeningIsFirst | libraries/IRremote/IRremote.cpp:139-152 | The recording opens at the first mark that ends a long enough gap, and at no other. |
| Capture.CaptureIsRunLengths | libraries/IRremote/IRremote.cpp:126-186 | For every sampled stream: the receiver is idle exactly until such a mark; when it has stopped without overflow its entries are exactly the run lengths from that mark to the closing long space. |
| Capture.HearRun | libraries/IRremote/IRremote.cpp:155-176 | A whole further run of samples closes the run before it into one entry and leaves the receiver timing the new one. |
| Capture.ReceivesWidths | libraries/IRremote/IRremote.cpp:126-186 | Silence, a transmission with given run lengths and silence again leave exactly these lengths in the buffer. |
| RcOverTheAir.WidthsFit | libraries/IRremote/IRremoteInt.h:43-55 | No RC5 or RC6 message of up to 32 bits has a width that is lost, takes more room than the buffer has, or is mistaken for a gap. |
| RcOverTheAir.SentIsReceived | libraries/IRremote/ir_RC5_RC6.cpp:58-206 | From sender through sampling interrupt to decoder: after silence, message and silence the receiver has stopped without overflow and the decoder returns what was sent. |
| RcTimes.Rc5Trace | libraries/IRremote/ir_RC5_RC6.cpp:58-80 | What RC5 sends, pulse by pulse in microseconds: start bits, then 889 us halves from space to mark for a 1 and from mark to space for a 0. |
| RcTimes.Rc6Trace | libraries/IRremote/ir_RC5_RC6.cpp:132-159 | What RC6 sends: the header, start halves, then 444 us halves, 888 us for the fourth bit, from mark to space for a 1 and from space to mark for a 0. |
| RcTimes.Rc5Windows | libraries/IRremote/ir_RC5_RC6.cpp:26-29 | Exactly which widths the decoder takes for one, two and three units of 889 us. |
| RcTimes.Rc6Windows | libraries/IRremote/ir_RC5_RC6.cpp:26-29 | Exactly which widths it takes for one, two and three units of 444 us. |
| RcTimes.HeaderWindows | libraries/IRremote/ir_RC5_RC6.cpp:170-173 | Exactly which widths it takes for the RC6 header. |
| RcTimes.HeardIsDecoded | libraries/IRremote/ir_RC5_RC6.cpp:58-206 | Every recording in which marks are 44 us short to 150 us long and spaces 150 us short to 6 us long decodes to the value and length sent. |
| RcTimes.HeardOverTheAir | libraries/IRremote/IRremote.cpp:126-186 | The same through the sampling interrupt, with silence of 5 ms before and of more than 5 ms behind. |
| RcTimes.GapsExactly | libraries/IRremote/IRremote.cpp:139-176 | Behind a shorter silence a mark opens no recording, and a shorter space closes none. |
| Civil.FieldsName | libraries/Time/Time.cpp:151-202 | The fields computed for an instant are a valid date and name exactly that instant. |
| Civil.WeekdaySteps | libraries/Time/Time.cpp:167-168 | The epoch is a Thursday, and each day is followed by the next day of the week. |
| Civil.EpochIsPosix | libraries/Time/Time.cpp:204-233 | The instant a valid date names is the "Seconds Since the Epoch" value of section 4.16 of POSIX.1-2017 Base Definitions. |
| Civil.DaysBeforeYearClosed | libraries/Time/Time.cpp:147-147 | The sum over the years with the leap-year rule is the standard's closed form. |
| Civil.DaysBeforeMonthClosed | libraries/Time/Time.cpp:149-149 | The days before each month, summed from the table of month lengths, have the closed form of the Gregorian calendar. |
| Civil.EpochMonotone | libraries/Time/Time.cpp:204-233 | A later valid date names a later instant. |
| Civil.EpochInjective | libraries/Time/Time.cpp:204-233 | Valid dates that name the same instant agree in all fields but the weekday. |
| Civil.LastInstant | libraries/Time/Time.cpp:204-233 | 2106-02-07 06:28:15 is the last instant of 32 bits. |
| Civil.FitsWord | libraries/Time/Time.cpp:204-233 | A valid date fits 32 bits if and only if it is not after that instant. |
| Civil.FieldsYear | libraries/Time/Time.cpp:156-175 | The year offset of every 32-bit instant is at most 136, so it fits its byte. |
| Civil.BreakTime | libraries/Time/Time.cpp:151-202 | For every 32-bit instant the loops end with valid fields that name it, with no wrap-around of the 8-bit year or the 32-bit days. |
| Civil.BreakYears | libraries/Time/Time.cpp:170-177 | The year loop finds the year whose days contain the given day. |
| Civil.BreakDayOfYear | libraries/Time/Time.cpp:180-201 | The month loop finds the month and the day within it. |
| Civil.MakeTime | libraries/Time/Time.cpp:204-233 | For any bytes with a month up to 13, the 32-bit sum is the instant the fields name modulo 2^32. |
| Civil.SecondsOfYears | libraries/Time/Time.cpp:213-218 | The year loop adds up the seconds before the year, modulo 2^32. |
| Civil.AddMonths | libraries/Time/Time.cpp:221-227 | The month loop adds the seconds of the months before, modulo 2^32. |
| Civil.BreakThenMake | libraries/Time/Time.cpp:151-233 | makeTime after breakTime is the identity on all 32-bit instants. |
| Civil.MakeThenBreak | libraries/Time/Time.cpp:151-233 | breakTime after makeTime returns every valid date up to the last instant, with its weekday filled in. |
| SystemClock.SystemTime.SetTime | libraries/Time/Time.cpp:274-284 | Clock, next synchronisation, status and timer base are set; nothing else. |
| SystemClock.SystemTime.Now | libraries/Time/Time.cpp:250-272 | The loop ends and the call catches up, asks the time source when it is due and takes or postpones its answer. |
| SystemClock.CatchUpCounts | libraries/Time/Time.cpp:252-259 | The catch-up loop takes over every whole second the wrapping timer can show, in one closed form. |
| SystemClock.NowIsOnTime | libraries/Time/Time.cpp:250-272 | One call keeps the clock exact across wrap-arounds of the timer if what is pending fits the timer. |
| SystemClock.NoDrift | libraries/Time/Time.cpp:250-284 | In runs of any length with gaps below 2^32 - 1000 ms, after every call the clock has advanced since it was set by exactly the whole seconds elapsed, modulo 2^32. |
| SystemClock.LateCallDrifts | libraries/Time/Time.cpp:250-259 | The limit is sharp: within 2^32 s, the clock is right after a call if and only if the call came before the timer had wrapped past it. |
| SystemClock.CallOfNow | libraries/Time/Time.cpp:250-285 | One call in closed form: the whole seconds pending, then the time source once the clock has reached the next synchronisation; an answer sets the clock, no answer puts the next attempt off and asks for synchronisation. |
| SystemClock.SyncedRun | libraries/Time/Time.cpp:250-285 | In every run of calls with an honest time source that answers or not, the clock has counted right since some moment it was set right. |
| SystemClock.SyncedShowsTruth | libraries/Time/Time.cpp:250-285 | So it always shows the true second or the one before. |
| Alarms.WeekSplits | libraries/Time/TimeLib.h:79-86 | The seconds into the week computed by the macros are those since the last Sunday midnight. |
| Alarms.TriggerIsLeast | libraries/TimeAlarms/TimeAlarms.cpp:42-79 | The recomputed trigger of a daily or weekly alarm is the least instant after now with the requested offset, if and only if the value is not more than a period beyond the current offset. |
| Alarms.WeeklyReadsBack | libraries/TimeAlarms/TimeAlarms.h:115-119 | Every occurrence of a weekly alarm, broken into fields, shows the weekday, hour, minute and second it was made for. |
| Alarms.CreatedIsArmed | libraries/TimeAlarms/TimeAlarms.cpp:269-286 | A new daily or weekly alarm has its first occurrence after its creation as trigger, also in a slot that held another alarm before. |
| Alarms.PassFires | libraries/TimeAlarms/TimeAlarms.cpp:232-251 | A pass fires an armed alarm if and only if an occurrence has come since, and leaves a repeating alarm armed again. |
| Alarms.ExactFiring | libraries/TimeAlarms/TimeAlarms.cpp:232-251 | In every run of passes at non-decreasing times a repeating alarm fires in a pass if and only if one of its occurrences lies after the previous pass (or its creation) and not after this one. |
| Alarms.OneShotFiring | libraries/TimeAlarms/TimeAlarms.cpp:232-251 | A one-shot alarm fires in the first pass after an occurrence and never again; its slot is free from then on. |
| Alarms.FiredIsDue | libraries/TimeAlarms/TimeAlarms.cpp:236-248 | The handlers a pass calls are exactly those of the due slots. |
| Alarms.FiredInOrder | libraries/TimeAlarms/TimeAlarms.cpp:236-248 | Each due slot calls its handler once, and the calls come in slot order. |
| Alarms.CalledExactly | libraries/TimeAlarms/TimeAlarms.cpp:232-251 | For the whole table: a handler that belongs to one repeating alarm is called in exactly the passes that follow an occurrence of it. |
| Alarms.NextTriggerIsNext | libraries/TimeAlarms/TimeAlarms.cpp:254-266 | Before the reported next trigger a pass changes and calls nothing; at it, the alarm it belongs to is due unless disabled. |
| Alarms.TimeAlarms.Free | libraries/TimeAlarms/TimeAlarms.cpp:144-153 | Clears an allocated slot's handler, value, trigger and type and touches no other slot. |
| Alarms.TimeAlarms.Disable | libraries/TimeAlarms/TimeAlarms.cpp:107-112 | Disables an allocated slot and touches nothing else. |
| Alarms.TimeAlarms.Enable | libraries/TimeAlarms/TimeAlarms.cpp:92-105 | Enables and re-triggers an allocated slot with a handler and a usable value, disables it otherwise. |
| Alarms.TimeAlarms.Refresh | libraries/TimeAlarms/TimeAlarms.cpp:42-79 | Recomputes one slot's trigger, in 32-bit arithmetic, and touches no other slot. |
| Alarms.TimeAlarms.Write | libraries/TimeAlarms/TimeAlarms.cpp:115-122 | Gives an allocated slot a new value and a new trigger. |
| Alarms.TimeAlarms.Create | libraries/TimeAlarms/TimeAlarms.cpp:269-286 | Takes the first free slot, or refuses: an alarm while the clock reads less than 52 weeks, a zero delay or date, or a full table. |
| Alarms.TimeAlarms.AlarmRepeatWeekly | libraries/TimeAlarms/TimeAlarms.h:115-119 | Refuses exactly Sunday midnight, a clock below 52 weeks and a full table; otherwise takes a slot, enabled if and only if there is a handler. Away from the last week of the clock's 32 bits the slot is then armed and its trigger reads back as the weekday and time asked for. |
| Alarms.TimeAlarms.AlarmRepeatDaily | libraries/TimeAlarms/TimeAlarms.h:106-109 | Refuses exactly values beyond a day, a clock below 52 weeks and a full table; otherwise takes a slot, enabled if and only if there is a handler, and then armed away from the last week of the clock's 32 bits. |
| Alarms.TimeAlarms.ServiceOne | libraries/TimeAlarms/TimeAlarms.cpp:237-247 | A due slot gives its handler and is freed or re-triggered; no other slot changes. |
| Alarms.TimeAlarms.ServiceAlarms | libraries/TimeAlarms/TimeAlarms.cpp:232-251 | One pass serves every slot once and calls the due handlers in slot order; a nested pass does nothing. |
| Alarms.TimeAlarms.GetNextTrigger | libraries/TimeAlarms/TimeAlarms.cpp:254-266 | The least trigger of the allocated slots, or 0 if there is none. |
| AlarmRuns.Perform | libraries/TimeAlarms/TimeAlarms.cpp:92-286 | Creating, writing, enabling, disabling, freeing and a pass each change the slots they concern and no other. |
| AlarmRuns.RunKept | libraries/TimeAlarms/TimeAlarms.cpp:42-79 | In every run of these from the empty table every slot has the right trigger: an enabled timer its delay after it was last set or fired, an enabled daily or weekly alarm the one computed when its trigger was last past, a disabled one a trigger that is past or still the one computed. |
| AlarmRuns.RunStaysArmed | libraries/TimeAlarms/TimeAlarms.cpp:92-286 | So after every run every enabled daily or weekly alarm is armed since it was last set or fired. |
| AlarmRuns.RunFiresExactly | libraries/TimeAlarms/TimeAlarms.cpp:232-251 | A pass behind any run fires a slot if and only if it is enabled and its delay has passed, its instant has come or one of its occurrences has come since it was last set or fired; for values that are in reach of the time of day or week they were set at and do not leave the 32 bits. |
| AlarmRuns.SensibleExactly | libraries/TimeAlarms/TimeAlarms.cpp:42-79 | That condition is exact, for values `write` sets to anything whose trigger stays within 32 bits: an enabled slot is fired when it should be, whenever the pass comes, if and only if its value is in reach and its timer does not cross 2^32. |
| AlarmRuns.RunCalls | libraries/TimeAlarms/TimeAlarms.cpp:232-251 | Under that condition on every slot, the handlers such a pass calls are exactly those of the slots to be fired. |
| AlarmRuns.TimerDelay | libraries/TimeAlarms/TimeAlarms.cpp:74-77 | Over every run a timer fires in the first pass at which its delay has passed since it was last set or fired; a repeating one then waits for its delay again, a one-shot one leaves its slot free. |
| AlarmRuns.RefusedExactly | libraries/TimeAlarms/TimeAlarms.cpp:269-271 | Creating is refused exactly for a timer or a date of zero, and for an alarm while the clock reads less than 52 weeks. |
| AlarmRuns.CreatedEnabled | libraries/TimeAlarms/TimeAlarms.cpp:272-282 | A slot created is enabled if and only if it has a handler, carries the value, handler, type and mode asked for, and a timer waits for its delay from then on. |
| AlarmRuns.TwelveSlots | libraries/TimeAlarms/TimeAlarms.cpp:269-286 | There are twelve slots; a create that is not refused takes the first free one, and no other slot is concerned. |
| AlarmRuns.FreedIsEmpty | libraries/TimeAlarms/TimeAlarms.cpp:144-153 | A slot freed holds no handler, no value and no trigger and is neither enabled nor allocated. |
| AlarmRuns.WrittenEnabled | libraries/TimeAlarms/TimeAlarms.cpp:115-122 | A slot written to has the new value, is enabled if and only if it has a handler and the value counts, and a timer waits for the new delay from then on. |
| AlarmRuns.EnabledExactly | libraries/TimeAlarms/TimeAlarms.cpp:92-153 | After every run a slot is enabled if and only if it is allocated, has a handler and a value that counts, which for timers and dates means not zero, and the last event that concerned it did not disable it. |
| AlarmRuns.TimerIsCalled | libraries/TimeAlarms/TimeAlarms.cpp:74-77 | A repeating timer made anywhere in a run is called, as long as nothing names its slot, by every pass at which its delay has passed since it was made or last fired, and fired by no other. |
| AlarmRuns.OneShotIsCalled | libraries/TimeAlarms/TimeAlarms.cpp:239-241 | A one-shot timer made anywhere in a run is called by the first pass to come once its delay has passed, which frees its slot, and fired by none before. |
| CalendarImage.DecodeEncode | libraries/Calendar/Calendar.cpp:235-281 | A stored record gives back its alarm with the stored fields cut to bytes, so the alarm itself if and only if they fit. |
| CalendarImage.ImageReadsBack | libraries/Calendar/Calendar.cpp:231-286 | The image of any thirty slots fits 331 bytes; reading it stops at its delimiter after at most 30 records with the used alarms in slot order, `started` cleared, each cut to its bytes and so unchanged if and only if it fits them. |
| CalendarSpec.RemovesExactly | libraries/Calendar/Calendar.cpp:84-94 | Removing by the id of an alarm in use frees its slot and no other and lowers the counter by one. |
| CalendarSpec.RemoveKeepsCount | libraries/Calendar/Calendar.cpp:84-94 | For any id: the counter stays the number of used slots if and only if the first slot with the id, if any, is in use. |
| CalendarSpec.RemovedTwice | libraries/Calendar/Calendar.cpp:84-94 | An input for which it does not: removing the same used alarm twice counts it twice. |
| CalendarSpec.AddStaysTidy | libraries/Calendar/Calendar.cpp:17-82 | First-fit allocation keeps the used slots within a prefix, ids distinct and below the next, and the counter right; the prefix grows only when it is full. |
| CalendarRuns.RunStaysTidy | libraries/Calendar/Calendar.cpp:17-105 | In every run that removes only ids in use: the slots ever used are a prefix, ids are distinct and below the next one, and the counter is the number of used slots. |
| CalendarRuns.RunSaves | libraries/Calendar/Calendar.cpp:231-255 | After every run the EEPROM holds the image of the current slots, and nothing outside it has changed. |
| CalendarRuns.RunReadsBack | libraries/Calendar/Calendar.cpp:231-286 | After every run reading the EEPROM gives the used alarms in slot order, each cut to its bytes and so unchanged if and only if its ids and times fit them. |
| CalendarRuns.FirstRecord | libraries/Calendar/Calendar.cpp:231-255 | The bytes of a record and its delimiter from address 413 on: kind, day, hour, minutes, finish hour and minutes, event, event id, id, and for a one-time alarm year and month. |
| CalendarEvents.RunStaysSteady | libraries/Calendar/Calendar.cpp:179-229 | In every run without removing a started alarm from outside, each alarm's on and off calls alternate starting with on, and it is started exactly while one on is without its off. |
| CalendarEvents.RemovedWhileStarted | libraries/Calendar/Calendar.cpp:84-94 | An alarm removed while started leaves its slot started, and the next alarm there opens with an off. |
| CalendarAlternation.RunRecorded | libraries/Calendar/Calendar.cpp:17-229 | In every proper run no call is ever made for an id not given out yet. |
| CalendarAlternation.ChecksOnce | libraries/Calendar/Calendar.cpp:179-229 | One check of all alarms switches each used one at most once, exactly when its start or finish is read; no other alarm's check calls or changes it. |
| CalendarAlternation.CheckCallsInOrder | libraries/Calendar/Calendar.cpp:179-188 | One check of all alarms makes exactly one call for each used alarm whose time it reads, on or off as the alarm was stopped or started, in slot order and no other. |
| CalendarAlternation.AddedAlternates | libraries/Calendar/Calendar.cpp:179-229 | In every proper run after an alarm is added, removals of started alarms included: its calls are on and off in turn, starting with off if and only if its slot had been left started, and while it is in the calendar `started` is in step with them. |
| CalendarAlternation.AlternatesExactly | libraries/Calendar/Calendar.cpp:17-94 | So its calls go on, off, on, off in every such run if and only if the slot it was put in was not left started, which can be seen before it is added; given that its finish names some reading of the clock. |
| CalendarOnce.StartsAtFirstMeeting | libraries/Calendar/Calendar.cpp:190-214 | Unless it is removed before, the first call for an alarm added to such a slot is an on, made by the first check that reads the day, hour and minute asked for and by no other operation. |
| CalendarOnce.NextCallAtMeeting | libraries/Calendar/Calendar.cpp:190-229 | For any alarm in the calendar, started or not, the next call switches it and is made by the first check that reads the day, hour and minute it is to be switched at, and by no other operation. |
| CalendarOnce.StartsInItsYear | libraries/Calendar/Calendar.cpp:197-206 | While the clock's years do not go back, a one-time alarm's first on comes in the year asked for if and only if some check reads its day, hour and minute in that year and none does in an earlier one. |
| CalendarOnce.StartsAYearEarly | libraries/Calendar/Calendar.cpp:197-206 | An input for which it does not: an alarm for 15 June 2031 starts at a check on 15 June 2030. |
| CalendarMinutes.FirstMeetingIsNext | libraries/Calendar/Calendar.cpp:190-206 | When the checks read every minute, the first that meets an alarm comes in a given minute if and only if that is the next one with the day, hour and minute asked for. |
| CalendarMinutes.StartsWhenAsked | libraries/Calendar/Calendar.cpp:197-206 | So a one-time alarm starts in the very minute it is asked for if and only if no minute between the add and that one has the same day, month, hour and minute, which can be seen before it is added. |
| CalendarMinutes.SameDateApart | libraries/Time/Time.cpp:151-202 | The same date and time of day comes back after 365 days at the earliest. |
| CalendarMinutes.StartsOnTime | libraries/Calendar/Calendar.cpp:197-206 | So asked for no more than 365 days ahead it always starts in the minute asked for. |
| CalendarDays.WeeklySwitches | libraries/Calendar/Calendar.cpp:193-195 | A weekly alarm starts and finishes in exactly the minutes of the weekday, Monday being day 1, and of the hours and minutes passed to the add, in epoch arithmetic. |
| CalendarDays.WeeklyOnAndOff | libraries/Calendar/Calendar.cpp:17-47 | Read every minute, a weekly alarm is switched on in the minute of the weekday and time asked for, within a week of being added, and off in the next minute of its finish, with no call before and none in between. |
| CalendarDays.OnceOnAndOff | libraries/Calendar/Calendar.cpp:49-82 | Asked for no more than 365 days ahead, a one-time alarm is switched on in the minute asked for and off in the minute it is to finish. |
| CalendarCalls.CallsTheEventAsked | libraries/Calendar/Calendar.cpp:206-222 | In every proper run every call made for an alarm is of the event and the event id asked for when it was added. |
| CalendarCalls.RefusedWhenFull | libraries/Calendar/Calendar.cpp:16-48 | In a tidy calendar a weekly or one-time alarm is refused, with the id -1 and nothing changed, if and only if the counter stands at thirty; otherwise it gets the next id and is counted. |
| CalendarCalls.RemovesByEvent | libraries/Calendar/Calendar.cpp:96-105 | Removing by event takes out exactly the alarms in use with this event and event id, started or not and of either kind, and changes nothing else in any slot. |
| CalendarCalls.RemovedByItsEvent | libraries/Calendar/Calendar.cpp:96-105 | So after any proper run, removing by the event asked for takes the alarm out of the calendar. |
| CalendarCalls.StoredYear | libraries/Calendar/Calendar.cpp:66-66 | The year stored is the one asked for without its century, for every year, counted back from 0 below it. |
| CalendarOnce.RunOnce | libraries/Calendar/Calendar.cpp:201-214 | In every proper run a one-time alarm gets at most one on and one off, or an off alone in a slot left started, and is out of the calendar once it has had its off. |
| CalendarRestart.RestartExactly | libraries/Calendar/Calendar.cpp:171-177 | After a restart the first slots hold the alarms that were in use, each cut to its bytes, and memory is their image; the calendar is ready for the runs above, with distinct ids, if and only if the ids stored were distinct modulo 256. |
| CalendarObject.AlarmCalendar.constructor | libraries/Calendar/Calendar.cpp:9-15 | A calendar made over any EEPROM, its slots holding anything, starts from exactly the alarms read from it, unless the records run past the thirty slots, which happens if and only if there are more of them or no delimiter. |
| CalendarObject.AlarmCalendar.ReadAlarms | libraries/Calendar/Calendar.cpp:257-286 | The reading loop fills the first slots with the alarms of the image and sets the counter and the next id; for any memory it runs past the slots if and only if the image has more than thirty records or no delimiter. |
| CalendarObject.AlarmCalendar.ReadAlarm | libraries/Calendar/Calendar.cpp:264-281 | One record is read field by field; a weekly alarm keeps the date of the record before. |
| CalendarObject.AlarmCalendar.WriteAlarm | libraries/Calendar/Calendar.cpp:236-250 | Exactly the bytes of one record are overwritten. |
| CalendarObject.AlarmCalendar.StoreAlarms | libraries/Calendar/Calendar.cpp:231-255 | The EEPROM holds the image of the slots behind its start address and is otherwise unchanged. |
| CalendarObject.AlarmCalendar.AddAlarm | libraries/Calendar/Calendar.cpp:17-82 | Both ways to add an alarm take the first unused slot and the next id, store the image, or refuse with -1 when full. |
| CalendarObject.AlarmCalendar.RemoveAlarm | libraries/Calendar/Calendar.cpp:84-94 | The first slot with the id, used or not, is freed, the counter lowered and the image stored. |
| CalendarObject.AlarmCalendar.RemoveAlarmsWithEventAndId | libraries/Calendar/Calendar.cpp:96-105 | All used alarms with the event and event id are freed and counted, and the image is stored. |
| CalendarObject.AlarmCalendar.CheckAlarmAt | libraries/Calendar/Calendar.cpp:190-229 | The start and finish machine of one alarm, a finished one-time alarm removed. |
| CalendarObject.AlarmCalendar.CheckAlarms | libraries/Calendar/Calendar.cpp:179-188 | Every used alarm is checked in slot order against one clock reading. |
| PulseCodec.SendMsbFirst | libraries/IRremoteESP8266/src/IRsend.cpp:276-291 | Most significant bit first, with zeros in front of the data where there are more than 64 bits. |
| PulseCodec.SendLsbFirst | libraries/IRremoteESP8266/src/IRsend.cpp:292-302 | Least significant bit first. |
| PulseCodec.SendData | libraries/IRremoteESP8266/src/IRsend.cpp:271-303 | Exactly one mark and one space per bit, in the order asked for. |
| PulseCodec.SendMessage | libraries/IRremoteESP8266/src/IRsend.cpp:388-406 | Header, data and footer parts of some duration, and a gap that fills up the least message time. |
| PulseCodec.SendGeneric | libraries/IRremoteESP8266/src/IRsend.cpp:375-407 | One such message for the first and every repeat. |
| PulseCodec.ReverseBits | libraries/IRremoteESP8266/src/IRutils.cpp:23-35 | The low bits, at most 64, come out in reverse order under the unchanged others. |
| PulseCodec.ReversedValue | libraries/IRremoteESP8266/src/IRutils.cpp:23-35 | Reversing as many bits as a number has is reading them backwards. |
| PulseCodec.ReadPair | libraries/IRremoteESP8266/src/IRrecv.cpp:726-737 | A pair is a 1 when it fits the one-windows, else a 0 when it fits the zero-windows, else nothing. |
| PulseCodec.MatchData | libraries/IRremoteESP8266/src/IRrecv.cpp:716-740 | The loop takes pairs up to the first that is neither, and returns the bits heard as a 64-bit word in the order asked for; success is that all were bits. |
| PulseRoundTrip.ShiftedIsValue | libraries/IRremoteESP8266/src/IRrecv.cpp:726-731 | Shifting bits into the word leaves the number they spell, modulo 2^64. |
| PulseRoundTrip.ReceivedIsSent | libraries/IRremoteESP8266/src/IRrecv.cpp:724-733 | With every pair in its own windows, the bits heard are the bits sent if and only if no 0 also fits the one-windows. |
| PulseRoundTrip.RoundTrip | libraries/IRremoteESP8266/src/IRrecv.cpp:716-740 | For every number of bits up to 64, either order, any timings and any widths in the windows of what was sent: matching succeeds with twice as many entries, and returns the data modulo 2^n if and only if no 0 could be taken for a 1. |
| PulseRoundTrip.SafeExactly | libraries/IRremoteESP8266/src/IRrecv.cpp:716-740 | Every capture of every message of up to 64 bits, in either order, comes back if and only if the windows of a 1 and a 0 do not overlap both in the mark and in the space, which is computed from the timings alone. |
| PulseRoundTrip.AmbiguousMisreads | libraries/IRremoteESP8266/src/IRrecv.cpp:716-740 | Otherwise a single 0 heard where they overlap comes back as a 1. |
| PulseRoundTrip.LongRoundTrip | libraries/IRremoteESP8266/src/IRrecv.cpp:716-740 | Beyond 64 bits: most significant bit first all the data comes back, least significant bit first the data without its lowest n - 64 bits. |
| ByteOrder.ReversedBack | libraries/IRremoteESP8266/src/IRutils.cpp:23-35 | Reversing twice changes nothing. |
| ByteOrder.ReversedAt | libraries/IRremoteESP8266/src/IRutils.cpp:23-35 | Bit by bit for any number: the low bits change places, the ones above stay where they are. |
| ByteOrder.ReversedJoined | libraries/IRremoteESP8266/src/IRutils.cpp:23-35 | Reversing two parts at once swaps them and reverses each. |
| ByteOrder.ReversedFlips | libraries/IRremoteESP8266/src/IRutils.cpp:23-35 | Reversing commutes with complementing. |
| Nec.SendNec | libraries/IRremoteESP8266/src/ir_NEC.cpp:33-45 | One message with header, bits and footer, then the repeat codes, which carry no data. |
| Nec.EncodedLong | libraries/IRremoteESP8266/src/ir_NEC.cpp:58-66 | The four bytes of the word for a 16-bit address: both its bytes reversed, low one first, then the reversed command and its complement. |
| Nec.EncodedShort | libraries/IRremoteESP8266/src/ir_NEC.cpp:58-69 | The four bytes of the word for an 8-bit address: reversed address and command, each with its complement. |
| Nec.ReadFields | libraries/IRremoteESP8266/src/ir_NEC.cpp:145-167 | The fields are read from the four low bytes, the command checked only when asked for. |
| Nec.ReadNec | libraries/IRremoteESP8266/src/ir_NEC.cpp:95-168 | For every buffer and length: the repeat code, the refusals in their order, or the fields of the data heard with ticks measured in the header. What the cleared entry behind the recording makes of this is under `IrRecorder`. |
| Nec.FieldsOfEncoded | libraries/IRremoteESP8266/src/ir_NEC.cpp:58-168 | The low byte of every command comes back; the address comes back if and only if it is at most 0xFF or its bytes are not complements, and otherwise its low byte does. |
| NecRoundTrip.HeardIsRead | libraries/IRremoteESP8266/src/ir_NEC.cpp:95-168 | Any number of bits up to 64, every width up to 60 us off, the gap recorded or not: the decoder reads exactly the data sent. |
| NecRoundTrip.NecRoundTrip | libraries/IRremoteESP8266/src/ir_NEC.cpp:33-168 | The same for an encoded address and command: the low byte of the command always, the address under the same exact condition. |
| NecRoundTrip.RepeatIsHeard | libraries/IRremoteESP8266/src/ir_NEC.cpp:109-120 | A repeat code heard up to 60 us off is reported as one, with a value of 64 ones and no bits, address or command, whatever number of bits is asked for. |
| PulseTimes.MessageShows | libraries/IRremoteESP8266/src/IRsend.cpp:388-406 | For any timings a message is a header mark and space unless of zero length, two pulses a bit, a footer mark unless of zero length and a last space. |
| PulseTimes.BitShows | libraries/IRremoteESP8266/src/IRsend.cpp:271-302 | Its bits in place: mark and space of a 1 or of a 0 as the data has it, the most or the least significant first. |
| PulseTimes.MessageLasts | libraries/IRremoteESP8266/src/IRsend.cpp:375-420 | A message whose timer was right lasts its least time, or its pulses and its gap if that is longer. |
| PulseTimes.NecTrace | libraries/IRremoteESP8266/src/ir_NEC.cpp:33-52 | What NEC sends, pulse by pulse in microseconds, the most significant bit first. |
| PulseTimes.NecLasts | libraries/IRremoteESP8266/src/ir_NEC.cpp:33-52 | A message lasts 108080 us, or longer to leave a gap of 22400 us. |
| PulseTimes.RepeatLasts | libraries/IRremoteESP8266/src/ir_NEC.cpp:46-51 | A repeat code lasts 108080 us as well, or longer to leave that gap. |
| PulseTimes.MarkWindow | libraries/IRremoteESP8266/src/IRrecv.cpp:611-632 | Exactly which widths are taken for a mark: a quarter off either way, 50 us in its favour. |
| PulseTimes.SpaceWindow | libraries/IRremoteESP8266/src/IRrecv.cpp:634-655 | The same for a space, 50 us to its disadvantage. |
| PulseTimes.GapWindow | libraries/IRremoteESP8266/src/IRrecv.cpp:576-600 | A gap is nothing recorded, or no more than a quarter short of what is asked for or of the receiver's timeout. |
| PulseTimes.StrictExactly | libraries/IRremoteESP8266/src/ir_NEC.cpp:140-148 | Under the strict check a word is refused if and only if its low two bytes are not complements. |
| PulseTimes.CompliantExactly | libraries/IRremoteESP8266/src/ir_Pioneer.cpp:108-119 | The two integrity checks of a Pioneer half in arithmetic. |
| PulseTimes.ShortGapRefused | libraries/IRremoteESP8266/src/ir_NEC.cpp:134-138 | A message with a recorded silence behind it that is too short is refused. |
| Pioneer.SendPioneer | libraries/IRremoteESP8266/src/ir_Pioneer.cpp:35-44 | High half and low half as two messages, repeats behind the second; an odd number of bits or more than 64 is not sent at all. |
| Pioneer.HalvesSent | libraries/IRremoteESP8266/src/ir_Pioneer.cpp:40-66 | The halves sent for an encoded pair are the words of the address and of the command. |
| PulseTimes.PioneerTrace | libraries/IRremoteESP8266/src/ir_Pioneer.cpp:35-63 | What goes out for an address and a command: the word of the address, the word of the command, then the repeat codes. |
| Pioneer.CodeOfWord | libraries/IRremoteESP8266/src/ir_Pioneer.cpp:108-123 | The word of any 16-bit value passes both integrity checks, and its code is the value. |
| Pioneer.ReadSection | libraries/IRremoteESP8266/src/ir_Pioneer.cpp:92-134 | One half: header, data with the ticks measured, checks, code, footer and gap. |
| Pioneer.ReadPioneer | libraries/IRremoteESP8266/src/ir_Pioneer.cpp:81-142 | For every buffer and length: two halves, or a refusal by the first that fails. |
| Pioneer.PioneerRoundTrip | libraries/IRremoteESP8266/src/ir_Pioneer.cpp:63-142 | Every 16-bit address and every 16-bit command come back, with and without the checks, every width up to 60 us off. |
| IrRecorder.Recorder.Decode | libraries/IRremoteESP8266/src/IRrecv.cpp:220-300 | Clears the entry behind the recording and gives the answer of the first protocol that takes it, from a copy if there is a save buffer. With such a buffer recording starts again at once, otherwise only if nothing was recognised. |
| IrRecorder.Recorder.CopyTo | libraries/IRremoteESP8266/src/IRrecv.cpp:178-195 | The save buffer becomes an exact copy. |
| IrRecorder.Recorder.Resume | libraries/IRremoteESP8266/src/IRrecv.cpp:162-166 | The receiver is empty and recording. |
| IrRecorder.TruncatedNec | libraries/IRremoteESP8266/src/ir_NEC.cpp:95-138 | With that entry cleared, a recording that ends before the footer is a repeat code, under the exact condition, and otherwise refused. |
| IrRecorder.NecReadsItsRecording | libraries/IRremoteESP8266/src/ir_NEC.cpp:95-168 | Whatever the buffer held before, two buffers with the same recording get the same answer, for every length. |
| IrRecorder.TruncatedPioneer | libraries/IRremoteESP8266/src/ir_Pioneer.cpp:81-134 | A recording that ends before the second footer is refused. |
| IrRecorder.PioneerReadsItsRecording | libraries/IRremoteESP8266/src/ir_Pioneer.cpp:81-142 | Two buffers with the same recording get the same answer. |
| IrRecorder.AnswersItsRecording | libraries/IRremoteESP8266/src/IRrecv.cpp:220-300 | So does the whole sequence of attempts. |
| IrRecorder.TruncatedIsRefused | libraries/IRremoteESP8266/src/IRrecv.cpp:225-234 | A recording shorter than a NEC message is a repeat code or nothing. |
| IrRecorder.NecIsAnswered | libraries/IRremoteESP8266/src/IRrecv.cpp:290-300 | A NEC message heard, whatever else the recording holds, is answered with its command and address under the round trip's exact condition, unless its address bytes are complements and a second half follows: then, and only then, it is answered as a Pioneer message. |
| IrRecorder.WordIsAnswered | libraries/IRremoteESP8266/src/IRrecv.cpp:423-433 | Any other word of 32 bits heard is answered all the same, by the attempt without the check. |
| IrRecorder.PioneerIsAnswered | libraries/IRremoteESP8266/src/IRrecv.cpp:290-296 | A Pioneer message heard is answered with its address and command, not as a NEC message. |
| Lutron.SendFrame | libraries/IRremoteESP8266/src/ir_Lutron.cpp:49-56 | A leading 1, the data from its most significant bit on, one tick each, and the gap. |
| Lutron.SendLutron | libraries/IRremoteESP8266/src/ir_Lutron.cpp:46-58 | One such frame for the first and every repeat. |
| Lutron.TakeRun | libraries/IRremoteESP8266/src/ir_Lutron.cpp:98-114 | The inner loop over one entry ends, with the rest of the entry, the bits counted and the data shifted. |
| Lutron.SpaceNeverRefused | libraries/IRremoteESP8266/src/ir_Lutron.cpp:115-136 | What is left of a space is never refused, and of a mark exactly when it is wider than the margin allows. |
| Lutron.ReadLutron | libraries/IRremoteESP8266/src/ir_Lutron.cpp:77-155 | Both loops, the checks between them, the padding and the removal of the leading 1, for every buffer and length. |
| LutronRoundTrip.RunsSpellBits | libraries/IRremoteESP8266/src/ir_Lutron.cpp:46-58 | The runs recorded of a message open and end with a mark, alternate, and spell its bits up to the last 1, the leading 1 folded into the first run. |
| LutronRoundTrip.RunTakes | libraries/IRremoteESP8266/src/ir_Lutron.cpp:98-114 | A run of k ticks is consumed in exactly k steps, within its margins. |
| LutronRoundTrip.RunsRead | libraries/IRremoteESP8266/src/ir_Lutron.cpp:89-136 | The outer loop stays in step with the runs: after each of them it has counted and shifted in exactly the bits of the runs read. |
| LutronRoundTrip.RoundTrip | libraries/IRremoteESP8266/src/ir_Lutron.cpp:46-155 | For every n up to 63 and every value the decoder returns the value, each run within its margins and the silence not recorded; the bits reported are n less the zeros at the end. |
| LutronRoundTrip.RoundTripWithGap | libraries/IRremoteESP8266/src/ir_Lutron.cpp:105-135 | When the last space is recorded and long enough for the missing zeros and the gap, all n bits are reported. |
| LutronRoundTrip.ExactCapture | libraries/IRremoteESP8266/src/ir_Lutron.cpp:89-114 | Up to 56 bits the exact widths are such a capture and fit 16-bit entries. |
| LutronRoundTrip.LutronTrace | libraries/IRremoteESP8266/src/ir_Lutron.cpp:46-58 | What is sent, tick by tick in microseconds, and the gap of 150 ms. |
| LutronRoundTrip.FoundAsAsked | libraries/IRremoteESP8266/src/ir_Lutron.cpp:77-145 | Nothing is found with more bits than asked for, and under the strict check nothing unless 35 are. |
| LegoPf.Encoder.GetMessageLength | libraries/IRremote/ir_Lego_PF_BitStreamEncoder.h:46-61 | The loop sums marks and pauses of all 18 bits. |
| LegoPf.Encoder.Reset | libraries/IRremote/ir_Lego_PF_BitStreamEncoder.h:36-42 | The stream stands at the first pair of the first message of this word. |
| LegoPf.Encoder.Next | libraries/IRremote/ir_Lego_PF_BitStreamEncoder.h:63-76 | On to the next pair or the next message; false exactly behind the last pair of the only message, or of the fifth when repeating. |
| LegoPf.Encoder.GetPauseDuration | libraries/IRremote/ir_Lego_PF_BitStreamEncoder.h:80-114 | The pause of the current pair. |
| LegoPf.SendLegoPowerFunctions | libraries/IRremote/ir_Lego_PF.cpp:31-44 | The loop ends having sent exactly one message, or five. |
| LegoPf.MessageLength | libraries/IRremote/ir_Lego_PF_BitStreamEncoder.h:46-61 | No word takes longer than 16000 us. |
| LegoPf.MessageLasts | libraries/IRremote/ir_Lego_PF_BitStreamEncoder.h:80-114 | With repeats, messages 0 and 1 last exactly 5 * 16000 us and messages 2 and 3 exactly (6 + 2 * channel) * 16000 us, whatever the data; every other message lasts its summed length. |
| LegoPf.TransmissionLasts | libraries/IRremote/ir_Lego_PF.cpp:38-43 | So the whole transmission takes a time that depends on the channel, but for its last message. |
| LegoPf.CarriesTheWord | libraries/IRremote/ir_Lego_PF_BitStreamEncoder.h:80-95 | Every message is 18 pairs whose data pauses spell the 16-bit word, most significant bit first, and read back as the word. |
| LegoPf.LegoTrace | libraries/IRremote/ir_Lego_PF_BitStreamEncoder.h:80-114 | What is sent, pulse by pulse in microseconds. |
| LegoPf.LegoTimes | libraries/IRremote/ir_Lego_PF_BitStreamEncoder.h:98-114 | With repeats the first two messages last 80 ms each and the next two 16 ms times six and twice the channel each; the last ends with the plain pause of the stop bit. |
| LegoPf.PairCount | libraries/IRremote/ir_Lego_PF.cpp:38-43 | 18 pairs for each message sent: 18 or 90 in all. |
| PacketQueue.Queue.constructor | libraries/Queue-master/src/cppQueue.cpp:26-45 | An empty queue of the capacity asked for. |
| PacketQueue.Queue.Push | libraries/Queue-master/src/cppQueue.cpp:61-78 | Appends; when full it refuses, or gives up the oldest record if it may. |
| PacketQueue.Queue.Pop | libraries/Queue-master/src/cppQueue.cpp:80-101 | Takes the oldest record away, or fails on an empty queue. |
| PacketQueue.Queue.Peek | libraries/Queue-master/src/cppQueue.cpp:104-125 | Shows the oldest record and changes nothing. |
| StopAndWait.RunIsSound | libraries/Node/Node.cpp:67-148 | In every run of sends, acknowledgements and ticks: the packets accepted are those popped followed by those pending, only the oldest pending one is transmitted, none is popped before it was, at most 15 are pending, and the sender is running if and only if none is. |
| StopAndWait.TransmittedInTurn | libraries/Node/Node.cpp:94-105 | Whatever is transmitted is the packet right after those popped so far. |
| StopAndWait.PoppedWasSent | libraries/Node/Node.cpp:117-122 | Every popped packet had been on the air after all earlier ones were popped. |
| StopAndWait.Unacknowledged | libraries/Node/Node.cpp:132-148 | A packet never acknowledged, others being sent meanwhile or not, is resent on the schedule and nothing else is, in whatever state it became the oldest. The sender is in error if and only if a tick from the 17th on has come since the last packet sent, or it was in error and none has been sent. |
| StopAndWait.EarlyError | libraries/Node/Node.cpp:117-148 | So before the 17th tick there is an error if and only if there was one when the packet became the oldest and nothing has been sent since. |
| StopAndWait.AckKeepsError | libraries/Node/Node.cpp:117-122 | An acknowledgement that leaves packets pending promotes the next one and leaves the state as it is. |
| StopAndWait.ErrorBeforeSchedule | libraries/Node/Node.cpp:117-148 | An input on which the error comes early: two packets, 17 ticks and a late acknowledgement leave the second packet just sent and the sender in error, and so through its first 16 ticks. |
| StopAndWait.ResendsSettle | libraries/Node/Node.cpp:135-145 | The schedule resends after 1, 2, 3, 4, 6, 8, 10, 12 and 14 ticks and at no other time: at most nine times, and exactly nine from 15 ticks on. |
| StopAndWait.RunIsNumbered | libraries/Node/Node.cpp:67-91 | Message numbers of the packets accepted grow, with one missing for every packet a full queue has lost. |
| StopAndWait.RunFollows | libraries/Node/Node.cpp:67-148 | In every run, from the operations alone: the packets accepted carry code, arguments and number of the sends that found room among fifteen, and what goes on the air is the oldest packet as soon as it is the oldest and after 1, 2, 3, 4, 6, 8, 10, 12 and 14 ticks of waiting. |
| NodeObject.Node.constructor | libraries/Node/Node.cpp:3-14 | A running sender with nothing pending, number 0. |
| NodeObject.Node.SendNextPacket | libraries/Node/Node.cpp:94-105 | Puts the oldest pending packet on the network byte by byte, or goes back to running. |
| NodeObject.Node.SendMessage | libraries/Node/Node.cpp:67-76 | Queues a numbered packet without arguments, and transmits it when it is alone. |
| NodeObject.Node.SendPacket | libraries/Node/Node.cpp:80-91 | The same with the first `len` arguments. |
| NodeObject.Node.ReceiveAck | libraries/Node/Node.cpp:117-122 | Pops the oldest packet if there is one, transmits the next or goes back to running, and restarts the count of ticks. |
| NodeObject.Node.CheckSentPackets | libraries/Node/Node.cpp:132-148 | One tick of the retry schedule. |
| NodeObject.PerformAll | libraries/Node/Node.cpp:67-148 | Whatever is asked of a new node, its datagrams are byte for byte those payloads. |
| PanelText.SplitJoin | node.py:306-308 | Splitting a line at '&' undoes joining fields that have none. |
| PanelText.CommandArrives | libraries/ControlPanel/ControlPanel.cpp:29-57 | For every name and argument list free of '&': the calls for the printed line all carry the name, all but the last have exactly ten arguments, the last has some unless there are none, and together they have all of them in order. |
| PanelText.LineArrives | libraries/ControlPanel/ControlPanel.cpp:65-74 | A line printed behind any complete text causes exactly its own calls and leaves nothing waiting. |
| PanelText.CommandsArrive | libraries/ControlPanel/ControlPanel.cpp:29-74 | Any commands whose fields hold no separator, printed as lines one after the other and cut into pieces anywhere: the handlers are called exactly for them, in order, and nothing is left waiting. |
| PanelText.CutAnywhere | libraries/ControlPanel/ControlPanel.cpp:65-74 | Where the network cuts the text makes no difference to the calls or to what is waiting. |
| PanelText.ResponseArrives | libraries/ControlPanel/ControlPanel.cpp:107-110 | A response taken apart by its reader gives back its parts. |
| ControlPanelObject.ControlPanel.constructor | libraries/ControlPanel/ControlPanel.cpp:3-11 | Nothing waiting, all arguments empty. |
| ControlPanelObject.ControlPanel.InitArguments | libraries/ControlPanel/ControlPanel.cpp:59-63 | All ten arguments are empty. |
| ControlPanelObject.ControlPanel.ReadPacket | libraries/ControlPanel/ControlPanel.cpp:65-74 | Reads to the end of a line, or everything there is and waits. |
| ControlPanelObject.ControlPanel.DispatchPacket | libraries/ControlPanel/ControlPanel.cpp:30-54 | The fixed array of ten is filled and handed over so that the calls are those of the line, with no index out of range. |
| ControlPanelObject.ControlPanel.Update | libraries/ControlPanel/ControlPanel.cpp:29-56 | Whatever arrives, the calls made are those of all lines completed so far, and the rest waits. |
| ControlPanelObject.UpdateAll | libraries/ControlPanel/ControlPanel.cpp:29-56 | Pieces handed to one update after the other leave exactly what these say. |

## Left out

- BreakTime: takes instants as unsigned 32-bit numbers, as on the controller; a signed or 64-bit `time_t` is not modelled.
- MakeTime: months above 13 would read behind the table of month lengths and are excluded.
- Now: the synchronisation interval setters, `adjustTime` and the status query are easy members; `setTime` with six arguments and
  the date cache share a record they do not keep consistent and are not modelled.
- ServiceAlarms: handlers are taken to leave the alarm table alone during a pass; a handler that creates or frees alarms is not
  modelled.
- Create: the remaining creators (one-shot by time or date, timers) differ from the two modelled only in the arguments they pass on;
  `AlarmRuns` covers them through it.
- TimeAlarms: `delay` and the waits for digits, `count`, `read` and `readType`, and the six-slot table of 8-bit boards are not modelled.
- ReadAlarms: an image with more than 30 records or without a delimiter, which the calendar never writes, is read until its records
  would be written behind the slots; what the source does from there on is undefined and not modelled.
- RunFiresExactly: a daily or weekly value so large that its trigger leaves the 32 bits is excluded (`Computable`).
- CheckAlarmAt: the table that maps event codes to handlers is not modelled; the calls are recorded instead.
- RemoveAlarm: the listings `getAlarms` and `showAlarms` are not modelled.
- Interrupt: the blinking of the status LED and the board-specific timer registers are not modelled.
- DecodeRC5: the decoders work on a snapshot of the buffer; the interrupt changing it meanwhile is not modelled.
- DecodeRC6: the value is taken as an unsigned 32-bit word; shifting a set sign bit of a signed `long` is not modelled.
- MatchData: widths are unbounded here; that a width times two stays within 32 bits is taken for granted, as 16-bit entries ensure.
- ReadPair: percentages other than 25 are exact here, while floating point may round them; conversions beyond a 32-bit `int` are excluded.
- ReadNec: the fields a refused decode has already overwritten in its result are not modelled, nor a buffer with no room for the
  message asked for.
- Decode: only the Pioneer and NEC attempts are modelled, not the protocols tried before, between and behind them; a recording that
  fills the buffer leaves no entry to clear and is excluded, as are capture buffers of fewer than 68 entries.
- ReadPioneer: the address an unsuccessful second half leaves behind in the result is not modelled; a shift by 64 or more, for more than
  127 bits, is taken as arithmetic.
- ReadLutron: 64 bits are excluded, because the mask 1 << 64 is undefined.
- SendLutron: no bits at all are excluded, because the first mask would be undefined.
- SendRC5: lengths of 0 and above 32, for which the first mask would be undefined, are excluded.
- SendNec: carrier frequency and duty cycle are not modelled.
- Push: the last-in-first-out mode of the queue is never used and not modelled.
- SendPacket: the caller must fit `len` into the packet array; the call that disconnects a relay passes one more than its array has
  and is excluded.
- ReceiveAck: the node's side is not part of this model, and acknowledgements carry no number, so nothing is claimed about delivery
  or duplicates.
- Node: `clearMessages`, `reconnect` and `error` reset part of the state from outside, on purpose, and `sendAck` sends outside the
  queue; sensors, relays and groups are easy members.
- Update: connecting and reconnecting, the lookup of handlers by name, and the length prefix of a response are not modelled; the
  text is taken to hold no character that reads as the end of the stream.
- The long list of further mark/space protocols, air-conditioner settings, checksums and `toString` methods: many easy members of
  one kind.
- Web routes, database helpers, sockets, menus, displays, the rotary encoder and the humidity sensor: input and output over
  libraries that are not part of this model.
