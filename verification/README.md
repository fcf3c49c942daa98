# Electronic shelf label: a verified model

A tag (peripheral) and an access point (central) for Bluetooth Electronic Shelf Labels, modelled in Dafny and
verified: the paint library and its band rendering, the encrypted synchronization packets in both directions, the
tag's state machine with its stored settings, timed commands and LED flasher, the access point's sync buffers and
its address counter, and the four-gray plane split. Run `dafny verify dfyconfig.toml`.

## How it is built

Code that changes state in place is a class whose methods change fields and arrays as the source does: `Canvas`
and `Shield` (paint.c and the UC81xx display), `Panel` (four-gray drivers), `Esl` (esl.c and esl_settings.c),
`AccessPoint`, `ControlPoint` and `Pool` (esl_client.c), and the buffer methods of `Ead` and `SensorInfo`. Each
method is proved to do what a function from state to state says (`TagMachine`, `Elements`, `TagRules`, `ApSync`),
and the properties are proved about those functions, over all inputs, all runs and all packets:

- `PaintSpec`, `Paint`, `BandDisplay`: what is on the panel is a set of pixels, independent of bands. Rendering 16
  rows at a time gives the full frame byte for byte; byte runs give what single points give.
- `GraySplit`: the two planes hold the whole image.
- `TagMachine`, `TagRules`, `TagRun`, `TagEvents`: every callback, command, packet, worker run and power cut is one
  atomic step. The invariants hold in every state of every run, with the exact exception below.
- `Placement`: which events take a tag out of the phase it belongs in, exactly, and a run on which that happens.
- `Lifecycle`: the state machine refines a diagram of six phases, one bit and one timer; updates, silence, loss of
  synchronization, configuring in any order and power-up as runs.
- `Elements`, `Slots`, `Flasher`: the wrapping clock, timed slots, and whole runs of the flashing worker with their
  durations, counted in passes or in seconds.
- `Exchanges`: every command and its answer in bytes, with all error codes, on the tag and from the access point.
- `Accumulator`, `Packets`: what is dispatched from a packet, what is answered, and that both arrive.
- `ApSync`, `ApBuffers`: which groups a request takes, and a ledger of frames accepted and handed over.
- `ApCommands`, `SensorInfo`, `RepeatCodec`, `AddressPool`: builders and parsers against each other.

The cipher is a pair of functions, `Sound` when opening undoes sealing and sealing adds nine bytes (randomizer and
MIC). Uptimes, sensor readings, failing storage calls, controller errors and whatever memory holds behind a packet
are parameters. A Zephyr work item is scheduled with a due time, or not.

## What turned out

The model follows the code. Where a claim that suggests itself is false, the exact condition is proved instead.

- `paint_FillRect` takes the width for the height at 90 degrees (paint.c:199): it equals the single points exactly
  for rectangles that fit and, at 90 degrees, are square or empty (`FillExactIff`). There a run can also leave its
  row. A rectangle that sticks out of the panel is not filled at all, whatever the direction.
- A packet for this group that holds Update Complete and then Factory Reset strands the tag: the first command
  moves it out of Synchronized, where the second would be refused, and the synchronization timer is renewed after
  the packet on a tag that is unassociated by then. When that timer fires, the tag is in Unsynchronized without any
  item. Such a timeout is the only event that misplaces a tag (`StepSettlesIff`, `RunPlacedIff`), only a stranding
  packet prepares it (`NothingStrandsNothingMisfires`), and it happens on a run from power-up (`MisplacingRun`).
- Commands behind the reset in a stranding packet are dispatched to ESL ID 0 (`DownlinkRoundTrip`). Its response is
  sealed under a key of zeros, so that the access point does not recover it (`AnsweringKey`, `UplinkOpensIff`).
- Unassociate in a packet clears the synchronized bit and nothing else. Link loss starts no timer, and after an
  update that stopped it none is left (`LinkLossStopsTheClock`).
- An immediate image or a refresh uses up a waiting timed image. Unassociating leaves the slots of displays waiting.
- OP_LED_CONTROL plays one pass fewer than the timed command, and a counted duration above 255 never ends.
- Durations above 127 do not arrive as sent. A late response loses the frame that is ready for its group.
- Op codes whose low nibble is reserved, other than 0xF, are answered with Basic State rather than Invalid Opcode.
- `esl_is_configuring_state` moves the machine. A truncated last TLV is dispatched, reading what lies behind it.
- The address counter reaches the broadcast ID when first ID and tags per group together exceed 255.

## Model

| member | source | states |
|---|---|---|
| PaintSpec.Layout.PlaceLogical | samples/peripheral_esl/hw/display/paint_lib/paint.c:145-175 | In every direction and scan mode the point map is a bijection between the visible points and the panel |
| PaintSpec.SamePixels | samples/peripheral_esl/hw/display/paint_lib/paint.c:175-189 | Pixels determine the buffer: two buffers that show the same are byte for byte equal |
| PaintSpec.ByteIndexInjective | samples/peripheral_esl/hw/display/paint_lib/paint.c:175-189 | Different rows or byte columns have different byte indices |
| PaintSpec.DistinctBits | samples/peripheral_esl/hw/display/paint_lib/paint.c:145-189 | Two different visible points inside the buffer are kept in different bits, in every direction, scan mode and band |
| PaintSpec.AddressesInsideIff | samples/peripheral_esl/hw/display/paint_lib/paint.c:175-189 | All points of all rows fall inside buffer_size if and only if the width is a multiple of 8 |
| PaintSpec.PlaceIsTurning | samples/peripheral_esl/hw/display/paint_lib/paint.c:145-175 | A direction is so many quarter turns clockwise, and the second scan mode turns the panel upside down after them |
| PaintSpec.DarkIs | samples/peripheral_esl/hw/display/paint_lib/paint.c:175-189 | Which bit of its byte a pixel is, and which value of it is black, in both bit orders |
| Paint.GlyphByteInside | samples/peripheral_esl/hw/display/paint_lib/paint.c:230-255 | The byte read for dot (i, j) lies inside the glyph's own bytes |
| Paint.PlottedRect | samples/peripheral_esl/hw/display/paint_lib/paint.c:145-189 | Drawing every point of a rectangle changes exactly the panel pixels that show its visible points |
| Paint.RunsStayInRowIff | samples/peripheral_esl/hw/display/paint_lib/paint.c:191-228 | The guard of a rectangle keeps its runs inside the rows, except at 90 degrees for rectangles that have runs, where a further condition is needed and is exact |
| Paint.FilledIsPlotted | samples/peripheral_esl/hw/display/paint_lib/paint.c:191-228 | Where the condition holds and the runs stay in their rows, the filled buffer is the buffer with every point drawn, in any band |
| Paint.FillExactIff | samples/peripheral_esl/hw/display/paint_lib/paint.c:191-228 | Filling equals drawing every point if and only if the rectangle fits (and at 90 degrees is square or empty), or shows no point at all; a rectangle that sticks out is not filled while its points are clipped one by one. It compares the pixels of the runs that are computed, which at 90 degrees are not those that drawHline writes when a run leaves its row |
| Paint.InexactShows | samples/peripheral_esl/hw/display/paint_lib/paint.c:191-228 | Where the condition does not hold the two buffers differ, on a full frame that has none of the color yet |
| Paint.Canvas.constructor | samples/peripheral_esl/hw/display/paint_lib/paint.c:61-81 | The object describes the given panel, with the band at row 0 |
| Paint.Canvas.SetBand | samples/peripheral_esl/hw/display/paint_lib/paint.c:83-86 | Only the start of the band moves |
| Paint.Canvas.SetDirection | samples/peripheral_esl/hw/display/paint_lib/paint.c:88-104 | Only the direction changes, and the visible ends with it |
| Paint.Canvas.Fill | samples/peripheral_esl/hw/display/paint_lib/paint.c:106-143 | Every pixel of the buffer has the color |
| Paint.Canvas.SetColor | samples/peripheral_esl/hw/display/paint_lib/paint.c:275-305 | Exactly the masked bits of one byte get the color |
| Paint.Canvas.ToPanel | samples/peripheral_esl/hw/display/paint_lib/paint.c:145-175 | Direction switch and scan mode compute the point's place, which is on the panel |
| Paint.Canvas.DrawPoint | samples/peripheral_esl/hw/display/paint_lib/paint.c:145-189 | The buffer becomes Plotted: exactly the point's pixel changes, or nothing when it is not visible or outside the band |
| Paint.Canvas.RunHead | samples/peripheral_esl/hw/display/paint_lib/paint.c:323-333 | The bits up to a byte boundary: exactly the pixels [x, i) of the row |
| Paint.Canvas.RunWholeBytes | samples/peripheral_esl/hw/display/paint_lib/paint.c:335-338 | The whole bytes: exactly the pixels up to the last byte boundary |
| Paint.Canvas.RunTail | samples/peripheral_esl/hw/display/paint_lib/paint.c:340-348 | The remaining bits: exactly the pixels up to the end |
| Paint.Canvas.DrawHline | samples/peripheral_esl/hw/display/paint_lib/paint.c:307-349 | Exactly the pixels [x, x + w) of the row change, or none outside the band |
| Paint.Canvas.FillRows | samples/peripheral_esl/hw/display/paint_lib/paint.c:225-227 | Exactly the pixels of the h runs change |
| Paint.Canvas.FillRect | samples/peripheral_esl/hw/display/paint_lib/paint.c:191-228 | Exactly the computed runs change; the buffer equals that of single points where the condition of FillExactIff holds, and differs from it on a clean full frame where it does not |
| Paint.Canvas.DrawDot | samples/peripheral_esl/hw/display/paint_lib/paint.c:243-249 | A dot read through the moving pointer is the glyph's dot (i, j) |
| Paint.Canvas.DrawGlyphRow | samples/peripheral_esl/hw/display/paint_lib/paint.c:242-254 | One glyph row; the pointer ends at the next row's first byte, behind the padding |
| Paint.Canvas.DrawFont | samples/peripheral_esl/hw/display/paint_lib/paint.c:230-255 | Exactly the glyph's black dots at their places, or nothing when the character does not fit |
| Paint.Canvas.DrawString | samples/peripheral_esl/hw/display/paint_lib/paint.c:257-270 | Exactly the dots of the characters up to the first that would pass the right edge |
| Paint.GlyphDotIs | samples/peripheral_esl/hw/display/paint_lib/paint.c:230-255 | Dot (i, j) of a glyph is bit 7 - i mod 8 of its byte, in a table that starts with the space and pads rows to whole bytes |
| Paint.TextIs | samples/peripheral_esl/hw/display/paint_lib/paint.c:257-270 | Closed form of the recursion: a dot of a string is a glyph dot of the k-th character at x + k * width, for the characters whose cells end on the panel |
| BandDisplay.ShownUnique | samples/peripheral_esl/hw/display/epd_shield_uc81xx_display.c:502-520 | A buffer that shows a list of strings is unique |
| BandDisplay.SceneIs | samples/peripheral_esl/hw/display/epd_shield_uc81xx_display.c:507-512 | A list of strings blackens a point exactly when one of them does |
| BandDisplay.SceneInAnyBand | samples/peripheral_esl/hw/display/paint_lib/paint.c:230-270 | What a list of strings covers does not depend on the band |
| BandDisplay.BandIsSlice | samples/peripheral_esl/hw/display/epd_shield_uc81xx_display.c:502-520 | The used rows of any band buffer are, byte for byte, the same rows of the full-frame buffer, for every direction, scan mode and band height |
| BandDisplay.BandsMakeTheFrame | samples/peripheral_esl/hw/display/epd_shield_uc81xx_display.c:502-520 | Rendering band by band and joining the used rows gives the full-frame buffer with the same strings |
| BandDisplay.DrawScene | samples/peripheral_esl/hw/display/epd_shield_uc81xx_display.c:507-512 | Filling white and replaying the strings leaves a buffer that shows exactly them, in a band or in a full frame |
| BandDisplay.OneMoreBand | samples/peripheral_esl/hw/display/epd_shield_uc81xx_display.c:502-520 | Writing a band's used rows extends the rendered rows by those rows and changes no others |
| BandDisplay.Shield.constructor | samples/peripheral_esl/hw/display/epd_shield_uc81xx_display.c:140-167 | An empty queue over any canvas with bands of 16 rows |
| BandDisplay.Shield.PrintPaint | samples/peripheral_esl/hw/display/epd_shield_uc81xx_display.c:464-482 | The string, cut to 63 characters, is queued at the end, or -ENOMEM when eight are queued |
| BandDisplay.Shield.WriteBand | samples/peripheral_esl/hw/display/epd_shield_uc81xx_display.c:514-516 | The band's used rows reach their rows of the panel |
| BandDisplay.Shield.RenderBands | samples/peripheral_esl/hw/display/epd_shield_uc81xx_display.c:502-520 | Without an error the panel shows exactly the strings; with one, exactly the rows before the failing band do and the rest is as before |
| BandDisplay.Shield.UpdatePaint | samples/peripheral_esl/hw/display/epd_shield_uc81xx_display.c:484-528 | The panel shows the queued strings; the queue stays |
| BandDisplay.Shield.ClearPaint | samples/peripheral_esl/hw/display/epd_shield_uc81xx_display.c:421-462 | The queue is emptied and the panel is white |
| BandDisplay.Shield.Unassociated | samples/peripheral_esl/hw/display/epd_shield_uc81xx_display.c:300-362 | The panel shows the six strings at their fixed places |
| GraySplit.WeaveByte | samples/peripheral_esl/driver/EPD/EPD_4in2.c:628-668 | Re-interleaving a byte of each plane gives the two image bytes back |
| GraySplit.SplitLossless | samples/peripheral_esl/driver/EPD/EPD_4in2.c:615-708 | Re-interleaving the two planes gives back every byte of the image |
| GraySplit.Panel.PackPixels | samples/peripheral_esl/driver/EPD/EPD_4in2.c:630-666 | The nested shifting loops emit the high (or low) bits of eight consecutive pixels in order |
| GraySplit.Panel.SendPlane | samples/peripheral_esl/driver/EPD/EPD_4in2.c:628-668 | The bytes sent are exactly the plane of the image, in order |
| GraySplit.Panel.Display4Gray | samples/peripheral_esl/driver/EPD/EPD_4in2.c:615-708 | High bits behind command 0x10, then low bits behind 0x13 |
| GraySplit.Panel.Display4GrayV2 | samples/peripheral_esl/driver/EPD/EPD_4in2_V2.c:398-491 | The same two planes in exchanged order, behind 0x24 and 0x26 |
| GraySplit.FramesDetermineImage | samples/peripheral_esl/driver/EPD/EPD_4in2.c:615-708 | Two images that send the same bytes are equal |
| GraySplit.PlaneBits | samples/peripheral_esl/driver/EPD/EPD_4in2.c:630-666 | Bit 7 - i of the two plane bytes is the higher and the lower bit of pixel i, for every byte pair |
| Tlv.SplitFlat | service/esl_common.h:170 | TLVs joined and split by the length nibble come back |
| Tlv.FlatSplit | service/esl_common.h:170 | What splits by the length nibble is the join of its TLVs |
| Ead.GenerateAdDataHeader | service/esl_common.c:300-327 | Randomizer and ESL header are laid out in place; an empty payload is refused and leaves the buffer alone |
| Ead.ComposeAdData | service/esl_common.c:360-396 | The buffer holds the sealed frame of payload length + 13 bytes, at most 61; an empty payload is sealed behind whatever the header's place held |
| Ead.FrameOpens | service/esl.c:2237-2254 | A composed frame passes the length and type checks and opens to the header and payload that went in |
| Ead.SwapsCancel | service/esl_client.c:3200-3267 | Reversing the session key twice gives the key: both sides end with the same one |
| Ead.FrameIs | service/esl_common.c:360-396 | The frame in numbers: length and type 0x31 outside, length and type 0x34 sealed in front of the payload |
| RepeatCodec.RepeatArrives | service/esl_common.c:39-50 | A 15-bit duration d arrives as d mod 128 + 256 * (d div 128), the type as its low bit |
| RepeatCodec.DurationArrivesIff | service/esl_common.c:39-50 | A duration arrives unchanged if and only if it is at most 127 |
| Elements.ClockReads | service/esl.c:654-694 | After a write of t at uptime u0 the clock reads (t + u - u0) modulo 2^32 for every later u |
| Elements.DelayIsExact | service/esl.c:1104-1176 | The delay of an accepted timed command ends when the clock reads exactly the requested time |
| Elements.TopBelow | service/esl.c:769-792 | The highest set bit of the pattern |
| Elements.LedCommandsKeep | service/esl.c:1183-1318 | LED commands never leave a waiting slot unscheduled |
| Elements.DisplayCommandsKeep | service/esl.c:1035-1182 | Nor do display commands |
| Elements.WorkersKeep | service/esl.c:696-839 | Nor do the two workers |
| Elements.WorkerClears | service/esl.c:708-760 | A worker run frees the slot |
| Flasher.ControlTrace | service/esl.c:1223-1228 | From index 0, type 0 and 1 <= D <= 255: exactly D - 1 passes over positions h..1 (0 alone for h = 0) with on and off as the pattern bits, then off and stop, after (D - 1) * max(h, 1) + 1 invocations; with every invocation on time the last one comes D - 1 pass times later, a position lasting twice its on or off period |
| Flasher.TimedTrace | service/esl.c:696-822 | From the start mark: D passes and D * max(h, 1) + 1 invocations, the last one D pass times later when all are on time |
| Flasher.RunIsBounded | service/esl.c:696-822 | For both repeat types and any clock, the count is an upper bound and the run ends |
| Flasher.RunIsEndless | service/esl.c:765-783 | With a counted duration above 255 the run never ends, since the pass counter has 8 bits |
| Flasher.RunEndsIff | service/esl.c:696-822 | A counted run ends if and only if the duration is at most 255 |
| Flasher.SteadyTrace | service/esl.c:708-728 | A duration of 0 makes one run: a single call, on for type 1 and off otherwise, with the LED active exactly when on, and nothing scheduled |
| Flasher.SecondsTrace | service/esl.c:729-762 | Repeats counted in seconds: the LED shows what the same number of passes would show, until an invocation finds the clock past the end set by the first one; that invocation switches off and stops |
| Flasher.PatternBitIs | service/esl.c:746-748 | Position k of the pattern is bit k of the five bytes taken as one number, least significant first |
| Slots.LedTimedIff | service/esl.c:1231-1318 | Another time is accepted exactly when it is less than 4147200000 ms ahead modulo 2^32 and the slot is free or waits for the same time; otherwise Queue Full or Implausible and nothing changes; time 0 frees |
| Slots.DisplayTimedIff | service/esl.c:1100-1182 | The same for displays, and no other display changes |
| Slots.OnlyTheImageIsShown | service/esl.c:1035-1182 | Along any run of commands and worker turns in which no command names it, a display shows the image that is set and no other |
| Slots.ImmediateImageConsumesTimed | service/esl.c:1061-1099 | An immediate image uses a waiting slot up: the next worker turn frees it, and along any run until a command names the display again the timed image is never shown |
| Slots.RefreshConsumesTimed | service/esl.c:1035-1060 | So does a refresh, with the image that is set |
| Slots.ImmediateLedCancelsTimed | service/esl.c:1183-1230 | An immediate LED command frees the waiting slot |
| Slots.ImmediateShowsOnePassFewer | service/esl.c:1183-1318 | The same settings sent both ways: the immediate command shows one pass fewer than the timed one |
| Slots.UnassociateFreesOnlyLeds | service/esl.c:2205-2225 | Unassociating frees the slots of all LEDs and of no display |
| Slots.BasicStateIsExact | service/esl.c:1369-1374 | Every bit of a Basic State response says what the flags and elements are |
| Slots.DurationZeroIsSteady | service/esl.c:708-728 | After either LED command with duration 0, for any pattern and clock, the worker makes exactly one call, on when the lowest bit of the repeat field is set and off otherwise |
| Slots.TimedImageIsShownOnce | service/esl.c:824-839 | An accepted timed image is shown by the one worker turn that is due when the clock reads its time; the display is active from then on and not before |
| TagMachine.HappeningKeepsOk | service/esl.c:158-222 | Every callback keeps: Unassociated exactly without all four items, and no synchronized bit in Unsynchronized |
| TagMachine.ItemSetKeepsOk | service/esl.c:1467-1610 | So does each characteristic write |
| TagMachine.HappeningKeepsStore | service/esl.c:1467-1610 | While storage works, the stored items are the set bits, with the bytes in memory |
| TagMachine.EnterKeepsItems | service/esl.c:251-453 | The state machine's own moves touch neither items nor store |
| TagMachine.LoadFinds | service/esl_settings.c:24-72 | Loading finds every stored entry in whatever order they come and changes nothing else |
| TagMachine.BootLands | service/esl.c:2411-2444 | A boot lands in Unsynchronized with all four items stored and in Unassociated otherwise, with memory equal to the store |
| TagMachine.CutSaveLands | service/esl_settings.c:99-163 | So does a boot after a save cut before or after its storage call |
| TagMachine.FirstDeletionUnprovisions | service/esl_settings.c:165-207 | As soon as one of the four deletions is done, not all four items are left |
| TagMachine.LoadSkipsBadLengths | service/esl_settings.c:24-72 | For any store: exactly the entries of the right length set their items |
| TagMachine.UndeletedIs | service/esl_settings.c:165-207 | What is left after each of the four deletions: the address goes first, then the keys, the time last |
| TagRun.CommandOnMachine | service/esl.c:918-1339 | Of all commands only three move the state machine, and only when they act; a busy tag refuses one |
| TagRun.WalkStrands | service/esl.c:456-521 | A packet unprovisions a synchronized tag if and only if it resets it after an update complete; the tag has then forgotten address and keys, and otherwise they stay |
| TagRun.ForgottenStays | service/esl.c:456-521 | Nothing later in the packet provisions the tag again: address and keys stay cleared |
| TagEvents.StepOkIff | service/esl.c:918-1016 | Every event keeps the state machine's invariant, except exactly the stranding packets |
| TagEvents.StepKeepsSlots | service/esl.c:696-839 | No event leaves a slot waiting with nothing scheduled |
| TagEvents.StepStore | service/esl_settings.c:99-207 | Every event keeps the store loadable and, while storage works, equal to memory |
| TagEvents.RunKeepsSlots | service/esl.c:1100-1318 | The same over every run of events: no slot stays full with nothing pending |
| TagEvents.RunKeepsStore | service/esl_settings.c:99-207 | The same over every run, also with power cuts between the deletions |
| TagEvents.PowerCutLands | service/esl_settings.c:165-207 | After any run, power lost with k of four deletions done: Unsynchronized if k = 0 and all items were stored, Unassociated otherwise |
| TagEvents.RunOkIff | service/esl.c:158-453 | The stronger invariant that also ties the synchronization timer to the four items holds in every state of a run if and only if no packet of the run strands the tag |
| TagEvents.RunKeepsTimers | service/esl.c:332-416 | In every state of every run a synchronized tag has its synchronization timer running and an updating one has none |
| TagEvents.BootIsOk | service/esl.c:2313-2448 | Every run begins in such a state |
| TagEvents.StrandingExists | service/esl.c:965-1016 | For every address there is a stranding packet, update complete and then factory reset; Placement.MisplacingRun has it arrive on a run from power-up |
| TagEvents.StrandedTimesOut | service/esl.c:659-687 | A stranded tag is unassociated with the synchronization timer running, which takes it to Unsynchronized without any item |
| TagEvents.LinkLossStopsTheClock | service/esl.c:158-202 | Link loss during an update leaves the tag unsynchronized with no timer at all |
| TagEvents.LinkLossStartsNoTimer | service/esl.c:184-186 | Link loss of a provisioned tag starts no timer and stops none |
| TagEvents.PawrUnassociateOnlyClearsTheBit | service/esl.c:964-977 | Unassociate in a packet clears the synchronized bit, and no notification follows that would unassociate |
| Placement.StepSettlesIff | service/esl.c:659-687 | Every event leaves the tag where its items and its synchronized bit call for, except exactly the synchronization timer firing on a tag that has not all four items |
| Placement.RunPlacedIff | service/esl.c:158-453 | In every state of a run the tag is in Unassociated exactly when an item is missing and not marked synchronized in Unsynchronized, if and only if no event of the run misfires in that way |
| Placement.NothingStrandsNothingMisfires | service/esl.c:456-521 | A run without a stranding packet has no such event, and the tag is well placed all along |
| Placement.MisplacingRun | service/esl.c:659-687 | From power-up with an empty store, for every address and keys: a legal run with a stranding packet on which the tag ends up misplaced |
| Lifecycle.FollowsDiagram | service/esl.c:126-222 | Every callback of a tag that has not misfired follows a diagram of six phases, the synchronized bit and one timer, written out independently of the code's transitions |
| Lifecycle.WritesAre | service/esl.c:1467-1610 | What each write sets and stores, byte by byte: the address without its reserved bit and never the broadcast ID, keys with their first 16 bytes reversed, of the time only the fact |
| Lifecycle.OthersAre | service/esl.c:158-687 | No other callback touches items or store, except that unassociating, its timeout and an accepted reset leave nothing but the entries that could not be deleted; when update complete and the subscription change |
| Lifecycle.UpdateReturns | service/esl.c:1002-1016 | Connected, secured and told that the update is complete: a tag that was Synchronized with its bit set is so again, with its items and its timer; any other waits in Configured, subscribed and without a timer |
| Lifecycle.SilenceUnassociates | service/esl.c:659-687 | Without packets a synchronized tag is unsynchronized by the first timeout, keeping everything, and unassociated by the second, keeping nothing |
| Lifecycle.SyncComesAndGoes | service/esl.c:523-569 | Synchronization found and lost: bit and timer each time |
| Lifecycle.AnyOrderConfigures | service/esl.c:841-856 | The four items can be written in any order and any number of times: the tag is in Configuring exactly from the write on that completes them |
| Lifecycle.AnyPacketRenews | service/esl.c:2237-2267 | Any packet that decrypts renews the synchronization timer; one that is ignored changes nothing else |
| Lifecycle.BootView | service/esl.c:2411-2444 | A boot runs the timer that gives up on the synchronization exactly when all four items are stored |
| Exchanges.NotTaken | service/esl.c:935-955 | In this order: wrong length 0x06, vendor-specific 0x02, another tag no answer, busy 0x0A once; nothing else changes |
| Exchanges.SensorExchange | service/esl.c:1017-1034 | Read Sensor Data, bytes in and bytes out: 0x02, 0x06, Retry while busy, or length nibble, index and data |
| Exchanges.DisplayImageExchange | service/esl.c:1061-1099 | Display Image is carried out if and only if the display and the image exist and the image is not empty or the display simulated; then the answer is 0x11, display, image and exactly that display is set and scheduled now; otherwise the answer is the named code 0x02, 0x06 or 0x05 and no element changes |
| Exchanges.TimedImageExchange | service/esl.c:1100-1182 | The same for Timed Display Image, with 0x0C for a time that is 48 days ahead or more, 0x0B for a slot that waits for another, and the exact due time |
| Exchanges.RefreshExchange | service/esl.c:1035-1060 | Refresh Display: 0x02, 0x06, 0x04 without an image, or 0x11, display, image and a schedule for now |
| Exchanges.LedExchange | service/esl.c:1183-1230 | LED Control: 0x02, 0x06, or 0x01, led with every field of the LED as the bytes say |
| Exchanges.TimedLedExchange | service/esl.c:1231-1318 | LED Timed Control likewise, with 0x0C and 0x0B, and time 0 that stops the LED |
| Exchanges.OtherExchange | service/esl.c:1319-1331 | A ping and reserved low nibbles are answered with Basic State, other undefined op codes with 0x02 |
| Exchanges.UnassociateExchange | service/esl.c:964-976 | Unassociate over a connection: Retry when to all; otherwise the answer already shows the cleared bit, and once it is out nothing is left of the association |
| Exchanges.ServiceResetExchange | service/esl.c:977-981 | Service Reset clears the bit, and the answer already says so |
| Exchanges.FactoryResetExchange | service/esl.c:982-1001 | Factory Reset: 0x03 when synchronized, 0x0A when to all, otherwise all is forgotten with the images, and no answer is given |
| Exchanges.UpdateCompleteExchange | service/esl.c:1002-1016 | Update Complete moves the machine as the diagram says, and the answer is the Basic State after it |
| Exchanges.LedControlAnswered | service/esl_client.c:2293-2325 | From the access point's arguments through the bytes to the tag's LED and its answer |
| Exchanges.DisplayControlAnswered | service/esl_client.c:2327-2346 | The same for an image |
| Exchanges.NoImageAfterBoot | service/esl.c:2173-2184 | After a boot a refresh is refused with 0x04, or shows image 0 in the builds for the test suite |
| Accumulator.OneResponse | service/esl.c:1413-1436 | One response is appended, or exactly the last whole TLV gives way to Capacity Limit; a rollback never uses a length left from an earlier packet |
| Accumulator.CommandAppends | service/esl.c:918-1436 | A command in a packet appends the very answer it would get over a connection |
| Accumulator.WalkAnswers | service/esl.c:479-519 | All along a packet the buffer holds whole TLVs within 48 bytes and the last length is right |
| Accumulator.ResponsesAreWhole | service/esl.c:102-124 | For any packet a response is given exactly when a slot is chosen; it is not empty, fits, and consists of the answers left of all |
| Packets.DownlinkRoundTrip | service/esl.c:456-521 | Composed, opened and parsed, exactly the commands for the tag or for all are dispatched, unchanged and in order, and the slot is the last one addressed: if and only if no command behind a stranding reset is for the lost or the gained ID |
| Packets.LastToIsLast | service/esl.c:497-502 | The slot is the index of the last TLV addressed to the tag, or -1 |
| Packets.MineMembers | service/esl.c:485-488 | A command is dispatched exactly when it is for this tag or for all |
| Packets.OtherGroupIgnores | service/esl.c:471-475 | A tag of another group ignores the packet |
| Packets.WalkSlotIsSmall | service/esl.c:456-521 | The TLV counter stays within eight signed bits for any packet |
| Packets.KeysAgree | service/esl.c:1517-1579 | Keys written by the access point are the access point's keys on the tag |
| Packets.AnsweringKey | service/esl.c:102-124 | A packet is answered under the tag's response key, or under a key of zeros exactly when it strands the tag |
| Packets.UplinkRoundTrip | service/esl.c:102-124 | For a chosen slot, whatever the packet was, the frame has at most 61 bytes, passes the checks and opens, with the key it was sealed with, to a two-byte header and the tag's answers |
| Packets.UplinkOpensIff | service/esl.c:102-124 | It opens with the tag's key from before the packet if the packet does not strand the tag or that key is all zero, and only then when the cipher tells the two keys apart |
| Packets.SomeCipherTellsApart | service/esl.c:102-124 | Sound ciphers that tell two keys apart exist, so that the only-if half says something |
| Packets.AnswersArriveIff | service/esl_client.c:269-325 | The answers end up in the access point's response buffer under exactly the same condition |
| Packets.StrandingIsAnswered | service/esl.c:102-124 | For every tag there is a packet whose response is chosen and sealed under a key of zeros |
| Packets.ParsedIff | service/esl.c:456-478 | A packet is parsed exactly when its length, its type 0x34 and its group, bits 8 to 14 of the tag's address, are right; any other changes nothing |
| EslTag.Esl.SetState | service/esl.c:251-453 | Entry action of each state on timer, mode and synchronized bit |
| EslTag.Esl.IsConfiguringState | service/esl.c:841-856 | Not a query: with all items set the machine moves to Configuring |
| EslTag.Esl.Connected | service/esl.c:126-156 | Clears update complete only |
| EslTag.Esl.Disconnected | service/esl.c:158-202 | As Disconnect, for each reason, as in the diagram |
| EslTag.Esl.SecurityChanged | service/esl.c:205-222 | Only a success in Synchronized or Unsynchronized starts an update |
| EslTag.Esl.SyncEstablishedCb | service/esl.c:523-552 | As SyncEstablished, in the diagram |
| EslTag.Esl.SyncTerminatedCb | service/esl.c:554-569 | As SyncTerminated, in the diagram |
| EslTag.Esl.AddrWrite | service/esl.c:1467-1501 | The reserved bit is dropped; the broadcast ID is refused and changes nothing |
| EslTag.Esl.ApKeyWrite | service/esl.c:1517-1539 | The reversed key is set and stored |
| EslTag.Esl.RspKeyWrite | service/esl.c:1556-1579 | The reversed key is set and stored |
| EslTag.Esl.AbsTimeWrite | service/esl.c:1592-1610 | The clock reads the value plus the time since, modulo 2^32, at every later uptime; the item is set |
| EslTag.Esl.Save | service/esl_settings.c:99-163 | Exactly the item's entry is stored, when the call succeeds |
| EslTag.Esl.DeleteProvisionedData | service/esl_settings.c:165-207 | No bit is left set; exactly the entries whose deletion failed are left; after k of the four deletions exactly those and the entries not yet come to |
| EslTag.Esl.Unassociate | service/esl.c:2205-2225 | Items, keys, bits and LED slots are gone; the displays are as they were |
| EslTag.Esl.FactoryReset | service/esl.c:2195-2203 | As Unassociate, with all image sizes 0 |
| EslTag.Esl.StateTimeout | service/esl.c:659-687 | By mode: to Unsynchronized, or unassociated |
| EslTag.Esl.LedReset | service/esl.c:2152-2162 | One LED is reset, no other changes |
| EslTag.Esl.DisplayReset | service/esl.c:2173-2184 | One display is reset, no other changes |
| EslTag.Esl.BasicStateUpdate | service/esl.c:2282-2306 | The three bits say whether some LED is active or waiting and some display waiting |
| EslTag.Esl.LedDelayWorker | service/esl.c:696-822 | State and switching calls of one run are those of the function that TimedTrace, ControlTrace, SecondsTrace and SteadyTrace are about |
| EslTag.Esl.DisplayDelayWorker | service/esl.c:824-839 | The slot is free and the display active |
| EslTag.Esl.GetAbsTime | service/esl.c:654-657 | With the anchor, the reading makes up the uptime modulo 2^32 |
| EslTag.Esl.LedControlCommand | service/esl.c:1183-1230 | As LedControl, which LedExchange states in bytes |
| EslTag.Esl.LedTimedCommand | service/esl.c:1231-1318 | As LedTimed, of which TimedLedExchange and LedTimedIff say what is accepted |
| EslTag.Esl.DisplayImageCommand | service/esl.c:1061-1099 | As DisplayImage, of which DisplayImageExchange says when it is refused and with what code |
| EslTag.Esl.DisplayTimedCommand | service/esl.c:1100-1182 | As DisplayTimed, of which TimedImageExchange and DisplayTimedIff say what is accepted |
| EslTag.Esl.RefreshCommand | service/esl.c:1035-1060 | As DisplayRefresh, which RefreshExchange states in bytes |
| EslTag.Esl.SensorCommand | service/esl.c:1017-1034 | As ReadSensor, which SensorExchange states in bytes |
| EslTag.Esl.UpdateCompleteCommand | service/esl.c:1002-1016 | As UpdateComplete, which the diagram and UpdateReturns say |
| EslTag.Esl.ExecuteCommand | service/esl.c:946-1333 | The whole switch, error cases included |
| EslTag.Esl.CheckEslId | service/esl.c:889-916 | Another tag's ID is refused; a busy tag answers Retry once |
| EslTag.Esl.CommandHandler | service/esl.c:918-1339 | As Command, with no response for another tag's ID |
| EslTag.Esl.ComposeSensorValue | service/esl.c:1380-1400 | The sensor response is a whole TLV with the data, or Retry |
| EslTag.Esl.ResponseHandler | service/esl.c:1341-1453 | As Respond, whose answers the Exchanges lemmas state byte by byte |
| EslTag.Esl.ParseSyncPacket | service/esl.c:456-521 | As Parse, for any packet; the cursor and the counter stay within eight bits and the response composed is the buffer's |
| EslTag.Esl.SetPawrResponse | service/esl.c:102-124 | The frame of the buffer for a chosen slot; the buffer is emptied |
| EslTag.Esl.SyncWork | service/esl.c:2237-2267 | Nothing happens when the packet does not decrypt; otherwise it is parsed and the timer renewed, whatever it held |
| EslTag.Esl.NotificationDone | service/esl.c:875-879 | The tag unassociates |
| EslTag.Esl.OnLink | service/esl.c:126-222 | Each callback that concerns the machine alone |
| EslTag.Esl.OnWorker | service/esl.c:696-839 | The two workers |
| EslTag.Esl.OnTimer | service/esl.c:659-687 | The timer and the notification callback |
| EslTag.Esl.OnCallback | service/esl.c:126-222 | Callbacks and the control point |
| EslTag.Esl.OnEvent | service/esl.c:126-839 | The methods together make exactly the step that the results about runs speak of, for every event but a power cut |
| EslTag.Esl.LoadSettings | service/esl_settings.c:24-97 | Every loadable entry is set |
| EslTag.Esl.Init | service/esl.c:2313-2448 | The state that BootIsOk speaks about |
| ApSync.PicksAre | service/esl_client.c:212-222 | A request takes exactly the ready groups of its window, which wraps around |
| ApSync.PicksInOrder | service/esl_client.c:212-244 | Each once, in visiting order |
| ApSync.DoKeepsBalance | service/esl_client.c:206-325 | Every action keeps each group's account of frames accepted and handed over |
| ApSync.RunKeepsBalance | service/esl_client.c:206-325 | So does every run |
| ApSync.DeliveredAtMostOnce | service/esl_client.c:206-260 | Over every run from empty buffers the frames handed over for a group are among those accepted for it, byte for byte and in order, none twice |
| ApSync.ReadyUntilHanded | service/esl_client.c:206-260 | A frame stays ready exactly until a granted request covers it, or a response or dump cuts it off; the request hands it over |
| ApSync.LateResponseLosesTheFrame | service/esl_client.c:269-298 | After a late response no request takes the frame, no push is accepted, and the dump forgets it |
| ApSync.ResponseRecovered | service/esl_client.c:269-325 | A composed response is recovered to the last byte behind its two-byte header, and no other slot changes |
| ApSync.PushAcceptedIff | service/esl_client.c:2813-2829 | A push is accepted if and only if its group is empty or was handed over; the frame is then in the buffer and ready, and logged; otherwise, and for every other group, nothing changes |
| ApSync.RequestIs | service/esl_client.c:206-260 | A granted request turns exactly the ready groups of its wrapped window to pushed and keeps their frames; a refused one changes nothing |
| ApSync.PushedGroupAcceptsAgain | service/esl_client.c:2813-2829 | Over the run push, granted request, push: both frames are accepted, the first is handed over once and the second is ready |
| ApSync.AnsweredIs | service/esl_client.c:269-325 | What any response leaves in group and slot: opened when its length, type and key are right, raw otherwise, with the slot marked only for a legitimate frame |
| ApSync.DumpedIs | service/esl_client.c:2849-2866 | After a dump no slot holds anything, the group is empty and the keys stay |
| ApBuffers.AccessPoint.PushSyncToController | service/esl_client.c:206-260 | Success turns exactly the picked groups to pushed and hands over one copy of each, in order; a controller failure restores every status |
| ApBuffers.AccessPoint.Restore | service/esl_client.c:248-251 | The whole status vector is as before the call |
| ApBuffers.AccessPoint.PushSyncBuf | service/esl_client.c:2813-2829 | Accepted exactly when empty or pushed, with the composed frame, also for an empty payload; otherwise -EBUSY and nothing changes |
| ApBuffers.AccessPoint.PawrResponse | service/esl_client.c:2497-2514 | An empty response changes nothing; any other fills its slot and group |
| ApBuffers.AccessPoint.DumpRespBuf | service/esl_client.c:2849-2866 | The group and its filled slots are empty |
| ApCommands.LedCommandArrives | service/esl_client.c:2293-2325 | The tag decodes LED, settings and time as given, except that duration d arrives as d mod 128 + 256 * (d div 128) |
| ApCommands.LedSettingsArriveIff | service/esl.c:1183-1210 | The settings arrive unchanged if and only if the type is one bit and the duration at most 127 |
| ApCommands.DisplayCommandArrives | service/esl_client.c:2327-2346 | The tag decodes display, image and time as given |
| ApCommands.BuiltIsCarriedOut | service/esl.c:935-941 | A command built for a defined op code passes the tag's length check and is carried out |
| ApCommands.Built | service/esl_client.c:2208-2258 | The length is that of the op code's nibble |
| ApCommands.ControlPoint.CommandSend | service/esl_client.c:2185-2291 | A defined op code is written as the op code, the ID and as many parameters as its nibble counts; for any other only these two bytes of the buffer change, and the length stays |
| ApCommands.ControlPoint.LedControl | service/esl_client.c:2293-2325 | The command of LedCommandArrives is written |
| ApCommands.ControlPoint.DisplayControl | service/esl_client.c:2327-2346 | The command of DisplayCommandArrives is written |
| ApCommands.DefinedIs | service/esl_client.c:2208-2258 | The op codes that are sent with their own length, in numbers |
| SensorInfo.SensorsArrive | service/esl.c:1613-1645 | What is serialised parses back to the list without the sensors of unknown kind |
| SensorInfo.AllKnown | service/esl.c:1613-1645 | That is the list itself when all are of kind 0 or 1 |
| SensorInfo.RawArrives | service/esl_common.c:114-136 | Serialising the parse of a well-formed string gives the string |
| SensorInfo.SensorRead | service/esl.c:1613-1645 | The loop serialises the sensors in order |
| SensorInfo.ParseSensorInfo | service/esl_common.c:114-136 | The loop ends on well-formed strings with as many sensors as entries, and leaves the rest of the array alone |
| SensorInfo.Layouts | service/esl.c:1613-1645 | The bytes of each kind of entry on the air |
| AddressPool.NthAddress | service/esl_client.c:817-824 | The n-th address is ID n mod T of group n div T from the first, wrapping after 128 groups |
| AddressPool.NeverBroadcastIff | service/esl_client.c:817-824 | No tag is given the broadcast ID if and only if the first ID plus the tags per group is at most 255 |
| AddressPool.DistinctAddresses | service/esl_client.c:817-824 | 128 * T tags get different addresses |
| AddressPool.Pool.Step | service/esl_client.c:817-824 | One step of the counter |
| AddressPool.Pool.Configure | service/esl_client.c:817-824 | Configuring n tags uses the first n addresses |
| AddressPool.NthAddressIs | service/esl_client.c:817-824 | The same in numbers |

## Left out

- Sync and term callbacks for an older subscription: a callback is taken to come only for a subscription made since the last unassociate; the code does not unsubscribe when the synchronized bit is already clear.
- Interleavings inside one callback, such as the ready status set before the frame is composed (esl_client.c:2819-2822): each callback is one step.
- EslTag.Esl.SyncWork: does not model a decrypted packet of one byte, whose header check reads and pulls past it.
- EslTag.Esl.ParseSyncPacket: requires the two header bytes for the same reason.
- ApBuffers.AccessPoint.PawrResponse: does not model a response of one byte, whose check reads and pulls past it, or one longer than the slot's 61 bytes, which the source copies past the buffer.
- ApBuffers.AccessPoint.PushSyncBuf: requires at most 48 bytes of payload, because beyond them the source composes past the buffer.
- EslTag.Esl.ExecuteCommand: leaves out the vendor-specific callback of the default branch, which is taken to be absent.
- EslTag.Esl.CommandHandler: is the handler built without vendor-specific support.
- EslTag.Esl.ResponseHandler: leaves out the vendor-specific response; the unspecified error behind it cannot be reached from the handler's own responses.
- EslTag.Esl.Init: leaves out the init callbacks of display, LED and sensor and the service registration, with their error returns.
- EslTag.Esl.OnEvent: takes every event but a power cut, after which memory is that of the constructor and `Init` runs.
- The indication LED and `led_type`: cosmetics outside the protocol.
- Who sets `busy`: it is a field that only the handler clears.
- Failure of the sync transfer subscription in the Configured state, advertising, connections, PAST, GATT, OTS, bonding, logging and shell.
- The display, LED and sensor callbacks beyond what they are called with, and image storage beyond the size of each image.
- A flashing pattern without any bit: the source's bit scan is undefined there, and the model takes position 255 of the pattern, which is off.
- The red plane of three-color panels (CONFIG options of paint.c) and the EPD waveforms and refresh commands are not part of this model.
- Paint.Canvas.DrawFont: takes coordinates that are not negative; the source's `int` coordinates come from unsigned ones in every caller.
- Paint.Canvas.DrawString: the same, and no empty string, for which the source draws the terminator as a glyph outside the font.
- BandDisplay.Shield.PrintPaint: takes printable text that is not empty, because of what drawing it would read.
- BandDisplay.Shield.constructor: takes any canvas with bands of 16 rows; the source's has direction 0 and scan mode 1.
- The 32-bit wrap of coordinates, and of band_y on panels of more than 65520 rows.
- Paint.Canvas.FillRect: at 90 degrees, for a rectangle that has runs, it requires that they stay in their rows, because beyond them the source writes into the next row or past the buffer.
- Paint.FilledIsPlotted: requires the same.
- Ead.ComposeAdData: requires at most 48 bytes of payload, because beyond them the source writes past its buffer.
- ApBuffers.AccessPoint.PushSyncToController: requires that the ready groups of the window fit the transmit slots, because beyond them the source writes past its arrays.
- SensorInfo.ParseSensorInfo: requires a well-formed string, because on an entry of another kind the source's loop does not advance.
- The access point's clock (esl_client.c:1289-1292), tag storage files, predefined packets, on-boarding beyond the address counter, and the refresh and other wrappers around `bt_esl_c_ecp_command_send`: they would add only easy members.
- ApCommands.ControlPoint.CommandSend: the connection index and the write itself are left out; it states what is written on a valid connection.
- The index of response keys by ESL ID (esl_client.c:3268-3281): a slot's key is whatever is on file.
- SMF run and exit handlers and `sync_count`: they carry no state that matters here.
