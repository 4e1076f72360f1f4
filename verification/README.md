# Keypad/OLED macropad input pipeline, modelled in Dafny

This project models the input side of a small macropad: an RP2040 board with a
3x3 keypad, a rotary encoder with a push button and a 128x32 SSD1306 OLED. It
also models the two serial commands the companion PC app sends to it.

- `events.dfy` (module `Events`): the input `Event` and `processEvent`'s
  mapping from each event to the label written on the display.
- `event_queue.dfy` (module `EventQueue`): the 32-slot circular event queue
  (`evtQueue`, `evtHead`, `evtTail`, `evtPush`, `evtPop`). It is a class over an
  array with two index fields. A ghost `Contents` sequence is tied to the array
  by the pure function `Ring`. One slot is always left empty, so at most 31
  events are pending.
- `firmware.dfy` (module `Firmware`): one tick of `loop()`, as a `Controller`
  class holding the queue, `lastEncPos` and the labels shown so far. A tick
  samples the keypad, then the encoder, then the button. It then dispatches at
  most 4 queued events.
- `encoder.dfy` (module `Quadrature`): the polling quadrature decoder
  `Encoder::read` over the 2-bit pin state `(A << 1) | B`.
- `image_buffer.dfy` (module `Ssd1306Buffer`): the PC app's
  `image_to_ssd1306_buffer`, from the thresholded pixel grid to the
  page-ordered frame buffer. It is a triple loop filling an array.
- `commands.dfy` (module `Commands`): the `MAP <key> <text>` command with its
  key check, and the `IMG <len>` header.
- `wrappers.dfy`: `Option` and `Result`.

The firmware exists twice in near-identical form: `src/code/main.cpp` (a
single-file sketch) and `src/src/main.cpp` (the split version). The queue,
`processEvent` and the tick are modelled once, and the table cites both files.
The peripherals are read by foreign libraries, so a tick takes their readings
as parameters:
- the keypad scan, as `Option<char>` (`None` for `NO_KEY`);
- the encoder position, as `int`;
- the debounced button's `fell()`, as `bool`.

The encoder's pin levels are parameters of `Encoder.Read` in the same way. The
display is modelled as the sequence of labels it was given.

## Model

| member | source | states |
|---|---|---|
| EventQueue.Queue.Push | src/code/main.cpp:167-173 | Fails exactly when `(head + 1) % 32 == tail`, which is exactly when 31 events are pending. On failure the array, head and tail are unchanged. On success only slot `old(head)` is written, with `e`, and head advances by 1 mod 32. The pending contents gain `e` at the back. The split firmware's `evtPush` (src/src/main.cpp:21-27) is the same code. |
| EventQueue.Queue.Pop | src/code/main.cpp:175-180 | Fails exactly when `tail == head`, which is exactly when nothing is pending. On failure `out` keeps the caller's value and head and tail are unchanged. On success `out` is the slot at the old tail, which is the oldest pending event. Tail advances by 1 mod 32 and the contents lose their front. The split firmware's `evtPop` (src/src/main.cpp:29-34) is the same code. |
| EventQueue.Queue.constructor | src/code/main.cpp:162-165 | A fresh 32-slot queue with head = tail = 0 and no pending events. |
| EventQueue.RingLength | src/code/main.cpp:162-180 | The number of pending events is `(head - tail) mod 32`, always below the slot count. |
| EventQueue.RingEmpty | src/code/main.cpp:176 | Nothing is pending iff `tail == head`. |
| EventQueue.RingFull | src/code/main.cpp:168-169 | 31 events are pending iff `(head + 1) % 32 == tail`, the push's full test. |
| EventQueue.RingPush | src/code/main.cpp:170-171 | Writing `x` at head and advancing head appends `x` to the pending sequence when not full. |
| EventQueue.RingPop | src/code/main.cpp:177-178 | Reading the slot at tail and advancing tail removes the front of the pending sequence when not empty. |
| EventQueue.CapacityScenario | src/src/main.cpp:16-34 | From an empty queue, exactly 31 pushes succeed and the 32nd fails; after one pop the next push succeeds again. |
| EventQueue.FifoRoundTrip | src/code/main.cpp:162-180 | Pushing up to 31 events and then popping until failure returns exactly the pushed events in push order. |
| Events.LabelRoundTrip | src/src/main.cpp:58-78 | `None` is the only event with no label. Every label reads back as the event that produced it: a key gives `"Key: " + c`, and the encoder events give `"Enc: Left"`, `"Enc: Right"` and `"Enc: Btn"`. |
| Events.LabelInjective | src/src/main.cpp:58-78 | Different events never show the same label. |
| Events.Label | src/src/main.cpp:59-77 | The `processEvent` switch: the label each event is displayed with, and none exactly for the `None` sentinel (the `default` branch). |
| Events.LabelsOneEach | src/code/main.cpp:201-217 | Dispatching a run of non-`None` events shows one label per event, in event order, each one that event's label. |
| Events.LabelsAppend | src/code/main.cpp:237-238 | Dispatching two runs of events shows the first run's labels followed by the second's. |
| Firmware.Controller.ProcessEvent | src/src/main.cpp:58-78 | Appends the event's label to the display, or nothing for `None`. It changes nothing else: not the queue and not `lastEncPos`. The single-file sketch (src/code/main.cpp:201-218) has the same mapping. |
| Firmware.SampledEvents | src/code/main.cpp:224-235 | One tick's pushes, in order key, encoder, button. There is a `Key` event carrying exactly `c` iff the scan returned `c`. There is exactly one direction event iff the position changed, `EncRight` iff it grew and `EncLeft` iff it shrank. There is `EncBtn` iff `fell()`, and never a `None` event. |
| Firmware.KeyEvents | src/code/main.cpp:224-225 | A keypad sample yields at most one event, never `None`, and a `Key(c)` event exactly when the scan returned `c`. |
| Firmware.EncoderEvents | src/code/main.cpp:227-232 | A changed position yields exactly one event and an unchanged one none: `EncRight` iff the position grew, `EncLeft` iff it shrank, never `None`. |
| Firmware.ButtonEvents | src/code/main.cpp:234-235 | The button yields `EncBtn` iff `fell()` reported a falling edge, at most one event and never `None`. |
| Firmware.Sampled | src/code/main.cpp:224-235 | One tick tries to push at most three events, in order key, encoder, button, and never the `None` sentinel. |
| Firmware.PushAllKeepsPrefix | src/code/main.cpp:225-235 | Pushing a tick's events keeps every pending event in place and appends the longest prefix that fits in 31 slots. The rest are dropped. |
| Firmware.PushAllAppend | src/code/main.cpp:225-235 | Pushing two batches in turn is the same as pushing their concatenation. |
| Firmware.Controller.SampleInputs | src/src/main.cpp:81-100 | The queue contents become the old contents with the key, encoder and button events pushed in order, each dropped when full. `lastEncPos` becomes `pos` whatever the delta, and the display is untouched. |
| Firmware.Controller.Offer | src/src/main.cpp:83-99 | Each input's at most one event is pushed into the queue, or dropped when it is full. |
| Firmware.Batch | src/src/main.cpp:105 | A tick dispatches at most 4 events, and fewer only when the queue runs empty: `min(4, pending)`. |
| Firmware.Controller.Dispatch | src/src/main.cpp:103-108 | The oldest `min(4, pending)` events are shown in FIFO order. The rest stay queued in their original order. `lastEncPos` is unchanged. The display gains exactly one label per dispatched event, because the controller's invariant keeps the `None` sentinel out of the queue. |
| Firmware.DispatchStep | src/code/main.cpp:237-238 | After `k` dispatches the next pop yields pending event `k`, and showing it extends the display by that event's label. |
| Firmware.Controller.Tick | src/code/main.cpp:223-241 | One whole tick: sample (key, encoder, button), then dispatch. Afterwards `lastEncPos == pos`, the first `Batch` of the new pending sequence is shown in order, and the rest stay queued. The split firmware's `loop()` (src/src/main.cpp:80-112) is the same tick. The display gains exactly `min(4, pending)` labels, and the queue never holds the `None` sentinel. |
| Firmware.Controller.constructor | src/src/main.cpp:44-56 | `setup()`: an empty queue, nothing shown, and `lastEncPos` snapshotting the encoder's position. |
| Firmware.KeyRightButtonTick | src/code/main.cpp:223-241 | On an empty queue, key '5' plus one clockwise step plus a button press shows `"Key: 5"`, `"Enc: Right"`, `"Enc: Btn"` in that order and leaves nothing pending. |
| Firmware.BacklogTick | src/src/main.cpp:103-108 | With five keys pending and no new input, the first four are shown in push order and the fifth stays queued. |
| Firmware.KeyRightButtonScenario | src/code/main.cpp:189-241 | The same scenario run on a freshly set-up controller: the display receives the three labels and the queue ends empty. |
| Quadrature.Sample | src/code/main.cpp:24 | The pin state `A * 2 + B` lies in 0..3, and its bits decode back to the two pin levels. |
| Quadrature.Clockwise | src/code/main.cpp:28 | The four-way clockwise test of `read()`; it only ever holds for a changed state. |
| Quadrature.ClockwiseIsCycleStep | src/code/main.cpp:27-28 | The source's four-way clockwise test holds exactly for one step along the cycle 00 → 01 → 11 → 10 → 00. |
| Quadrature.Delta | src/code/main.cpp:25-29 | The position change is 0 iff the state is unchanged, +1 iff the new state is the clockwise successor, and −1 for every other change, invalid jumps such as 0 → 3 included. |
| Quadrature.Encoder.constructor | src/code/main.cpp:17-21 | Position 0, and `last` is the pin state sampled at construction. |
| Quadrature.Encoder.Read | src/code/main.cpp:23-33 | With an unchanged state, `pos` and `last` stay as they were. A clockwise step adds 1 and any other change subtracts 1. `last` becomes the new state and the new `pos` is returned. |
| Quadrature.ClockwiseTravel | src/code/main.cpp:27-29 | Polling a run of clockwise steps raises the position by exactly the number of steps. |
| Quadrature.CounterClockwiseTravel | src/code/main.cpp:27-29 | Polling a run of counter-clockwise steps lowers the position by exactly the number of steps. |
| Ssd1306Buffer.Lit | src/pc_app/gui_app.py:32 | A grey level is lit iff it is at least 128. |
| Ssd1306Buffer.Threshold | src/pc_app/gui_app.py:32 | Thresholding keeps the image's shape, and each pixel is lit iff its grey level is at least 128. |
| Ssd1306Buffer.PackBitsBit | src/pc_app/gui_app.py:37-42 | Bit `j` of the accumulated byte is set iff pixel `j` of the column is lit. Bits past the pixels stay clear. |
| Ssd1306Buffer.PageByte | src/pc_app/gui_app.py:37-42 | The inner loop's byte has bit `bit` set iff pixel `(x, page * 8 + bit)` is lit. |
| Ssd1306Buffer.PageIndex | src/pc_app/gui_app.py:43 | `x + page * width` lies in the buffer and decodes back to column `x` and page `page`. |
| Ssd1306Buffer.PageIndexInjective | src/pc_app/gui_app.py:35-43 | Distinct `(x, page)` pairs write distinct bytes, so each byte is written exactly once. |
| Ssd1306Buffer.PageIndexBounds | src/pc_app/gui_app.py:33-36 | Every buffer index names an in-range column and page. |
| Ssd1306Buffer.PackedBit | src/pc_app/gui_app.py:35-43 | Bit `bit` of `buf[x + page * width]` is set iff pixel `(x, page * 8 + bit)` is lit. |
| Ssd1306Buffer.Packed | src/pc_app/gui_app.py:33-34 | The frame buffer holds `width * (height / 8)` bytes. |
| Ssd1306Buffer.ImageToBuffer | src/pc_app/gui_app.py:29-44 | The loop's buffer has `width * (height / 8)` bytes, which is 512 for 128x32. It equals the page-ordered packing of the pixels, byte for byte. |
| Commands.MapCommand | src/pc_app/gui_app.py:172-175 | A key that is empty or longer than one character is refused. Otherwise the command starts with `MAP `, ends with a newline and is 7 characters longer than the text. |
| Commands.MapRoundTrip | src/pc_app/gui_app.py:175 | Parsing an accepted `MAP` command gives back exactly its key and its text, even when the text contains spaces. |
| Commands.Decimal | src/pc_app/gui_app.py:195 | The length is rendered as a non-empty string of digits with no leading zero. |
| Commands.DecimalRoundTrip | src/pc_app/gui_app.py:195 | The rendered digits read back as the length. |
| Commands.ImageHeader | src/pc_app/gui_app.py:195 | The header is `IMG `, then only decimal digits, then a newline. |
| Commands.ImageHeaderRoundTrip | src/pc_app/gui_app.py:195 | The `IMG` header announces exactly the buffer length it was built from. |
| Commands.DefaultImageHeader | src/pc_app/gui_app.py:191-195 | For the default 128x32 image the header is `IMG 512` followed by a newline. |

## Left out

- The display driver (Adafruit_SSD1306 over I2C, `Display::init`, `drawText`, `drawDemo`, `drawShapes`; src/src/display.h is interface only). Each `updateDisplay(text)` call is modelled as appending `text` to the `shown` sequence.
- The keypad library (`Keypad::getKey`, its debounce and the keymap wiring), the Bounce2 debouncer (`update`, `fell`) and the interrupt-driven `Encoder.h` used by src/src/main.cpp. These are foreign libraries, so their results are tick parameters.
- The pin reads `digitalRead` are parameters of `Encoder.Read` and of its constructor. The pin mode setup is not modelled.
- `delay(5)`, `Serial.begin` and the `Serial.println` diagnostics in src/code/main.cpp's `processEvent`. These are timing and serial output only, and the display labels are the same in both files.
- The stray text `if Eevent` in src/code/main.cpp's `processEvent` is not valid C++. The model follows src/src/main.cpp's switch, which src/code/main.cpp otherwise matches.
- The C++ `Event` is a struct `{type, key}`. It is modelled as a variant datatype with the key carried only by `Key`. The firmware only ever builds a key character with `Key`, so no behaviour is lost.
- src/src/config.h (pins, I2C address, keymap, `DEBOUNCE_TIME`, `SCREEN_WIDTH`/`SCREEN_HEIGHT`) is not modelled: none of its constants enters the model. The 32-slot capacity is `EVENT_QUEUE_SIZE` at src/src/main.cpp:16 and src/code/main.cpp:162. The 128x32 image size is the default `width=128, height=32` of `image_to_ssd1306_buffer` at src/pc_app/gui_app.py:29. The keymap only decides which characters the keypad reports, and those are a tick parameter here.
- Quadrature.Encoder.Read: `long pos` is an unbounded integer, so its overflow is not modelled. Nothing in the code relies on wrap-around.
- In the PC app, the model starts from an already thresholded pixel grid. Left out are the Tkinter UI, `SerialThread`, pyserial writes, `list_ports`, PIL image loading and greyscale conversion, the floating-point LANCZOS resize and the preview.
- The "Not connected" checks and error dialogs in `send_map` and `send_image`, the file dialog, and the write of the image bytes after the header. These are UI and I/O.
- Ssd1306Buffer.ImageToBuffer: when the height is not a multiple of 8, the rows past `8 * (height / 8)` are never read. The model reproduces this and states nothing about those rows.
- Commands.MapCommand: the text is a string of characters. Its UTF-8 encoding on the wire is not modelled.
