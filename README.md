# Sensor polling firmware: request flags and dispatch cycle

The firmware polls five I2C sensors on an embedded board and prints a reading
over the serial link when the user presses a key. Its only logic of its own is
a small state machine of five request flags:

- acceleration, angular rate (gyro), magnetic field, temperature/pressure and
  distance each have one `volatile bool` flag, all false at start-up;
- the serial interrupt handler reads one byte and raises the flag of `a`, `g`,
  `m`, `t` or `d`; every other byte is ignored;
- each pass of the main loop tests the flags in the fixed order acceleration,
  gyro, magnetometer, temperature/pressure, distance; for each set flag it
  prints that sensor's line once and then clears the flag;
- the range sensor's line shows the distance in millimetres when the driver
  reports success, and the `--` placeholder otherwise.

The project has two modules:

- `SensorFlags` (sensor_flags.dfy) describes the flags as a value
  (`FlagState`). It defines what one received byte does (`TriggerOf`, `Raise`)
  and what a run of bytes does (`ReceiveAll`). It defines which categories one
  cycle services and in which order (`ServiceOrder`, built by the recursive
  `PendingIn` over `DispatchOrder`), and which lines it prints (`Report`,
  `Transcript`, `DistanceOutput`). The properties are proved here: coalescing
  of repeated keys, the fixed service order, each category at most once, the
  idle cycle.
- `SensorBoard` (sensor_board.dfy) holds the five flags as mutable fields of a
  class `Board`, as the source's globals are. `SerialInterrupt` is the
  interrupt handler. `Cycle` is the body of the main loop: five guarded
  steps, each of which prints one line and clears one flag, as in the source.
  Both methods are proved against the functions of `SensorFlags`.

Sensor reads are not modelled. `Cycle` takes a `Readings` value holding what
each driver would report this cycle, and only the serviced categories'
readings reach the output. The success code of the range driver
(`VL53L0X_ERROR_NONE`) is declared in VL53L0X.h, which is not part of this
model. It is taken to be 0, as in ST's VL53L0X API. The model relies only on
whether the status equals it.

## Model

| member | source | states |
|---|---|---|
| SensorFlags.Rank | main.cpp:127-146 | each category has one position in the fixed dispatch order, and that position holds the category |
| SensorFlags.Raised | main.cpp:31-45 | raising a category's flag sets that flag and leaves the other four as they were |
| SensorFlags.KeyOf | main.cpp:31-43 | each category's key, the label of its case in the handler's switch, is a single lower-case letter; `KeyRoundTrip` shows that it triggers exactly that category |
| SensorFlags.TriggerOf | main.cpp:30-46 | a byte triggers a category only if it is that category's key; a byte that is no category's key triggers nothing |
| SensorFlags.KeyRoundTrip | main.cpp:30-46 | each category's key (`a`, `g`, `m`, `t`, `d`) triggers exactly that category |
| SensorFlags.Raise | main.cpp:27-48 | after one byte, a flag is set iff it was set before or the byte is its key: a trigger sets only its own flag, any other byte changes nothing, no flag is cleared |
| SensorFlags.RaiseIdempotent | main.cpp:31-45 | receiving the same byte twice gives the same flags as receiving it once |
| SensorFlags.RaiseCommutes | main.cpp:27-48 | two bytes received in either order give the same flags |
| SensorFlags.ReceiveAll | main.cpp:27-48 | after a run of bytes, one interrupt per byte, a flag is set iff it was set before or its key occurs in the run |
| SensorFlags.ReceiveAllCoalesces | main.cpp:27-48 | two runs containing the same bytes, in any order and with any repetition, give the same flags |
| SensorFlags.PendingIn | main.cpp:127-146 | testing a list of categories keeps exactly the listed ones whose flags are set, and keeps them in dispatch order when the list is in dispatch order |
| SensorFlags.ServiceOrder | main.cpp:127-146 | one cycle services exactly the categories whose flags were set, in dispatch order, each at most once |
| SensorFlags.ServiceOrderUnique | main.cpp:127-146 | any sequence holding exactly the pending categories in dispatch order is the service order |
| SensorFlags.Step | main.cpp:127-130 | one guarded step services its own category, once, iff that category's flag is set, and services nothing else |
| SensorFlags.Steps | main.cpp:127-146 | the five guarded steps together service exactly the categories whose flags are set |
| SensorFlags.StepsInDispatchOrder | main.cpp:127-146 | the five guarded steps service their categories in dispatch order |
| SensorFlags.ServiceOrderSteps | main.cpp:127-146 | the service order is the concatenation of the five guarded steps, accel, gyro, mag, t/rh, distance |
| SensorFlags.ServicedOncePerCycle | main.cpp:127-146 | for any run of bytes received by the handler (main.cpp lines 27-48), however often a key arrived since the last cycle, the next cycle services its category exactly once; a category neither pending nor keyed is not serviced |
| SensorFlags.DistanceOutput | main.cpp:82-87 | the distance is shown as a number, equal to the reading, exactly when the status is the driver's success code; otherwise the placeholder is shown |
| SensorFlags.Report | main.cpp:51-88 | servicing a category prints a line of that category carrying that sensor's own reading; the distance line is numeric iff the range status is success, and its number is then the range reading |
| SensorFlags.Transcript | main.cpp:127-146 | a cycle prints one line per serviced category, the i-th line belonging to the i-th category of the service order |
| SensorFlags.TranscriptFromOrder | main.cpp:127-146 | any sequence holding exactly the pending categories in dispatch order gives the lines of the cycle |
| SensorFlags.IdleCycleIsQuiet | main.cpp:126-148 | with no flag set a cycle services nothing and prints nothing |
| SensorFlags.AccelKeyFlags | main.cpp:27-48 | a single `a` from rest raises only the acceleration flag |
| SensorFlags.AccelOnlyTranscript | main.cpp:127-130 | with only the acceleration flag set, a cycle prints exactly the acceleration line |
| SensorFlags.AccelKeyScenario | main.cpp:127-130 | a single `a` from rest makes the next cycle print exactly the acceleration line |
| SensorFlags.AccelAndMagFlags | main.cpp:27-48 | `m` then `a` from rest raise exactly the magnetometer and acceleration flags |
| SensorFlags.AccelMagTranscript | main.cpp:127-138 | with only the acceleration and magnetometer flags set, a cycle prints the acceleration line and then the magnetometer line |
| SensorFlags.AccelAndMagScenario | main.cpp:127-138 | `m` then `a` from rest makes the next cycle print the acceleration line and then the magnetometer line |
| SensorBoard.Board.constructor | main.cpp:20-24 | all five flags start false |
| SensorBoard.Board.SerialInterrupt | main.cpp:27-48 | a byte read updates the flags as `Raise` says; a read that returns nothing changes nothing |
| SensorBoard.Board.Cycle | main.cpp:127-146 | the printed lines are the transcript of the flags at the start of the cycle, and afterwards every flag is false |

## Left out

- Sensor construction, `init`, `enable_*` and `read_id` calls, the startup banner, and all bus and register behaviour: these are vendor driver libraries that are not part of this model.
- Sensor values: the axis readings, the range status and the distance reading are opaque inputs of `Cycle` (`Readings`). The model does not capture that only the serviced sensors are read, or that a read happens between the flag test and the flag clear.
- The temperature/pressure line's float values, including the HTS221 readings that are read and then overwritten before printing: floating point from foreign reads. `PressureLine` carries no values.
- `printf` formatting (field widths, `%ld`, `%.2f`, line endings): only which line is printed, with which reading, and which distance variant is chosen, are modelled.
- Serial set-up (`pc.baud`, `pc.attach`): I/O configuration. Bytes are modelled as Dafny `char`; only equality with the five keys matters.
- The 500 ms `wait_us` delay and the endless `while (1)`: timing and non-termination. One pass of the loop is the method `Cycle`.
- The interleaving of the interrupt with the loop through the `volatile` globals, such as a key arriving between a print and the flag clear and being lost: concurrency. Receiving and cycling are modelled as atomic, sequential steps.
