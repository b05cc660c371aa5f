/** The firmware's shared state: the five request flags that the serial
    interrupt raises and the main loop clears, as the fields of one object.
    Each method is proved against the value-level functions of SensorFlags. */
module SensorBoard {
  import opened SensorFlags

  class Board {
    var printAccelFlag: bool
    var printGyroFlag: bool
    var printMagFlag: bool
    var printTRhFlag: bool
    var printDistanceFlag: bool

    /** The flags as a value. */
    function State(): FlagState
      reads this
    {
      FlagState(printAccelFlag, printGyroFlag, printMagFlag, printTRhFlag, printDistanceFlag)
    }

    /** All five flags start out false. */
    constructor ()
      ensures State() == Idle
    {
      printAccelFlag, printGyroFlag, printMagFlag, printTRhFlag, printDistanceFlag
        := false, false, false, false, false;
    }

    /** The serial interrupt handler.  `read` is the outcome of reading one
        byte from the link: `None` when the read returned nothing. */
    method SerialInterrupt(read: Option<char>)
      modifies this
      ensures read.None? ==> State() == old(State())
      ensures read.Some? ==> State() == Raise(old(State()), read.value)
    {
      if read.Some? {
        match read.value
        case 'a' => printAccelFlag := true;
        case 'g' => printGyroFlag := true;
        case 'm' => printMagFlag := true;
        case 't' => printTRhFlag := true;
        case 'd' => printDistanceFlag := true;
        case _ =>
      }
    }

    /** One pass of the main loop: each pending category, in the fixed order,
        is serviced once (its line is printed) and its flag cleared.  `rd` is
        what the drivers report when asked; only the serviced categories'
        readings reach the output. */
    method Cycle(rd: Readings) returns (out: seq<Line>)
      modifies this
      ensures State() == Idle
      ensures out == Transcript(old(State()), rd)
    {
      ghost var f := State();
      ghost var served: seq<Category> := [];
      out := [];
      assert out == Reports(served, rd);
      if printAccelFlag {
        ReportsAppend(served, Accel, rd);
        out, served := out + [Report(Accel, rd)], served + [Accel];
        printAccelFlag := false;
      }
      assert served == Step(f, Accel);
      assert out == Reports(served, rd);
      if printGyroFlag {
        ReportsAppend(served, Gyro, rd);
        out, served := out + [Report(Gyro, rd)], served + [Gyro];
        printGyroFlag := false;
      }
      assert served == Step(f, Accel) + Step(f, Gyro);
      assert out == Reports(served, rd);
      if printMagFlag {
        ReportsAppend(served, Mag, rd);
        out, served := out + [Report(Mag, rd)], served + [Mag];
        printMagFlag := false;
      }
      assert served == Step(f, Accel) + Step(f, Gyro) + Step(f, Mag);
      assert out == Reports(served, rd);
      if printTRhFlag {
        ReportsAppend(served, TRh, rd);
        out, served := out + [Report(TRh, rd)], served + [TRh];
        printTRhFlag := false;
      }
      assert served == Step(f, Accel) + Step(f, Gyro) + Step(f, Mag) + Step(f, TRh);
      assert out == Reports(served, rd);
      if printDistanceFlag {
        ReportsAppend(served, Distance, rd);
        out, served := out + [Report(Distance, rd)], served + [Distance];
        printDistanceFlag := false;
      }
      assert served == Step(f, Accel) + Step(f, Gyro) + Step(f, Mag) + Step(f, TRh) + Step(f, Distance);
      assert out == Reports(served, rd);
      assert State() == Idle;
      assert served == ServiceOrder(f) by { ServiceOrderSteps(f); }
    }
  }
}
