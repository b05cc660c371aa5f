/** The request-flag state machine of the sensor-polling firmware, on values.
    Five pending-request flags, one per sensor category, are raised by single
    bytes arriving on the serial link and serviced, in a fixed order, by one
    cycle of the main loop.  The class in sensor_board.dfy holds the same five
    flags as mutable fields and is proved against the functions here. */
module SensorFlags {

  datatype Option<+T> = None | Some(value: T)

  /** The five sensor categories a key press can request. */
  datatype Category = Accel | Gyro | Mag | TRh | Distance

  /** The fixed order in which one cycle of the main loop tests the flags. */
  const DispatchOrder: seq<Category> := [Accel, Gyro, Mag, TRh, Distance]

  /** Position of a category in the dispatch order. */
  function Rank(k: Category): (r: nat)
    ensures r < |DispatchOrder| && DispatchOrder[r] == k
  {
    match k
    case Accel => 0
    case Gyro => 1
    case Mag => 2
    case TRh => 3
    case Distance => 4
  }

  /** The five flags: one boolean per category, all false at start-up. */
  datatype FlagState = FlagState(accel: bool, gyro: bool, mag: bool, tRh: bool, distance: bool)

  const Idle: FlagState := FlagState(false, false, false, false, false)

  predicate IsSet(f: FlagState, k: Category)
  {
    match k
    case Accel => f.accel
    case Gyro => f.gyro
    case Mag => f.mag
    case TRh => f.tRh
    case Distance => f.distance
  }

  /** Two flag states that agree on every category are the same state. */
  lemma FlagStateExtensional(f: FlagState, g: FlagState)
    requires forall k :: IsSet(f, k) == IsSet(g, k)
    ensures f == g
  {
    assert IsSet(f, Accel) == IsSet(g, Accel);
    assert IsSet(f, Gyro) == IsSet(g, Gyro);
    assert IsSet(f, Mag) == IsSet(g, Mag);
    assert IsSet(f, TRh) == IsSet(g, TRh);
    assert IsSet(f, Distance) == IsSet(g, Distance);
  }

  /** The flag state with the flag of `k` raised and every other flag as in `f`. */
  function Raised(f: FlagState, k: Category): (r: FlagState)
    ensures IsSet(r, k)
    ensures forall j :: j != k ==> IsSet(r, j) == IsSet(f, j)
  {
    match k
    case Accel => f.(accel := true)
    case Gyro => f.(gyro := true)
    case Mag => f.(mag := true)
    case TRh => f.(tRh := true)
    case Distance => f.(distance := true)
  }

  // ---------------------------------------------------------------------------
  // Receiving one byte

  /** The key that requests a category (case-sensitive, lower-case): the
      label of its case in the interrupt handler's switch. */
  function KeyOf(k: Category): (c: char)
    ensures 'a' <= c <= 'z'
  {
    match k
    case Accel => 'a'
    case Gyro => 'g'
    case Mag => 'm'
    case TRh => 't'
    case Distance => 'd'
  }

  /** The category a received byte requests, if any: the cases of the
      interrupt handler's switch.  It is the inverse of KeyOf. */
  function TriggerOf(c: char): (r: Option<Category>)
    ensures r.Some? ==> KeyOf(r.value) == c
    ensures r.None? ==> forall k :: KeyOf(k) != c
  {
    match c
    case 'a' => Some(Accel)
    case 'g' => Some(Gyro)
    case 'm' => Some(Mag)
    case 't' => Some(TRh)
    case 'd' => Some(Distance)
    case _ => None
  }

  /** Every category's key triggers that category and no other. */
  lemma KeyRoundTrip(k: Category)
    ensures TriggerOf(KeyOf(k)) == Some(k)
  {
    match k
    case Accel =>
    case Gyro =>
    case Mag =>
    case TRh =>
    case Distance =>
  }

  /** The flags after the interrupt handler processes one byte `c`: a trigger
      byte raises its own flag, every other byte changes nothing, and no flag
      is ever cleared. */
  function Raise(f: FlagState, c: char): (r: FlagState)
    ensures forall k :: IsSet(r, k) == (IsSet(f, k) || KeyOf(k) == c)
    ensures TriggerOf(c).None? ==> r == f
  {
    match TriggerOf(c)
    case None => f
    case Some(k) =>
      var r := Raised(f, k);
      assert forall j :: KeyOf(j) == c ==> j == k by {
        forall j | KeyOf(j) == c ensures j == k { KeyRoundTrip(j); }
      }
      r
  }

  /** Receiving the same byte twice in a row leaves the state reached by receiving it once. */
  lemma RaiseIdempotent(f: FlagState, c: char)
    ensures Raise(Raise(f, c), c) == Raise(f, c)
  {
    FlagStateExtensional(Raise(Raise(f, c), c), Raise(f, c));
  }

  /** Two bytes received in either order lead to the same state. */
  lemma RaiseCommutes(f: FlagState, c: char, d: char)
    ensures Raise(Raise(f, c), d) == Raise(Raise(f, d), c)
  {
    FlagStateExtensional(Raise(Raise(f, c), d), Raise(Raise(f, d), c));
  }

  /** The flags after a run of bytes received between two cycles, one
      interrupt per byte: a flag is pending afterwards exactly when it was
      pending before or its key occurs somewhere in the run. */
  function ReceiveAll(f: FlagState, cs: seq<char>): (r: FlagState)
    ensures forall k :: IsSet(r, k) <==> IsSet(f, k) || KeyOf(k) in cs
    decreases |cs|
  {
    if cs == [] then f
    else
      assert cs == [cs[0]] + cs[1..];
      ReceiveAll(Raise(f, cs[0]), cs[1..])
  }

  /** Coalescing: how often and in which order the bytes arrived does not
      matter, only which bytes arrived. */
  lemma ReceiveAllCoalesces(f: FlagState, cs: seq<char>, ds: seq<char>)
    requires forall c :: c in cs <==> c in ds
    ensures ReceiveAll(f, cs) == ReceiveAll(f, ds)
  {
    FlagStateExtensional(ReceiveAll(f, cs), ReceiveAll(f, ds));
  }

  // ---------------------------------------------------------------------------
  // One dispatch cycle

  /** Each category appears after all those that precede it in the dispatch order. */
  predicate InDispatchOrder(s: seq<Category>)
  {
    forall i, j :: 0 <= i < j < |s| ==> Rank(s[i]) < Rank(s[j])
  }

  /** The categories of `ks` whose flags are set in `f`, in the order of `ks`. */
  function PendingIn(ks: seq<Category>, f: FlagState): (r: seq<Category>)
    ensures forall k :: k in r <==> k in ks && IsSet(f, k)
    ensures InDispatchOrder(ks) ==> InDispatchOrder(r)
    decreases |ks|
  {
    if ks == [] then []
    else
      var head, rest := (if IsSet(f, ks[0]) then [ks[0]] else []), PendingIn(ks[1..], f);
      assert InDispatchOrder(ks) ==> InDispatchOrder(head + rest) by {
        if InDispatchOrder(ks) {
          assert InDispatchOrder(ks[1..]);
          forall i, j | 0 <= i < j < |head + rest|
            ensures Rank((head + rest)[i]) < Rank((head + rest)[j])
          {
            if i < |head| {
              var k := rest[j - |head|];
              assert k in ks[1..];
              var m :| 0 <= m < |ks[1..]| && ks[1..][m] == k;
              assert ks[m + 1] == k;
            }
          }
        }
      }
      head + rest
  }

  /** The dispatch order lists every category, each before the next in rank. */
  lemma DispatchOrderComplete()
    ensures InDispatchOrder(DispatchOrder)
    ensures forall k :: k in DispatchOrder
  {
    forall i | 0 <= i < |DispatchOrder| ensures Rank(DispatchOrder[i]) == i {
      if i == 0 {} else if i == 1 {} else if i == 2 {} else if i == 3 {} else {}
    }
    forall k ensures k in DispatchOrder {
      assert DispatchOrder[Rank(k)] == k;
    }
  }

  /** The categories one cycle services, starting from the flags `f`. */
  function ServiceOrder(f: FlagState): (r: seq<Category>)
    ensures forall k :: k in r <==> IsSet(f, k)
    ensures InDispatchOrder(r)
    ensures forall i, j :: 0 <= i < j < |r| ==> r[i] != r[j]
  {
    var r := PendingIn(DispatchOrder, f);
    assert forall k :: k in r <==> IsSet(f, k) by { DispatchOrderComplete(); }
    assert InDispatchOrder(r) by { DispatchOrderComplete(); }
    assert forall i, j :: 0 <= i < j < |r| ==> r[i] != r[j] by {
      forall i, j | 0 <= i < j < |r| ensures r[i] != r[j] { assert Rank(r[i]) < Rank(r[j]); }
    }
    r
  }

  /** The service order is the only sequence that holds exactly the pending
      categories in the dispatch order. */
  lemma ServiceOrderUnique(f: FlagState, s: seq<Category>)
    requires forall k :: k in s <==> IsSet(f, k)
    requires InDispatchOrder(s)
    ensures s == ServiceOrder(f)
  {
    OrderedWithSameElements(s, ServiceOrder(f));
  }

  /** Two sequences in dispatch order with the same elements are equal. */
  lemma {:induction false} OrderedWithSameElements(s: seq<Category>, t: seq<Category>)
    requires InDispatchOrder(s) && InDispatchOrder(t)
    requires forall k :: k in s <==> k in t
    ensures s == t
    decreases |s|
  {
    assert t != [] ==> t[0] in t;
    if s != [] {
      assert s[0] in t;
      assert t != [] && t[0] in t;
      assert t[0] in s;
      assert s[0] == t[0];
      forall k ensures k in s[1..] <==> k in t[1..] {
        if k in s[1..] {
          var a :| 1 <= a < |s| && s[a] == k;
          assert Rank(s[0]) < Rank(k);
          assert k in t;
        }
        if k in t[1..] {
          var b :| 1 <= b < |t| && t[b] == k;
          assert Rank(t[0]) < Rank(k);
          assert k in s;
        }
      }
      OrderedWithSameElements(s[1..], t[1..]);
      assert s == [s[0]] + s[1..] && t == [t[0]] + t[1..];
    }
  }

  /** What one guarded step of a cycle services: `k` if its flag is set. */
  function Step(f: FlagState, k: Category): (r: seq<Category>)
    ensures k in r <==> IsSet(f, k)
    ensures r == [] || r == [k]
  {
    if IsSet(f, k) then [k] else []
  }

  /** The five guarded steps of one cycle, concatenated. */
  function Steps(f: FlagState): (s: seq<Category>)
    ensures forall k :: k in s <==> IsSet(f, k)
  {
    var s := Step(f, Accel) + Step(f, Gyro) + Step(f, Mag) + Step(f, TRh) + Step(f, Distance);
    assert forall k :: k in s <==> IsSet(f, k) by {
      forall k ensures k in s <==> IsSet(f, k) {
        assert k in Step(f, k) <==> IsSet(f, k);
        assert forall j :: j != k ==> k !in Step(f, j);
      }
    }
    s
  }

  /** The five guarded steps service their categories in dispatch order. */
  lemma StepsInDispatchOrder(f: FlagState)
    ensures InDispatchOrder(Steps(f))
  {
    var s := Steps(f);
    forall i, j | 0 <= i < j < |s| ensures Rank(s[i]) < Rank(s[j]) {
    }
  }

  /** The service order spelled out as the five guarded steps of one cycle. */
  lemma ServiceOrderSteps(f: FlagState)
    ensures ServiceOrder(f)
         == Step(f, Accel) + Step(f, Gyro) + Step(f, Mag) + Step(f, TRh) + Step(f, Distance)
  {
    StepsInDispatchOrder(f);
    ServiceOrderUnique(f, Steps(f));
  }

  /** A category occurs `n` times in `s`. */
  function Occurrences(s: seq<Category>, k: Category): (n: nat)
    ensures n <= |s|
    ensures n == 0 <==> k !in s
    decreases |s|
  {
    if s == [] then 0 else (if s[0] == k then 1 else 0) + Occurrences(s[1..], k)
  }

  /** In dispatch order, every category occurs at most once. */
  lemma {:induction false} OrderedOccursOnce(s: seq<Category>, k: Category)
    requires InDispatchOrder(s)
    ensures Occurrences(s, k) == if k in s then 1 else 0
    decreases |s|
  {
    if s != [] {
      OrderedOccursOnce(s[1..], k);
    }
  }

  /** Key presses coalesce: however many times the key of `k` arrived since
      the last cycle, the next cycle services `k` exactly once; a category
      whose key did not arrive (and that was not pending) is not serviced. */
  lemma ServicedOncePerCycle(f: FlagState, cs: seq<char>, k: Category)
    ensures Occurrences(ServiceOrder(ReceiveAll(f, cs)), k)
         == if IsSet(f, k) || KeyOf(k) in cs then 1 else 0
  {
    OrderedOccursOnce(ServiceOrder(ReceiveAll(f, cs)), k);
  }

  // ---------------------------------------------------------------------------
  // What a serviced category prints

  /** One reading of a three-axis sensor, as the driver fills its int32 array. */
  datatype Axes = Axes(x: int, y: int, z: int)

  /** What the drivers would report if asked during this cycle.  The values are
      opaque: the drivers themselves are not part of this model. */
  datatype Readings = Readings(accel: Axes, gyro: Axes, mag: Axes, rangeStatus: int, rangeMm: nat)

  /** The distance field printed on the range-sensor line. */
  datatype DistanceShown = Millimetres(mm: nat) | Placeholder

  /** The status code with which the range driver reports success. */
  const ErrorNone: int := 0

  /** The numeric distance is shown exactly when the driver reports success;
      any other status shows the placeholder and no number. */
  function DistanceOutput(status: int, mm: nat): (r: DistanceShown)
    ensures r.Millimetres? <==> status == ErrorNone
    ensures r.Millimetres? ==> r.mm == mm
  {
    if status == ErrorNone then Millimetres(mm) else Placeholder
  }

  /** One printed line.  The pressure line's two float values are not modelled. */
  datatype Line =
    | AccelLine(acc: Axes)
    | GyroLine(rate: Axes)
    | MagLine(field: Axes)
    | PressureLine
    | DistanceLine(shown: DistanceShown)

  function CategoryOf(l: Line): Category
  {
    match l
    case AccelLine(_) => Accel
    case GyroLine(_) => Gyro
    case MagLine(_) => Mag
    case PressureLine => TRh
    case DistanceLine(_) => Distance
  }

  /** The line printed when category `k` is serviced: it is a line of that
      category, and carries that category's own reading. */
  function Report(k: Category, rd: Readings): (l: Line)
    ensures CategoryOf(l) == k
    ensures l.AccelLine? ==> l.acc == rd.accel
    ensures l.GyroLine? ==> l.rate == rd.gyro
    ensures l.MagLine? ==> l.field == rd.mag
    ensures l.DistanceLine? ==> (l.shown.Millimetres? <==> rd.rangeStatus == ErrorNone)
    ensures l.DistanceLine? && l.shown.Millimetres? ==> l.shown.mm == rd.rangeMm
  {
    match k
    case Accel => AccelLine(rd.accel)
    case Gyro => GyroLine(rd.gyro)
    case Mag => MagLine(rd.mag)
    case TRh => PressureLine
    case Distance => DistanceLine(DistanceOutput(rd.rangeStatus, rd.rangeMm))
  }

  /** The lines printed when the categories `s` are serviced in turn. */
  function Reports(s: seq<Category>, rd: Readings): seq<Line>
  {
    seq(|s|, i requires 0 <= i < |s| => Report(s[i], rd))
  }

  /** Servicing one more category prints one more line at the end. */
  lemma ReportsAppend(s: seq<Category>, k: Category, rd: Readings)
    ensures Reports(s + [k], rd) == Reports(s, rd) + [Report(k, rd)]
  {
  }

  /** Servicing two categories in turn prints their two lines in that order. */
  lemma ReportsPair(j: Category, k: Category, rd: Readings)
    ensures Reports([j, k], rd) == [Report(j, rd), Report(k, rd)]
  {
  }

  /** The lines one cycle prints, starting from the flags `f`: one line per
      pending category, in dispatch order, and nothing else. */
  function Transcript(f: FlagState, rd: Readings): (t: seq<Line>)
    ensures |t| == |ServiceOrder(f)|
    ensures forall i :: 0 <= i < |t| ==> CategoryOf(t[i]) == ServiceOrder(f)[i]
  {
    var s := ServiceOrder(f);
    var t := Reports(s, rd);
    assert forall i :: 0 <= i < |t| ==> CategoryOf(t[i]) == s[i] by {
      forall i | 0 <= i < |t| ensures CategoryOf(t[i]) == s[i] {
        assert t[i] == Report(s[i], rd);
      }
    }
    t
  }

  /** With no flag pending a cycle services nothing and prints nothing. */
  lemma IdleCycleIsQuiet(rd: Readings)
    ensures ServiceOrder(Idle) == []
    ensures Transcript(Idle, rd) == []
  {
    ServiceOrderSteps(Idle);
  }

  /** The transcript of a cycle, given any sequence that holds exactly the
      pending categories in dispatch order. */
  lemma TranscriptFromOrder(f: FlagState, s: seq<Category>, rd: Readings)
    requires forall k :: k in s <==> IsSet(f, k)
    requires InDispatchOrder(s)
    ensures Transcript(f, rd) == Reports(s, rd)
  {
    ServiceOrderUnique(f, s);
  }

  /** A single `a` from rest raises only the acceleration flag. */
  lemma AccelKeyFlags()
    ensures ReceiveAll(Idle, ['a']) == FlagState(true, false, false, false, false)
  {
    var f := FlagState(true, false, false, false, false);
    forall k ensures IsSet(ReceiveAll(Idle, ['a']), k) == IsSet(f, k) {
      assert KeyOf(k) in ['a'] <==> KeyOf(k) == 'a';
    }
    FlagStateExtensional(ReceiveAll(Idle, ['a']), f);
  }

  /** From only the acceleration flag, a cycle prints only the acceleration line. */
  lemma AccelOnlyTranscript(f: FlagState, rd: Readings)
    requires f.accel && !f.gyro && !f.mag && !f.tRh && !f.distance
    ensures Transcript(f, rd) == [AccelLine(rd.accel)]
  {
    var s := [Accel];
    forall k ensures k in s <==> IsSet(f, k) {
      assert k in s <==> k == Accel;
    }
    TranscriptFromOrder(f, s, rd);
    assert Reports(s, rd) == [Report(Accel, rd)];
  }

  /** A single `a` from rest gives exactly the acceleration line. */
  lemma AccelKeyScenario(rd: Readings)
    ensures Transcript(ReceiveAll(Idle, ['a']), rd) == [AccelLine(rd.accel)]
  {
    AccelKeyFlags();
    AccelOnlyTranscript(ReceiveAll(Idle, ['a']), rd);
  }

  /** `m` then `a` from rest raise the magnetometer and acceleration flags. */
  lemma AccelAndMagFlags()
    ensures ReceiveAll(Idle, ['m', 'a']) == FlagState(true, false, true, false, false)
  {
    var f := FlagState(true, false, true, false, false);
    forall k ensures IsSet(ReceiveAll(Idle, ['m', 'a']), k) == IsSet(f, k) {
      assert KeyOf(k) in ['m', 'a'] <==> KeyOf(k) == 'm' || KeyOf(k) == 'a';
    }
    FlagStateExtensional(ReceiveAll(Idle, ['m', 'a']), f);
  }

  /** From the acceleration and magnetometer flags, a cycle prints the
      acceleration line and then the magnetometer line. */
  lemma AccelMagTranscript(f: FlagState, rd: Readings)
    requires f.accel && !f.gyro && f.mag && !f.tRh && !f.distance
    ensures Transcript(f, rd) == [AccelLine(rd.accel), MagLine(rd.mag)]
  {
    var s := [Accel, Mag];
    assert InDispatchOrder(s);
    forall k ensures k in s <==> IsSet(f, k) {
      assert k in s <==> k == Accel || k == Mag;
    }
    TranscriptFromOrder(f, s, rd);
    ReportsPair(Accel, Mag, rd);
  }

  /** `m` then `a` from rest: the acceleration line still comes before the
      magnetometer line, because the dispatch order is fixed. */
  lemma AccelAndMagScenario(rd: Readings)
    ensures Transcript(ReceiveAll(Idle, ['m', 'a']), rd) == [AccelLine(rd.accel), MagLine(rd.mag)]
  {
    AccelAndMagFlags();
    AccelMagTranscript(ReceiveAll(Idle, ['m', 'a']), rd);
  }
}
