/** One row of the recipe editor's step table: how a step is rendered into the
    three cell widgets of its row (temperature combo box, fan-speed combo box,
    time editor) and how the row is read back into a step. */
module StepWidgets {
  import opened Wrappers

  /** A step as the recipe dictionary holds it. `targetTemp` and `cooling` are
      optional keys; `fanSpeed` and `sectionTime` are always present. */
  datatype StepEntry = StepEntry(targetTemp: Option<int>, cooling: Option<bool>,
                                 fanSpeed: int, sectionTime: int)

  /** The step inserted by "insert below" and used for a new recipe. */
  const DefaultStep := StepEntry(Some(150), None, 5, 0)

  /** The shape every step read back from the table has: exactly one of the
      keys `targetTemp` and `cooling`, and `cooling` only ever set to true. */
  predicate HasOneKind(s: StepEntry) {
    (s.targetTemp.Some? && s.cooling.None?) || (s.targetTemp.None? && s.cooling == Some(true))
  }

  /** A step that reads back from its rendered row exactly as it is. */
  predicate Canonical(s: StepEntry) {
    HasOneKind(s) && 0 <= s.sectionTime < 3600
  }

  /** A step the row renderer accepts: outside these bounds `list.index`
      raises while the row is being built. */
  predicate Renderable(s: StepEntry) {
    (s.targetTemp.Some? ==> 150 <= s.targetTemp.value <= 559) && 1 <= s.fanSpeed <= 9
  }

  /** An entry of the temperature combo box. `TempText(v)` is the text `str(v)`. */
  datatype TempItem = CoolingItem | Separator | TempText(value: int)

  /** A combo box: its entries and the index of the selected one. */
  datatype Combo<T> = Combo(items: seq<T>, index: int)

  /** A time editor's value (a QTime). */
  datatype ClockTime = ClockTime(hour: int, minute: int, second: int)

  /** A table row: `Blank` once the row is inserted and before its widgets are
      set; `Filled` with the state of its three value widgets. */
  datatype Row = Blank | Filled(temp: Combo<TempItem>, fan: Combo<int>, time: ClockTime)

  datatype RenderError = TemperatureNotOffered(temp: int) | CoolingNotOffered | FanSpeedNotOffered(speed: int)

  datatype ReadError = MissingWidget | NotAnInteger

  /** Python's `list.index`: the first position of `x`, or None where it raises. */
  function IndexOf<T(==)>(xs: seq<T>, x: T): (r: Option<nat>)
    ensures r.Some? ==> r.value < |xs| && xs[r.value] == x
    ensures r.Some? ==> forall j :: 0 <= j < r.value ==> xs[j] != x
    ensures r.None? <==> x !in xs
  {
    if xs == [] then None
    else if xs[0] == x then Some(0)
    else match IndexOf(xs[1..], x)
      case None => None
      case Some(i) => Some(i + 1)
  }

  /** QComboBox.insertItem: an index at or past the end appends. */
  function InsertAt<T>(xs: seq<T>, k: nat, x: T): (r: seq<T>)
  {
    if k <= |xs| then xs[..k] + [x] + xs[k..] else xs + [x]
  }

  /** The layout of the temperature choices: "Cooling", then the 10-degree
      grid 150, 160, ..., 550. */
  predicate IsTargetTempChoices(choices: seq<TempItem>) {
    |choices| == 42 && choices[0] == CoolingItem &&
    forall i :: 1 <= i < 42 ==> choices[i] == TempText(140 + 10 * i)
  }

  /** `["Cooling"] + [str(x) for x in range(150, 551, 10)]`. */
  function TargetTempChoices(): (r: seq<TempItem>)
    ensures IsTargetTempChoices(r)
  {
    [CoolingItem, TempText(150), TempText(160), TempText(170), TempText(180), TempText(190),
     TempText(200), TempText(210), TempText(220), TempText(230), TempText(240), TempText(250),
     TempText(260), TempText(270), TempText(280), TempText(290), TempText(300), TempText(310),
     TempText(320), TempText(330), TempText(340), TempText(350), TempText(360), TempText(370),
     TempText(380), TempText(390), TempText(400), TempText(410), TempText(420), TempText(430),
     TempText(440), TempText(450), TempText(460), TempText(470), TempText(480), TempText(490),
     TempText(500), TempText(510), TempText(520), TempText(530), TempText(540), TempText(550)]
  }

  /** The temperature combo box's entries after `addItems(choices)` and
      `insertSeparator(1)`. */
  function ComboItems(choices: seq<TempItem>): seq<TempItem>
  {
    InsertAt(choices, 1, Separator)
  }

  /** `[str(x) for x in range(1, 10)]`; entry `k` stands for the text `str(k)`. */
  function FanSpeedChoices(): (r: seq<int>)
    ensures |r| == 9 && forall i :: 0 <= i < 9 ==> r[i] == i + 1
  {
    [1, 2, 3, 4, 5, 6, 7, 8, 9]
  }

  /** A temperature on the combo box's 10-degree grid. */
  predicate OnGrid(t: int) {
    150 <= t <= 550 && t % 10 == 0
  }

  /** The temperature combo box for a step, built from the choices list: the
      selected entry, and where an off-grid temperature gets its own entry. */
  function RenderTemperature(choices: seq<TempItem>, s: StepEntry): Result<Combo<TempItem>, RenderError>
  {
    if s.targetTemp.Some? then
      var t := s.targetTemp.value;
      if TempText(t) in choices then
        Ok(Combo(ComboItems(choices), IndexOf(choices, TempText(t)).value + 1))
      else
        var rounded := t - t % 10;
        match IndexOf(choices, TempText(rounded))
        case None => Err(TemperatureNotOffered(t))
        case Some(i) => Ok(Combo(InsertAt(ComboItems(choices), i + 2, TempText(t)), i + 2))
    else if s.cooling.Some? then
      match IndexOf(choices, CoolingItem)
      case Some(i) => Ok(Combo(ComboItems(choices), i))
      case None => Err(CoolingNotOffered)
    else
      // neither key: the combo keeps the index addItems gave it
      Ok(Combo(ComboItems(choices), 0))
  }

  /** One character of a two-digit field. */
  function DigitChar(d: int): char
    requires 0 <= d <= 9
  {
    (48 + d) as char
  }

  function DigitValue(c: char): Option<int>
  {
    if '0' <= c <= '9' then Some(c as int - 48) else None
  }

  /** A zero-padded two-digit field. */
  function TwoDigits(n: int): string
    requires 0 <= n <= 99
  {
    [DigitChar(n / 10), DigitChar(n % 10)]
  }

  /** `time.strftime("%M:%S", time.gmtime(seconds))`: the hour is dropped. */
  function MinSecText(seconds: int): string
  {
    var inHour := seconds % 3600;
    TwoDigits(inHour / 60) + ":" + TwoDigits(inHour % 60)
  }

  /** `QTime.fromString(text, "mm:ss")`; None is the invalid QTime. */
  function TimeFromText(text: string): Option<ClockTime>
  {
    if |text| == 5 && text[2] == ':' then
      match (DigitValue(text[0]), DigitValue(text[1]), DigitValue(text[3]), DigitValue(text[4]))
      case (Some(m1), Some(m0), Some(s1), Some(s0)) =>
        if 10 * m1 + m0 < 60 && 10 * s1 + s0 < 60 then Some(ClockTime(0, 10 * m1 + m0, 10 * s1 + s0))
        else None
      case _ => None
    else None
  }

  /** `QTime(0, 0, 0).secsTo(t)`. */
  function SecondsSinceMidnight(t: ClockTime): int
  {
    3600 * t.hour + 60 * t.minute + t.second
  }

  /** The time editor for a step. An invalid QTime is ignored by `setTime`,
      which leaves the editor at 00:00:00. */
  function RenderTime(seconds: int): ClockTime
  {
    match TimeFromText(MinSecText(seconds))
    case Some(t) => t
    case None => ClockTime(0, 0, 0)
  }

  /** The widgets of one row, in the order the source builds them:
      temperature, time, fan speed. */
  function RenderRow(s: StepEntry): Result<Row, RenderError>
  {
    match RenderTemperature(TargetTempChoices(), s)
    case Err(e) => Err(e)
    case Ok(temp) =>
      var time := RenderTime(s.sectionTime);
      match IndexOf(FanSpeedChoices(), s.fanSpeed)
      case None => Err(FanSpeedNotOffered(s.fanSpeed))
      case Some(i) => Ok(Filled(temp, Combo(FanSpeedChoices(), i), time))
  }

  /** The step one row reads back as: time, then fan speed, then temperature
      or cooling. A missing widget or a non-numeric text is an error. */
  function ReadRow(r: Row): Result<StepEntry, ReadError>
  {
    match r
    case Blank => Err(MissingWidget)
    case Filled(temp, fan, time) =>
      var sectionTime := SecondsSinceMidnight(time);
      if !(0 <= fan.index < |fan.items|) then Err(NotAnInteger)
      else
        var fanSpeed := fan.items[fan.index];
        if !(0 <= temp.index < |temp.items|) then Err(NotAnInteger)
        else match temp.items[temp.index]
          case CoolingItem => Ok(StepEntry(None, Some(true), fanSpeed, sectionTime))
          case TempText(v) => Ok(StepEntry(Some(v), None, fanSpeed, sectionTime))
          case Separator => Err(NotAnInteger)
  }

  /** The step a rendered row reads back as: the temperature if the step had
      one, cooling otherwise, and the time within the hour. */
  function Normalized(s: StepEntry): StepEntry
  {
    StepEntry(s.targetTemp, if s.targetTemp.Some? then None else Some(true),
              s.fanSpeed, s.sectionTime % 3600)
  }

  /** A row whose widgets are in a state the table can read: every entry of the
      temperature combo box is a temperature the renderer accepts, the selected
      one is not the separator, the fan combo box is the standard one and the
      time editor shows minutes and seconds. Any selection the user makes in
      the widgets keeps a row well-formed. */
  predicate WellFormedRow(r: Row) {
    r.Filled? &&
    0 <= r.temp.index < |r.temp.items| && r.temp.items[r.temp.index] != Separator &&
    (forall j :: 0 <= j < |r.temp.items| && r.temp.items[j].TempText? ==>
       150 <= r.temp.items[j].value <= 559) &&
    r.fan.items == FanSpeedChoices() && 0 <= r.fan.index < 9 &&
    r.time.hour == 0 && 0 <= r.time.minute < 60 && 0 <= r.time.second < 60
  }

  // ---------------------------------------------------------------------------
  // Index arithmetic of the temperature combo box

  /** Rounding down to the grid, `t - t % 10`, is ten times `t / 10`. */
  lemma RoundDown(t: int)
    ensures t - t % 10 == 10 * (t / 10)
    ensures (10 * (t / 10)) % 10 == 0 && (10 * (t / 10)) / 10 == t / 10
  {
  }

  lemma TimesTen(m: int)
    ensures (10 * m) % 10 == 0 && (10 * m) / 10 == m
  {
  }

  /** `list.index` finds a position that holds `x` and has no `x` before it. */
  lemma IndexOfFirst<T>(xs: seq<T>, x: T, k: nat)
    requires k < |xs| && xs[k] == x
    requires forall j :: 0 <= j < k ==> xs[j] != x
    ensures IndexOf(xs, x) == Some(k)
  {
  }

  /** A grid temperature t is choice number t / 10 - 14, i.e. (t - 150) / 10 + 1. */
  lemma GridIndex(choices: seq<TempItem>, t: int)
    requires IsTargetTempChoices(choices) && OnGrid(t)
    ensures IndexOf(choices, TempText(t)) == Some(t / 10 - 14)
  {
    RoundDown(t);
    var k := t / 10 - 14;
    assert 140 + 10 * k == t;
    forall j | 0 <= j < k ensures choices[j] != TempText(t) {
      if j > 0 { assert choices[j] == TempText(140 + 10 * j); }
    }
    IndexOfFirst(choices, TempText(t), k);
  }

  /** A temperature appears among the choices exactly when it is on the grid. */
  lemma {:induction false} OfferedIffOnGrid(choices: seq<TempItem>, t: int)
    requires IsTargetTempChoices(choices)
    ensures TempText(t) in choices <==> OnGrid(t)
  {
    if TempText(t) in choices {
      var i :| 0 <= i < |choices| && choices[i] == TempText(t);
      assert i >= 1;
      assert t == 10 * (14 + i);
      TimesTen(14 + i);
    } else if OnGrid(t) {
      GridIndex(choices, t);
    }
  }

  /** The combo box holds "Cooling", the separator, then the grid. */
  lemma ComboLayout(choices: seq<TempItem>)
    requires IsTargetTempChoices(choices)
    ensures var items := ComboItems(choices);
      |items| == 43 && items[0] == CoolingItem && items[1] == Separator &&
      forall k :: 2 <= k < 43 ==> items[k] == TempText(130 + 10 * k)
  {
    var items := ComboItems(choices);
    forall k | 2 <= k < 43 ensures items[k] == TempText(130 + 10 * k) {
      assert items[k] == choices[k - 1];
    }
  }

  /** The inserted entry sits at index k and the others keep their order. */
  lemma InsertAtLayout<T>(xs: seq<T>, k: nat, x: T)
    requires k <= |xs|
    ensures var r := InsertAt(xs, k, x);
      |r| == |xs| + 1 && r[k] == x &&
      (forall j :: 0 <= j < k ==> r[j] == xs[j]) &&
      (forall j :: k < j < |r| ==> r[j] == xs[j - 1])
  {
  }

  /** A step without a temperature selects "Cooling", at index 0. */
  lemma CoolingSelected(choices: seq<TempItem>, s: StepEntry)
    requires IsTargetTempChoices(choices) && s.targetTemp.None?
    ensures RenderTemperature(choices, s) == Ok(Combo(ComboItems(choices), 0))
  {
    IndexOfFirst(choices, CoolingItem, 0);
  }

  /** A grid temperature t is selected at its choice index + 1, t / 10 - 13:
      the separator inserted at index 1 shifts every grid entry by one. */
  lemma {:induction false} GridSelected(choices: seq<TempItem>, s: StepEntry)
    requires IsTargetTempChoices(choices) && s.targetTemp.Some? && OnGrid(s.targetTemp.value)
    ensures var t := s.targetTemp.value;
      RenderTemperature(choices, s) == Ok(Combo(ComboItems(choices), t / 10 - 13)) &&
      ComboItems(choices)[t / 10 - 13] == TempText(t)
  {
    var t := s.targetTemp.value;
    OfferedIffOnGrid(choices, t);
    GridIndex(choices, t);
    RoundDown(t);
    ComboLayout(choices);
    assert ComboItems(choices)[t / 10 - 13] == TempText(130 + 10 * (t / 10 - 13));
  }

  /** An off-grid temperature t gets a new entry directly after its
      rounded-down grid value `t - t % 10`, at index t / 10 - 12, and that
      entry is selected. */
  lemma {:induction false} OffGridSelected(choices: seq<TempItem>, s: StepEntry)
    requires IsTargetTempChoices(choices) && s.targetTemp.Some? && !OnGrid(s.targetTemp.value)
    requires 150 <= s.targetTemp.value <= 559
    ensures var t := s.targetTemp.value;
      var k := t / 10 - 12;
      RenderTemperature(choices, s) == Ok(Combo(InsertAt(ComboItems(choices), k, TempText(t)), k)) &&
      3 <= k <= 43 && ComboItems(choices)[k - 1] == TempText(t - t % 10)
  {
    var t := s.targetTemp.value;
    var rounded := t - t % 10;
    RoundDown(t);
    assert OnGrid(rounded);
    OfferedIffOnGrid(choices, t);
    GridIndex(choices, rounded);
    ComboLayout(choices);
    assert ComboItems(choices)[t / 10 - 13] == TempText(130 + 10 * (t / 10 - 13));
  }

  /** Rendering the temperature of a renderable step succeeds and selects an
      entry of the combo box that is not the separator: the step's own
      temperature, or "Cooling". */
  lemma {:induction false} RenderTemperatureOk(choices: seq<TempItem>, s: StepEntry)
    requires IsTargetTempChoices(choices) && Renderable(s)
    ensures RenderTemperature(choices, s).Ok?
    ensures var c := RenderTemperature(choices, s).value;
      0 <= c.index < |c.items| &&
      c.items[c.index] == (if s.targetTemp.Some? then TempText(s.targetTemp.value) else CoolingItem) &&
      forall j :: 0 <= j < |c.items| && c.items[j].TempText? ==> 150 <= c.items[j].value <= 559
  {
    ComboLayout(choices);
    var base := ComboItems(choices);
    if s.targetTemp.None? {
      CoolingSelected(choices, s);
    } else if OnGrid(s.targetTemp.value) {
      GridSelected(choices, s);
    } else {
      OffGridSelected(choices, s);
      var t := s.targetTemp.value;
      var k := t / 10 - 12;
      var c := RenderTemperature(choices, s).value;
      InsertAtLayout(base, k, TempText(t));
      forall j | 0 <= j < |c.items| && c.items[j].TempText?
        ensures 150 <= c.items[j].value <= 559
      {
        if j < k {
          assert c.items[j] == base[j];
        } else if j > k {
          assert c.items[j] == base[j - 1];
        }
      }
    }
  }

  /** A temperature outside 150..559 is refused: neither it nor its rounded-down
      value is among the choices. */
  lemma {:induction false} RenderTemperatureRefuses(choices: seq<TempItem>, s: StepEntry)
    requires IsTargetTempChoices(choices) && s.targetTemp.Some?
    requires !(150 <= s.targetTemp.value <= 559)
    ensures RenderTemperature(choices, s) == Err(TemperatureNotOffered(s.targetTemp.value))
  {
    var t := s.targetTemp.value;
    RoundDown(t);
    OfferedIffOnGrid(choices, t);
    OfferedIffOnGrid(choices, t - t % 10);
  }

  // ---------------------------------------------------------------------------
  // Time editor

  lemma TwoDigitsRead(n: int)
    requires 0 <= n <= 99
    ensures DigitValue(TwoDigits(n)[0]) == Some(n / 10) && DigitValue(TwoDigits(n)[1]) == Some(n % 10)
    ensures 10 * (n / 10) + n % 10 == n
  {
  }

  /** `mm:ss` text of a minute and a second parses back to that time. */
  lemma {:induction false} ClockTextRoundTrip(m: int, sec: int)
    requires 0 <= m < 60 && 0 <= sec < 60
    ensures TimeFromText(TwoDigits(m) + ":" + TwoDigits(sec)) == Some(ClockTime(0, m, sec))
  {
    var text := TwoDigits(m) + ":" + TwoDigits(sec);
    TwoDigitsRead(m);
    TwoDigitsRead(sec);
    assert text[0] == TwoDigits(m)[0] && text[1] == TwoDigits(m)[1] && text[2] == ':';
    assert text[3] == TwoDigits(sec)[0] && text[4] == TwoDigits(sec)[1];
  }

  /** Division by 60 has a unique quotient and remainder. */
  lemma DivMod60(a: int, q: int, r: int)
    requires a == 60 * q + r && 0 <= r < 60
    ensures a / 60 == q && a % 60 == r
  {
  }

  lemma SplitHour(seconds: int)
    ensures var inHour := seconds % 3600;
      0 <= inHour / 60 < 60 && 0 <= inHour % 60 < 60 &&
      60 * (inHour / 60) + inHour % 60 == inHour && inHour % 60 == seconds % 60
  {
    var inHour := seconds % 3600;
    var q := seconds / 3600;
    var m, r := inHour / 60, inHour % 60;
    assert 0 <= inHour < 3600 && seconds == 3600 * q + inHour;
    assert inHour == 60 * m + r && 0 <= r < 60;
    DivMod60(seconds, 60 * q + m, r);
  }

  /** The `%M:%S` text parses back as the minutes and seconds within the hour,
      so the time editor holds the step's time modulo one hour. */
  lemma {:induction false} MinSecTextRoundTrip(seconds: int)
    ensures TimeFromText(MinSecText(seconds)) == Some(ClockTime(0, seconds % 3600 / 60, seconds % 60))
    ensures SecondsSinceMidnight(RenderTime(seconds)) == seconds % 3600
  {
    var inHour := seconds % 3600;
    SplitHour(seconds);
    ClockTextRoundTrip(inHour / 60, inHour % 60);
  }

  // ---------------------------------------------------------------------------
  // Render and read-back

  /** Rendering succeeds exactly on the steps whose temperature and fan speed
      the combo boxes offer. */
  lemma {:induction false} RenderSucceedsIff(s: StepEntry)
    ensures RenderRow(s).Ok? <==> Renderable(s)
  {
    if Renderable(s) {
      RenderTemperatureOk(TargetTempChoices(), s);
      assert FanSpeedChoices()[s.fanSpeed - 1] == s.fanSpeed;
    } else if s.targetTemp.Some? && !(150 <= s.targetTemp.value <= 559) {
      RenderTemperatureRefuses(TargetTempChoices(), s);
    } else {
      RenderTemperatureOk(TargetTempChoices(), s.(fanSpeed := 1));
      assert s.fanSpeed !in FanSpeedChoices();
    }
  }

  /** Fan speed `f` is selected at index `f - 1` of the standard choices. */
  lemma FanSpeedIndex(f: int)
    requires 1 <= f <= 9
    ensures IndexOf(FanSpeedChoices(), f) == Some(f - 1)
  {
    var r := IndexOf(FanSpeedChoices(), f);
    assert FanSpeedChoices()[f - 1] == f;
  }

  /** A rendered row is well-formed. */
  lemma {:induction false} RenderedRowWellFormed(s: StepEntry)
    requires Renderable(s)
    ensures RenderRow(s).Ok? && WellFormedRow(RenderRow(s).value)
  {
    RenderTemperatureOk(TargetTempChoices(), s);
    FanSpeedIndex(s.fanSpeed);
    SplitHour(s.sectionTime);
    MinSecTextRoundTrip(s.sectionTime);
  }

  /** Render then read: the temperature (or cooling), the fan speed and the
      time within the hour come back. */
  lemma {:induction false} RenderThenRead(s: StepEntry)
    requires Renderable(s)
    ensures RenderRow(s).Ok? && ReadRow(RenderRow(s).value) == Ok(Normalized(s))
  {
    RenderTemperatureOk(TargetTempChoices(), s);
    FanSpeedIndex(s.fanSpeed);
    MinSecTextRoundTrip(s.sectionTime);
  }

  /** A canonical step reads back unchanged, so its row round-trips exactly. */
  lemma {:induction false} CanonicalRoundTrip(s: StepEntry)
    requires Renderable(s) && Canonical(s)
    ensures RenderRow(s).Ok? && ReadRow(RenderRow(s).value) == Ok(s)
  {
    assert Normalized(s) == s;
    RenderThenRead(s);
  }

  /** Every well-formed row reads back, and what it reads back as is a canonical,
      renderable step: one of the two kinds, time within the hour. */
  lemma {:induction false} WellFormedRowReads(r: Row)
    requires WellFormedRow(r)
    ensures ReadRow(r).Ok? && Canonical(ReadRow(r).value) && Renderable(ReadRow(r).value)
  {
    assert r.fan.items[r.fan.index] == r.fan.index + 1;
  }

  /** Whatever a row reads back as has exactly one of the two keys. */
  lemma {:induction false} ReadRowHasOneKind(r: Row)
    requires ReadRow(r).Ok?
    ensures HasOneKind(ReadRow(r).value)
  {
    match r
    case Filled(temp, fan, time) =>
      match temp.items[temp.index]
      case CoolingItem =>
      case TempText(v) =>
  }
}
