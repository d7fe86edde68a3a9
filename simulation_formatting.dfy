/** The renderer's vitals display helpers: the finite-number test, the
    blood-pressure, plain-value and temperature formatters, and the summary
    that lists the vitals present in a reading under fixed labels in a fixed
    order.

    Locale-dependent digit formatting (the shared `Intl.NumberFormat` with at
    most one fraction digit) and the template-literal text of a non-string
    value are host behaviour, passed in as a `Display`. `Math.round` and the
    text of the integer it returns are exact. */
module SimulationFormatting {
  import opened JsValues
  import opened Text

  /** What the host supplies: the shared number formatter applied to a finite
      number, and the text a template literal gives a value that is not a
      string. */
  datatype Display = Display(formatNumber: real -> string, toText: JsValue -> string)

  const Placeholder: string := "--"

  /** The text a template literal inserts for a value. */
  function TemplateText(v: JsValue, d: Display): (t: string)
    ensures v.Str? ==> t == v.s
    ensures !v.Str? ==> t == d.toText(v)
  {
    if v.Str? then v.s else d.toText(v)
  }

  /** isFiniteNumber: of type number, and neither NaN nor an infinity. */
  predicate IsFiniteNumber(v: JsValue)
    ensures IsFiniteNumber(v) <==> v.Num? && !v.n.NaN? && !v.n.PosInfinity? && !v.n.NegInfinity?
  {
    v.Num? && v.n.Finite?
  }

  /** Math.round: the integer closest to x, ties going up. */
  function Round(x: real): (r: int)
    ensures x - 1.0 / 2.0 < r as real <= x + 1.0 / 2.0
  {
    (x + 1.0 / 2.0).Floor
  }

  /** formatBloodPressure: "--" unless the reading is truthy and both its
      systolic and diastolic readings are finite numbers; then the two
      rounded integers as "<systolic>/<diastolic> mmHg". */
  function FormatBloodPressure(reading: JsValue): (r: string)
    ensures r == Placeholder <==>
              !(Truthy(reading) && IsFiniteNumber(Get(reading, "systolic")) && IsFiniteNumber(Get(reading, "diastolic")))
  {
    if !Truthy(reading) || !IsFiniteNumber(Get(reading, "systolic")) || !IsFiniteNumber(Get(reading, "diastolic")) then
      Placeholder
    else
      var r := IntToString(Round(Get(reading, "systolic").n.value)) + "/"
               + IntToString(Round(Get(reading, "diastolic").n.value)) + " mmHg";
      assert r[|r| - 1] == 'g';
      r
  }

  /** The first position of c in s, if any. */
  function IndexOf(s: string, c: char): (r: Option<nat>)
    ensures r.Some? ==> r.value < |s| && s[r.value] == c && forall k :: 0 <= k < r.value ==> s[k] != c
    ensures r.None? ==> forall k :: 0 <= k < |s| ==> s[k] != c
  {
    if s == [] then None
    else if s[0] == c then Some(0)
    else
      var rest := IndexOf(s[1..], c);
      if rest.Some? then Some(rest.value + 1) else None
  }

  /** Reads a blood-pressure text back into its two rounded readings: the
      inverse of FormatBloodPressure on the texts it produces for a valid
      reading. */
  function ParseBloodPressure(t: string): Option<(int, int)>
  {
    var unit := " mmHg";
    if |t| < |unit| || t[|t| - |unit|..] != unit then None
    else
      var body := t[..|t| - |unit|];
      var slash := IndexOf(body, '/');
      if slash.None? then None
      else
        var systolic := ParseInt(body[..slash.value]);
        var diastolic := ParseInt(body[slash.value + 1..]);
        if systolic.Some? && diastolic.Some? then Some((systolic.value, diastolic.value)) else None
  }

  /** The text of an integer has no slash, so the first slash of
      "<a>/<b>" is the one between them. */
  lemma SlashSeparates(a: int, b: int)
    ensures IndexOf(IntToString(a) + "/" + IntToString(b), '/') == Some(|IntToString(a)|)
  {
    IntToStringChars(a);
    var s := IntToString(a) + "/" + IntToString(b);
    var i := IndexOf(s, '/');
    assert s[|IntToString(a)|] == '/';
    forall k | 0 <= k < |IntToString(a)| ensures s[k] != '/' {
      assert s[k] == IntToString(a)[k];
    }
  }

  /** Round trip: a formatted blood pressure reads back as the two rounded
      readings. */
  lemma BloodPressureRoundTrip(reading: JsValue)
    requires FormatBloodPressure(reading) != Placeholder
    ensures ParseBloodPressure(FormatBloodPressure(reading))
            == Some((Round(Get(reading, "systolic").n.value), Round(Get(reading, "diastolic").n.value)))
  {
    var a := IntToString(Round(Get(reading, "systolic").n.value));
    var b := IntToString(Round(Get(reading, "diastolic").n.value));
    var t := FormatBloodPressure(reading);
    var body := a + "/" + b;
    assert t == body + " mmHg";
    assert t[..|t| - 5] == body;
    assert t[|t| - 5..] == " mmHg";
    SlashSeparates(Round(Get(reading, "systolic").n.value), Round(Get(reading, "diastolic").n.value));
    assert body[..|a|] == a;
    assert body[|a| + 1..] == b;
    ParseIntToString(Round(Get(reading, "systolic").n.value));
    ParseIntToString(Round(Get(reading, "diastolic").n.value));
  }

  /** formatValue: "--" for anything but a finite number; otherwise the
      formatted number, followed by a space and the suffix only when the
      suffix is truthy (an omitted suffix defaults to the empty string). */
  function FormatValue(value: JsValue, suffix: JsValue, d: Display): (r: string)
    ensures !IsFiniteNumber(value) ==> r == Placeholder
    ensures IsFiniteNumber(value) && !Truthy(suffix) ==> r == d.formatNumber(value.n.value)
    ensures IsFiniteNumber(value) && Truthy(suffix) ==>
              r == d.formatNumber(value.n.value) + " " + TemplateText(suffix, d)
  {
    if !IsFiniteNumber(value) then Placeholder
    else
      var formatted := d.formatNumber(value.n.value);
      var s := if suffix.Undefined? then Str("") else suffix;
      if Truthy(s) then formatted + " " + TemplateText(s, d) else formatted
  }

  /** formatTemperature: "--" for anything but a finite number; otherwise
      the formatted number, " deg" and the unit, which defaults to "F" only
      when omitted. */
  function FormatTemperature(value: JsValue, unit: JsValue, d: Display): (r: string)
    ensures !IsFiniteNumber(value) ==> r == Placeholder
    ensures IsFiniteNumber(value) && unit.Undefined? ==> r == d.formatNumber(value.n.value) + " degF"
    ensures IsFiniteNumber(value) && unit.Str? ==> r == d.formatNumber(value.n.value) + " deg" + unit.s
    ensures IsFiniteNumber(value) && !unit.Undefined? ==>
              r == d.formatNumber(value.n.value) + " deg" + TemplateText(unit, d)
  {
    if !IsFiniteNumber(value) then Placeholder
    else
      var u := if unit.Undefined? then Str("F") else unit;
      d.formatNumber(value.n.value) + " deg" + TemplateText(u, d)
  }

  // The vitals summary

  datatype Entry = Entry(name: string, value: string)

  datatype Vital = BloodPressure | HeartRate | Respirations | Temperature | OxygenSaturation | Pain | BloodGlucose

  /** The order the summary lists vitals in. */
  const DisplayOrder: seq<Vital> :=
    [BloodPressure, HeartRate, Respirations, Temperature, OxygenSaturation, Pain, BloodGlucose]

  /** The position of a vital in DisplayOrder. */
  function Rank(k: Vital): (i: nat)
    ensures i < |DisplayOrder| && DisplayOrder[i] == k
  {
    match k
    case BloodPressure => 0
    case HeartRate => 1
    case Respirations => 2
    case Temperature => 3
    case OxygenSaturation => 4
    case Pain => 5
    case BloodGlucose => 6
  }

  function Label(k: Vital): string
  {
    match k
    case BloodPressure => "Blood Pressure"
    case HeartRate => "Heart Rate"
    case Respirations => "Respirations"
    case Temperature => "Temperature"
    case OxygenSaturation => "O2 Saturation"
    case Pain => "Pain"
    case BloodGlucose => "Blood Glucose"
  }

  /** The position in DisplayOrder of the vital a summary label names, or -1
      for a label the summary never uses. */
  function LabelRank(name: string): (i: int)
    ensures -1 <= i < |DisplayOrder|
    ensures i >= 0 ==> name == Label(DisplayOrder[i])
  {
    if name == "Blood Pressure" then 0
    else if name == "Heart Rate" then 1
    else if name == "Respirations" then 2
    else if name == "Temperature" then 3
    else if name == "O2 Saturation" then 4
    else if name == "Pain" then 5
    else if name == "Blood Glucose" then 6
    else -1
  }

  /** Every label names its vital's place in DisplayOrder; in particular
      different vitals have different labels. */
  lemma LabelRankOfLabel(k: Vital)
    ensures LabelRank(Label(k)) == Rank(k)
  {
    match k
    case BloodPressure =>
    case HeartRate =>
      assert Label(k)[0] == 'H';
    case Respirations =>
      assert Label(k)[0] == 'R';
    case Temperature =>
      assert Label(k)[0] == 'T';
    case OxygenSaturation =>
      assert Label(k)[0] == 'O';
    case Pain =>
      assert Label(k)[0] == 'P';
    case BloodGlucose =>
      assert |Label(k)| == 13;
  }

  /** The property of the vitals object each entry reads. */
  function Key(k: Vital): string
  {
    match k
    case BloodPressure => "bloodPressure"
    case HeartRate => "heartRate"
    case Respirations => "respiratoryRate"
    case Temperature => "temperature"
    case OxygenSaturation => "oxygenSaturation"
    case Pain => "painLevel"
    case BloodGlucose => "bloodGlucose"
  }

  /** Whether the summary lists a vital of a (non-null) vitals object: blood
      pressure whenever its reading is truthy, every other vital when it is
      a finite number. */
  predicate Listed(vitals: JsValue, k: Vital)
  {
    if k == BloodPressure then Truthy(Field(vitals, Key(k))) else IsFiniteNumber(Field(vitals, Key(k)))
  }

  /** The entry for a listed vital. */
  function EntryFor(vitals: JsValue, k: Vital, d: Display): (e: Entry)
    ensures e.name == Label(k)
  {
    var v := Field(vitals, Key(k));
    match k
    case BloodPressure => Entry(Label(k), FormatBloodPressure(v))
    case HeartRate => Entry(Label(k), FormatValue(v, Undefined, d) + " bpm")
    case Respirations => Entry(Label(k), FormatValue(v, Undefined, d) + " / min")
    case Temperature => Entry(Label(k), FormatTemperature(v, Field(vitals, "temperatureUnit"), d))
    case OxygenSaturation => Entry(Label(k), FormatValue(v, Undefined, d) + " %")
    case Pain => Entry(Label(k), FormatValue(v, Undefined, d) + "/10")
    case BloodGlucose => Entry(Label(k), FormatValue(v, Undefined, d) + " mg/dL")
  }

  /** The vitals among `kinds` that `keep` selects, in the order of `kinds`. */
  function Select(kinds: seq<Vital>, keep: Vital -> bool): (r: seq<Vital>)
    ensures |r| <= |kinds|
    ensures forall i :: 0 <= i < |r| ==> r[i] in kinds && keep(r[i])
    ensures forall k :: k in kinds && keep(k) ==> k in r
  {
    if kinds == [] then []
    else
      var last := kinds[|kinds| - 1];
      var front := kinds[..|kinds| - 1];
      assert kinds == front + [last];
      Select(front, keep) + (if keep(last) then [last] else [])
  }

  /** Selecting keeps the order of the vitals it is given. */
  lemma {:induction false} SelectOrdered(kinds: seq<Vital>, keep: Vital -> bool)
    requires forall i, j :: 0 <= i < j < |kinds| ==> Rank(kinds[i]) < Rank(kinds[j])
    ensures forall i, j :: 0 <= i < j < |Select(kinds, keep)| ==>
              Rank(Select(kinds, keep)[i]) < Rank(Select(kinds, keep)[j])
  {
    if kinds != [] {
      var last := kinds[|kinds| - 1];
      var front := kinds[..|kinds| - 1];
      assert forall i :: 0 <= i < |front| ==> front[i] == kinds[i];
      SelectOrdered(front, keep);
      var p := Select(front, keep);
      var r := Select(kinds, keep);
      assert r == p + (if keep(last) then [last] else []);
      forall i, j | 0 <= i < j < |r| ensures Rank(r[i]) < Rank(r[j]) {
        assert r[i] == p[i];
        if j == |p| {
          assert p[i] in front;
          var m :| 0 <= m < |front| && front[m] == p[i];
          assert kinds[m] == p[i] && r[j] == last;
          assert Rank(kinds[m]) < Rank(kinds[|kinds| - 1]);
        } else {
          assert r[j] == p[j];
          assert Rank(p[i]) < Rank(p[j]);
        }
      }
    }
  }

  /** The selection test of a summary. */
  function Keep(vitals: JsValue): Vital -> bool
  {
    k => Listed(vitals, k)
  }

  /** The vitals a summary lists, in DisplayOrder: exactly the listed ones,
      each once. */
  function ListedVitals(vitals: JsValue): (ks: seq<Vital>)
    ensures |ks| <= |DisplayOrder|
    ensures forall i :: 0 <= i < |ks| ==> Listed(vitals, ks[i])
    ensures ks != [] ==> Listed(vitals, ks[0])
    ensures forall k :: Listed(vitals, k) ==> k in ks
    ensures forall i, j :: 0 <= i < j < |ks| ==> Rank(ks[i]) < Rank(ks[j])
  {
    SelectListed(vitals);
    Select(DisplayOrder, Keep(vitals))
  }

  /** Selecting the listed vitals from DisplayOrder keeps exactly them, in
      DisplayOrder. */
  lemma SelectListed(vitals: JsValue)
    ensures forall i :: 0 <= i < |Select(DisplayOrder, Keep(vitals))| ==> Listed(vitals, Select(DisplayOrder, Keep(vitals))[i])
    ensures forall k :: Listed(vitals, k) ==> k in Select(DisplayOrder, Keep(vitals))
    ensures forall i, j :: 0 <= i < j < |Select(DisplayOrder, Keep(vitals))| ==>
              Rank(Select(DisplayOrder, Keep(vitals))[i]) < Rank(Select(DisplayOrder, Keep(vitals))[j])
  {
    var keep := Keep(vitals);
    DisplayOrderRanked();
    SelectOrdered(DisplayOrder, keep);
    var ks := Select(DisplayOrder, keep);
    forall i | 0 <= i < |ks| ensures Listed(vitals, ks[i]) {
      assert keep(ks[i]);
    }
    forall k | Listed(vitals, k) ensures k in ks {
      assert DisplayOrder[Rank(k)] == k;
      assert keep(k);
    }
  }

  /** DisplayOrder lists each vital at its rank. */
  lemma DisplayOrderRanked()
    ensures forall i, j :: 0 <= i < j < |DisplayOrder| ==> Rank(DisplayOrder[i]) < Rank(DisplayOrder[j])
  {
    forall i | 0 <= i < |DisplayOrder| ensures Rank(DisplayOrder[i]) == i {
    }
  }

  /** The entries of the given vitals, in their order. */
  function EntriesOf(vitals: JsValue, kinds: seq<Vital>, d: Display): (r: seq<Entry>)
    ensures |r| == |kinds|
    ensures forall i :: 0 <= i < |kinds| ==> r[i] == EntryFor(vitals, kinds[i], d)
  {
    seq(|kinds|, i requires 0 <= i < |kinds| => EntryFor(vitals, kinds[i], d))
  }

  /** The entries for the listed vitals of a non-null vitals object. */
  function Summary(vitals: JsValue, d: Display): (s: seq<Entry>)
    ensures |s| == |ListedVitals(vitals)|
    ensures forall i :: 0 <= i < |s| ==> s[i] == EntryFor(vitals, ListedVitals(vitals)[i], d)
    ensures forall i :: 0 <= i < |s| ==> s[i].name == Label(ListedVitals(vitals)[i])
  {
    EntriesOf(vitals, ListedVitals(vitals), d)
  }

  /** The summary buildVitalSummary promises: an omitted reading counts as
      `{}`, a null one throws on its first property read, and otherwise the
      entries of the listed vitals come in DisplayOrder. */
  function VitalSummary(vitals: JsValue, d: Display): (r: Outcome<seq<Entry>>)
    ensures r.Threw? <==> vitals.Null?
  {
    if vitals.Null? then Threw(EngineTypeError)
    else Returned(Summary(if vitals.Undefined? then EmptyObject else vitals, d))
  }

  /** The entry a vital contributes when pushed: itself if listed, nothing
      otherwise. */
  function Contribution(vitals: JsValue, k: Vital, d: Display): seq<Entry>
  {
    if Listed(vitals, k) then [EntryFor(vitals, k, d)] else []
  }

  /** The entries of two runs of vitals are the entries of each, in turn. */
  lemma EntriesOfAppend(vitals: JsValue, a: seq<Vital>, b: seq<Vital>, d: Display)
    ensures EntriesOf(vitals, a + b, d) == EntriesOf(vitals, a, d) + EntriesOf(vitals, b, d)
  {
    var l := EntriesOf(vitals, a + b, d);
    assert l[..|a|] == EntriesOf(vitals, a, d);
    assert l[|a|..] == EntriesOf(vitals, b, d);
    assert l == l[..|a|] + l[|a|..];
  }

  /** Pushing the contribution of the next vital in DisplayOrder extends the
      summary of the vitals before it to the summary including it. */
  lemma PushExtendsSummary(vitals: JsValue, n: nat, d: Display)
    requires 1 <= n <= |DisplayOrder|
    ensures EntriesOf(vitals, Select(DisplayOrder[..n], Keep(vitals)), d)
            == EntriesOf(vitals, Select(DisplayOrder[..n - 1], Keep(vitals)), d)
               + Contribution(vitals, DisplayOrder[n - 1], d)
  {
    var keep := Keep(vitals);
    var kinds := DisplayOrder[..n];
    var k := DisplayOrder[n - 1];
    assert |kinds| == n && kinds[n - 1] == k;
    assert kinds[..n - 1] == DisplayOrder[..n - 1];
    assert keep(k) == Listed(vitals, k);
    var last := if keep(k) then [k] else [];
    assert Select(kinds, keep) == Select(DisplayOrder[..n - 1], keep) + last;
    EntriesOfAppend(vitals, Select(DisplayOrder[..n - 1], keep), last, d);
    assert EntriesOf(vitals, last, d) == Contribution(vitals, k, d);
  }

  /** Reading a property of the defaulted vitals object is reading the field
      the summary selects on. */
  lemma ReadsAgree(vitals: JsValue, key: string)
    requires !Nullish(vitals)
    ensures Field(vitals, key) == Get(vitals, key)
  {
  }

  /** The summary of the first n vitals in DisplayOrder, one contribution
      pushed after another. */
  function SummaryPrefix(vitals: JsValue, n: nat, d: Display): (s: seq<Entry>)
    requires n <= |DisplayOrder|
    ensures |s| <= n
  {
    if n == 0 then [] else SummaryPrefix(vitals, n - 1, d) + Contribution(vitals, DisplayOrder[n - 1], d)
  }

  /** Pushing the contributions in DisplayOrder selects the listed vitals
      among those pushed. */
  lemma {:induction false} PrefixSelects(vitals: JsValue, n: nat, d: Display)
    requires n <= |DisplayOrder|
    ensures SummaryPrefix(vitals, n, d) == EntriesOf(vitals, Select(DisplayOrder[..n], Keep(vitals)), d)
  {
    if n == 0 {
      assert DisplayOrder[..0] == [];
    } else {
      PrefixSelects(vitals, n - 1, d);
      PushExtendsSummary(vitals, n, d);
    }
  }

  /** Pushing all seven contributions gives the summary. */
  lemma PrefixIsSummary(vitals: JsValue, d: Display)
    ensures SummaryPrefix(vitals, |DisplayOrder|, d) == Summary(vitals, d)
  {
    PrefixSelects(vitals, |DisplayOrder|, d);
    assert DisplayOrder[..|DisplayOrder|] == DisplayOrder;
  }

  /** buildVitalSummary's conditional push of the blood pressure, reading the
      defaulted vitals object directly, adds that vital's contribution. */
  lemma PushBloodPressure(v: JsValue, d: Display)
    requires !Nullish(v)
    ensures SummaryPrefix(v, 1, d)
            == SummaryPrefix(v, 0, d)
               + (if Truthy(Get(v, "bloodPressure"))
                  then [Entry("Blood Pressure", FormatBloodPressure(Get(v, "bloodPressure")))]
                  else [])
  {
    assert DisplayOrder[0] == BloodPressure;
    ReadsAgree(v, "bloodPressure");
  }

  /** Likewise for the heart rate. */
  lemma PushHeartRate(v: JsValue, d: Display)
    requires !Nullish(v)
    ensures SummaryPrefix(v, 2, d)
            == SummaryPrefix(v, 1, d)
               + (if IsFiniteNumber(Get(v, "heartRate"))
                  then [Entry("Heart Rate", FormatValue(Get(v, "heartRate"), Undefined, d) + " bpm")]
                  else [])
  {
    assert DisplayOrder[1] == HeartRate;
    ReadsAgree(v, "heartRate");
  }

  /** Likewise for the respiratory rate. */
  lemma PushRespirations(v: JsValue, d: Display)
    requires !Nullish(v)
    ensures SummaryPrefix(v, 3, d)
            == SummaryPrefix(v, 2, d)
               + (if IsFiniteNumber(Get(v, "respiratoryRate"))
                  then [Entry("Respirations", FormatValue(Get(v, "respiratoryRate"), Undefined, d) + " / min")]
                  else [])
  {
    assert DisplayOrder[2] == Respirations;
    ReadsAgree(v, "respiratoryRate");
  }

  /** Likewise for the temperature. */
  lemma PushTemperature(v: JsValue, d: Display)
    requires !Nullish(v)
    ensures SummaryPrefix(v, 4, d)
            == SummaryPrefix(v, 3, d)
               + (if IsFiniteNumber(Get(v, "temperature"))
                  then [Entry("Temperature", FormatTemperature(Get(v, "temperature"), Get(v, "temperatureUnit"), d))]
                  else [])
  {
    assert DisplayOrder[3] == Temperature;
    ReadsAgree(v, "temperature");
    ReadsAgree(v, "temperatureUnit");
  }

  /** Likewise for the oxygen saturation. */
  lemma PushOxygenSaturation(v: JsValue, d: Display)
    requires !Nullish(v)
    ensures SummaryPrefix(v, 5, d)
            == SummaryPrefix(v, 4, d)
               + (if IsFiniteNumber(Get(v, "oxygenSaturation"))
                  then [Entry("O2 Saturation", FormatValue(Get(v, "oxygenSaturation"), Undefined, d) + " %")]
                  else [])
  {
    assert DisplayOrder[4] == OxygenSaturation;
    ReadsAgree(v, "oxygenSaturation");
  }

  /** Likewise for the pain level. */
  lemma PushPain(v: JsValue, d: Display)
    requires !Nullish(v)
    ensures SummaryPrefix(v, 6, d)
            == SummaryPrefix(v, 5, d)
               + (if IsFiniteNumber(Get(v, "painLevel"))
                  then [Entry("Pain", FormatValue(Get(v, "painLevel"), Undefined, d) + "/10")]
                  else [])
  {
    assert DisplayOrder[5] == Pain;
    ReadsAgree(v, "painLevel");
  }

  /** Likewise for the blood glucose. */
  lemma PushBloodGlucose(v: JsValue, d: Display)
    requires !Nullish(v)
    ensures SummaryPrefix(v, 7, d)
            == SummaryPrefix(v, 6, d)
               + (if IsFiniteNumber(Get(v, "bloodGlucose"))
                  then [Entry("Blood Glucose", FormatValue(Get(v, "bloodGlucose"), Undefined, d) + " mg/dL")]
                  else [])
  {
    assert DisplayOrder[6] == BloodGlucose;
    ReadsAgree(v, "bloodGlucose");
  }

  /** buildVitalSummary: a summary list filled by one conditional push per
      vital, in DisplayOrder. */
  method BuildVitalSummary(vitals: JsValue, d: Display) returns (r: Outcome<seq<Entry>>)
    ensures r == VitalSummary(vitals, d)
  {
    var v := if vitals.Undefined? then EmptyObject else vitals;
    if v.Null? {
      return Threw(EngineTypeError);
    }
    PushBloodPressure(v, d);
    PushHeartRate(v, d);
    PushRespirations(v, d);
    PushTemperature(v, d);
    PushOxygenSaturation(v, d);
    PushPain(v, d);
    PushBloodGlucose(v, d);
    var summary: seq<Entry> := [];
    if Truthy(Get(v, "bloodPressure")) {
      summary := summary + [Entry("Blood Pressure", FormatBloodPressure(Get(v, "bloodPressure")))];
    }
    assert summary == SummaryPrefix(v, 1, d);
    if IsFiniteNumber(Get(v, "heartRate")) {
      summary := summary + [Entry("Heart Rate", FormatValue(Get(v, "heartRate"), Undefined, d) + " bpm")];
    }
    assert summary == SummaryPrefix(v, 2, d);
    if IsFiniteNumber(Get(v, "respiratoryRate")) {
      summary := summary + [Entry("Respirations", FormatValue(Get(v, "respiratoryRate"), Undefined, d) + " / min")];
    }
    assert summary == SummaryPrefix(v, 3, d);
    if IsFiniteNumber(Get(v, "temperature")) {
      summary := summary + [Entry("Temperature", FormatTemperature(Get(v, "temperature"), Get(v, "temperatureUnit"), d))];
    }
    assert summary == SummaryPrefix(v, 4, d);
    if IsFiniteNumber(Get(v, "oxygenSaturation")) {
      summary := summary + [Entry("O2 Saturation", FormatValue(Get(v, "oxygenSaturation"), Undefined, d) + " %")];
    }
    assert summary == SummaryPrefix(v, 5, d);
    if IsFiniteNumber(Get(v, "painLevel")) {
      summary := summary + [Entry("Pain", FormatValue(Get(v, "painLevel"), Undefined, d) + "/10")];
    }
    assert summary == SummaryPrefix(v, 6, d);
    if IsFiniteNumber(Get(v, "bloodGlucose")) {
      summary := summary + [Entry("Blood Glucose", FormatValue(Get(v, "bloodGlucose"), Undefined, d) + " mg/dL")];
    }
    assert summary == SummaryPrefix(v, 7, d);
    PrefixIsSummary(v, d);
    r := Returned(summary);
  }

  /** The summary lists at most the seven vitals, in DisplayOrder: each
      entry's label comes strictly later in that order than the labels
      before it, so no label repeats. */
  lemma SummaryInDisplayOrder(vitals: JsValue, d: Display)
    ensures var s := Summary(vitals, d);
            && |s| <= |DisplayOrder|
            && (forall i :: 0 <= i < |s| ==> LabelRank(s[i].name) >= 0)
            && (forall i, j :: 0 <= i < j < |s| ==> LabelRank(s[i].name) < LabelRank(s[j].name))
            && (forall i, j :: 0 <= i < j < |s| ==> s[i].name != s[j].name)
  {
    var kinds := ListedVitals(vitals);
    var s := Summary(vitals, d);
    forall i | 0 <= i < |s| ensures LabelRank(s[i].name) == Rank(kinds[i]) {
      LabelRankOfLabel(kinds[i]);
    }
  }

  /** A vital has an entry exactly when it is listed: blood pressure when its
      reading is truthy, the others when they are finite numbers. */
  lemma EntryPresentIffListed(vitals: JsValue, d: Display, k: Vital)
    ensures (exists i :: 0 <= i < |Summary(vitals, d)| && Summary(vitals, d)[i].name == Label(k))
            <==> Listed(vitals, k)
  {
    if i :| 0 <= i < |Summary(vitals, d)| && Summary(vitals, d)[i].name == Label(k) {
      EntryIsListed(vitals, d, k, i);
    }
    if Listed(vitals, k) {
      ListedHasEntry(vitals, d, k);
    }
  }

  /** An entry under a vital's label means that vital is listed. */
  lemma EntryIsListed(vitals: JsValue, d: Display, k: Vital, i: int)
    requires 0 <= i < |Summary(vitals, d)| && Summary(vitals, d)[i].name == Label(k)
    ensures Listed(vitals, k)
  {
    var kinds := ListedVitals(vitals);
    LabelRankOfLabel(kinds[i]);
    LabelRankOfLabel(k);
    assert kinds[i] == DisplayOrder[Rank(k)];
  }

  /** A listed vital has an entry under its label. */
  lemma ListedHasEntry(vitals: JsValue, d: Display, k: Vital)
    requires Listed(vitals, k)
    ensures exists i :: 0 <= i < |Summary(vitals, d)| && Summary(vitals, d)[i].name == Label(k)
  {
    var kinds := ListedVitals(vitals);
    var i :| 0 <= i < |kinds| && kinds[i] == k;
    assert Summary(vitals, d)[i].name == Label(k);
  }

  /** A truthy blood-pressure reading always comes first, and its value is
      the placeholder when either reading is not a finite number. */
  lemma BloodPressureFirst(vitals: JsValue, d: Display)
    requires Truthy(Field(vitals, "bloodPressure"))
    ensures var s := Summary(vitals, d);
            && |s| > 0
            && s[0] == Entry("Blood Pressure", FormatBloodPressure(Field(vitals, "bloodPressure")))
            && (!IsFiniteNumber(Get(Field(vitals, "bloodPressure"), "systolic"))
                || !IsFiniteNumber(Get(Field(vitals, "bloodPressure"), "diastolic"))
                ==> s[0].value == Placeholder)
  {
    var kinds := ListedVitals(vitals);
    assert Listed(vitals, BloodPressure);
    var i :| 0 <= i < |kinds| && kinds[i] == BloodPressure;
  }

  /** An omitted or empty vitals object yields an empty summary. */
  lemma EmptyVitalsEmptySummary(d: Display)
    ensures VitalSummary(Undefined, d) == Returned([])
    ensures VitalSummary(EmptyObject, d) == Returned([])
  {
    forall k ensures !Listed(EmptyObject, k) {
      assert Field(EmptyObject, Key(k)) == Undefined;
    }
    assert ListedVitals(EmptyObject) == [];
    assert Summary(EmptyObject, d) == [];
  }
}
