/** `parse_resort_page`: one pass over a parsed resort page that fills a
    dictionary field by field, then derives the lift status and drops the
    placeholder values. The specification `Outcome` is written stage by
    stage; the method `ParseResortPage` performs the same updates on a local
    dictionary, statement by statement, and is proved equal to it. */
module ResortPage {
  import opened Builtins
  import Labels
  import opened Soup
  import opened Calendar
  import opened DateParser

  /** The number `digits / 10^scale`: what `float()` reads from a string of
      digits with at most one dot. */
  datatype DecimalNumber = DecimalNumber(digits: nat, scale: nat)

  /** A value of the result dictionary. */
  datatype Value =
    | Str(s: string)
    | Int(i: int)
    | Float(x: DecimalNumber)
    | Date(t: DateTime)

  /** The fields of the result dictionary. */
  datatype Field =
    | ResortName
    | SnowMountain
    | SnowValley
    | SnowCondition
    | LastSnowfall
    | AvalancheWarning
    | LiftsOpenCount
    | LiftsTotalCount
    | SlopesOpenKm
    | SlopesTotalKm
    | SlopesOpenCount
    | SlopesTotalCount
    | SlopeCondition
    | LastUpdate
    | Status

  /** The dictionary key under which a field is stored. */
  function Key(f: Field): string {
    match f
    case ResortName => "resort_name"
    case SnowMountain => "snow_mountain"
    case SnowValley => "snow_valley"
    case SnowCondition => "snow_condition"
    case LastSnowfall => "last_snowfall"
    case AvalancheWarning => "avalanche_warning"
    case LiftsOpenCount => "lifts_open_count"
    case LiftsTotalCount => "lifts_total_count"
    case SlopesOpenKm => "slopes_open_km"
    case SlopesTotalKm => "slopes_total_km"
    case SlopesOpenCount => "slopes_open_count"
    case SlopesTotalCount => "slopes_total_count"
    case SlopeCondition => "slope_condition"
    case LastUpdate => "last_update"
    case Status => "status"
  }

  /** The field dictionary. */
  type Data = map<Field, Value>

  /** A finished page, or the exception that escaped `parse_resort_page`. */
  datatype PageOutcome = Page(data: Data) | Failed(error: PyError)

  // ---------------------------------------------------------------------
  // Value helpers
  // ---------------------------------------------------------------------

  /** Python truthiness of the result of `get_text_for_labels`. */
  predicate Truthy(v: Option<string>) {
    v.Some? && v.value != []
  }

  /** `any(k in text for k in labels)`. */
  predicate ContainsAny(text: string, labels: seq<string>) {
    labels != [] && (Contains(text, labels[0]) || ContainsAny(text, labels[1..]))
  }

  /** The text carries one of the labels of category `c`. */
  predicate Labelled(text: string, c: Labels.Category) {
    ContainsAny(text, Labels.Variants(c))
  }

  /** `dt.find_next_sibling("dd", class_="big")`. */
  function BigDd(o: Occurrence): Option<Node> {
    NextSibling(o.following, "dd", Some("big"))
  }

  /** `dd.text.replace("cm", "").strip()`. */
  function SnowText(dd: Node): string {
    Strip(ReplaceAll(TextOf(dd), "cm", ""))
  }

  /** `soup.find_all("dt", class_="big")`, in document order. */
  function BigDts(doc: Document): seq<Occurrence> {
    Where(Elements(doc), (o: Occurrence) => Matches(o.node, "dt", Some("big")))
  }

  /** Length of the match of `von|of` at position `i` (0 when none): the
      alternatives start with different letters, so at most one applies. */
  function SepLen(v: string, i: nat): nat {
    if OccursAt(v, "von", i) then 3 else if OccursAt(v, "of", i) then 2 else 0
  }

  /** The leftmost match of `von|of` at or after `from`. */
  function NextSep(v: string, from: nat): Option<nat>
    decreases |v| - from
  {
    if from + 2 > |v| then None
    else if SepLen(v, from) > 0 then Some(from)
    else NextSep(v, from + 1)
  }

  /** The match found is the leftmost one, and None means there is none. */
  lemma {:induction false} NextSepFacts(v: string, from: nat)
    ensures NextSep(v, from).Some? ==>
              var i := NextSep(v, from).value;
              from <= i && SepLen(v, i) > 0 && i + SepLen(v, i) <= |v|
              && forall k :: from <= k < i ==> SepLen(v, k) == 0
    ensures NextSep(v, from).None? ==> forall k :: from <= k ==> SepLen(v, k) == 0
    decreases |v| - from
  {
    if from + 2 <= |v| && SepLen(v, from) == 0 {
      NextSepFacts(v, from + 1);
    }
  }

  /** `re.split(r"von|of", v)`: the pieces between the matches, left to right. */
  function ReSplit(v: string): seq<string>
    decreases |v|
  {
    NextSepFacts(v, 0);
    match NextSep(v, 0)
    case None => [v]
    case Some(i) => [v[..i]] + ReSplit(v[i + SepLen(v, i)..])
  }

  /** When `von` or `of` occurs, `re.split` yields at least two pieces. */
  lemma SplitHasTwo(v: string)
    requires Contains(v, "von") || Contains(v, "of")
    ensures |ReSplit(v)| >= 2
  {
    ContainsIff(v, "von");
    ContainsIff(v, "of");
    var k :| OccursAt(v, "von", k) || OccursAt(v, "of", k);
    assert SepLen(v, k) > 0;
    NextSepFacts(v, 0);
    var i := NextSep(v, 0).value;
    var rest := v[i + SepLen(v, i)..];
    assert |ReSplit(rest)| >= 1;
  }

  /** `c` belongs to the class `[\d,.]`. */
  predicate IsNumChar(c: char) {
    IsDigit(c) || c == ',' || c == '.'
  }

  /** `float(t)` for a string of digits and dots; None where Python raises
      ValueError (no digit, or a second dot). */
  function PyFloat(t: string): Option<DecimalNumber> {
    FindLeftmost(t, ".", 0);
    match Builtins.Find(t, ".", 0)
    case None =>
      if t != [] && AllDigits(t) then Some(DecimalNumber(DecimalValue(t), 0)) else None
    case Some(i) =>
      var whole, frac := t[..i], t[i + 1..];
      if (whole != [] || frac != []) && AllDigits(whole) && AllDigits(frac) then
        assert forall k :: 0 <= k < |whole + frac| ==> IsDigit((whole + frac)[k]);
        Some(DecimalNumber(DecimalValue(whole + frac), |frac|))
      else None
  }

  /** `float(run.replace(",", "."))`: a decimal comma reads as a dot. */
  function KmValue(run: string): Option<DecimalNumber> {
    PyFloat(ReplaceAll(run, ",", "."))
  }

  /** `"Open" if data.get(LiftsOpenCount, 0) > 0 else "Closed"`. */
  function StatusOf(data: Data): string {
    if LiftsOpenCount in data && data[LiftsOpenCount].Int? && data[LiftsOpenCount].i > 0
    then "Open" else "Closed"
  }

  /** The values the final comprehension drops: `""` and `"-"` (no stored value is None). */
  predicate Placeholder(v: Value) {
    v == Str("") || v == Str("-")
  }

  /** `{k: v for k, v in data.items() if v not in ("", "-", None)}`. */
  function Prune(data: Data): Data {
    map k | k in data && !Placeholder(data[k]) :: data[k]
  }

  // ---------------------------------------------------------------------
  // The stages of parse_resort_page
  // ---------------------------------------------------------------------

  /** The resort name: the stripped text of the first `h1`. */
  function NameStage(doc: Document, data: Data): Data {
    match Soup.Find(doc, "h1", None)
    case None => data
    case Some(h1) => data[ResortName := Str(Strip(TextOf(h1)))]
  }

  /** One round of the snow-depth loop over a `dt.big`. The three label tests
      are independent; the snow-height label fills the valley depth only when
      no valley depth has been stored so far. */
  function SnowStep(data: Data, o: Occurrence): Data {
    var text := Strip(TextOf(o.node));
    var dd := BigDd(o);
    var d1 := if Labelled(text, Labels.Mountain) && dd.Some? then data[SnowMountain := Str(SnowText(dd.value))] else data;
    var d2 := if Labelled(text, Labels.Valley) && dd.Some? then d1[SnowValley := Str(SnowText(dd.value))] else d1;
    if Labelled(text, Labels.SnowHeight) && SnowValley !in d2 && dd.Some? then d2[SnowValley := Str(SnowText(dd.value))]
    else d2
  }

  /** The snow-depth loop run over `dts`, in order. */
  function SnowLoop(data: Data, dts: seq<Occurrence>): Data
    decreases |dts|
  {
    if dts == [] then data else SnowStep(SnowLoop(data, dts[..|dts| - 1]), dts[|dts| - 1])
  }

  /** Snow condition, last snowfall and avalanche warning, in that order; the
      avalanche text loses the word "Lawinenwarndienst". */
  function TextStage(doc: Document, data: Data): Data {
    var sc := TextForLabels(doc, Labels.Variants(Labels.SnowCondition));
    var d1 := if Truthy(sc) then data[SnowCondition := Str(sc.value)] else data;
    var ls := TextForLabels(doc, Labels.Variants(Labels.LastSnowfall));
    var d2 := if Truthy(ls) then d1[LastSnowfall := Str(ls.value)] else d1;
    var aw := TextForLabels(doc, Labels.Variants(Labels.AvalancheWarning));
    if Truthy(aw) then d2[AvalancheWarning := Str(Strip(ReplaceAll(aw.value, "Lawinenwarndienst", "")))]
    else d2
  }

  /** The lift counts from a text such as "8 von 10". Either `int()` may
      fail, and `split()[0]` may find no word; the `except Exception` then
      keeps what was stored before the failure. */
  function LiftCounts(v: string, data: Data): Data {
    if !(Contains(v, "von") || Contains(v, "of")) then data
    else
      SplitHasTwo(v);
      var parts := ReSplit(v);
      match PyInt(Strip(parts[0]))
      case None => data
      case Some(open) =>
        var d := data[LiftsOpenCount := Int(open)];
        match FirstWord(Strip(parts[1]))
        case None => d
        case Some(w) =>
          match PyInt(w)
          case None => d
          case Some(total) => d[LiftsTotalCount := Int(total)]
  }

  function LiftStage(doc: Document, data: Data): Data {
    var v := TextForLabels(doc, Labels.Variants(Labels.Lifts));
    if Truthy(v) then LiftCounts(v.value, data) else data
  }

  /** The piste figures: kilometres when the text mentions "km", counts
      otherwise. A kilometre figure `float()` cannot read raises ValueError,
      which nothing catches. */
  function SlopeFigures(v: string, data: Data): PageOutcome {
    if Contains(v, "km") then
      var nums := Runs(v, IsNumChar);
      if |nums| == 0 then Page(data)
      else
        match KmValue(nums[0])
        case None => Failed(ValueError)
        case Some(x) =>
          var d := data[SlopesOpenKm := Float(x)];
          if |nums| == 1 then Page(d)
          else
            match KmValue(nums[1])
            case None => Failed(ValueError)
            case Some(y) => Page(d[SlopesTotalKm := Float(y)])
    else
      var nums := Runs(v, IsDigit);
      RunsFacts(v, IsDigit);
      var d := if |nums| >= 1 then data[SlopesOpenCount := Int(DecimalValue(nums[0]))] else data;
      Page(if |nums| >= 2 then d[SlopesTotalCount := Int(DecimalValue(nums[1]))] else d)
  }

  function SlopeStage(doc: Document, data: Data): PageOutcome {
    var v := TextForLabels(doc, Labels.Variants(Labels.Slopes));
    if Truthy(v) then SlopeFigures(v.value, data) else Page(data)
  }

  function ConditionStage(doc: Document, data: Data): Data {
    var v := TextForLabels(doc, Labels.Variants(Labels.SlopeCondition));
    if Truthy(v) then data[SlopeCondition := Str(v.value)] else data
  }

  /** The last-update stamp in the first `div.h2-sub`. An exception raised
      by the date parser escapes. */
  function UpdateStage(doc: Document, now: DateTime, data: Data): PageOutcome
    requires Valid(now)
  {
    match Soup.Find(doc, "div", Some("h2-sub"))
    case None => Page(data)
    case Some(sub) =>
      match ParseBergfexDateTime(Strip(TextOf(sub)), now)
      case Parsed(t) => Page(data[LastUpdate := Date(t)])
      case Unparsed => Page(data)
      case Raised(e) => Failed(e)
  }

  /** The status field, then the final filter. */
  function Finish(data: Data): Data {
    Prune(data[Status := Str(StatusOf(data))])
  }

  /** `parse_resort_page` on a parsed page, evaluated at the instant `now`. */
  function Outcome(doc: Document, now: DateTime): PageOutcome
    requires Valid(now)
  {
    var d := LiftStage(doc, TextStage(doc, SnowLoop(NameStage(doc, map[]), BigDts(doc))));
    match SlopeStage(doc, d)
    case Failed(e) => Failed(e)
    case Page(d') =>
      match UpdateStage(doc, now, ConditionStage(doc, d'))
      case Failed(e) => Failed(e)
      case Page(d'') => Page(Finish(d''))
  }

  // ---------------------------------------------------------------------
  // The imperative parser
  // ---------------------------------------------------------------------

  /** The snow-depth loop of `parse_resort_page` over the `dt.big` elements `dts`. */
  method SnowDepths(dts: seq<Occurrence>, named: Data) returns (data: Data)
    ensures data == SnowLoop(named, dts)
  {
    data := named;
    var i := 0;
    while i < |dts|
      invariant i <= |dts|
      invariant data == SnowLoop(named, dts[..i])
    {
      SnowLoopNext(named, dts, i);
      data := ReadSnowDepth(dts[i], data);
      i := i + 1;
    }
    assert dts[..i] == dts;
  }

  /** The loop over one more `dt.big` is one more step. */
  lemma SnowLoopNext(data: Data, dts: seq<Occurrence>, i: nat)
    requires i < |dts|
    ensures SnowLoop(data, dts[..i + 1]) == SnowStep(SnowLoop(data, dts[..i]), dts[i])
  {
    assert dts[..i + 1][..i] == dts[..i];
  }

  /** One pass of the snow-depth loop: the `dd.big` after a mountain label
      sets the mountain depth, after a valley label the valley depth, and
      after a snow-height label the valley depth when none is stored yet. */
  method ReadSnowDepth(dt: Occurrence, data: Data) returns (d: Data)
    ensures d == SnowStep(data, dt)
  {
    d := data;
    var text := Strip(TextOf(dt.node));
    if Labelled(text, Labels.Mountain) {
      var dd := BigDd(dt);
      if dd.Some? {
        d := d[SnowMountain := Str(SnowText(dd.value))];
      }
    }
    if Labelled(text, Labels.Valley) {
      var dd := BigDd(dt);
      if dd.Some? {
        d := d[SnowValley := Str(SnowText(dd.value))];
      }
    }
    if Labelled(text, Labels.SnowHeight) {
      if SnowValley !in d {
        var dd := BigDd(dt);
        if dd.Some? {
          d := d[SnowValley := Str(SnowText(dd.value))];
        }
      }
    }
  }

  /** Snow condition, last snowfall and avalanche warning read into `data`. */
  method ReadSnowReport(doc: Document, data: Data) returns (d: Data)
    ensures d == TextStage(doc, data)
  {
    d := data;
    var v := TextForLabels(doc, Labels.Variants(Labels.SnowCondition));
    if Truthy(v) {
      d := d[SnowCondition := Str(v.value)];
    }
    v := TextForLabels(doc, Labels.Variants(Labels.LastSnowfall));
    if Truthy(v) {
      d := d[LastSnowfall := Str(v.value)];
    }
    v := TextForLabels(doc, Labels.Variants(Labels.AvalancheWarning));
    if Truthy(v) {
      d := d[AvalancheWarning := Str(Strip(ReplaceAll(v.value, "Lawinenwarndienst", "")))];
    }
  }

  /** The lift counts read from the lifts text `v` into `data`. */
  method ReadLiftCounts(v: string, data: Data) returns (d: Data)
    ensures d == LiftCounts(v, data)
  {
    d := data;
    if Contains(v, "von") || Contains(v, "of") {
      var parts := ReSplit(v);
      SplitHasTwo(v);
      var open := PyInt(Strip(parts[0]));
      if open.Some? {
        d := d[LiftsOpenCount := Int(open.value)];
        var word := FirstWord(Strip(parts[1]));
        if word.Some? {
          var total := PyInt(word.value);
          if total.Some? {
            d := d[LiftsTotalCount := Int(total.value)];
          }
        }
      }
    }
  }

  /** The piste figures read from the slopes text `v` into `data`, or the
      ValueError a kilometre figure raises. */
  method ReadSlopeFigures(v: string, data: Data) returns (r: PageOutcome)
    ensures r == SlopeFigures(v, data)
  {
    var d := data;
    if Contains(v, "km") {
      var nums := Runs(v, IsNumChar);
      if |nums| >= 1 {
        var x := KmValue(nums[0]);
        if x.None? {
          return Failed(ValueError);
        }
        d := d[SlopesOpenKm := Float(x.value)];
      }
      if |nums| >= 2 {
        var y := KmValue(nums[1]);
        if y.None? {
          return Failed(ValueError);
        }
        d := d[SlopesTotalKm := Float(y.value)];
      }
    } else {
      var nums := Runs(v, IsDigit);
      RunsFacts(v, IsDigit);
      if |nums| >= 1 {
        d := d[SlopesOpenCount := Int(DecimalValue(nums[0]))];
      }
      if |nums| >= 2 {
        d := d[SlopesTotalCount := Int(DecimalValue(nums[1]))];
      }
    }
    r := Page(d);
  }

  /** The last-update stamp read into `data`, or the exception the date
      parser raised. */
  method ReadLastUpdate(doc: Document, now: DateTime, data: Data) returns (r: PageOutcome)
    requires Valid(now)
    ensures r == UpdateStage(doc, now, data)
  {
    var d := data;
    var sub := Soup.Find(doc, "div", Some("h2-sub"));
    if sub.Some? {
      var stamp := ParseBergfexDateTime(Strip(TextOf(sub.value)), now);
      if stamp.Raised? {
        return Failed(stamp.error);
      }
      if stamp.Parsed? {
        d := d[LastUpdate := Date(stamp.value)];
      }
    }
    r := Page(d);
  }

  /** `parse_resort_page(html)` for the page `doc` that `html` parses to. */
  method ParseResortPage(doc: Document, now: DateTime) returns (r: PageOutcome)
    requires Valid(now)
    ensures r == Outcome(doc, now)
  {
    var data: Data := map[];

    var h1 := Soup.Find(doc, "h1", None);
    if h1.Some? {
      data := data[ResortName := Str(Strip(TextOf(h1.value)))];
    }

    data := SnowDepths(BigDts(doc), data);

    data := ReadSnowReport(doc, data);
    ghost var texts := data;

    var v := TextForLabels(doc, Labels.Variants(Labels.Lifts));
    if Truthy(v) {
      data := ReadLiftCounts(v.value, data);
    }

    assert data == LiftStage(doc, texts);
    ghost var lifts := data;

    v := TextForLabels(doc, Labels.Variants(Labels.Slopes));
    if Truthy(v) {
      var figures := ReadSlopeFigures(v.value, data);
      if figures.Failed? {
        return figures;
      }
      data := figures.data;
    }

    assert SlopeStage(doc, lifts) == Page(data);

    v := TextForLabels(doc, Labels.Variants(Labels.SlopeCondition));
    if Truthy(v) {
      data := data[SlopeCondition := Str(v.value)];
    }

    var updated := ReadLastUpdate(doc, now, data);
    if updated.Failed? {
      return updated;
    }
    data := updated.data;

    data := data[Status := Str(StatusOf(data))];
    r := Page(map k | k in data && !Placeholder(data[k]) :: data[k]);
  }
}
