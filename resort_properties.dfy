/** What `parse_resort_page` promises about the dictionary it returns: the
    status field, the placeholder filter, which stage decides which field,
    and how each stage reads its text. */
module PageProperties {
  import opened Builtins
  import Labels
  import opened Soup
  import opened Calendar
  import opened DateParser
  import opened ResortPage

  // ---------------------------------------------------------------------
  // The final status field and the placeholder filter
  // ---------------------------------------------------------------------

  /** "Open" exactly when the dictionary holds a positive open-lift count. */
  predicate OpenByLifts(d: Data) {
    LiftsOpenCount in d && d[LiftsOpenCount].Int? && d[LiftsOpenCount].i > 0
  }

  /** The filter keeps exactly the fields whose value is not a placeholder,
      unchanged. */
  lemma PruneKeeps(data: Data)
    ensures forall f :: f in Prune(data) <==> f in data && !Placeholder(data[f])
    ensures forall f :: f in Prune(data) ==> Prune(data)[f] == data[f]
  {
  }

  /** After the status is set and the placeholders dropped, the status is
      always present, is "Open" or "Closed", and says "Open" exactly when
      the returned dictionary itself holds a positive open-lift count; every
      other field is the value stored before, unless it was a placeholder. */
  lemma FinishFacts(data: Data)
    ensures Status in Finish(data)
    ensures Finish(data)[Status] == Str("Open") || Finish(data)[Status] == Str("Closed")
    ensures Finish(data)[Status] == Str("Open") <==> OpenByLifts(Finish(data))
    ensures forall f :: f != Status ==> (f in Finish(data) <==> f in data && !Placeholder(data[f]))
    ensures forall f :: f != Status && f in Finish(data) ==> Finish(data)[f] == data[f]
    ensures forall f :: f in Finish(data) ==> !Placeholder(Finish(data)[f])
  {
    var s := data[Status := Str(StatusOf(data))];
    PruneKeeps(s);
    assert OpenByLifts(data) <==> OpenByLifts(Finish(data));
  }

  // ---------------------------------------------------------------------
  // Which stage writes which field
  // ---------------------------------------------------------------------

  /** The stage of `parse_resort_page` that writes a field, in program
      order: the name, the snow-depth loop, the text fields, the lifts, the
      slopes, the slope condition, the last update and the status. */
  function Writer(f: Field): nat {
    match f
    case ResortName => 0
    case SnowMountain => 1
    case SnowValley => 1
    case SnowCondition => 2
    case LastSnowfall => 2
    case AvalancheWarning => 2
    case LiftsOpenCount => 3
    case LiftsTotalCount => 3
    case SlopesOpenKm => 4
    case SlopesTotalKm => 4
    case SlopesOpenCount => 4
    case SlopesTotalCount => 4
    case SlopeCondition => 5
    case LastUpdate => 6
    case Status => 7
  }

  /** `after` differs from `before` at most in the fields that stages `lo`
      up to (not including) `hi` write. */
  predicate Untouched(before: Data, after: Data, lo: nat, hi: nat) {
    forall f :: !(lo <= Writer(f) < hi) ==> (f in after <==> f in before) && (f in after ==> after[f] == before[f])
  }

  lemma UntouchedChain(a: Data, b: Data, c: Data, lo: nat, mid: nat, hi: nat)
    requires lo <= mid <= hi
    requires Untouched(a, b, lo, mid) && Untouched(b, c, mid, hi)
    ensures Untouched(a, c, lo, hi)
  {
  }

  /** Two edits of the same stage touch only that stage's fields. */
  lemma UntouchedTwice(a: Data, b: Data, c: Data, lo: nat, hi: nat)
    requires Untouched(a, b, lo, hi) && Untouched(b, c, lo, hi)
    ensures Untouched(a, c, lo, hi)
  {
  }

  /** The writer of each field, spelled out. */
  lemma WriterTable()
    ensures Writer(ResortName) == 0 && Writer(SnowMountain) == 1 && Writer(SnowValley) == 1
    ensures Writer(SnowCondition) == 2 && Writer(LastSnowfall) == 2 && Writer(AvalancheWarning) == 2
    ensures Writer(LiftsOpenCount) == 3 && Writer(LiftsTotalCount) == 3
    ensures Writer(SlopesOpenKm) == 4 && Writer(SlopesTotalKm) == 4
    ensures Writer(SlopesOpenCount) == 4 && Writer(SlopesTotalCount) == 4
    ensures Writer(SlopeCondition) == 5 && Writer(LastUpdate) == 6 && Writer(Status) == 7
  {
  }

  /** Storing one field touches only the stage that writes it. */
  lemma StoreWrites(data: Data, f: Field, v: Value, lo: nat, hi: nat)
    requires lo <= Writer(f) < hi
    ensures Untouched(data, data[f := v], lo, hi)
  {
  }

  lemma NameStageWrites(doc: Document, data: Data)
    ensures Untouched(data, NameStage(doc, data), 0, 1)
  {
    match Soup.Find(doc, "h1", None)
    case None =>
    case Some(h1) => StoreWrites(data, ResortName, Str(Strip(TextOf(h1))), 0, 1);
  }

  lemma {:induction false} SnowStepWrites(data: Data, o: Occurrence)
    ensures Untouched(data, SnowStep(data, o), 1, 2)
  {
    var text := Strip(TextOf(o.node));
    var dd := BigDd(o);
    if dd.Some? {
      var v := Str(SnowText(dd.value));
      var d1 := if Labelled(text, Labels.Mountain) then data[SnowMountain := v] else data;
      StoreWrites(data, SnowMountain, v, 1, 2);
      StoreWrites(d1, SnowValley, v, 1, 2);
      var d2 := if Labelled(text, Labels.Valley) then d1[SnowValley := v] else d1;
      StoreWrites(d2, SnowValley, v, 1, 2);
      UntouchedTwice(data, d1, d2, 1, 2);
      UntouchedTwice(data, d2, SnowStep(data, o), 1, 2);
    }
  }

  lemma {:induction false} SnowLoopWrites(data: Data, dts: seq<Occurrence>)
    ensures Untouched(data, SnowLoop(data, dts), 1, 2)
    decreases |dts|
  {
    if dts != [] {
      var before := SnowLoop(data, dts[..|dts| - 1]);
      SnowLoopWrites(data, dts[..|dts| - 1]);
      SnowStepWrites(before, dts[|dts| - 1]);
      UntouchedTwice(data, before, SnowLoop(data, dts), 1, 2);
    }
  }

  lemma TextStageWrites(doc: Document, data: Data)
    ensures Untouched(data, TextStage(doc, data), 2, 3)
  {
    WriterTable();
    var sc := TextForLabels(doc, Labels.Variants(Labels.SnowCondition));
    var d1 := if Truthy(sc) then data[SnowCondition := Str(sc.value)] else data;
    var ls := TextForLabels(doc, Labels.Variants(Labels.LastSnowfall));
    var d2 := if Truthy(ls) then d1[LastSnowfall := Str(ls.value)] else d1;
    var aw := TextForLabels(doc, Labels.Variants(Labels.AvalancheWarning));
    if Truthy(sc) { StoreWrites(data, SnowCondition, Str(sc.value), 2, 3); }
    if Truthy(ls) { StoreWrites(d1, LastSnowfall, Str(ls.value), 2, 3); }
    if Truthy(aw) { StoreWrites(d2, AvalancheWarning, Str(Strip(ReplaceAll(aw.value, "Lawinenwarndienst", ""))), 2, 3); }
    UntouchedTwice(data, d1, d2, 2, 3);
    UntouchedTwice(data, d2, TextStage(doc, data), 2, 3);
  }

  lemma LiftCountsWrites(v: string, data: Data)
    ensures Untouched(data, LiftCounts(v, data), 3, 4)
  {
    WriterTable();
    if Contains(v, "von") || Contains(v, "of") {
      SplitHasTwo(v);
      var parts := ReSplit(v);
      match PyInt(Strip(parts[0]))
      case None =>
      case Some(open) =>
        var d := data[LiftsOpenCount := Int(open)];
        StoreWrites(data, LiftsOpenCount, Int(open), 3, 4);
        match FirstWord(Strip(parts[1]))
        case None =>
        case Some(w) =>
          match PyInt(w)
          case None =>
          case Some(total) =>
            StoreWrites(d, LiftsTotalCount, Int(total), 3, 4);
            UntouchedTwice(data, d, LiftCounts(v, data), 3, 4);
    }
  }

  lemma LiftStageWrites(doc: Document, data: Data)
    ensures Untouched(data, LiftStage(doc, data), 3, 4)
  {
    var v := TextForLabels(doc, Labels.Variants(Labels.Lifts));
    if Truthy(v) {
      LiftCountsWrites(v.value, data);
    }
  }

  lemma SlopeFiguresWrites(v: string, data: Data)
    ensures SlopeFigures(v, data).Page? ==> Untouched(data, SlopeFigures(v, data).data, 4, 5)
  {
    WriterTable();
    if Contains(v, "km") {
      var nums := Runs(v, IsNumChar);
      if |nums| > 0 && KmValue(nums[0]).Some? {
        var d := data[SlopesOpenKm := Float(KmValue(nums[0]).value)];
        StoreWrites(data, SlopesOpenKm, Float(KmValue(nums[0]).value), 4, 5);
        if |nums| > 1 && KmValue(nums[1]).Some? {
          StoreWrites(d, SlopesTotalKm, Float(KmValue(nums[1]).value), 4, 5);
          UntouchedTwice(data, d, SlopeFigures(v, data).data, 4, 5);
        }
      }
    } else {
      var nums := Runs(v, IsDigit);
      RunsFacts(v, IsDigit);
      if |nums| >= 1 {
        var d := data[SlopesOpenCount := Int(DecimalValue(nums[0]))];
        StoreWrites(data, SlopesOpenCount, Int(DecimalValue(nums[0])), 4, 5);
        if |nums| >= 2 {
          StoreWrites(d, SlopesTotalCount, Int(DecimalValue(nums[1])), 4, 5);
          UntouchedTwice(data, d, SlopeFigures(v, data).data, 4, 5);
        }
      }
    }
  }

  lemma SlopeStageWrites(doc: Document, data: Data)
    ensures SlopeStage(doc, data).Page? ==> Untouched(data, SlopeStage(doc, data).data, 4, 5)
  {
    var v := TextForLabels(doc, Labels.Variants(Labels.Slopes));
    if Truthy(v) {
      SlopeFiguresWrites(v.value, data);
    }
  }

  lemma ConditionStageWrites(doc: Document, data: Data)
    ensures Untouched(data, ConditionStage(doc, data), 5, 6)
  {
    var v := TextForLabels(doc, Labels.Variants(Labels.SlopeCondition));
    if Truthy(v) {
      StoreWrites(data, SlopeCondition, Str(v.value), 5, 6);
    }
  }

  lemma UpdateStageWrites(doc: Document, now: DateTime, data: Data)
    requires Valid(now)
    ensures UpdateStage(doc, now, data).Page? ==> Untouched(data, UpdateStage(doc, now, data).data, 6, 7)
  {
    WriterTable();
    match Soup.Find(doc, "div", Some("h2-sub"))
    case None =>
    case Some(sub) =>
      match ParseBergfexDateTime(Strip(TextOf(sub)), now)
      case Parsed(t) => StoreWrites(data, LastUpdate, Date(t), 6, 7);
      case Unparsed =>
      case Raised(_) =>
  }

  // ---------------------------------------------------------------------
  // The returned dictionary, field by field
  // ---------------------------------------------------------------------

  /** The dictionary after the resort name and the snow-depth loop. */
  function Snowed(doc: Document): Data {
    SnowLoop(NameStage(doc, map[]), BigDts(doc))
  }

  /** ... after the three text fields. */
  function Texted(doc: Document): Data {
    TextStage(doc, Snowed(doc))
  }

  /** ... after the lift counts. */
  function Lifted(doc: Document): Data {
    LiftStage(doc, Texted(doc))
  }

  /** The dictionary just before the status is set, on a page that parses. */
  function Last(doc: Document, now: DateTime): Data
    requires Valid(now)
  {
    match SlopeStage(doc, Lifted(doc))
    case Failed(_) => map[]
    case Page(p) =>
      match UpdateStage(doc, now, ConditionStage(doc, p))
      case Failed(_) => map[]
      case Page(u) => u
  }

  /** The fields stages `lo` up to `hi` write are on `page` as they are in
      `stage`, less the placeholders. */
  predicate Decides(stage: Data, page: Data, lo: nat, hi: nat) {
    forall f :: lo <= Writer(f) < hi ==>
      (f in page <==> f in stage && !Placeholder(stage[f])) && (f in page ==> page[f] == stage[f])
  }

  /** Fields no later stage writes reach the page as they were stored, less
      the placeholders. */
  lemma DecidesVia(stage: Data, last: Data, lo: nat, hi: nat)
    requires hi <= 7
    requires Untouched(stage, last, hi, 7)
    ensures Decides(stage, Finish(last), lo, hi)
  {
    FinishFacts(last);
  }

  /** On a page that parses, the returned dictionary is `Last` finished, and
      only the slope, slope-condition and last-update stages stand between
      the lift counts and `Last`. */
  lemma PageIsLast(doc: Document, now: DateTime)
    requires Valid(now)
    ensures var o := Outcome(doc, now); o.Page? ==>
              && SlopeStage(doc, Lifted(doc)).Page?
              && o.data == Finish(Last(doc, now))
              && Untouched(SlopeStage(doc, Lifted(doc)).data, Last(doc, now), 5, 7)
              && Untouched(Lifted(doc), Last(doc, now), 4, 7)
  {
    var o := Outcome(doc, now);
    if o.Page? {
      var l := Lifted(doc);
      var p := SlopeStage(doc, l).data;
      var c := ConditionStage(doc, p);
      var last := Last(doc, now);
      SlopeStageWrites(doc, l);
      ConditionStageWrites(doc, p);
      UpdateStageWrites(doc, now, c);
      UntouchedChain(p, c, last, 5, 6, 7);
      UntouchedChain(l, p, last, 4, 5, 7);
    }
  }

  /** Every field of the returned dictionary is the value the one stage that
      writes it stored, unless that value was a placeholder: no later stage
      overwrites an earlier one. Stages 0 and 1 are the name and the snow
      depths, stage 2 the text fields, stage 3 the lifts, stage 4 the slopes. */
  lemma PageFields(doc: Document, now: DateTime)
    requires Valid(now)
    ensures var o := Outcome(doc, now); o.Page? ==>
              && Decides(Snowed(doc), o.data, 0, 2)
              && Decides(Texted(doc), o.data, 2, 3)
              && Decides(Lifted(doc), o.data, 3, 4)
              && SlopeStage(doc, Lifted(doc)).Page?
              && Decides(SlopeStage(doc, Lifted(doc)).data, o.data, 4, 5)
  {
    var o := Outcome(doc, now);
    if o.Page? {
      PageIsLast(doc, now);
      var s, t, l, last := Snowed(doc), Texted(doc), Lifted(doc), Last(doc, now);
      var p := SlopeStage(doc, l).data;
      TextStageWrites(doc, s);
      LiftStageWrites(doc, t);
      UntouchedChain(t, l, last, 3, 4, 7);
      UntouchedChain(s, t, last, 2, 3, 7);
      DecidesVia(s, last, 0, 2);
      DecidesVia(t, last, 2, 3);
      DecidesVia(l, last, 3, 4);
      DecidesVia(p, last, 4, 5);
    }
  }

  /** The status on the page is always present and says "Open" exactly when
      the page reports a positive number of open lifts; no value on the page
      is a placeholder. */
  lemma PageStatus(doc: Document, now: DateTime)
    requires Valid(now)
    ensures var o := Outcome(doc, now); o.Page? ==>
              var d := o.data;
              && Status in d
              && (d[Status] == Str("Open") || d[Status] == Str("Closed"))
              && (d[Status] == Str("Open") <==> OpenByLifts(d))
              && forall f :: f in d ==> !Placeholder(d[f])
  {
    var o := Outcome(doc, now);
    if o.Page? {
      PageIsLast(doc, now);
      FinishFacts(Last(doc, now));
    }
  }

  // ---------------------------------------------------------------------
  // The snow-depth loop
  // ---------------------------------------------------------------------

  /** A `dt.big` whose text carries a label of category `c` and that has a
      `dd.big` sibling after it. */
  predicate Announces(o: Occurrence, c: Labels.Category) {
    Labelled(Strip(TextOf(o.node)), c) && BigDd(o).Some?
  }

  /** The depth a `dt.big` announces: its `dd.big` text without "cm". */
  function Depth(o: Occurrence): Value
    requires BigDd(o).Some?
  {
    Str(SnowText(BigDd(o).value))
  }

  /** One round of the loop: a mountain `dt` sets the mountain depth, a
      valley `dt` the valley depth, and a snow-height `dt` the valley depth
      only while none is stored. */
  lemma SnowStepFacts(data: Data, o: Occurrence)
    ensures Announces(o, Labels.Mountain) ==> SnowMountain in SnowStep(data, o) && SnowStep(data, o)[SnowMountain] == Depth(o)
    ensures !Announces(o, Labels.Mountain) ==>
              (SnowMountain in SnowStep(data, o) <==> SnowMountain in data)
              && (SnowMountain in data ==> SnowStep(data, o)[SnowMountain] == data[SnowMountain])
    ensures Announces(o, Labels.Valley) ==> SnowValley in SnowStep(data, o) && SnowStep(data, o)[SnowValley] == Depth(o)
    ensures !Announces(o, Labels.Valley) && SnowValley in data ==>
              SnowValley in SnowStep(data, o) && SnowStep(data, o)[SnowValley] == data[SnowValley]
    ensures !Announces(o, Labels.Valley) && SnowValley !in data ==>
              (SnowValley in SnowStep(data, o) <==> Announces(o, Labels.SnowHeight))
              && (Announces(o, Labels.SnowHeight) ==> SnowStep(data, o)[SnowValley] == Depth(o))
  {
  }

  /** The test "announces category `c`", as a function value. */
  function Announcer(c: Labels.Category): Occurrence -> bool {
    (o: Occurrence) => Announces(o, c)
  }

  /** Index of the last element of `s` satisfying `p`. */
  function LastWhere<T>(s: seq<T>, p: T -> bool): Option<nat>
    decreases |s|
  {
    if s == [] then None
    else if p(s[|s| - 1]) then Some(|s| - 1)
    else LastWhere(s[..|s| - 1], p)
  }

  /** The index found satisfies `p` and no later one does; None means none does. */
  lemma {:induction false} LastWhereFacts<T>(s: seq<T>, p: T -> bool)
    ensures LastWhere(s, p).Some? ==>
              var i := LastWhere(s, p).value;
              i < |s| && p(s[i]) && forall j :: i < j < |s| ==> !p(s[j])
    ensures LastWhere(s, p).None? ==> forall j :: 0 <= j < |s| ==> !p(s[j])
    decreases |s|
  {
    if s != [] {
      var n := |s| - 1;
      LastWhereFacts(s[..n], p);
      assert forall j :: 0 <= j < n ==> s[..n][j] == s[j];
    }
  }

  /** The first match in `s` is the first one in all but its last element,
      or else the last element when that matches. */
  lemma FirstWhereLast<T>(s: seq<T>, p: T -> bool)
    requires s != []
    ensures FirstWhere(s[..|s| - 1], p).Some? ==> FirstWhere(s, p) == FirstWhere(s[..|s| - 1], p)
    ensures FirstWhere(s[..|s| - 1], p).None? ==> FirstWhere(s, p) == if p(s[|s| - 1]) then Some(|s| - 1) else None
  {
    var n := |s| - 1;
    var init := s[..n];
    FirstWhereFacts(s, p);
    FirstWhereFacts(init, p);
    assert forall j :: 0 <= j < n ==> init[j] == s[j];
  }

  /** The mountain depth after the loop is the one announced by the last
      mountain `dt`; without one it is what it was before the loop. */
  lemma {:induction false} MountainDepth(data: Data, dts: seq<Occurrence>)
    ensures var r, out := LastWhere(dts, Announcer(Labels.Mountain)), SnowLoop(data, dts);
            && (r.Some? ==> r.value < |dts| && BigDd(dts[r.value]).Some?
                            && SnowMountain in out && out[SnowMountain] == Depth(dts[r.value]))
            && (r.None? ==> (SnowMountain in out <==> SnowMountain in data)
                            && (SnowMountain in data ==> out[SnowMountain] == data[SnowMountain]))
    decreases |dts|
  {
    if dts != [] {
      var n := |dts| - 1;
      SnowStepFacts(SnowLoop(data, dts[..n]), dts[n]);
      MountainDepth(data, dts[..n]);
      var r := LastWhere(dts[..n], Announcer(Labels.Mountain));
      if r.Some? {
        assert dts[..n][r.value] == dts[r.value];
      }
    }
  }

  /** The valley depth after the loop is the one announced by the last
      valley `dt`. Without one, a valley depth stored before the loop stays;
      with none stored either, the first snow-height `dt` gives it, and
      without such a `dt` there is none. */
  lemma {:induction false} ValleyDepth(data: Data, dts: seq<Occurrence>)
    ensures var r, h, out := LastWhere(dts, Announcer(Labels.Valley)), FirstWhere(dts, Announcer(Labels.SnowHeight)), SnowLoop(data, dts);
            && (r.Some? ==> r.value < |dts| && BigDd(dts[r.value]).Some?
                            && SnowValley in out && out[SnowValley] == Depth(dts[r.value]))
            && (r.None? && SnowValley in data ==> SnowValley in out && out[SnowValley] == data[SnowValley])
            && (r.None? && SnowValley !in data && h.Some? ==>
                  h.value < |dts| && BigDd(dts[h.value]).Some?
                  && SnowValley in out && out[SnowValley] == Depth(dts[h.value]))
            && (r.None? && SnowValley !in data && h.None? ==> SnowValley !in out)
    decreases |dts|
  {
    if dts != [] {
      var n := |dts| - 1;
      SnowStepFacts(SnowLoop(data, dts[..n]), dts[n]);
      ValleyDepth(data, dts[..n]);
      FirstWhereLast(dts, Announcer(Labels.SnowHeight));
      var r := LastWhere(dts[..n], Announcer(Labels.Valley));
      var h := FirstWhere(dts[..n], Announcer(Labels.SnowHeight));
      FirstWhereFacts(dts[..n], Announcer(Labels.SnowHeight));
      if r.Some? {
        assert dts[..n][r.value] == dts[r.value];
      }
      if h.Some? {
        assert dts[..n][h.value] == dts[h.value];
      }
    }
  }
}
