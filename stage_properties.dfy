/** How the stages of `parse_resort_page` read the texts they are given:
    the lift counts, the piste figures and the last-update stamp, each on
    the text shapes the site writes, and what reaches the page from them. */
module StageProperties {
  import opened Builtins
  import Labels
  import opened Soup
  import opened Calendar
  import opened DateParser
  import opened ResortPage
  import opened PageProperties
  import opened DateProperties

  // ---------------------------------------------------------------------
  // re.split(r"von|of", ...)
  // ---------------------------------------------------------------------

  /** `x` holds neither a 'v' nor an 'o', so no separator can start in it. */
  predicate NoSepChar(x: string) {
    forall k :: 0 <= k < |x| ==> x[k] != 'v' && x[k] != 'o'
  }

  /** Every match of `von|of` starts with a 'v' or an 'o'. */
  lemma SepStartsWith(v: string, k: nat)
    requires k < |v| && v[k] != 'v' && v[k] != 'o'
    ensures SepLen(v, k) == 0
  {
    if k + 3 <= |v| {
      assert v[k..k + 3][0] == v[k];
    }
    if k + 2 <= |v| {
      assert v[k..k + 2][0] == v[k];
    }
  }

  /** A text with no separator is not split. */
  lemma NoSepSplit(y: string)
    requires NoSepChar(y)
    ensures ReSplit(y) == [y]
  {
    forall k | 0 <= k < |y|
      ensures SepLen(y, k) == 0
    {
      SepStartsWith(y, k);
    }
    NextSepFacts(y, 0);
  }

  /** A first piece in which no separator can start is split off whole. */
  lemma SplitFirst(x: string, sep: string, y: string)
    requires sep == "von" || sep == "of"
    requires NoSepChar(x)
    ensures ReSplit(x + sep + y) == [x] + ReSplit(y)
  {
    var v := x + sep + y;
    forall k | 0 <= k < |x|
      ensures SepLen(v, k) == 0
    {
      assert v[k] == x[k];
      SepStartsWith(v, k);
    }
    assert v[|x|..|x| + |sep|] == sep;
    if sep == "of" {
      assert v[|x|] == 'o';
    }
    assert SepLen(v, |x|) == |sep|;
    NextSepFacts(v, 0);
    assert NextSep(v, 0) == Some(|x|);
    assert v[..|x|] == x;
    assert v[|x| + |sep|..] == y;
    assert ReSplit(v) == [v[..|x|]] + ReSplit(v[|x| + SepLen(v, |x|)..]);
  }

  /** One separator between two separator-free pieces splits the text into
      exactly those pieces. */
  lemma SplitAround(x: string, sep: string, y: string)
    requires sep == "von" || sep == "of"
    requires NoSepChar(x) && NoSepChar(y)
    ensures ReSplit(x + sep + y) == [x, y]
  {
    SplitFirst(x, sep, y);
    NoSepSplit(y);
  }

  /** A prefix in which no separator can start stays in the first piece:
      that piece is the prefix followed by a prefix of the rest. */
  lemma SplitKeepsPrefix(u: string, w: string)
    requires NoSepChar(u)
    ensures |ReSplit(u + w)| >= 1
    ensures var p := ReSplit(u + w)[0];
            |u| <= |p| <= |u| + |w| && p == u + w[..|p| - |u|]
  {
    var z := u + w;
    forall k | 0 <= k < |u|
      ensures SepLen(z, k) == 0
    {
      assert z[k] == u[k];
      SepStartsWith(z, k);
    }
    NextSepFacts(z, 0);
    match NextSep(z, 0)
    case None =>
      assert ReSplit(z) == [z];
      assert w[..|w|] == w;
    case Some(i) =>
      PieceStep(z, i);
      var k := i - |u|;
      assert z[..i] == u + w[..k];
  }

  /** The separators `re.split(r"von|of", v)` removes, left to right. */
  function SplitSeps(v: string): seq<string>
    decreases |v|
  {
    NextSepFacts(v, 0);
    match NextSep(v, 0)
    case None => []
    case Some(i) => [v[i..i + SepLen(v, i)]] + SplitSeps(v[i + SepLen(v, i)..])
  }

  /** The pieces, with the separators put back between them, give the text again. */
  lemma {:induction false} SplitRejoins(v: string)
    ensures |ReSplit(v)| == |SplitSeps(v)| + 1
    ensures v == Interleave(ReSplit(v), SplitSeps(v))
    decreases |v|
  {
    match NextSep(v, 0)
    case None =>
    case Some(i) =>
      SplitStep(v, i);
      var n := SepLen(v, i);
      var head, sep, rest := v[..i], v[i..i + n], v[i + n..];
      SplitRejoins(rest);
      SliceThree(v, i, i + n);
      InterleaveFront(head, sep, ReSplit(rest), SplitSeps(rest));
  }

  /** Every separator removed is `von` or `of`, and no piece holds either. */
  lemma {:induction false} SplitParts(v: string)
    ensures forall k :: 0 <= k < |SplitSeps(v)| ==> SplitSeps(v)[k] == "von" || SplitSeps(v)[k] == "of"
    ensures forall k :: 0 <= k < |ReSplit(v)| ==> !Contains(ReSplit(v)[k], "von") && !Contains(ReSplit(v)[k], "of")
    decreases |v|
  {
    NextSepFacts(v, 0);
    match NextSep(v, 0)
    case None =>
      SepFree(v, |v|);
      assert v[..|v|] == v;
    case Some(i) =>
      SplitStep(v, i);
      var rest := v[i + SepLen(v, i)..];
      SplitParts(rest);
      SepFree(v, i);
      PrependAll(v[..i], ReSplit(rest));
      PrependAll(v[i..i + SepLen(v, i)], SplitSeps(rest));
  }

  /** A text is its three slices at `i` and `j`, put together. */
  lemma SliceThree(v: string, i: nat, j: nat)
    requires i <= j <= |v|
    ensures v == v[..i] + v[i..j] + v[j..]
  {
  }

  /** One step of the split: the piece before the leftmost separator, then the rest's pieces. */
  lemma SplitStep(v: string, i: nat)
    requires NextSep(v, 0) == Some(i)
    ensures i + SepLen(v, i) <= |v| && (SepLen(v, i) == 3 || SepLen(v, i) == 2)
    ensures ReSplit(v) == [v[..i]] + ReSplit(v[i + SepLen(v, i)..])
    ensures SplitSeps(v) == [v[i..i + SepLen(v, i)]] + SplitSeps(v[i + SepLen(v, i)..])
    ensures v[i..i + SepLen(v, i)] == "von" || v[i..i + SepLen(v, i)] == "of"
  {
    NextSepAt(v, i);
    PieceStep(v, i);
    SepText(v, i);
  }

  /** The piece before the leftmost separator, then the rest's pieces. */
  lemma PieceStep(v: string, i: nat)
    requires NextSep(v, 0) == Some(i)
    ensures i + SepLen(v, i) <= |v|
    ensures ReSplit(v) == [v[..i]] + ReSplit(v[i + SepLen(v, i)..])
  {
    NextSepAt(v, i);
  }

  /** The leftmost separator found lies inside the text. */
  lemma NextSepAt(v: string, i: nat)
    requires NextSep(v, 0) == Some(i)
    ensures SepLen(v, i) > 0 && i + SepLen(v, i) <= |v|
  {
    NextSepFacts(v, 0);
  }

  /** A separator found is the text `von` or `of`. */
  lemma SepText(v: string, i: nat)
    requires SepLen(v, i) > 0
    ensures SepLen(v, i) == 3 || SepLen(v, i) == 2
    ensures i + SepLen(v, i) <= |v|
    ensures v[i..i + SepLen(v, i)] == "von" || v[i..i + SepLen(v, i)] == "of"
  {
  }

  /** Every element of `[x] + xs` is `x` or an element of `xs`. */
  lemma PrependAll(x: string, xs: seq<string>)
    ensures forall k :: 1 <= k < |[x] + xs| ==> ([x] + xs)[k] == xs[k - 1]
  {
  }

  /** Before the leftmost separator the text holds neither `von` nor `of`. */
  lemma SepFree(v: string, i: nat)
    requires i <= |v| && forall k :: 0 <= k < i ==> SepLen(v, k) == 0
    ensures !Contains(v[..i], "von") && !Contains(v[..i], "of")
  {
    var head := v[..i];
    forall k: nat
      ensures !OccursAt(head, "von", k) && !OccursAt(head, "of", k)
    {
      if k + 2 <= i {
        assert SepLen(v, k) == 0;
        assert head[k..k + 2] == v[k..k + 2];
        if k + 3 <= i {
          assert head[k..k + 3] == v[k..k + 3];
        }
      }
    }
    ContainsIff(head, "von");
    ContainsIff(head, "of");
  }

  /** A space is no separator character either. */
  lemma NoSepSpaced(u: string)
    requires NoSepChar(u)
    ensures NoSepChar(u + " ") && NoSepChar(" " + u)
  {
    assert forall k :: 0 <= k < |u| ==> (u + " ")[k] == u[k] && (" " + u)[k + 1] == u[k];
  }

  /** A rendered number holds digits only: no whitespace, no separator. */
  lemma DecimalPlain(n: nat)
    ensures Decimal(n) != [] && NoSepChar(Decimal(n))
    ensures forall k :: 0 <= k < |Decimal(n)| ==> !IsSpace(Decimal(n)[k])
  {
    DecimalRoundTrip(n);
  }

  // ---------------------------------------------------------------------
  // The lift counts
  // ---------------------------------------------------------------------

  /** With a separator, the open count comes from the first piece and the
      total from the first word of the second, whatever pieces follow; when
      the total cannot be read, the open count stored before stays. */
  lemma LiftCountsRead(v: string, data: Data, x: string, y: string, open: int)
    requires Contains(v, "von") || Contains(v, "of")
    requires |ReSplit(v)| >= 2 && ReSplit(v)[0] == x && ReSplit(v)[1] == y
    requires PyInt(Strip(x)) == Some(open)
    ensures var w := FirstWord(Strip(y));
            LiftCounts(v, data)
            == if w.Some? && PyInt(w.value).Some?
               then data[LiftsOpenCount := Int(open)][LiftsTotalCount := Int(PyInt(w.value).value)]
               else data[LiftsOpenCount := Int(open)]
  {
  }

  /** Field by field, for every lift text: without a separator nothing
      changes; with one there are at least two pieces, the open count is
      stored exactly when the first piece reads as an integer, the total
      exactly when, after that, the first word of the second piece does too,
      and no other field changes. */
  lemma LiftCountsFields(v: string, data: Data)
    ensures var d := LiftCounts(v, data);
            !(Contains(v, "von") || Contains(v, "of")) ==> d == data
    ensures var d := LiftCounts(v, data);
            (Contains(v, "von") || Contains(v, "of")) ==>
              |ReSplit(v)| >= 2
              && var open := PyInt(Strip(ReSplit(v)[0]));
                 var word := FirstWord(Strip(ReSplit(v)[1]));
                 var total := if open.Some? && word.Some? then PyInt(word.value) else None;
                 && (LiftsOpenCount in d <==> LiftsOpenCount in data || open.Some?)
                 && (open.Some? ==> d[LiftsOpenCount] == Int(open.value))
                 && (open.None? ==> d == data)
                 && (LiftsTotalCount in d <==> LiftsTotalCount in data || total.Some?)
                 && (total.Some? ==> d[LiftsTotalCount] == Int(total.value))
                 && (total.None? && LiftsTotalCount in data ==> d[LiftsTotalCount] == data[LiftsTotalCount])
    ensures var d := LiftCounts(v, data);
            forall f :: f != LiftsOpenCount && f != LiftsTotalCount ==>
              (f in d <==> f in data) && (f in d ==> d[f] == data[f])
  {
    if Contains(v, "von") || Contains(v, "of") {
      SplitHasTwo(v);
    }
  }

  /** Without `von` or `of` in it, the lift text is not read. */
  lemma LiftsNeedSeparator(v: string, data: Data)
    requires !Contains(v, "von") && !Contains(v, "of")
    ensures LiftCounts(v, data) == data
  {
  }

  /** "a von b ..." (or "a of b ...") stores both counts, whatever words
      follow the total, such as "5 von 12 offen" or "5 of 12 lifts open". */
  lemma LiftsWithTrailer(a: nat, b: nat, sep: string, tail: string, data: Data)
    requires sep == "von" || sep == "of"
    requires tail == [] || IsSpace(tail[0])
    ensures LiftCounts(Decimal(a) + " " + sep + " " + Decimal(b) + tail, data)
            == data[LiftsOpenCount := Int(a)][LiftsTotalCount := Int(b)]
  {
    var v := Decimal(a) + " " + sep + " " + Decimal(b) + tail;
    var q := LiftPieces(a, b, sep, tail);
    TotalWord(b, q);
    DecimalRoundTrip(a);
    DecimalRoundTrip(b);
    assert [] + Decimal(a) + " " == Decimal(a) + " ";
    StripSurrounded([], Decimal(a), " ");
    LiftCountsRead(v, data, Decimal(a) + " ", " " + Decimal(b) + q, a);
  }

  /** How `re.split` cuts "a von b ...": the open count with its blank, then
      the total with its blank and what follows up to the next separator. */
  lemma LiftPieces(a: nat, b: nat, sep: string, tail: string) returns (q: string)
    requires sep == "von" || sep == "of"
    requires tail == [] || IsSpace(tail[0])
    ensures var v := Decimal(a) + " " + sep + " " + Decimal(b) + tail;
            && (Contains(v, "von") || Contains(v, "of"))
            && |ReSplit(v)| >= 2 && ReSplit(v)[0] == Decimal(a) + " "
            && ReSplit(v)[1] == " " + Decimal(b) + q && (q == [] || IsSpace(q[0]))
  {
    var x, y := Decimal(a) + " ", " " + Decimal(b);
    var v := x + sep + (y + tail);
    assert v == Decimal(a) + " " + sep + " " + Decimal(b) + tail;
    DecimalPlain(a);
    DecimalPlain(b);
    NoSepSpaced(Decimal(a));
    NoSepSpaced(Decimal(b));
    assert OccursAt(v, sep, |x|) by {
      assert v[|x|..|x| + |sep|] == sep;
    }
    ContainsIff(v, sep);
    SplitFirst(x, sep, y + tail);
    SplitKeepsPrefix(y, tail);
    var p := ReSplit(y + tail)[0];
    q := tail[..|p| - |y|];
    assert q == [] || q[0] == tail[0];
  }

  /** The first word of the total's piece is the total. */
  lemma TotalWord(b: nat, q: string)
    requires q == [] || IsSpace(q[0])
    ensures FirstWord(Strip(" " + Decimal(b) + q)) == Some(Decimal(b))
  {
    DecimalPlain(b);
    StripFirstWord(" " + Decimal(b) + q);
    FirstWordOf(" ", Decimal(b), q);
  }

  /** The lift line as the German site writes it. */
  lemma LiftsExample(data: Data)
    ensures LiftCounts("5 von 12 offen", data) == data[LiftsOpenCount := Int(5)][LiftsTotalCount := Int(12)]
  {
    assert Decimal(5) == "5" && Decimal(12) == "12";
    assert "5 von 12 offen" == Decimal(5) + " " + "von" + " " + Decimal(12) + " offen";
    LiftsWithTrailer(5, 12, "von", " offen", data);
  }

  /** "a von b" (or "a of b") stores both counts. */
  lemma LiftsFromText(a: nat, b: nat, sep: string, data: Data)
    requires sep == "von" || sep == "of"
    ensures LiftCounts(Decimal(a) + " " + sep + " " + Decimal(b), data)
            == data[LiftsOpenCount := Int(a)][LiftsTotalCount := Int(b)]
  {
    assert Decimal(a) + " " + sep + " " + Decimal(b) + [] == Decimal(a) + " " + sep + " " + Decimal(b);
    LiftsWithTrailer(a, b, sep, [], data);
  }

  /** "a von" with nothing after it: `split()[0]` raises IndexError, which
      the handler catches after the open count is stored. */
  lemma LiftsOpenOnly(a: nat, sep: string, data: Data)
    requires sep == "von" || sep == "of"
    ensures LiftCounts(Decimal(a) + " " + sep, data) == data[LiftsOpenCount := Int(a)]
  {
    var x := Decimal(a) + " ";
    var v := x + sep;
    DecimalPlain(a);
    DecimalRoundTrip(a);
    NoSepSpaced(Decimal(a));
    assert OccursAt(v, sep, |x|) by {
      assert v[|x|..|x| + |sep|] == sep;
    }
    ContainsIff(v, sep);
    assert v == x + sep + [];
    SplitAround(x, sep, []);
    assert [] + Decimal(a) + " " == x;
    StripSurrounded([], Decimal(a), " ");
    StripKeeps([]);
    FirstWordFacts([]);
    LiftCountsRead(v, data, x, [], a);
  }

  /** "von b" with no open count: `int("")` raises ValueError before
      anything is stored. */
  lemma LiftsNeedOpen(b: nat, sep: string, data: Data)
    requires sep == "von" || sep == "of"
    ensures LiftCounts(sep + " " + Decimal(b), data) == data
  {
    var y := " " + Decimal(b);
    var v := sep + y;
    DecimalPlain(b);
    NoSepSpaced(Decimal(b));
    assert OccursAt(v, sep, 0) by {
      assert v[0..|sep|] == sep;
    }
    ContainsIff(v, sep);
    assert v == [] + sep + y;
    assert Contains(v, "von") || Contains(v, "of");
    SplitAround([], sep, y);
    StripKeeps([]);
    PyIntFacts([]);
    LiftCountsNoOpen(v, data, []);
  }

  /** When the text before the first separator is no integer, nothing is
      stored. */
  lemma LiftCountsNoOpen(v: string, data: Data, x: string)
    requires Contains(v, "von") || Contains(v, "of")
    requires |ReSplit(v)| >= 2 && ReSplit(v)[0] == x && PyInt(Strip(x)).None?
    ensures LiftCounts(v, data) == data
  {
  }

  /** Lift counts the lift stage stores reach the page, and set its status. */
  lemma LiftsReach(l: Data, d: Data, a: int, b: int)
    requires Decides(l, d, 3, 4)
    requires LiftsOpenCount in l && l[LiftsOpenCount] == Int(a)
    requires LiftsTotalCount in l && l[LiftsTotalCount] == Int(b)
    requires Status in d && (d[Status] == Str("Open") <==> OpenByLifts(d))
    ensures LiftsOpenCount in d && d[LiftsOpenCount] == Int(a)
    ensures LiftsTotalCount in d && d[LiftsTotalCount] == Int(b)
    ensures d[Status] == Str("Open") <==> a > 0
  {
    assert Writer(LiftsOpenCount) == 3 && Writer(LiftsTotalCount) == 3;
  }

  /** On a page whose lift text reads "a von b", the page carries both counts
      and says "Open" exactly when `a` is positive. */
  lemma LiftsOnPage(doc: Document, now: DateTime, a: nat, b: nat, sep: string)
    requires Valid(now)
    requires sep == "von" || sep == "of"
    requires TextForLabels(doc, Labels.Variants(Labels.Lifts)) == Some(Decimal(a) + " " + sep + " " + Decimal(b))
    ensures var o := Outcome(doc, now); o.Page? ==>
              && LiftsOpenCount in o.data && o.data[LiftsOpenCount] == Int(a)
              && LiftsTotalCount in o.data && o.data[LiftsTotalCount] == Int(b)
              && Status in o.data && (o.data[Status] == Str("Open") <==> a > 0)
  {
    var o := Outcome(doc, now);
    LiftsFromText(a, b, sep, Texted(doc));
    assert Lifted(doc) == Texted(doc)[LiftsOpenCount := Int(a)][LiftsTotalCount := Int(b)];
    if o.Page? {
      PageFields(doc, now);
      PageStatus(doc, now);
      LiftsReach(Lifted(doc), o.data, a, b);
    }
  }

  // ---------------------------------------------------------------------
  // float() on the kilometre figures
  // ---------------------------------------------------------------------

  /** `float()` of a string of digits is that integer. */
  lemma FloatOfDigits(t: string)
    requires t != [] && AllDigits(t)
    ensures PyFloat(t) == Some(DecimalNumber(DecimalValue(t), 0))
  {
    FindChar(t, '.');
  }

  /** `float(w + "." + f)` is the decimal with the digits of `w` and `f` and
      `|f|` places after the point; at least one side must hold a digit. */
  lemma FloatOfPoint(w: string, f: string)
    requires AllDigits(w) && AllDigits(f)
    ensures PyFloat(w + "." + f)
            == if w == [] && f == [] then None else Some(DecimalNumber(DecimalValue(w + f), |f|))
  {
    var t := w + "." + f;
    FindChar(t, '.');
    assert t[|w|] == '.';
    assert Builtins.Find(t, ".", 0) == Some(|w|);
    assert t[..|w|] == w && t[|w| + 1..] == f;
  }

  /** A second point makes `float()` raise. */
  lemma FloatRejectsTwoPoints(w: string, f: string, g: string)
    requires AllDigits(w) && AllDigits(f)
    ensures PyFloat(w + "." + f + "." + g) == None
  {
    var t := w + "." + f + "." + g;
    FindChar(t, '.');
    assert t[|w|] == '.';
    assert Builtins.Find(t, ".", 0) == Some(|w|);
    assert t[|w| + 1..][|f|] == '.';
  }

  /** A decimal comma reads as the point. */
  lemma KmOfComma(w: string, f: string)
    requires AllDigits(w) && AllDigits(f)
    ensures KmValue(w + "," + f) == PyFloat(w + "." + f)
  {
    var t := w + "," + f;
    ReplaceCharAll(t, ',', '.');
    assert ReplaceAll(t, ",", ".") == w + "." + f;
  }

  /** Digits alone are not rewritten. */
  lemma KmOfDigits(t: string)
    requires AllDigits(t)
    ensures KmValue(t) == PyFloat(t)
  {
    ReplaceCharAll(t, ',', '.');
    assert ReplaceAll(t, ",", ".") == t;
  }

  // ---------------------------------------------------------------------
  // The piste figures
  // ---------------------------------------------------------------------

  predicate NoDigit(g: string) {
    forall k :: 0 <= k < |g| ==> !IsDigit(g[k])
  }

  predicate NoNumChar(g: string) {
    forall k :: 0 <= k < |g| ==> !IsNumChar(g[k])
  }

  /** The path through `SlopeFigures` without "km", for two digit runs. */
  lemma SlopeCountsRead(v: string, data: Data, u1: string, u2: string)
    requires !Contains(v, "km") && Runs(v, IsDigit) == [u1, u2]
    requires AllDigits(u1) && AllDigits(u2)
    ensures SlopeFigures(v, data)
            == Page(data[SlopesOpenCount := Int(DecimalValue(u1))][SlopesTotalCount := Int(DecimalValue(u2))])
  {
  }

  /** Without "km", the digit runs give the counts, whatever their number:
      the first is the open count and the second the total; with fewer runs
      only those present are set, a text without digits sets neither, and
      nothing fails. No other field changes. */
  lemma SlopeCountsAnyRuns(v: string, data: Data)
    requires !Contains(v, "km")
    ensures var nums := Runs(v, IsDigit);
            && (forall k :: 0 <= k < |nums| ==> nums[k] != [] && AllDigits(nums[k]))
            && (nums == [] <==> forall k :: 0 <= k < |v| ==> !IsDigit(v[k]))
    ensures SlopeFigures(v, data).Page?
    ensures var nums, d := Runs(v, IsDigit), SlopeFigures(v, data).data;
            && (SlopesOpenCount in d <==> SlopesOpenCount in data || |nums| >= 1)
            && (|nums| >= 1 ==> d[SlopesOpenCount] == Int(DecimalValue(nums[0])))
            && (|nums| < 1 && SlopesOpenCount in data ==> d[SlopesOpenCount] == data[SlopesOpenCount])
            && (SlopesTotalCount in d <==> SlopesTotalCount in data || |nums| >= 2)
            && (|nums| >= 2 ==> d[SlopesTotalCount] == Int(DecimalValue(nums[1])))
            && (|nums| < 2 && SlopesTotalCount in data ==> d[SlopesTotalCount] == data[SlopesTotalCount])
            && forall f :: f != SlopesOpenCount && f != SlopesTotalCount ==>
                 (f in d <==> f in data) && (f in d ==> d[f] == data[f])
  {
    RunsFacts(v, IsDigit);
    RunsEmpty(v, IsDigit);
  }

  /** The paths through `SlopeFigures` with "km". */
  lemma SlopeKmRead(v: string, data: Data)
    requires Contains(v, "km")
    ensures var nums := Runs(v, IsNumChar);
            && (|nums| >= 1 && KmValue(nums[0]).None? ==> SlopeFigures(v, data) == Failed(ValueError))
            && (|nums| >= 2 && KmValue(nums[1]).None? ==> SlopeFigures(v, data) == Failed(ValueError))
            && (|nums| == 1 && KmValue(nums[0]).Some? ==>
                  SlopeFigures(v, data) == Page(data[SlopesOpenKm := Float(KmValue(nums[0]).value)]))
            && (|nums| == 2 && KmValue(nums[0]).Some? && KmValue(nums[1]).Some? ==>
                  SlopeFigures(v, data)
                  == Page(data[SlopesOpenKm := Float(KmValue(nums[0]).value)][SlopesTotalKm := Float(KmValue(nums[1]).value)]))
  {
  }

  /** Without "km" the first two digit runs are the open and total counts,
      whatever words surround them, and nothing can fail. */
  lemma SlopeCountsFromText(a: nat, b: nat, gap: string, tail: string, data: Data)
    requires gap != [] && NoDigit(gap) && NoDigit(tail)
    requires !Contains(Decimal(a) + gap + Decimal(b) + tail, "km")
    ensures SlopeFigures(Decimal(a) + gap + Decimal(b) + tail, data)
            == Page(data[SlopesOpenCount := Int(a)][SlopesTotalCount := Int(b)])
  {
    DecimalRoundTrip(a);
    DecimalRoundTrip(b);
    RunsOfTwo(Decimal(a), gap, Decimal(b), tail, IsDigit);
    SlopeCountsRead(Decimal(a) + gap + Decimal(b) + tail, data, Decimal(a), Decimal(b));
  }

  /** With "km", two whole figures are the open and total kilometres. */
  lemma SlopeKmFromText(a: nat, b: nat, gap: string, tail: string, data: Data)
    requires gap != [] && NoNumChar(gap) && NoNumChar(tail)
    requires Contains(Decimal(a) + gap + Decimal(b) + tail, "km")
    ensures SlopeFigures(Decimal(a) + gap + Decimal(b) + tail, data)
            == Page(data[SlopesOpenKm := Float(DecimalNumber(a, 0))][SlopesTotalKm := Float(DecimalNumber(b, 0))])
  {
    DecimalRoundTrip(a);
    DecimalRoundTrip(b);
    RunsOfTwo(Decimal(a), gap, Decimal(b), tail, IsNumChar);
    KmOfDigits(Decimal(a));
    FloatOfDigits(Decimal(a));
    KmOfDigits(Decimal(b));
    FloatOfDigits(Decimal(b));
    SlopeKmRead(Decimal(a) + gap + Decimal(b) + tail, data);
  }

  /** A figure written with a decimal comma, such as "12,5 km", is the open
      kilometres; the total is left as it was. */
  lemma SlopeKmComma(w: string, f: string, tail: string, data: Data)
    requires w != [] && AllDigits(w) && AllDigits(f) && NoNumChar(tail)
    requires Contains(w + "," + f + tail, "km")
    ensures SlopeFigures(w + "," + f + tail, data)
            == Page(data[SlopesOpenKm := Float(DecimalNumber(DecimalValue(w + f), |f|))])
  {
    var u := w + "," + f;
    assert forall k :: 0 <= k < |u| ==> IsNumChar(u[k]);
    RunsNone(tail, IsNumChar);
    RunsFirst(u, tail, IsNumChar);
    KmOfComma(w, f);
    FloatOfPoint(w, f);
    SlopeKmRead(u + tail, data);
  }

  /** A stray point before the first figure, as in "ca. 12 km", is a run of
      its own; `float(".")` raises ValueError and the page is lost. */
  lemma SlopeKmStrayPoint(g: string, rest: string, data: Data)
    requires NoNumChar(g) && (rest == [] || !IsNumChar(rest[0]))
    requires Contains(g + "." + rest, "km")
    ensures SlopeFigures(g + "." + rest, data) == Failed(ValueError)
  {
    RunsCons(g, ".", rest, IsNumChar);
    assert ReplaceAll(".", ",", ".") == "." by {
      ReplaceCharAll(".", ',', '.');
    }
    FindChar(".", '.');
    assert PyFloat(".") == None;
    SlopeKmRead(g + "." + rest, data);
  }

  /** A figure with a thousands point and a decimal comma, such as
      "1.234,5 km", reads as two points after the rewrite; `float()` raises. */
  lemma SlopeKmThousands(w: string, f: string, g: string, tail: string, data: Data)
    requires AllDigits(w) && AllDigits(f) && AllDigits(g) && (tail == [] || !IsNumChar(tail[0]))
    requires Contains(w + "." + f + "," + g + tail, "km")
    ensures SlopeFigures(w + "." + f + "," + g + tail, data) == Failed(ValueError)
  {
    var u := w + "." + f + "," + g;
    assert forall k :: 0 <= k < |u| ==> IsNumChar(u[k]);
    RunsFirst(u, tail, IsNumChar);
    ReplaceCharAll(u, ',', '.');
    assert ReplaceAll(u, ",", ".") == w + "." + f + "." + g;
    FloatRejectsTwoPoints(w, f, g);
    SlopeKmRead(u + tail, data);
  }

  /** The kilometre branch raises exactly when one of the first two runs is
      not a number `float()` reads; nothing else in the piste stage fails. */
  predicate KmRejected(v: string) {
    Contains(v, "km")
    && var nums := Runs(v, IsNumChar);
       (|nums| >= 1 && KmValue(nums[0]).None?) || (|nums| >= 2 && KmValue(nums[1]).None?)
  }

  lemma SlopeFiguresFail(v: string, data: Data)
    ensures SlopeFigures(v, data).Failed? <==> KmRejected(v)
    ensures SlopeFigures(v, data).Failed? ==> SlopeFigures(v, data).error == ValueError
  {
    if Contains(v, "km") {
      SlopeKmRead(v, data);
    }
  }

  // ---------------------------------------------------------------------
  // What reaches the page
  // ---------------------------------------------------------------------

  /** The piste text on the page is one `float()` rejects. */
  predicate SlopesRaise(doc: Document) {
    var v := TextForLabels(doc, Labels.Variants(Labels.Slopes));
    Truthy(v) && KmRejected(v.value)
  }

  /** The first `div.h2-sub` holds a text the date parser raises on. */
  predicate StampRaises(doc: Document, now: DateTime)
    requires Valid(now)
  {
    var sub := Soup.Find(doc, "div", Some("h2-sub"));
    sub.Some? && ParseBergfexDateTime(Strip(TextOf(sub.value)), now).Raised?
  }

  lemma UpdateStageFail(doc: Document, now: DateTime, data: Data)
    requires Valid(now)
    ensures UpdateStage(doc, now, data).Failed? <==> StampRaises(doc, now)
    ensures StampRaises(doc, now) ==>
              UpdateStage(doc, now, data).error
              == ParseBergfexDateTime(Strip(TextOf(Soup.Find(doc, "div", Some("h2-sub")).value)), now).error
  {
  }

  /** `parse_resort_page` raises exactly when the piste figures or the
      last-update stamp raise, and the piste error comes first. */
  lemma FailsOnlyWhen(doc: Document, now: DateTime)
    requires Valid(now)
    ensures Outcome(doc, now).Failed? <==> SlopesRaise(doc) || StampRaises(doc, now)
    ensures SlopesRaise(doc) ==> Outcome(doc, now) == Failed(ValueError)
    ensures !SlopesRaise(doc) && StampRaises(doc, now) ==>
              Outcome(doc, now)
              == Failed(ParseBergfexDateTime(Strip(TextOf(Soup.Find(doc, "div", Some("h2-sub")).value)), now).error)
  {
    var l := Lifted(doc);
    var v := TextForLabels(doc, Labels.Variants(Labels.Slopes));
    if Truthy(v) {
      SlopeFiguresFail(v.value, l);
    }
    if SlopeStage(doc, l).Page? {
      UpdateStageFail(doc, now, ConditionStage(doc, SlopeStage(doc, l).data));
    }
  }

  /** The resort name is the stripped text of the first `h1`, unless that
      text is a placeholder; without an `h1` there is no name. */
  lemma NameOnPage(doc: Document, now: DateTime)
    requires Valid(now)
    ensures var o := Outcome(doc, now); o.Page? ==>
              match Soup.Find(doc, "h1", None)
              case None => ResortName !in o.data
              case Some(h1) =>
                var name := Str(Strip(TextOf(h1)));
                (ResortName in o.data <==> !Placeholder(name))
                && (ResortName in o.data ==> o.data[ResortName] == name)
  {
    var o := Outcome(doc, now);
    if o.Page? {
      var named := NameStage(doc, map[]);
      SnowLoopWrites(named, BigDts(doc));
      PageFields(doc, now);
      NameReach(named, Snowed(doc), o.data);
    }
  }

  lemma NameReach(named: Data, snowed: Data, d: Data)
    requires Untouched(named, snowed, 1, 2) && Decides(snowed, d, 0, 2)
    ensures ResortName in d <==> ResortName in named && !Placeholder(named[ResortName])
    ensures ResortName in d ==> d[ResortName] == named[ResortName]
  {
    assert Writer(ResortName) == 0;
  }

  /** A last-update text in the form the site writes it is stored as that
      instant, and then only the piste figures can make the page fail. */
  lemma UpdateFromStamp(doc: Document, now: DateTime, t: DateTime)
    requires Valid(now)
    requires Valid(t) && 1000 <= t.year && t.second == 0 && t.microsecond == 0
    requires var sub := Soup.Find(doc, "div", Some("h2-sub"));
             sub.Some? && Strip(TextOf(sub.value)) == Stamp(t)
    ensures Outcome(doc, now).Failed? <==> SlopesRaise(doc)
    ensures var o := Outcome(doc, now); o.Page? ==> LastUpdate in o.data && o.data[LastUpdate] == Date(t)
  {
    StampRoundTrip(t, now);
    FailsOnlyWhen(doc, now);
    var o := Outcome(doc, now);
    if o.Page? {
      PageIsLast(doc, now);
      var c := ConditionStage(doc, SlopeStage(doc, Lifted(doc)).data);
      UpdateStores(doc, now, t, c);
      UpdateReach(Last(doc, now), c, t);
    }
  }

  lemma UpdateStores(doc: Document, now: DateTime, t: DateTime, data: Data)
    requires Valid(now)
    requires Valid(t) && 1000 <= t.year && t.second == 0 && t.microsecond == 0
    requires var sub := Soup.Find(doc, "div", Some("h2-sub"));
             sub.Some? && Strip(TextOf(sub.value)) == Stamp(t)
    ensures UpdateStage(doc, now, data) == Page(data[LastUpdate := Date(t)])
  {
    StampRoundTrip(t, now);
  }

  lemma UpdateReach(last: Data, c: Data, t: DateTime)
    requires last == c[LastUpdate := Date(t)]
    ensures LastUpdate in Finish(last) && Finish(last)[LastUpdate] == Date(t)
  {
    FinishFacts(last);
  }

  /** One field a stage decides, as it reaches the page. */
  lemma FieldReach(stage: Data, page: Data, f: Field, lo: nat, hi: nat)
    requires Decides(stage, page, lo, hi) && lo <= Writer(f) < hi
    ensures f in page <==> f in stage && !Placeholder(stage[f])
    ensures f in page ==> page[f] == stage[f]
  {
  }

  /** The `dt.big` whose depth ends up as the valley depth: the last valley
      label, or failing that the first snow-height label. */
  function ValleySource(dts: seq<Occurrence>): Option<nat> {
    match LastWhere(dts, Announcer(Labels.Valley))
    case Some(i) => Some(i)
    case None => FirstWhere(dts, Announcer(Labels.SnowHeight))
  }

  /** Removing the unit from a text that ends in it and holds no other 'c'. */
  lemma DropUnit(u: string)
    requires forall k :: 0 <= k < |u| ==> u[k] != 'c'
    ensures ReplaceAll(u + "cm", "cm", "") == u
  {
    var s := u + "cm";
    UnitFound(u);
    assert s[..|u|] == u;
    assert s[|u| + 2..] == [];
    var e: string := [];
    assert ReplaceAll(e, "cm", "") == e;
    assert ReplaceAll(s, "cm", "") == s[..|u|] + "" + ReplaceAll(s[|u| + 2..], "cm", "");
  }

  lemma UnitFound(u: string)
    requires forall k :: 0 <= k < |u| ==> u[k] != 'c'
    ensures Builtins.Find(u + "cm", "cm", 0) == Some(|u|)
  {
    var s := u + "cm";
    forall k | 0 <= k < |u|
      ensures !OccursAt(s, "cm", k)
    {
      assert s[k] == u[k];
      if k + 2 <= |s| {
        assert s[k..k + 2][0] == s[k];
      }
    }
    assert s[|u|..|u| + 2] == "cm";
    FindFirst(s, "cm", |u|);
  }

  /** A depth written "n cm" reads as the number alone. */
  lemma SnowDepthText(n: nat)
    ensures Strip(ReplaceAll(Decimal(n) + " cm", "cm", "")) == Decimal(n)
  {
    DecimalRoundTrip(n);
    DecimalPlain(n);
    var u := Decimal(n) + " ";
    assert forall k :: 0 <= k < |u| ==> u[k] != 'c';
    assert u + "cm" == Decimal(n) + " cm";
    DropUnit(u);
    assert [] + Decimal(n) + " " == u;
    StripSurrounded([], Decimal(n), " ");
  }

  /** The snow depths on the page: the mountain depth from the last
      mountain `dt.big`, the valley depth from `ValleySource`; each is
      absent when there is no such `dt.big` or its text is a placeholder. */
  lemma SnowOnPage(doc: Document, now: DateTime)
    requires Valid(now)
    ensures var o, dts := Outcome(doc, now), BigDts(doc); o.Page? ==>
              var m, v := LastWhere(dts, Announcer(Labels.Mountain)), ValleySource(dts);
              && (m.None? ==> SnowMountain !in o.data)
              && (m.Some? ==> m.value < |dts| && BigDd(dts[m.value]).Some?
                              && (SnowMountain in o.data <==> !Placeholder(Depth(dts[m.value])))
                              && (SnowMountain in o.data ==> o.data[SnowMountain] == Depth(dts[m.value])))
              && (v.None? ==> SnowValley !in o.data)
              && (v.Some? ==> v.value < |dts| && BigDd(dts[v.value]).Some?
                              && (SnowValley in o.data <==> !Placeholder(Depth(dts[v.value])))
                              && (SnowValley in o.data ==> o.data[SnowValley] == Depth(dts[v.value])))
  {
    var o, dts := Outcome(doc, now), BigDts(doc);
    if o.Page? {
      var named := NameStage(doc, map[]);
      NameStageWrites(doc, map[]);
      assert Writer(SnowMountain) == 1 && Writer(SnowValley) == 1;
      assert SnowMountain !in named && SnowValley !in named;
      MountainDepth(named, dts);
      ValleyDepth(named, dts);
      PageFields(doc, now);
      FieldReach(Snowed(doc), o.data, SnowMountain, 0, 2);
      FieldReach(Snowed(doc), o.data, SnowValley, 0, 2);
    }
  }

  /** The avalanche text as stored: without "Lawinenwarndienst", stripped. */
  function Avalanche(v: string): string {
    Strip(ReplaceAll(v, "Lawinenwarndienst", ""))
  }

  /** The text stage on a dictionary that holds none of its fields yet. */
  lemma TextStageFields(doc: Document, data: Data)
    requires SnowCondition !in data && LastSnowfall !in data && AvalancheWarning !in data
    ensures var sc, t := TextForLabels(doc, Labels.Variants(Labels.SnowCondition)), TextStage(doc, data);
            (SnowCondition in t <==> Truthy(sc)) && (SnowCondition in t ==> t[SnowCondition] == Str(sc.value))
    ensures var ls, t := TextForLabels(doc, Labels.Variants(Labels.LastSnowfall)), TextStage(doc, data);
            (LastSnowfall in t <==> Truthy(ls)) && (LastSnowfall in t ==> t[LastSnowfall] == Str(ls.value))
    ensures var aw, t := TextForLabels(doc, Labels.Variants(Labels.AvalancheWarning)), TextStage(doc, data);
            (AvalancheWarning in t <==> Truthy(aw))
            && (AvalancheWarning in t ==> t[AvalancheWarning] == Str(Avalanche(aw.value)))
  {
  }

  /** The three text fields on the page: present exactly when the label
      lookup found a text that is not a placeholder, with that text; the
      avalanche warning loses the word "Lawinenwarndienst". */
  lemma TextsOnPage(doc: Document, now: DateTime)
    requires Valid(now)
    ensures var o := Outcome(doc, now); o.Page? ==>
              var sc := TextForLabels(doc, Labels.Variants(Labels.SnowCondition));
              (SnowCondition in o.data <==> Truthy(sc) && sc.value != "-")
              && (SnowCondition in o.data ==> o.data[SnowCondition] == Str(sc.value))
    ensures var o := Outcome(doc, now); o.Page? ==>
              var ls := TextForLabels(doc, Labels.Variants(Labels.LastSnowfall));
              (LastSnowfall in o.data <==> Truthy(ls) && ls.value != "-")
              && (LastSnowfall in o.data ==> o.data[LastSnowfall] == Str(ls.value))
    ensures var o := Outcome(doc, now); o.Page? ==>
              var aw := TextForLabels(doc, Labels.Variants(Labels.AvalancheWarning));
              (AvalancheWarning in o.data <==> Truthy(aw) && !Placeholder(Str(Avalanche(aw.value))))
              && (AvalancheWarning in o.data ==> o.data[AvalancheWarning] == Str(Avalanche(aw.value)))
  {
    var o := Outcome(doc, now);
    if o.Page? {
      var named := NameStage(doc, map[]);
      NameStageWrites(doc, map[]);
      SnowLoopWrites(named, BigDts(doc));
      UntouchedChain(map[], named, Snowed(doc), 0, 1, 2);
      PageFields(doc, now);
      TextsReach(doc, Snowed(doc), o.data);
    }
  }

  lemma TextsReach(doc: Document, s: Data, d: Data)
    requires Untouched(map[], s, 0, 2) && Decides(TextStage(doc, s), d, 2, 3)
    ensures var sc := TextForLabels(doc, Labels.Variants(Labels.SnowCondition));
            (SnowCondition in d <==> Truthy(sc) && sc.value != "-")
            && (SnowCondition in d ==> d[SnowCondition] == Str(sc.value))
    ensures var ls := TextForLabels(doc, Labels.Variants(Labels.LastSnowfall));
            (LastSnowfall in d <==> Truthy(ls) && ls.value != "-")
            && (LastSnowfall in d ==> d[LastSnowfall] == Str(ls.value))
    ensures var aw := TextForLabels(doc, Labels.Variants(Labels.AvalancheWarning));
            (AvalancheWarning in d <==> Truthy(aw) && !Placeholder(Str(Avalanche(aw.value))))
            && (AvalancheWarning in d ==> d[AvalancheWarning] == Str(Avalanche(aw.value)))
  {
    assert Writer(SnowCondition) == 2 && Writer(LastSnowfall) == 2 && Writer(AvalancheWarning) == 2;
    TextStageFields(doc, s);
    FieldReach(TextStage(doc, s), d, SnowCondition, 2, 3);
    FieldReach(TextStage(doc, s), d, LastSnowfall, 2, 3);
    FieldReach(TextStage(doc, s), d, AvalancheWarning, 2, 3);
  }

  /** Before the piste stage, no field of it or of a later stage is stored. */
  lemma NothingBeforeSlopes(doc: Document)
    ensures Untouched(map[], Lifted(doc), 0, 4)
  {
    var named := NameStage(doc, map[]);
    NameStageWrites(doc, map[]);
    SnowLoopWrites(named, BigDts(doc));
    UntouchedChain(map[], named, Snowed(doc), 0, 1, 2);
    TextStageWrites(doc, Snowed(doc));
    UntouchedChain(map[], Snowed(doc), Texted(doc), 0, 2, 3);
    LiftStageWrites(doc, Texted(doc));
    UntouchedChain(map[], Texted(doc), Lifted(doc), 0, 3, 4);
  }

  /** Before the slope-condition stage, no later stage's field is stored. */
  lemma NothingLateBefore(doc: Document)
    ensures SlopeStage(doc, Lifted(doc)).Page? ==>
              Untouched(map[], SlopeStage(doc, Lifted(doc)).data, 0, 5)
  {
    NothingBeforeSlopes(doc);
    SlopeStageWrites(doc, Lifted(doc));
    if SlopeStage(doc, Lifted(doc)).Page? {
      UntouchedChain(map[], Lifted(doc), SlopeStage(doc, Lifted(doc)).data, 0, 4, 5);
    }
  }

  /** On a page whose piste text reads "a ... b" without "km", the page
      carries both counts and no kilometre figure. */
  lemma SlopeCountsOnPage(doc: Document, now: DateTime, a: nat, b: nat, gap: string, tail: string)
    requires Valid(now)
    requires gap != [] && NoDigit(gap) && NoDigit(tail)
    requires !Contains(Decimal(a) + gap + Decimal(b) + tail, "km")
    requires TextForLabels(doc, Labels.Variants(Labels.Slopes)) == Some(Decimal(a) + gap + Decimal(b) + tail)
    ensures var o := Outcome(doc, now); o.Page? ==>
              && SlopesOpenCount in o.data && o.data[SlopesOpenCount] == Int(a)
              && SlopesTotalCount in o.data && o.data[SlopesTotalCount] == Int(b)
              && SlopesOpenKm !in o.data && SlopesTotalKm !in o.data
  {
    var o := Outcome(doc, now);
    var l := Lifted(doc);
    SlopeCountsFromText(a, b, gap, tail, l);
    DecimalPlain(a);
    assert SlopeStage(doc, l) == Page(l[SlopesOpenCount := Int(a)][SlopesTotalCount := Int(b)]);
    if o.Page? {
      NothingBeforeSlopes(doc);
      PageFields(doc, now);
      SlopeCountsReach(l, SlopeStage(doc, l).data, o.data, a, b);
    }
  }

  lemma SlopeCountsReach(l: Data, p: Data, d: Data, a: int, b: int)
    requires Untouched(map[], l, 0, 4)
    requires p == l[SlopesOpenCount := Int(a)][SlopesTotalCount := Int(b)]
    requires Decides(p, d, 4, 5)
    ensures SlopesOpenCount in d && d[SlopesOpenCount] == Int(a)
    ensures SlopesTotalCount in d && d[SlopesTotalCount] == Int(b)
    ensures SlopesOpenKm !in d && SlopesTotalKm !in d
  {
    assert Writer(SlopesOpenKm) == 4 && Writer(SlopesTotalKm) == 4;
    assert Writer(SlopesOpenCount) == 4 && Writer(SlopesTotalCount) == 4;
    FieldReach(p, d, SlopesOpenCount, 4, 5);
    FieldReach(p, d, SlopesTotalCount, 4, 5);
    FieldReach(p, d, SlopesOpenKm, 4, 5);
    FieldReach(p, d, SlopesTotalKm, 4, 5);
  }

  /** On a page that parses, the slope-condition and last-update stages each
      decide their own field, and neither field is stored before its stage. */
  lemma LateDecides(doc: Document, now: DateTime)
    requires Valid(now)
    ensures var o := Outcome(doc, now); o.Page? ==>
              var p := SlopeStage(doc, Lifted(doc)).data;
              var c := ConditionStage(doc, p);
              && SlopeCondition !in p && LastUpdate !in c
              && UpdateStage(doc, now, c).Page?
              && Decides(c, o.data, 5, 6)
              && Decides(UpdateStage(doc, now, c).data, o.data, 6, 7)
  {
    var o := Outcome(doc, now);
    if o.Page? {
      PageIsLast(doc, now);
      NothingLateBefore(doc);
      var p := SlopeStage(doc, Lifted(doc)).data;
      var c := ConditionStage(doc, p);
      ConditionStageWrites(doc, p);
      LateAbsent(p, c);
      UpdateStageWrites(doc, now, c);
      DecidesVia(c, Last(doc, now), 5, 6);
      DecidesVia(Last(doc, now), Last(doc, now), 6, 7);
    }
  }

  lemma LateAbsent(p: Data, c: Data)
    requires Untouched(map[], p, 0, 5) && Untouched(p, c, 5, 6)
    ensures SlopeCondition !in p && LastUpdate !in c
  {
    assert Writer(SlopeCondition) == 5 && Writer(LastUpdate) == 6;
  }

  /** The slope condition on the page: the label text unless it is a
      placeholder. */
  lemma ConditionOnPage(doc: Document, now: DateTime)
    requires Valid(now)
    ensures var o := Outcome(doc, now); o.Page? ==>
              var v := TextForLabels(doc, Labels.Variants(Labels.SlopeCondition));
              (SlopeCondition in o.data <==> Truthy(v) && v.value != "-")
              && (SlopeCondition in o.data ==> o.data[SlopeCondition] == Str(v.value))
  {
    var o := Outcome(doc, now);
    LateDecides(doc, now);
    if o.Page? {
      ConditionReach(doc, SlopeStage(doc, Lifted(doc)).data, o.data);
    }
  }

  lemma ConditionReach(doc: Document, p: Data, d: Data)
    requires SlopeCondition !in p && Decides(ConditionStage(doc, p), d, 5, 6)
    ensures var v := TextForLabels(doc, Labels.Variants(Labels.SlopeCondition));
            (SlopeCondition in d <==> Truthy(v) && v.value != "-")
            && (SlopeCondition in d ==> d[SlopeCondition] == Str(v.value))
  {
    assert Writer(SlopeCondition) == 5;
    FieldReach(ConditionStage(doc, p), d, SlopeCondition, 5, 6);
  }

  /** The last update on the page is present exactly when the first
      `div.h2-sub` holds a text the date parser reads, and is then that
      instant; a text it cannot read leaves the field out. */
  lemma UpdateOnPage(doc: Document, now: DateTime)
    requires Valid(now)
    ensures var o, sub := Outcome(doc, now), Soup.Find(doc, "div", Some("h2-sub")); o.Page? ==>
              (LastUpdate in o.data <==> sub.Some? && ParseBergfexDateTime(Strip(TextOf(sub.value)), now).Parsed?)
              && (LastUpdate in o.data ==>
                    o.data[LastUpdate] == Date(ParseBergfexDateTime(Strip(TextOf(sub.value)), now).value))
  {
    var o := Outcome(doc, now);
    LateDecides(doc, now);
    if o.Page? {
      UpdateStageReach(doc, now, ConditionStage(doc, SlopeStage(doc, Lifted(doc)).data), o.data);
    }
  }

  lemma UpdateStageReach(doc: Document, now: DateTime, c: Data, d: Data)
    requires Valid(now) && LastUpdate !in c
    requires UpdateStage(doc, now, c).Page? && Decides(UpdateStage(doc, now, c).data, d, 6, 7)
    ensures var sub := Soup.Find(doc, "div", Some("h2-sub"));
            (LastUpdate in d <==> sub.Some? && ParseBergfexDateTime(Strip(TextOf(sub.value)), now).Parsed?)
            && (LastUpdate in d ==> d[LastUpdate] == Date(ParseBergfexDateTime(Strip(TextOf(sub.value)), now).value))
  {
    assert Writer(LastUpdate) == 6;
    UpdateStageField(doc, now, c);
    FieldReach(UpdateStage(doc, now, c).data, d, LastUpdate, 6, 7);
  }

  /** The update stage on a dictionary without a last update. */
  lemma UpdateStageField(doc: Document, now: DateTime, c: Data)
    requires Valid(now) && LastUpdate !in c
    ensures var u, sub := UpdateStage(doc, now, c), Soup.Find(doc, "div", Some("h2-sub")); u.Page? ==>
              (LastUpdate in u.data <==> sub.Some? && ParseBergfexDateTime(Strip(TextOf(sub.value)), now).Parsed?)
              && (LastUpdate in u.data ==>
                    u.data[LastUpdate] == Date(ParseBergfexDateTime(Strip(TextOf(sub.value)), now).value))
  {
  }
}
