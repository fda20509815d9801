/**
 * The sampler widget's `state` dictionary as far as its workflow steps read
 * it: the steps' completion checks, the two numeric inputs that write the
 * interval length and the interval error, and the chains of guards that
 * `createNewIntervals` and `previewIntervals` run before doing any work.
 * Every guard of a chain tests one state entry; the first one that fails
 * shows its warning and ends the operation.
 */
module WorkflowState {
  import opened Common
  import opened Decimal
  import opened JsValues
  import opened InterpolatableList

  /** The entries of the widget's state that the modelled code reads. An
      entry the dictionary does not hold is Undefined. */
  datatype WidgetState = WidgetState(
    skeletonId: JsValue,
    samplerId: JsValue,
    domain: JsValue,
    interval: JsValue,
    intervalLength: JsValue,
    intervalError: JsValue,
    interpolateLocations: JsValue,
    interpolatableX: JsValue,
    interpolatableY: JsValue,
    interpolatableZ: JsValue,
    connectorId: JsValue,
    connectorSourceNodeId: JsValue,
    partnerSelected: JsValue)

  /** The workflow steps, in the order the widget shows them. */
  datatype Step = Backbone | Domain | Interval | Synapse | Partner

  /** Each step's `isComplete`. The first four ask only whether an entry is
      present (`undefined !==`); the partner step asks whether its entry is
      truthy (`!!`). */
  predicate IsComplete(step: Step, s: WidgetState)
    ensures step == Partner && IsComplete(step, s) ==> s.partnerSelected != Undefined && s.partnerSelected != Null
    ensures step == Synapse && IsComplete(step, s) ==> s.connectorId != Undefined
    ensures step == Synapse && IsComplete(step, s) ==> s.connectorSourceNodeId != Undefined
  {
    match step
    case Backbone => s.samplerId != Undefined
    case Domain => s.domain != Undefined
    case Interval => s.interval != Undefined
    case Synapse => s.connectorId != Undefined && s.connectorSourceNodeId != Undefined
    case Partner => Truthy(s.partnerSelected)
  }

  /** A present but falsy entry (null, 0, "") completes the first four steps
      but a falsy `partnerSelected` leaves the partner step incomplete, and
      the synapse step needs both of its entries. */
  lemma CompletionIsPresenceExceptForPartner(s: WidgetState, v: JsValue)
    requires v != Undefined && !Truthy(v)
    ensures IsComplete(Backbone, s.(samplerId := v))
    ensures IsComplete(Domain, s.(domain := v))
    ensures IsComplete(Interval, s.(interval := v))
    ensures IsComplete(Synapse, s.(connectorId := v, connectorSourceNodeId := v))
    ensures !IsComplete(Synapse, s.(connectorId := v, connectorSourceNodeId := Undefined))
    ensures !IsComplete(Partner, s.(partnerSelected := v))
  {
  }

  /** JavaScript's `Number(text)` for blank text and decimal integer
      notation: blank text is 0, an optional sign and digits give their
      value, anything else is NaN. */
  function JsNumber(text: string): (v: JsValue)
    ensures v.Num? || v.NaN?
    ensures Trim(text) == [] ==> v == Num(0.0)
  {
    var t := Trim(text);
    if t == [] then Num(0.0)
    else
      var d := Unsigned(t);
      if d != [] && AllDigits(d) then
        var magnitude := DecimalValue(d) as real;
        if t[0] == '-' then Num(-magnitude) else Num(magnitude)
      else NaN
  }

  /** `Number` reads an integer's decimal notation as that integer. */
  lemma JsNumberOfInteger(i: int)
    ensures JsNumber(IntToString(i)) == Num(i as real)
  {
    var t := IntToString(i);
    TrimIntegerText(i, "");
    assert "" + t == t;
    assert Trim(t) == t;
    var n: nat := if i < 0 then -i else i;
    var d := NatToString(n);
    DecimalValueOfNatToString(n);
    if i < 0 {
      JsNumberOfDigits(d, true);
      assert t == "-" + d;
    } else {
      JsNumberOfDigits(d, false);
      assert t == d;
    }
  }

  /** `Number` of a run of digits, with a minus sign in front or none, once
      trimming leaves the text alone. */
  lemma JsNumberOfDigits(d: string, negative: bool)
    requires d != [] && AllDigits(d)
    requires Trim(if negative then "-" + d else d) == (if negative then "-" + d else d)
    ensures JsNumber(if negative then "-" + d else d) ==
      Num(if negative then -(DecimalValue(d) as real) else DecimalValue(d) as real)
  {
    var t := if negative then "-" + d else d;
    assert t != [];
    if negative {
      assert t[0] == '-';
      assert t[1..] == d;
    } else {
      assert IsDigit(d[0]);
      assert t[0] != '-' && t[0] != '+';
    }
    assert Unsigned(t) == d;
  }

  /** Where `Number` reads a number from non-blank text, `parseInt` reads
      the same number from it: the two differ only on text `Number` rejects
      (trailing garbage such as "12abc", which `parseInt` reads as 12). */
  lemma JsNumberAgreesWithParseInt(text: string)
    ensures JsNumber(text).Num? && Trim(text) != [] ==> ParseInt(text).Some? && JsNumber(text) == Num(ParseInt(text).value as real)
  {
    var s := TrimStart(text);
    var t := Trim(text);
    if JsNumber(text).Num? && t != [] {
      TrimEndSkipsWhitespace(s);
      assert t == s[..|t|];
      var ws := s[|t|..];
      assert s == t + ws;
      assert ws == [] || !IsDigit(ws[0]) by {
        if ws != [] {
          assert IsJsWhitespace(s[|t|]);
        }
      }
      var d := Unsigned(t);
      assert d != [] && AllDigits(d);
      assert s[0] == t[0];
      if t[0] == '-' || t[0] == '+' {
        assert t == [t[0]] + d;
        assert Unsigned(s) == d + ws;
      } else {
        assert Unsigned(s) == d + ws;
      }
      DigitPrefixOfDigits(d, ws);
      assert DigitPrefix(Unsigned(s)) == d;
    }
  }

  /** The interval length input's `onchange` as written: it stores the
      input's text itself. */
  function SetIntervalLengthAsWritten(s: WidgetState, text: string): (r: WidgetState)
    ensures r.intervalLength == Str(text)
    ensures Truthy(r.intervalLength) <==> text != []
    ensures r == s.(intervalLength := r.intervalLength)
  {
    s.(intervalLength := Str(text))
  }

  /** The interval length input's `onchange` as the interval error input
      next to it does it: it stores `Number(text)`, so the guards see the
      number typed. */
  function SetIntervalLength(s: WidgetState, text: string): (r: WidgetState)
    ensures r.intervalLength == JsNumber(text)
    ensures Truthy(r.intervalLength) <==> JsNumber(text).Num? && JsNumber(text).n != 0.0
    ensures r == s.(intervalLength := r.intervalLength)
  {
    s.(intervalLength := JsNumber(text))
  }

  /** The interval error input's `onchange`: it stores `Number(text)`. */
  function SetIntervalError(s: WidgetState, text: string): (r: WidgetState)
    ensures r.intervalError == JsNumber(text)
    ensures Truthy(r.intervalError) <==> JsNumber(text).Num? && JsNumber(text).n != 0.0
    ensures r == s.(intervalError := r.intervalError)
  {
    s.(intervalError := JsNumber(text))
  }

  /** One `if (...) { CATMAID.warn(warning); return; }` of a guard chain. */
  datatype Guard = Guard(passes: bool, warning: string)

  datatype GuardOutcome = Proceed | Stop(index: nat, warning: string)

  /** Run the guards in order: stop at the first one that fails. */
  function FirstFailure(guards: seq<Guard>): (r: GuardOutcome)
    ensures r.Proceed? <==> forall i :: 0 <= i < |guards| ==> guards[i].passes
    ensures r.Stop? ==> r.index < |guards| && !guards[r.index].passes
    ensures r.Stop? ==> r.warning == guards[r.index].warning
    ensures r.Stop? ==> forall j :: 0 <= j < r.index ==> guards[j].passes
  {
    if guards == [] then Proceed
    else if !guards[0].passes then Stop(0, guards[0].warning)
    else match FirstFailure(guards[1..])
      case Proceed => Proceed
      case Stop(i, w) => Stop(i + 1, w)
  }

  /** A chain of seven guards goes on exactly when each of them passes. */
  lemma ProceedsIffSevenPass(g: seq<Guard>)
    requires |g| == 7
    ensures FirstFailure(g).Proceed? <==>
      g[0].passes && g[1].passes && g[2].passes && g[3].passes &&
      g[4].passes && g[5].passes && g[6].passes
  {
    if g[0].passes && g[1].passes && g[2].passes && g[3].passes && g[4].passes && g[5].passes && g[6].passes {
      forall i | 0 <= i < 7
        ensures g[i].passes
      {
        assert i == 0 || i == 1 || i == 2 || i == 3 || i == 4 || i == 5 || i == 6;
      }
    }
  }

  /** When the guards before `k` pass and guard `k` fails, the chain stops
      at `k` with its warning. */
  lemma StopsAtFirstFailing(g: seq<Guard>, k: nat)
    requires k < |g| && !g[k].passes
    requires forall j :: 0 <= j < k ==> g[j].passes
    ensures FirstFailure(g) == Stop(k, g[k].warning)
  {
    var r := FirstFailure(g);
    assert r.Stop?;
    assert r.index <= k && r.index >= k;
  }

  const NoXList := "No valid X interpolatable list found"
  const NoYList := "No valid Y interpolatable list found"
  const NoZList := "No valid Z interpolatable list found"
  const NoIntervalLength := "Can't create intervals without interval length"

  /** The guards of `createNewIntervals` as written: the Y and Z guards test
      the X list again. */
  function CreateIntervalsGuardsAsWritten(s: WidgetState): (g: seq<Guard>)
    ensures |g| == 7
    ensures g[4].warning == NoXList && g[5].warning == NoYList && g[6].warning == NoZList
    ensures g[4].passes == Truthy(s.interpolatableX)
    ensures g[5].passes == g[4].passes && g[6].passes == g[4].passes
    ensures g[2] == Guard(Truthy(s.intervalLength), NoIntervalLength)
  {
    [ Guard(Truthy(s.skeletonId), "Can't create intervals without skeleton ID"),
      Guard(Truthy(s.domain), "Can't create intervals without domain"),
      Guard(Truthy(s.intervalLength), NoIntervalLength),
      Guard(Truthy(s.intervalError), "Can't create intervals without interval error"),
      Guard(Truthy(s.interpolatableX), NoXList),
      Guard(Truthy(s.interpolatableX), NoYList),
      Guard(Truthy(s.interpolatableX), NoZList) ]
  }

  /** The guards of `createNewIntervals` as their warnings say they should
      be: each list guard tests its own list. */
  function CreateIntervalsGuards(s: WidgetState): (g: seq<Guard>)
    ensures |g| == 7
    ensures g[..5] == CreateIntervalsGuardsAsWritten(s)[..5]
    ensures g[5].warning == NoYList && g[5].passes == Truthy(s.interpolatableY)
    ensures g[6].warning == NoZList && g[6].passes == Truthy(s.interpolatableZ)
  {
    CreateIntervalsGuardsAsWritten(s)[..5] +
    [ Guard(Truthy(s.interpolatableY), NoYList),
      Guard(Truthy(s.interpolatableZ), NoZList) ]
  }

  /** The guards of `previewIntervals` as written; the Y and Z guards again
      test the X list. */
  function PreviewGuardsAsWritten(s: WidgetState): (g: seq<Guard>)
    ensures |g| == 7
    ensures g[4].warning == NoXList && g[5].warning == NoYList && g[6].warning == NoZList
    ensures g[4].passes == Truthy(s.interpolatableX)
    ensures g[5].passes == g[4].passes && g[6].passes == g[4].passes
    ensures g[3].passes <==> s.interpolateLocations != Undefined
  {
    [ Guard(Truthy(s.skeletonId), "Please select a skeleton first"),
      Guard(Truthy(s.intervalLength), "No valid interval length found"),
      Guard(Truthy(s.intervalError), "No valid interval error value found"),
      Guard(s.interpolateLocations != Undefined, "Can't create domain without section interpolation information"),
      Guard(Truthy(s.interpolatableX), NoXList),
      Guard(Truthy(s.interpolatableX), NoYList),
      Guard(Truthy(s.interpolatableX), NoZList) ]
  }

  /** The guards of `previewIntervals` with each list guard testing its
      own list. */
  function PreviewGuards(s: WidgetState): (g: seq<Guard>)
    ensures |g| == 7
    ensures g[..5] == PreviewGuardsAsWritten(s)[..5]
    ensures g[5].warning == NoYList && g[5].passes == Truthy(s.interpolatableY)
    ensures g[6].warning == NoZList && g[6].passes == Truthy(s.interpolatableZ)
  {
    PreviewGuardsAsWritten(s)[..5] +
    [ Guard(Truthy(s.interpolatableY), NoYList),
      Guard(Truthy(s.interpolatableZ), NoZList) ]
  }

  /** As written, `createNewIntervals` goes on exactly when the skeleton,
      domain, interval length, interval error and X list are truthy; the Y and
      Z lists play no part. */
  lemma CreateIntervalsAsWrittenIgnoresYZ(s: WidgetState)
    ensures FirstFailure(CreateIntervalsGuardsAsWritten(s)).Proceed? <==>
      Truthy(s.skeletonId) && Truthy(s.domain) && Truthy(s.intervalLength) &&
      Truthy(s.intervalError) && Truthy(s.interpolatableX)
  {
    ProceedsIffSevenPass(CreateIntervalsGuardsAsWritten(s));
  }

  /** With the corrected guards, `createNewIntervals` goes on exactly when
      all seven entries are truthy. */
  lemma CreateIntervalsNeedsAllLists(s: WidgetState)
    ensures FirstFailure(CreateIntervalsGuards(s)).Proceed? <==>
      Truthy(s.skeletonId) && Truthy(s.domain) && Truthy(s.intervalLength) &&
      Truthy(s.intervalError) && Truthy(s.interpolatableX) &&
      Truthy(s.interpolatableY) && Truthy(s.interpolatableZ)
  {
    ProceedsIffSevenPass(CreateIntervalsGuards(s));
  }

  /** As written, `previewIntervals` goes on exactly when the skeleton,
      interval length, interval error and X list are truthy and the
      interpolation flag is present. */
  lemma PreviewAsWrittenIgnoresYZ(s: WidgetState)
    ensures FirstFailure(PreviewGuardsAsWritten(s)).Proceed? <==>
      Truthy(s.skeletonId) && Truthy(s.intervalLength) && Truthy(s.intervalError) &&
      s.interpolateLocations != Undefined && Truthy(s.interpolatableX)
  {
    ProceedsIffSevenPass(PreviewGuardsAsWritten(s));
  }

  lemma PreviewNeedsAllLists(s: WidgetState)
    ensures FirstFailure(PreviewGuards(s)).Proceed? <==>
      Truthy(s.skeletonId) && Truthy(s.intervalLength) && Truthy(s.intervalError) &&
      s.interpolateLocations != Undefined && Truthy(s.interpolatableX) &&
      Truthy(s.interpolatableY) && Truthy(s.interpolatableZ)
  {
    ProceedsIffSevenPass(PreviewGuards(s));
  }

  /** A state whose Y list is missing: as written both operations go on;
      with the corrected guards both stop with the Y warning. */
  lemma MissingYListGoesUnnoticed(s: WidgetState)
    requires Truthy(s.skeletonId) && Truthy(s.domain) && Truthy(s.intervalLength)
    requires Truthy(s.intervalError) && Truthy(s.interpolatableX) && s.interpolateLocations != Undefined
    requires s.interpolatableY == Undefined
    ensures FirstFailure(CreateIntervalsGuardsAsWritten(s)).Proceed?
    ensures FirstFailure(CreateIntervalsGuards(s)) == Stop(5, NoYList)
    ensures FirstFailure(PreviewGuardsAsWritten(s)).Proceed?
    ensures FirstFailure(PreviewGuards(s)) == Stop(5, NoYList)
  {
    CreateIntervalsAsWrittenIgnoresYZ(s);
    PreviewAsWrittenIgnoresYZ(s);
    StopsAtFirstFailing(CreateIntervalsGuards(s), 5);
    StopsAtFirstFailing(PreviewGuards(s), 5);
  }

  /** A numeric zero interval length stops `createNewIntervals` at the
      interval length guard, once skeleton and domain are set. */
  lemma ZeroIntervalLengthStops(s: WidgetState)
    requires Truthy(s.skeletonId) && Truthy(s.domain)
    requires s.intervalLength == Num(0.0)
    ensures FirstFailure(CreateIntervalsGuardsAsWritten(s)) == Stop(2, NoIntervalLength)
    ensures FirstFailure(CreateIntervalsGuards(s)) == Stop(2, NoIntervalLength)
  {
    var g := CreateIntervalsGuardsAsWritten(s);
    assert g[0].passes && g[1].passes && !g[2].passes;
    var h := CreateIntervalsGuards(s);
    assert h[0].passes && h[1].passes && !h[2].passes;
  }

  /** Typing "0" into the interval length input: as written the text "0" is
      stored, which is truthy, so the length guard lets it through; storing
      `Number(text)` instead stops at that guard. */
  lemma TypedZeroLengthPassesGuard(s: WidgetState)
    requires Truthy(s.skeletonId) && Truthy(s.domain)
    ensures var t := SetIntervalLengthAsWritten(s, "0");
      FirstFailure(CreateIntervalsGuardsAsWritten(t)).Proceed? ||
      FirstFailure(CreateIntervalsGuardsAsWritten(t)).index > 2
    ensures FirstFailure(CreateIntervalsGuards(SetIntervalLength(s, "0"))) == Stop(2, NoIntervalLength)
  {
    var t := SetIntervalLengthAsWritten(s, "0");
    var g := CreateIntervalsGuardsAsWritten(t);
    assert g[0].passes && g[1].passes && g[2].passes;
    var u := SetIntervalLength(s, "0");
    assert Trim("0") == "0";
    assert Unsigned("0") == "0";
    assert DecimalValue("0") == 0;
    assert u.intervalLength == Num(0.0);
    ZeroIntervalLengthStops(u);
  }
}
