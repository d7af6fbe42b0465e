/**
 * The pure computations of the renderer: the rate-of-change series drawn in
 * the chart, the help overlay's text fragments, size and rectangle, and the
 * choice of which output panes to show. Widgets, layout and colours are not
 * modelled.
 */
module Draw {
  import opened Wrappers

  // ---------------------------------------------------------------------
  //  The rate series

  /** A point of a series: (time, value). Floating point is modelled by `real`. */
  type Point = (real, real)

  /**
   * The state of the scan after some points: the anchor (the last point
   * whose value differed from its anchor, or the first point) and the
   * rates emitted so far.
   */
  datatype RateState = RateState(anchor: Option<Point>, emitted: seq<Point>)

  /** The rate from `a` to `b`, keyed at `a`'s time. */
  function RateFrom(a: Point, b: Point): Point
    requires a.0 != b.0
  {
    (a.0, (b.1 - a.1) / (b.0 - a.0))
  }

  /** The step on `p` divides by a non-zero time difference, if it divides at all. */
  predicate StepDefined(state: RateState, p: Point) {
    state.anchor.Some? && state.anchor.value.1 != p.1 ==> state.anchor.value.0 != p.0
  }

  /**
   * One step of the scan: the first point becomes the anchor and emits
   * nothing; a point with the anchor's value emits nothing and leaves the
   * anchor; any other point emits the rate from the anchor to it, keyed at
   * the anchor's time, and becomes the anchor.
   */
  function ScanStep(state: RateState, p: Point): (r: RateState)
    requires StepDefined(state, p)
    ensures r.anchor.Some? && r.anchor.value.1 == p.1
    ensures state.emitted <= r.emitted && |r.emitted| <= |state.emitted| + 1
    ensures |r.emitted| == |state.emitted| + 1 <==> state.anchor.Some? && state.anchor.value.1 != p.1
  {
    match state.anchor
    case None => RateState(Some(p), state.emitted)
    case Some(a) =>
      if p.1 == a.1 then state
      else RateState(Some(p), state.emitted + [RateFrom(a, p)])
  }

  /** The scan over all of `data`. */
  function ScanRates(data: seq<Point>): RateState
    requires RatesDefined(data)
    decreases |data|, 1
  {
    if data == [] then RateState(None, [])
    else ScanStep(ScanRates(data[..|data| - 1]), data[|data| - 1])
  }

  /** No rate divides by zero: a point whose value differs from its anchor's has a different time. */
  predicate RatesDefined(data: seq<Point>)
    decreases |data|, 0
  {
    data == [] ||
    (RatesDefined(data[..|data| - 1]) &&
     StepDefined(ScanRates(data[..|data| - 1]), data[|data| - 1]))
  }

  /** The rate series: the scan's emissions without the first. */
  function AnalyzeRate(data: seq<Point>): seq<Point>
    requires RatesDefined(data)
  {
    var emitted := ScanRates(data).emitted;
    if emitted == [] then [] else emitted[1..]
  }

  /** The scan emits at most one rate for each point after the first. */
  lemma {:induction false} ScanEmitsAtMostOnePerStep(data: seq<Point>)
    requires RatesDefined(data)
    ensures |ScanRates(data).emitted| + 1 <= |data| || (data == [] && ScanRates(data).emitted == [])
    decreases |data|
  {
    if data != [] {
      var pre := data[..|data| - 1];
      ScanEmitsAtMostOnePerStep(pre);
    }
  }

  /**
   * After the warm-up discard the series has at most one entry for each
   * point after the second: none for fewer than three points.
   */
  lemma AnalyzeRateLength(data: seq<Point>)
    requires RatesDefined(data)
    ensures |AnalyzeRate(data)| + 2 <= |data| || AnalyzeRate(data) == []
  {
    ScanEmitsAtMostOnePerStep(data);
  }

  /** The indices at which the value changes from the previous point, in increasing order. */
  function Changes(data: seq<Point>): (c: seq<nat>)
    ensures forall k :: 0 <= k < |c| ==> 1 <= c[k] < |data| && data[c[k]].1 != data[c[k] - 1].1
    decreases |data|
  {
    if |data| <= 1 then []
    else
      var n := |data| - 1;
      var pre := data[..n];
      assert forall j :: 0 <= j < n ==> pre[j] == data[j];
      Changes(pre) + (if data[n].1 != data[n - 1].1 then [n] else [])
  }

  /** The change indices are increasing and miss no change of value. */
  lemma {:induction false} ChangesAreAllChanges(data: seq<Point>)
    ensures forall k, l :: 0 <= k < l < |Changes(data)| ==> Changes(data)[k] < Changes(data)[l]
    ensures forall j :: 1 <= j < |data| && data[j].1 != data[j - 1].1 ==> j in Changes(data)
    decreases |data|
  {
    if |data| > 1 {
      var n := |data| - 1;
      var pre := data[..n];
      ChangesAreAllChanges(pre);
      var cPre := Changes(pre);
      var c := Changes(data);
      assert c == cPre + (if data[n].1 != data[n - 1].1 then [n] else []);
      forall k, l | 0 <= k < l < |c|
        ensures c[k] < c[l]
      {
        assert c[k] == cPre[k];
        if l < |cPre| {
          assert c[l] == cPre[l];
        } else {
          assert cPre[k] < |pre| && c[l] == n;
        }
      }
      forall j | 1 <= j < |data| && data[j].1 != data[j - 1].1
        ensures j in c
      {
        if j < n {
          assert pre[j] == data[j] && pre[j - 1] == data[j - 1];
          assert j in cPre;
        }
      }
    }
  }

  /** The index of the anchor after all of `data`: the last change, or the first point. */
  function AnchorIndex(data: seq<Point>): (i: nat)
    requires data != []
    ensures i < |data|
  {
    var c := Changes(data);
    if c == [] then 0 else c[|c| - 1]
  }

  /** The index the k-th change's rate is measured from: the previous change, or the first point. */
  function ChangeAnchor(c: seq<nat>, k: nat): nat
    requires k < |c|
  {
    if k == 0 then 0 else c[k - 1]
  }

  /** `e` holds, for each change listed in `c`, the rate from that change's anchor index to it. */
  predicate RatesAtChanges(data: seq<Point>, c: seq<nat>, e: seq<Point>) {
    |e| == |c| &&
    forall k :: 0 <= k < |c| ==>
      c[k] < |data| && ChangeAnchor(c, k) < |data| &&
      data[ChangeAnchor(c, k)].0 != data[c[k]].0 &&
      e[k] == RateFrom(data[ChangeAnchor(c, k)], data[c[k]])
  }

  /** The scan's anchor is the last change (or the first point) and has the last point's value. */
  lemma {:induction false} ScanAnchor(data: seq<Point>)
    requires RatesDefined(data) && data != []
    ensures ScanRates(data).anchor == Some(data[AnchorIndex(data)])
    ensures data[AnchorIndex(data)].1 == data[|data| - 1].1
    decreases |data|
  {
    var n := |data| - 1;
    var pre := data[..n];
    if n > 0 {
      ScanAnchor(pre);
      assert forall j :: 0 <= j < n ==> pre[j] == data[j];
      if data[n].1 == data[AnchorIndex(pre)].1 {
        assert Changes(data) == Changes(pre);
      } else {
        assert Changes(data) == Changes(pre) + [n];
      }
    }
  }

  /** Rates stated over a prefix of the points hold over all of them. */
  lemma RatesAtChangesGrow(pre: seq<Point>, data: seq<Point>, c: seq<nat>, e: seq<Point>)
    requires |pre| <= |data| && forall j :: 0 <= j < |pre| ==> pre[j] == data[j]
    requires RatesAtChanges(pre, c, e)
    ensures RatesAtChanges(data, c, e)
  {
  }

  /** One more change, with its rate from the last change (or the first point). */
  lemma RatesAtChangesSnoc(data: seq<Point>, c: seq<nat>, e: seq<Point>, n: nat)
    requires RatesAtChanges(data, c, e) && n < |data|
    requires |c| == 0 ==> data[0].0 != data[n].0
    requires |c| > 0 ==> data[c[|c| - 1]].0 != data[n].0
    ensures var a := if |c| == 0 then 0 else c[|c| - 1];
      RatesAtChanges(data, c + [n], e + [RateFrom(data[a], data[n])])
  {
    var a := if |c| == 0 then 0 else c[|c| - 1];
    var c' := c + [n];
    var e' := e + [RateFrom(data[a], data[n])];
    forall k | 0 <= k < |c'|
      ensures c'[k] < |data| && ChangeAnchor(c', k) < |data| &&
        data[ChangeAnchor(c', k)].0 != data[c'[k]].0 &&
        e'[k] == RateFrom(data[ChangeAnchor(c', k)], data[c'[k]])
    {
      if k < |c| {
        assert c'[k] == c[k] && e'[k] == e[k] && ChangeAnchor(c', k) == ChangeAnchor(c, k);
      } else {
        assert c'[k] == n && e'[k] == RateFrom(data[a], data[n]) && ChangeAnchor(c', k) == a;
      }
    }
  }

  /** What the scan of all points but the last has established. */
  predicate ScannedBefore(data: seq<Point>)
    requires |data| > 1 && RatesDefined(data)
  {
    var pre := data[..|data| - 1];
    RatesAtChanges(pre, Changes(pre), ScanRates(pre).emitted) &&
    ScanRates(pre).anchor == Some(data[AnchorIndex(pre)]) &&
    data[AnchorIndex(pre)].1 == data[|data| - 2].1
  }

  /** A last point with the anchor's value adds no change and no emission. */
  lemma ScanEmitsFlat(data: seq<Point>)
    requires |data| > 1 && RatesDefined(data) && ScannedBefore(data)
    requires data[|data| - 1].1 == data[AnchorIndex(data[..|data| - 1])].1
    ensures RatesAtChanges(data, Changes(data), ScanRates(data).emitted)
  {
    var n := |data| - 1;
    var pre := data[..n];
    RatesAtChangesGrow(pre, data, Changes(pre), ScanRates(pre).emitted);
    assert Changes(data) == Changes(pre);
    assert ScanRates(data).emitted == ScanRates(pre).emitted;
  }

  /** A last point with another value is a change, and emits the rate from the anchor to it. */
  lemma ScanEmitsChange(data: seq<Point>)
    requires |data| > 1 && RatesDefined(data) && ScannedBefore(data)
    requires data[|data| - 1].1 != data[AnchorIndex(data[..|data| - 1])].1
    ensures RatesAtChanges(data, Changes(data), ScanRates(data).emitted)
  {
    var n := |data| - 1;
    var pre := data[..n];
    var cPre := Changes(pre);
    var ePre := ScanRates(pre).emitted;
    var ai := AnchorIndex(pre);
    RatesAtChangesGrow(pre, data, cPre, ePre);
    assert Changes(data) == cPre + [n];
    assert ScanRates(data).emitted == ePre + [RateFrom(data[ai], data[n])];
    RatesAtChangesSnoc(data, cPre, ePre, n);
  }

  /**
   * The scan's emissions in terms of the change indices alone: the k-th is
   * the rate from the previous change (or the first point) to the k-th
   * change, keyed at the former's time.
   */
  lemma {:induction false} ScanEmitsAtChanges(data: seq<Point>)
    requires RatesDefined(data)
    ensures RatesAtChanges(data, Changes(data), ScanRates(data).emitted)
    decreases |data|
  {
    if |data| > 1 {
      var n := |data| - 1;
      var pre := data[..n];
      ScanEmitsAtChanges(pre);
      var ai := AnchorIndex(pre);
      ScanAnchor(pre);
      assert pre[ai] == data[ai] && pre[n - 1] == data[n - 1];
      assert ScannedBefore(data);
      if data[n].1 == data[ai].1 {
        ScanEmitsFlat(data);
      } else {
        ScanEmitsChange(data);
      }
    }
  }

  /**
   * The rate series after the warm-up discard: one point per pair of
   * consecutive changes, keyed at the earlier change's time and carrying
   * the rate between the two changes.
   */
  lemma AnalyzeRateFollowsChanges(data: seq<Point>)
    requires RatesDefined(data)
    ensures var c := Changes(data);
      |AnalyzeRate(data)| == (if |c| == 0 then 0 else |c| - 1)
    ensures var c := Changes(data);
      forall k :: 0 <= k < |AnalyzeRate(data)| ==>
        data[c[k]].0 != data[c[k + 1]].0 &&
        AnalyzeRate(data)[k] == RateFrom(data[c[k]], data[c[k + 1]])
  {
    ScanEmitsAtChanges(data);
    var c := Changes(data);
    var e := ScanRates(data).emitted;
    if |c| > 0 {
      assert AnalyzeRate(data) == e[1..];
      forall k | 0 <= k < |c| - 1
        ensures data[c[k]].0 != data[c[k + 1]].0 && e[k + 1] == RateFrom(data[c[k]], data[c[k + 1]])
      {
        assert ChangeAnchor(c, k + 1) == c[k];
      }
    }
  }

  /** With no change of value (in particular with fewer than two points) the series is empty. */
  lemma AnalyzeRateWithoutChange(data: seq<Point>)
    requires RatesDefined(data)
    requires forall j :: 0 < j < |data| ==> data[j].1 == data[j - 1].1
    ensures AnalyzeRate(data) == []
  {
    ScanEmitsAtChanges(data);
  }

  /** Distinct times, as successive clock readings give, make every rate defined. */
  lemma {:induction false} DistinctTimesDefineRates(data: seq<Point>)
    requires forall i, j :: 0 <= i < j < |data| ==> data[i].0 != data[j].0
    ensures RatesDefined(data)
    decreases |data|
  {
    if data != [] {
      var n := |data| - 1;
      var pre := data[..n];
      assert forall j :: 0 <= j < n ==> pre[j] == data[j];
      DistinctTimesDefineRates(pre);
      if pre != [] {
        ScanAnchor(pre);
      }
    }
  }

  /**
   * Samples (0, 0), (1, 0), (2, 10): the flat step emits nothing, the
   * anchor stays at time 0, the one emission is the rate 5 from time 0 to
   * time 2, and the warm-up discard drops it.
   */
  lemma FlatThenRiseExample()
    ensures RatesDefined([(0.0, 0.0), (1.0, 0.0), (2.0, 10.0)])
    ensures ScanRates([(0.0, 0.0), (1.0, 0.0), (2.0, 10.0)]).emitted == [(0.0, 5.0)]
    ensures AnalyzeRate([(0.0, 0.0), (1.0, 0.0), (2.0, 10.0)]) == []
  {
    var d: seq<Point> := [(0.0, 0.0), (1.0, 0.0), (2.0, 10.0)];
    assert d[..0] == [];
    assert d[..1] == [(0.0, 0.0)];
    assert d[..1][..0] == [];
    assert d[..2] == [(0.0, 0.0), (1.0, 0.0)];
    assert d[..2][..1] == [(0.0, 0.0)];
    assert RatesDefined(d[..1]);
    assert ScanRates(d[..1]) == RateState(Some((0.0, 0.0)), []);
    assert RatesDefined(d[..2]);
    assert ScanRates(d[..2]) == RateState(Some((0.0, 0.0)), []);
    assert RatesDefined(d);
  }

  // ---------------------------------------------------------------------
  //  The help overlay's text

  /**
   * The help text. Byte 0x02 switches to the highlight style and 0x01
   * back to the default style.
   */
  const HelpText: string :=
    "\U{2}" + "        h:" + "\U{1}" + " Toggle this help window" + "\n" +
    "\U{2}" + " ESC q ^C:" + "\U{1}" + " Quit"

  /** The default style, and the light-cyan highlight. */
  datatype Style = Plain | Highlight

  /** A piece of text drawn in one style. */
  datatype Fragment = Fragment(text: string, style: Style)

  /** A style marker: a byte below 0x08. */
  predicate IsMarker(c: char) {
    (c as int) < 0x08
  }

  /** Every marker is one the splitter knows: 0x01 or 0x02. */
  predicate KnownMarkers(text: string) {
    forall i :: 0 <= i < |text| && IsMarker(text[i]) ==> text[i] as int == 1 || text[i] as int == 2
  }

  function MarkerStyle(c: char): Style
    requires c as int == 1 || c as int == 2
  {
    if c as int == 1 then Plain else Highlight
  }

  /** The position of the first marker in `text`. */
  function FirstMarker(text: string): (r: Option<nat>)
    ensures r.Some? ==> r.value < |text| && IsMarker(text[r.value])
    ensures r.Some? ==> forall k :: 0 <= k < r.value ==> !IsMarker(text[k])
    ensures r.None? ==> forall k :: 0 <= k < |text| ==> !IsMarker(text[k])
    decreases |text|
  {
    if text == [] then None
    else if IsMarker(text[0]) then Some(0)
    else match FirstMarker(text[1..])
      case None => None
      case Some(k) => Some(k + 1)
  }

  /** The fragments of `text` when drawing starts in `style`: text is cut at each marker, which sets the style of what follows. */
  function Fragments(text: string, style: Style): seq<Fragment>
    requires KnownMarkers(text)
    decreases |text|
  {
    match FirstMarker(text)
    case None => [Fragment(text, style)]
    case Some(k) =>
      [Fragment(text[..k], style)] + Fragments(text[k + 1..], MarkerStyle(text[k]))
  }

  /** The markers of `text`, in order. */
  function Markers(text: string): seq<char>
    decreases |text|
  {
    if text == [] then [] else (if IsMarker(text[0]) then [text[0]] else []) + Markers(text[1..])
  }

  /** `text` with its markers removed. */
  function Strip(text: string): string
    decreases |text|
  {
    if text == [] then [] else (if IsMarker(text[0]) then [] else [text[0]]) + Strip(text[1..])
  }

  /** The texts of `frags` joined together. */
  function JoinTexts(frags: seq<Fragment>): string
    decreases |frags|
  {
    if frags == [] then [] else frags[0].text + JoinTexts(frags[1..])
  }

  /** Cutting at the first marker: it is the first of the markers, and the text before it is kept whole. */
  lemma {:induction false} CutAtFirstMarker(text: string, k: nat)
    requires FirstMarker(text) == Some(k)
    ensures Markers(text) == [text[k]] + Markers(text[k + 1..])
    ensures Strip(text) == text[..k] + Strip(text[k + 1..])
    decreases |text|
  {
    if k > 0 {
      CutAtFirstMarker(text[1..], k - 1);
      assert text[1..][k - 1 + 1..] == text[k + 1..];
      assert [text[0]] + text[1..][..k - 1] == text[..k];
    }
  }

  /** A text without markers has none to list and nothing to remove. */
  lemma {:induction false} NoMarkers(text: string)
    requires FirstMarker(text).None?
    ensures Markers(text) == [] && Strip(text) == text
    decreases |text|
  {
    if text != [] {
      NoMarkers(text[1..]);
    }
  }

  /**
   * There is one fragment more than there are markers; the fragments'
   * texts together are the text without its markers; the first fragment
   * has the starting style and each later one the style its marker sets.
   */
  lemma {:induction false} FragmentsFollowMarkers(text: string, style: Style)
    requires KnownMarkers(text)
    ensures |Fragments(text, style)| == |Markers(text)| + 1
    ensures JoinTexts(Fragments(text, style)) == Strip(text)
    ensures Fragments(text, style)[0].style == style
    ensures forall k :: 0 <= k < |Markers(text)| ==>
      (Markers(text)[k] as int == 1 || Markers(text)[k] as int == 2) &&
      Fragments(text, style)[k + 1].style == MarkerStyle(Markers(text)[k])
    decreases |text|
  {
    match FirstMarker(text) {
      case None =>
        NoMarkers(text);
        assert JoinTexts(Fragments(text, style)) == text + [];
      case Some(k) =>
        var rest := text[k + 1..];
        var next := MarkerStyle(text[k]);
        FragmentsFollowMarkers(rest, next);
        CutAtFirstMarker(text, k);
        var frags := Fragments(text, style);
        assert frags == [Fragment(text[..k], style)] + Fragments(rest, next);
        assert frags[1..] == Fragments(rest, next);
        assert JoinTexts(frags) == text[..k] + JoinTexts(Fragments(rest, next));
    }
  }

  /** One round of the splitting loop keeps the fragments still to come. */
  lemma SplitStep(done: seq<Fragment>, rest: string, style: Style)
    requires KnownMarkers(rest) && FirstMarker(rest).Some?
    ensures var k := FirstMarker(rest).value;
      KnownMarkers(rest[k + 1..]) &&
      done + [Fragment(rest[..k], style)] + Fragments(rest[k + 1..], MarkerStyle(rest[k])) == done + Fragments(rest, style)
  {
    var k := FirstMarker(rest).value;
    var suffix := rest[k + 1..];
    assert forall i :: 0 <= i < |suffix| ==> suffix[i] == rest[k + 1 + i];
    var tail := Fragments(suffix, MarkerStyle(rest[k]));
    assert Fragments(rest, style) == [Fragment(rest[..k], style)] + tail;
    FragmentsAssociative(done, [Fragment(rest[..k], style)], tail);
  }

  /** Grouping of concatenation, stated apart so that `SplitStep` stays cheap. */
  lemma FragmentsAssociative(a: seq<Fragment>, b: seq<Fragment>, c: seq<Fragment>)
    ensures a + b + c == a + (b + c)
  {
  }

  /**
   * The splitting loop of the help data's initializer: cut at each marker,
   * push the text before it in the current style, and switch style.
   */
  method SplitHelp(text: string) returns (fragments: seq<Fragment>)
    requires KnownMarkers(text)
    ensures fragments == Fragments(text, Plain)
  {
    var rest := text;
    var style := Plain;
    fragments := [];
    var found := FirstMarker(rest);
    while found.Some?
      invariant KnownMarkers(rest)
      invariant found == FirstMarker(rest)
      invariant fragments + Fragments(rest, style) == Fragments(text, Plain)
      decreases |rest|
    {
      var k := found.value;
      SplitStep(fragments, rest, style);
      fragments := fragments + [Fragment(rest[..k], style)];
      style := if rest[k] as int == 1 then Plain else Highlight;
      rest := rest[k + 1..];
      found := FirstMarker(rest);
    }
    fragments := fragments + [Fragment(rest, style)];
  }

  // ---------------------------------------------------------------------
  //  The help overlay's size

  /** `s` cut at every newline. */
  function SplitLines(s: string): (r: seq<string>)
    ensures |r| >= 1
    ensures |r| == 1 ==> r[0] == s
    decreases |s|
  {
    if s == [] then [[]]
    else
      var rest := SplitLines(s[1..]);
      if s[0] == '\n' then [[]] + rest else [[s[0]] + rest[0]] + rest[1..]
  }

  /**
   * Rust's `str::lines` up to carriage returns: the pieces between
   * newlines, where a final newline ends the last line rather than
   * starting an empty one. A carriage return before a newline would be
   * stripped there; it counts for nothing below, being below 0x20.
   */
  function Lines(s: string): (r: seq<string>)
    ensures s != [] ==> |r| >= 1
  {
    if s == [] then []
    else
      var pieces := SplitLines(s);
      if |pieces| > 1 && pieces[|pieces| - 1] == [] then pieces[..|pieces| - 1] else pieces
  }

  /** The number of bytes of `c`'s UTF-8 encoding. */
  function Utf8Length(c: char): nat {
    if c as int < 0x80 then 1 else if c as int < 0x800 then 2 else if c as int < 0x10000 then 3 else 4
  }

  /** The number of bytes of `line` at or above 0x20: its width on screen, markers and controls excluded. */
  function VisibleBytes(line: string): nat
    decreases |line|
  {
    if line == [] then 0 else (if line[0] as int < 0x20 then 0 else Utf8Length(line[0])) + VisibleBytes(line[1..])
  }

  /** The largest of a non-empty sequence. */
  function MaxOf(xs: seq<nat>): (m: nat)
    requires |xs| > 0
    ensures forall k :: 0 <= k < |xs| ==> xs[k] <= m
    ensures exists k :: 0 <= k < |xs| && xs[k] == m
    decreases |xs|
  {
    if |xs| == 1 then xs[0]
    else
      var m := MaxOf(xs[1..]);
      assert forall k :: 1 <= k < |xs| ==> xs[k] == xs[1..][k - 1];
      if xs[0] >= m then xs[0] else m
  }

  /** The help box's text width: the widest line. */
  function HelpWidth(text: string): (w: nat)
    requires text != []
    ensures forall k :: 0 <= k < |Lines(text)| ==> VisibleBytes(Lines(text)[k]) <= w
    ensures exists k :: 0 <= k < |Lines(text)| && VisibleBytes(Lines(text)[k]) == w
  {
    var lines := Lines(text);
    var widths := seq(|lines|, k requires 0 <= k < |lines| => VisibleBytes(lines[k]));
    assert forall k :: 0 <= k < |lines| ==> widths[k] == VisibleBytes(lines[k]);
    MaxOf(widths)
  }

  /** Rust's `as u16`: the low 16 bits. */
  function U16(n: nat): (r: nat)
    ensures r < 0x10000
  {
    n % 0x10000
  }

  /** The help data: the fragments, then the width and the height as `u16`. */
  method BuildHelpData(text: string) returns (fragments: seq<Fragment>, width: nat, height: nat)
    requires text != [] && KnownMarkers(text)
    ensures fragments == Fragments(text, Plain)
    ensures width == U16(HelpWidth(text)) && height == U16(|Lines(text)|)
  {
    width := U16(HelpWidth(text));
    height := U16(|Lines(text)|);
    fragments := SplitHelp(text);
  }

  /** Text up to a first marker is one fragment; the marker sets the style of the rest. */
  lemma FragmentsAtMarker(before: string, marker: char, rest: string, style: Style)
    requires forall j :: 0 <= j < |before| ==> !IsMarker(before[j])
    requires marker as int == 1 || marker as int == 2
    requires KnownMarkers(rest)
    ensures KnownMarkers(before + [marker] + rest)
    ensures Fragments(before + [marker] + rest, style) == [Fragment(before, style)] + Fragments(rest, MarkerStyle(marker))
  {
    var text := before + [marker] + rest;
    var k := |before|;
    assert text[k] == marker;
    assert forall j :: 0 <= j < k ==> text[j] == before[j];
    assert forall j :: k < j < |text| ==> text[j] == rest[j - k - 1];
    assert FirstMarker(text) == Some(k);
    assert text[..k] == before && text[k + 1..] == rest;
  }

  /** Text without markers is a single fragment. */
  lemma FragmentsWithoutMarker(text: string, style: Style)
    requires forall j :: 0 <= j < |text| ==> !IsMarker(text[j])
    ensures KnownMarkers(text)
    ensures Fragments(text, style) == [Fragment(text, style)]
  {
    assert FirstMarker(text).None?;
  }

  /** A line without newlines, then a newline, ends the first piece. */
  lemma SplitAfterLine(line: string, rest: string)
    requires forall j :: 0 <= j < |line| ==> line[j] != '\n'
    ensures SplitLines(line + "\n" + rest) == [line] + SplitLines(rest)
    decreases |line|
  {
    if line == [] {
      assert line + "\n" + rest == "\n" + rest;
      assert ("\n" + rest)[1..] == rest;
    } else {
      SplitAfterLine(line[1..], rest);
      var s := line + "\n" + rest;
      assert s[0] == line[0] && s[1..] == line[1..] + "\n" + rest;
      assert [line[0]] + line[1..] == line;
    }
  }

  /** A text without newlines is one piece. */
  lemma {:induction false} SplitWithoutNewline(s: string)
    requires forall j :: 0 <= j < |s| ==> s[j] != '\n'
    ensures SplitLines(s) == [s]
    decreases |s|
  {
    if s != [] {
      SplitWithoutNewline(s[1..]);
    }
  }

  /** Lines joined back together, a newline between each two. */
  function JoinLines(lines: seq<string>): string
    decreases |lines|
  {
    if lines == [] then []
    else if |lines| == 1 then lines[0]
    else lines[0] + "\n" + JoinLines(lines[1..])
  }

  /** The number of newlines in `s`. */
  function NewlineCount(s: string): nat
    decreases |s|
  {
    if s == [] then 0 else (if s[0] == '\n' then 1 else 0) + NewlineCount(s[1..])
  }

  /** Joining one more line appends a newline and that line. */
  lemma {:induction false} JoinLinesSnoc(lines: seq<string>, line: string)
    requires lines != []
    ensures JoinLines(lines + [line]) == JoinLines(lines) + "\n" + line
    decreases |lines|
  {
    if |lines| > 1 {
      JoinLinesSnoc(lines[1..], line);
      assert (lines + [line])[1..] == lines[1..] + [line];
    }
  }

  /** No piece of a text cut at newlines holds a newline. */
  lemma {:induction false} SplitLinesNoNewline(s: string)
    ensures forall k, j :: 0 <= k < |SplitLines(s)| && 0 <= j < |SplitLines(s)[k]| ==> SplitLines(s)[k][j] != '\n'
    decreases |s|
  {
    if s != [] {
      var rest := SplitLines(s[1..]);
      SplitLinesNoNewline(s[1..]);
      if s[0] != '\n' {
        var r := [[s[0]] + rest[0]] + rest[1..];
        assert forall k :: 1 <= k < |r| ==> r[k] == rest[k];
      }
    }
  }

  /** A text cut at newlines has one piece more than it has newlines. */
  lemma {:induction false} SplitLinesCount(s: string)
    ensures |SplitLines(s)| == NewlineCount(s) + 1
    decreases |s|
  {
    if s != [] {
      SplitLinesCount(s[1..]);
    }
  }

  /** Joining the pieces of a text cut at newlines gives back the text. */
  lemma {:induction false} SplitLinesJoin(s: string)
    ensures JoinLines(SplitLines(s)) == s
    decreases |s|
  {
    if s != [] {
      var rest := SplitLines(s[1..]);
      SplitLinesJoin(s[1..]);
      if s[0] == '\n' {
        assert ([[]] + rest)[1..] == rest;
      } else if |rest| > 1 {
        var r := [[s[0]] + rest[0]] + rest[1..];
        assert r[1..] == rest[1..];
      }
    }
  }

  /** The last piece is empty exactly when the text is empty or ends in a newline. */
  lemma {:induction false} SplitLinesLast(s: string)
    ensures SplitLines(s)[|SplitLines(s)| - 1] == [] <==> s == [] || s[|s| - 1] == '\n'
    decreases |s|
  {
    if s != [] {
      SplitLinesLast(s[1..]);
      if s[1..] != [] {
        assert s[|s| - 1] == s[1..][|s[1..]| - 1];
      }
    }
  }

  /** `Lines` drops the empty piece after a final newline, and only that. */
  lemma LinesOfPieces(s: string)
    ensures s != [] && s[|s| - 1] == '\n' ==>
      |SplitLines(s)| > 1 && Lines(s) == SplitLines(s)[..|SplitLines(s)| - 1]
    ensures !(s != [] && s[|s| - 1] == '\n') ==> Lines(s) == (if s == [] then [] else SplitLines(s))
  {
    SplitLinesLast(s);
  }

  /** No line holds a newline. */
  lemma LinesHaveNoNewline(s: string)
    ensures forall k, j :: 0 <= k < |Lines(s)| && 0 <= j < |Lines(s)[k]| ==> Lines(s)[k][j] != '\n'
  {
    SplitLinesNoNewline(s);
    LinesOfPieces(s);
    if s != [] && s[|s| - 1] == '\n' {
      var pieces := SplitLines(s);
      assert forall k :: 0 <= k < |Lines(s)| ==> Lines(s)[k] == pieces[k];
    }
  }

  /** Joined with newlines, the lines give back the text less one final newline. */
  lemma LinesJoin(s: string)
    ensures JoinLines(Lines(s)) == if s != [] && s[|s| - 1] == '\n' then s[..|s| - 1] else s
  {
    SplitLinesJoin(s);
    LinesOfPieces(s);
    if s != [] && s[|s| - 1] == '\n' {
      var pieces := SplitLines(s);
      var n := |pieces| - 1;
      SplitLinesLast(s);
      assert pieces == pieces[..n] + [pieces[n]];
      JoinLinesSnoc(pieces[..n], pieces[n]);
    }
  }

  /** There is a line per newline, plus one for a last line without a newline. */
  lemma LinesCount(s: string)
    ensures |Lines(s)| == NewlineCount(s) + (if s != [] && s[|s| - 1] != '\n' then 1 else 0)
  {
    SplitLinesCount(s);
    LinesOfPieces(s);
  }

  /** Printable ASCII is one column per character. */
  lemma {:induction false} PrintableAsciiWidth(s: string)
    requires forall j :: 0 <= j < |s| ==> 0x20 <= s[j] as int < 0x80
    ensures VisibleBytes(s) == |s|
    decreases |s|
  {
    if s != [] {
      PrintableAsciiWidth(s[1..]);
    }
  }

  /** Widths add up over concatenation. */
  lemma {:induction false} VisibleBytesAppend(a: string, b: string)
    ensures VisibleBytes(a + b) == VisibleBytes(a) + VisibleBytes(b)
    decreases |a|
  {
    if a == [] {
      assert a + b == b;
    } else {
      VisibleBytesAppend(a[1..], b);
      assert (a + b)[0] == a[0] && (a + b)[1..] == a[1..] + b;
    }
  }

  /** Free of style markers. */
  predicate Unmarked(text: string) {
    forall j :: 0 <= j < |text| ==> !IsMarker(text[j])
  }

  /**
   * A text of two entries, each a highlighted key and a plain description,
   * splits into an empty default fragment and then the four pieces in
   * their styles.
   */
  lemma TwoEntryFragments(key1: string, description1: string, key2: string, description2: string)
    requires Unmarked(key1) && Unmarked(description1) && Unmarked(key2) && Unmarked(description2)
    ensures var text := "\U{2}" + key1 + "\U{1}" + description1 + "\U{2}" + key2 + "\U{1}" + description2;
      KnownMarkers(text) &&
      Fragments(text, Plain) == [
        Fragment([], Plain), Fragment(key1, Highlight), Fragment(description1, Plain),
        Fragment(key2, Highlight), Fragment(description2, Plain)]
  {
    var r3 := key2 + ['\U{1}'] + description2;
    var r2 := description1 + ['\U{2}'] + r3;
    var r1 := key1 + ['\U{1}'] + r2;
    var text := "\U{2}" + key1 + "\U{1}" + description1 + "\U{2}" + key2 + "\U{1}" + description2;
    assert text == [] + ['\U{2}'] + r1;
    assert MarkerStyle('\U{1}') == Plain && MarkerStyle('\U{2}') == Highlight;
    FragmentsWithoutMarker(description2, Plain);
    var f3 := [Fragment(key2, Highlight), Fragment(description2, Plain)];
    FragmentsAtMarker(key2, '\U{1}', description2, Highlight);
    assert Fragments(r3, Highlight) == f3;
    var f2 := [Fragment(description1, Plain)] + f3;
    FragmentsAtMarker(description1, '\U{2}', r3, Plain);
    assert Fragments(r2, Plain) == f2;
    var f1 := [Fragment(key1, Highlight)] + f2;
    FragmentsAtMarker(key1, '\U{1}', r2, Highlight);
    assert Fragments(r1, Highlight) == f1;
    FragmentsAtMarker([], '\U{2}', r1, Plain);
    assert Fragments(text, Plain) == [Fragment([], Plain)] + f1;
    FiveFragments(Fragment([], Plain), Fragment(key1, Highlight), Fragment(description1, Plain),
      Fragment(key2, Highlight), Fragment(description2, Plain));
  }

  /** Flattening five fragments, stated apart so that `TwoEntryFragments` stays cheap. */
  lemma FiveFragments(a: Fragment, b: Fragment, c: Fragment, d: Fragment, e: Fragment)
    ensures [a] + ([b] + ([c] + [d, e])) == [a, b, c, d, e]
  {
  }

  /**
   * The help text gives five fragments: an empty default one first, since
   * the text opens with a marker, then highlighted keys alternating with
   * their plain descriptions.
   */
  lemma HelpTextFragments(text: string)
    requires text == HelpText
    ensures KnownMarkers(text)
    ensures Fragments(text, Plain) == [
      Fragment("", Plain),
      Fragment("        h:", Highlight),
      Fragment(" Toggle this help window\n", Plain),
      Fragment(" ESC q ^C:", Highlight),
      Fragment(" Quit", Plain)]
  {
    var d1 := " Toggle this help window" + "\n";
    assert text == "\U{2}" + "        h:" + "\U{1}" + d1 + "\U{2}" + " ESC q ^C:" + "\U{1}" + " Quit";
    HelpPiecesUnmarked();
    TwoEntryFragments("        h:", d1, " ESC q ^C:", " Quit");
  }

  lemma HelpPiecesUnmarked()
    ensures Unmarked(" Toggle this help window" + "\n") && Unmarked("        h:")
    ensures Unmarked(" ESC q ^C:") && Unmarked(" Quit")
    ensures " Toggle this help window" + "\n" == " Toggle this help window\n"
  {
  }

  /** Printable ASCII only: no markers, no newlines, one byte per character. */
  predicate PrintableAscii(s: string) {
    forall j :: 0 <= j < |s| ==> 0x20 <= s[j] as int < 0x80
  }

  /** A help line: a marker, a key, a marker and a description, of which only key and description show. */
  lemma HelpLineWidth(key: string, description: string)
    requires PrintableAscii(key) && PrintableAscii(description)
    ensures VisibleBytes("\U{2}" + key + "\U{1}" + description) == |key| + |description|
    ensures forall j :: 0 <= j < |"\U{2}" + key + "\U{1}" + description| ==> ("\U{2}" + key + "\U{1}" + description)[j] != '\n'
  {
    VisibleBytesAppend("\U{2}" + key + "\U{1}", description);
    VisibleBytesAppend("\U{2}" + key, "\U{1}");
    VisibleBytesAppend("\U{2}", key);
    PrintableAsciiWidth(key);
    PrintableAsciiWidth(description);
  }

  /**
   * A text of two help lines has those two lines, and is as wide as the
   * wider of their keys and descriptions together.
   */
  lemma TwoLineSize(key1: string, description1: string, key2: string, description2: string)
    requires PrintableAscii(key1) && PrintableAscii(description1)
    requires PrintableAscii(key2) && PrintableAscii(description2)
    ensures var line1 := "\U{2}" + key1 + "\U{1}" + description1;
      var line2 := "\U{2}" + key2 + "\U{1}" + description2;
      Lines(line1 + "\n" + line2) == [line1, line2] &&
      HelpWidth(line1 + "\n" + line2) ==
        (if |key1| + |description1| >= |key2| + |description2| then |key1| + |description1| else |key2| + |description2|)
  {
    var line1 := "\U{2}" + key1 + "\U{1}" + description1;
    var line2 := "\U{2}" + key2 + "\U{1}" + description2;
    HelpLineWidth(key1, description1);
    HelpLineWidth(key2, description2);
    SplitAfterLine(line1, line2);
    SplitWithoutNewline(line2);
    assert Lines(line1 + "\n" + line2) == [line1, line2];
  }

  /** The help text has two lines, 34 and 15 columns wide. */
  lemma HelpTextSize(text: string)
    requires text == HelpText
    ensures Lines(text) == [
      "\U{2}" + "        h:" + "\U{1}" + " Toggle this help window",
      "\U{2}" + " ESC q ^C:" + "\U{1}" + " Quit"]
    ensures HelpWidth(text) == 34
  {
    var line1 := "\U{2}" + "        h:" + "\U{1}" + " Toggle this help window";
    var line2 := "\U{2}" + " ESC q ^C:" + "\U{1}" + " Quit";
    assert text == line1 + "\n" + line2;
    assert PrintableAscii("        h:") && PrintableAscii(" Toggle this help window");
    assert PrintableAscii(" ESC q ^C:") && PrintableAscii(" Quit");
    TwoLineSize("        h:", " Toggle this help window", " ESC q ^C:", " Quit");
  }

  // ---------------------------------------------------------------------
  //  The help overlay's rectangle

  /** A rectangle of terminal cells. */
  datatype Rect = Rect(x: nat, y: nat, width: nat, height: nat)

  function Min(a: nat, b: nat): nat {
    if a <= b then a else b
  }

  /**
   * The help box in a frame of `frameWidth` by `frameHeight` cells, for a
   * text of `textWidth` by `textHeight`: at most as large as the text plus
   * its border, and placed against the frame's bottom-right corner with
   * one cell to spare.
   */
  function HelpRect(frameWidth: nat, frameHeight: nat, textWidth: nat, textHeight: nat): (r: Rect)
    requires frameWidth < 0x10000 && frameHeight < 0x10000 && textWidth < 0x10000 && textHeight < 0x10000
    requires 5 <= frameWidth && 5 <= frameHeight
    ensures r.x + r.width == frameWidth - 1 && r.y + r.height == frameHeight - 1
    ensures 1 <= r.x && 1 <= r.y
    ensures 3 <= r.width <= textWidth + 3 && 2 <= r.height <= textHeight + 2
    ensures textWidth + 5 <= frameWidth ==> r.width == textWidth + 3
    ensures textHeight + 5 <= frameHeight ==> r.height == textHeight + 2
    ensures r.x < 0x10000 && r.y < 0x10000 && r.width < 0x10000 && r.height < 0x10000
  {
    var width := Min(textWidth, frameWidth - 5);
    var height := Min(textHeight, frameHeight - 5);
    Rect(frameWidth - width - 4, frameHeight - height - 3, width + 3, height + 2)
  }

  // ---------------------------------------------------------------------
  //  Output panes

  /** Which output panes are drawn: one merged pane for one stream, or both side by side. */
  datatype PaneMode = MergedStdout | MergedStderr | Separate

  /** An empty stream's pane is collapsed to make room for the other; with both empty, stdout is shown. */
  function CollapseMode(stdout: string, stderr: string): PaneMode {
    if stderr == [] then MergedStdout
    else if stdout == [] then MergedStderr
    else Separate
  }

  /** The texts shown in the output panes under `mode`. */
  function ShownTexts(mode: PaneMode, stdout: string, stderr: string): seq<string> {
    match mode
    case MergedStdout => [stdout]
    case MergedStderr => [stderr]
    case Separate => [stdout, stderr]
  }

  /**
   * Collapsing never hides output: every non-empty stream is shown, and
   * two panes are drawn exactly when both streams are non-empty.
   */
  lemma CollapseHidesOnlyEmpty(stdout: string, stderr: string)
    ensures var shown := ShownTexts(CollapseMode(stdout, stderr), stdout, stderr);
      (stdout != [] ==> stdout in shown) && (stderr != [] ==> stderr in shown) &&
      (|shown| == 2 <==> stdout != [] && stderr != [])
    ensures CollapseMode(stdout, stderr) == MergedStdout <==> stderr == []
    ensures CollapseMode(stdout, stderr) == MergedStderr <==> stdout == [] && stderr != []
  {
  }
}
