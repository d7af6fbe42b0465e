/**
 * The sample store: each run's standard output is searched for the first
 * `<digits>/<digits>` reading, which is appended to a bounded FIFO of samples.
 *
 * The pattern `([0-9]+)/([0-9]+)` is matched by a direct scanner whose result
 * is proved to be the leftmost-first (and greedy) match of that pattern.
 * Readings are kept as the exact decimal value of their digits; clock reads
 * are parameters.
 */
module Analysis {
  import opened Wrappers
  import opened Runner

  /** The store never keeps more than this many samples. */
  const MaxSamples: nat := 1000

  /**
   * One progress reading. `instant` is the monotonic clock and `time` the
   * wall clock at the moment of extraction, both supplied by the caller.
   */
  datatype Sample = Sample(instant: int, time: int, value: nat, max: nat)

  // ---------------------------------------------------------------------
  //  The pattern `([0-9]+)/([0-9]+)`

  predicate IsDigit(c: char) {
    '0' <= c <= '9'
  }

  /**
   * `s[p..q]` is a match of the pattern whose `/` sits at `m`: group 1 is
   * `s[p..m]` and group 2 is `s[m + 1..q]`, both non-empty runs of digits.
   */
  predicate Matches(s: string, p: nat, m: nat, q: nat) {
    p < m && m + 1 < q <= |s| &&
    (forall i :: p <= i < m ==> IsDigit(s[i])) &&
    s[m] == '/' &&
    (forall i :: m < i < q ==> IsDigit(s[i]))
  }

  /** Where a match sits: group 1 is `s[start..slash]`, group 2 `s[slash + 1..end]`. */
  datatype Span = Span(start: nat, slash: nat, end: nat)

  /** The end of the longest run of digits that starts at `i`. */
  function RunEnd(s: string, i: nat): (e: nat)
    requires i <= |s|
    ensures i <= e <= |s|
    ensures forall k :: i <= k < e ==> IsDigit(s[k])
    ensures e == |s| || !IsDigit(s[e])
    decreases |s| - i
  {
    if i < |s| && IsDigit(s[i]) then RunEnd(s, i + 1) else i
  }

  /** A match must start where the run of digits ending at its slash starts. */
  lemma MatchSlashIsRunEnd(s: string, p: nat, m: nat, q: nat)
    requires Matches(s, p, m, q)
    ensures RunEnd(s, p) == m
  {
  }

  /**
   * Scans `s` from `i` for a match. A position inside a run of digits can
   * only start a match if the start of that run does, so a failed run is
   * skipped as a whole.
   */
  function FindFrom(s: string, i: nat): (r: Option<Span>)
    requires i <= |s|
    requires i == 0 || i == |s| || !IsDigit(s[i - 1]) || !IsDigit(s[i])
    ensures r.Some? ==> i <= r.value.start && Matches(s, r.value.start, r.value.slash, r.value.end)
    ensures r.Some? ==> forall p: nat, m: nat, q: nat :: i <= p && Matches(s, p, m, q) ==> r.value.start <= p
    ensures r.Some? ==> forall m: nat, q: nat :: Matches(s, r.value.start, m, q) ==> m == r.value.slash && q <= r.value.end
    ensures r.None? ==> forall p: nat, m: nat, q: nat :: i <= p ==> !Matches(s, p, m, q)
    decreases |s| - i
  {
    if i == |s| then
      None
    else if !IsDigit(s[i]) then
      NoMatchAtNonDigit(s, i);
      FindFrom(s, i + 1)
    else
      var e := RunEnd(s, i);
      if e + 1 < |s| && s[e] == '/' && IsDigit(s[e + 1]) then
        GreedyGroups(s, i, e);
        Some(Span(i, e, RunEnd(s, e + 1)))
      else
        NoMatchInsideRun(s, i, e);
        FindFrom(s, e)
  }

  lemma NoMatchAtNonDigit(s: string, i: nat)
    requires i < |s| && !IsDigit(s[i])
    ensures forall m: nat, q: nat :: !Matches(s, i, m, q)
  {
  }

  /** With its start and slash fixed, the match with the longest group 2 ends where that run of digits ends. */
  lemma GreedyGroups(s: string, i: nat, e: nat)
    requires e < |s| && i < e && e == RunEnd(s, i) && s[e] == '/'
    requires e + 1 < |s| && IsDigit(s[e + 1])
    ensures Matches(s, i, e, RunEnd(s, e + 1))
    ensures forall m: nat, q: nat :: Matches(s, i, m, q) ==> m == e && q <= RunEnd(s, e + 1)
  {
    var q := RunEnd(s, e + 1);
    forall m: nat, q': nat | Matches(s, i, m, q') ensures m == e && q' <= q {
      MatchSlashIsRunEnd(s, i, m, q');
    }
  }

  /** If the run `s[i..e]` is not followed by `/<digit>`, no match starts inside it. */
  lemma NoMatchInsideRun(s: string, i: nat, e: nat)
    requires i <= e <= |s| && e == RunEnd(s, i)
    requires !(e + 1 < |s| && s[e] == '/' && IsDigit(s[e + 1]))
    ensures forall p: nat, m: nat, q: nat :: i <= p < e ==> !Matches(s, p, m, q)
  {
    forall p: nat, m: nat, q: nat | i <= p < e ensures !Matches(s, p, m, q) {
      if Matches(s, p, m, q) {
        MatchSlashIsRunEnd(s, p, m, q);
        RunEndFromInside(s, i, p);
      }
    }
  }

  lemma {:induction false} RunEndFromInside(s: string, i: nat, p: nat)
    requires i <= |s| && i <= p <= RunEnd(s, i)
    ensures RunEnd(s, p) == RunEnd(s, i)
    decreases p - i
  {
    if p > i {
      RunEndFromInside(s, i + 1, p);
    }
  }

  /**
   * The leftmost-first match of `([0-9]+)/([0-9]+)` in `s`: none exactly
   * when no match exists; otherwise the match that starts first, with
   * both groups taken greedily.
   */
  function Find(s: string): (r: Option<Span>)
    ensures r.None? <==> forall p: nat, m: nat, q: nat :: !Matches(s, p, m, q)
    ensures r.Some? ==> Matches(s, r.value.start, r.value.slash, r.value.end)
    ensures r.Some? ==> forall p: nat, m: nat, q: nat :: Matches(s, p, m, q) ==> r.value.start <= p
    ensures r.Some? ==> forall m: nat, q: nat :: Matches(s, r.value.start, m, q) ==> m == r.value.slash && q <= r.value.end
  {
    FindFrom(s, 0)
  }

  // ---------------------------------------------------------------------
  //  Parsing the captured digits

  function DigitValue(c: char): nat
    requires IsDigit(c)
  {
    c as int - '0' as int
  }

  /** The decimal value of a string of digits. */
  function DecimalValue(ds: string): nat
    requires forall i :: 0 <= i < |ds| ==> IsDigit(ds[i])
    decreases |ds|
  {
    if ds == [] then 0 else DecimalValue(ds[..|ds| - 1]) * 10 + DigitValue(ds[|ds| - 1])
  }

  /** Leading zeros do not change a decimal value, as in `"007".parse::<f64>()`. */
  lemma {:induction false} DecimalValueLeadingZero(ds: string)
    requires forall i :: 0 <= i < |ds| ==> IsDigit(ds[i])
    ensures DecimalValue("0" + ds) == DecimalValue(ds)
    decreases |ds|
  {
    if ds != [] {
      var front := ds[..|ds| - 1];
      DecimalValueLeadingZero(front);
      assert ("0" + ds)[..|ds|] == "0" + front;
    }
  }

  /**
   * The sample read from a run's standard output, if it holds a match:
   * group 1 is the value and group 2 the maximum.
   */
  function Extract(stdout: string, instant: int, time: int): (r: Option<Sample>)
    ensures r.None? <==> forall p: nat, m: nat, q: nat :: !Matches(stdout, p, m, q)
    ensures r.Some? ==> r.value.instant == instant && r.value.time == time
    ensures r.Some? ==> (Find(stdout).Some? &&
      var m := Find(stdout).value;
      r.value.value == DecimalValue(stdout[m.start..m.slash]) &&
      r.value.max == DecimalValue(stdout[m.slash + 1..m.end]))
  {
    match Find(stdout)
    case None => None
    case Some(m) =>
      Some(Sample(instant, time, DecimalValue(stdout[m.start..m.slash]), DecimalValue(stdout[m.slash + 1..m.end])))
  }

  /** Output without a slash holds no reading. */
  lemma WithoutSlashNoReading(stdout: string, instant: int, time: int)
    requires forall i :: 0 <= i < |stdout| ==> stdout[i] != '/'
    ensures Extract(stdout, instant, time) == None
  {
    forall p: nat, m: nat, q: nat ensures !Matches(stdout, p, m, q) {
      assert m < |stdout| ==> stdout[m] != '/';
    }
  }

  /** "no numbers here" reads as nothing: it has no slash at all. */
  lemma ExtractNoReading(stdout: string, instant: int, time: int)
    requires stdout == "no numbers here"
    ensures Extract(stdout, instant, time) == None
  {
    assert forall i :: 0 <= i < |stdout| ==> stdout[i] != '/';
    WithoutSlashNoReading(stdout, instant, time);
  }

  /** "12/34 done" reads as 12 out of 34. */
  lemma ExtractReading(instant: int, time: int)
    ensures Extract("12/34 done", instant, time) == Some(Sample(instant, time, 12, 34))
  {
    var s := "12/34 done";
    assert RunEnd(s, 5) == 5;
    assert RunEnd(s, 4) == 5;
    assert RunEnd(s, 3) == 5;
    assert RunEnd(s, 2) == 2;
    assert RunEnd(s, 1) == 2;
    assert RunEnd(s, 0) == 2;
    assert FindFrom(s, 0) == Some(Span(0, 2, 5));
    assert s[0..2] == "12" && s[3..5] == "34";
    assert "12"[..1] == "1" && "34"[..1] == "3";
    assert DecimalValue("12") == 12;
    assert DecimalValue("34") == 34;
  }

  // ---------------------------------------------------------------------
  //  The bounded store

  /** Drops the oldest sample once the store holds more than `MaxSamples`. */
  function Trim(samples: seq<Sample>): seq<Sample> {
    if |samples| > MaxSamples then samples[1..] else samples
  }

  /** The samples read from one output: zero or one. */
  function Readings(outp: CmdOutput, instant: int, time: int): (r: seq<Sample>)
    ensures |r| <= 1
  {
    match Extract(outp.stdout, instant, time)
    case None => []
    case Some(x) => [x]
  }

  /** The store after one run's output has been processed. */
  function NextSamples(samples: seq<Sample>, outp: CmdOutput, instant: int, time: int): seq<Sample> {
    Trim(samples + Readings(outp, instant, time))
  }

  /** The store stays within its bound. */
  lemma NextBounded(samples: seq<Sample>, outp: CmdOutput, instant: int, time: int)
    requires |samples| <= MaxSamples
    ensures |NextSamples(samples, outp, instant, time)| <= MaxSamples
  {
  }

  /** Output with no `digits/digits` leaves the store as it was. */
  lemma NextWithoutMatch(samples: seq<Sample>, outp: CmdOutput, instant: int, time: int)
    requires |samples| <= MaxSamples
    requires forall p: nat, m: nat, q: nat :: !Matches(outp.stdout, p, m, q)
    ensures NextSamples(samples, outp, instant, time) == samples
  {
  }

  /** Below the bound, a reading is appended at the back and nothing else changes. */
  lemma NextAppends(samples: seq<Sample>, outp: CmdOutput, instant: int, time: int)
    requires |samples| < MaxSamples
    requires Extract(outp.stdout, instant, time).Some?
    ensures NextSamples(samples, outp, instant, time) == samples + [Extract(outp.stdout, instant, time).value]
  {
  }

  /** At the bound, the oldest sample is evicted and the length stays at the bound. */
  lemma NextEvicts(samples: seq<Sample>, outp: CmdOutput, instant: int, time: int)
    requires |samples| == MaxSamples
    requires Extract(outp.stdout, instant, time).Some?
    ensures NextSamples(samples, outp, instant, time) == samples[1..] + [Extract(outp.stdout, instant, time).value]
    ensures |NextSamples(samples, outp, instant, time)| == MaxSamples
  {
  }

  /** Only standard output is inspected: the exit status and standard error do not matter. */
  lemma NextIgnoresStatusAndStderr(samples: seq<Sample>, a: CmdOutput, b: CmdOutput, instant: int, time: int)
    requires a.stdout == b.stdout
    ensures NextSamples(samples, a, instant, time) == NextSamples(samples, b, instant, time)
  {
  }

  /**
   * Existing samples are neither changed nor reordered: the new store is
   * what remains of the old one and the new reading after dropping at most
   * one sample from the front.
   */
  lemma NextIsSuffix(samples: seq<Sample>, outp: CmdOutput, instant: int, time: int)
    ensures var all := samples + Readings(outp, instant, time);
      var r := NextSamples(samples, outp, instant, time);
      |all| - 1 <= |r| <= |all| && r == all[|all| - |r|..]
  {
  }

  /** A run of the command as seen by the store: its output and the clock readings. */
  datatype Run = Run(output: CmdOutput, instant: int, time: int)

  /** The store after processing `runs` in order. */
  function Feed(samples: seq<Sample>, runs: seq<Run>): seq<Sample>
    decreases |runs|
  {
    if runs == [] then samples
    else
      var last := runs[|runs| - 1];
      NextSamples(Feed(samples, runs[..|runs| - 1]), last.output, last.instant, last.time)
  }

  /** Feeding one more run processes its output on top of the store so far. */
  lemma FeedSnoc(samples: seq<Sample>, runs: seq<Run>, run: Run)
    ensures Feed(samples, runs + [run]) == NextSamples(Feed(samples, runs), run.output, run.instant, run.time)
  {
    assert (runs + [run])[..|runs|] == runs;
  }

  /** All readings of `runs`, in order. */
  function AllReadings(runs: seq<Run>): seq<Sample>
    decreases |runs|
  {
    if runs == [] then []
    else
      var last := runs[|runs| - 1];
      AllReadings(runs[..|runs| - 1]) + Readings(last.output, last.instant, last.time)
  }

  /** The newest `MaxSamples` elements of `xs`. */
  function Newest(xs: seq<Sample>): (r: seq<Sample>)
  {
    if |xs| > MaxSamples then xs[|xs| - MaxSamples..] else xs
  }

  /**
   * Whatever the runs, a store within its bound holds exactly the newest
   * `MaxSamples` of its old samples followed by every reading, in insertion
   * order: a sliding window.
   */
  lemma {:induction false} FeedIsWindow(samples: seq<Sample>, runs: seq<Run>)
    requires |samples| <= MaxSamples
    ensures Feed(samples, runs) == Newest(samples + AllReadings(runs))
    decreases |runs|
  {
    if runs == [] {
      assert samples + AllReadings(runs) == samples;
    } else {
      var init := runs[..|runs| - 1];
      var last := runs[|runs| - 1];
      FeedIsWindow(samples, init);
      var before := samples + AllReadings(init);
      var reading := Readings(last.output, last.instant, last.time);
      assert samples + AllReadings(runs) == before + reading;
      NewestStep(before, reading);
    }
  }

  /** Sliding the window by one reading: trim after appending to the newest samples. */
  lemma NewestStep(before: seq<Sample>, reading: seq<Sample>)
    requires |reading| <= 1
    ensures Trim(Newest(before) + reading) == Newest(before + reading)
  {
    if |before| >= MaxSamples && |reading| == 1 {
      var w := Newest(before);
      assert w == before[|before| - MaxSamples..];
      assert (w + reading)[1..] == (before + reading)[|before| + 1 - MaxSamples..];
    }
  }

  /**
   * One reading more than the bound, starting from an empty store, leaves
   * readings 2 to 1001: the first is the one evicted.
   */
  lemma OverflowEvictsFirst(runs: seq<Run>)
    requires |AllReadings(runs)| == MaxSamples + 1
    ensures Feed([], runs) == AllReadings(runs)[1..]
  {
    FeedIsWindow([], runs);
    assert [] + AllReadings(runs) == AllReadings(runs);
  }

  /** The sample store: `samples` is the VecDeque the worker updates in place. */
  class Analyzer {
    var samples: seq<Sample>

    /** A new analyzer holds no samples. */
    constructor ()
      ensures samples == []
    {
      samples := [];
    }

    /**
     * Reads the first `digits/digits` of the run's standard output, appends
     * it at the back, and evicts from the front once there are more than
     * `MaxSamples` samples.
     */
    method ProcessOutput(outp: CmdOutput, instant: int, time: int)
      modifies this
      ensures samples == NextSamples(old(samples), outp, instant, time)
      ensures |old(samples)| <= MaxSamples ==> |samples| <= MaxSamples
    {
      var mat := Find(outp.stdout);
      if mat.Some? {
        var m := mat.value;
        var value := DecimalValue(outp.stdout[m.start..m.slash]);
        var max := DecimalValue(outp.stdout[m.slash + 1..m.end]);
        samples := samples + [Sample(instant, time, value, max)];
      }
      if |samples| > MaxSamples {
        samples := samples[1..];
      }
    }
  }
}
