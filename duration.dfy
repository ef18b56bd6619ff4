/**
 * The duration parser behind the `--time` flag (`CLI#convert` in rally.rb).
 *
 * `convert` reads text such as `2h15m` with two regular-expression lookups,
 * `time[/(\d+)h/, 1]` and `time[/(\d+)m/, 1]`, turns each capture into an
 * integer with `to_i` (a missing capture is nil, and `nil.to_i` is 0) and
 * returns the total number of minutes.
 */
module Duration {
  import opened Wrappers

  /** Ruby's `\d`: an ASCII decimal digit. */
  predicate IsDigit(c: char) {
    '0' <= c <= '9'
  }

  predicate AllDigits(s: string) {
    forall k :: 0 <= k < |s| ==> IsDigit(s[k])
  }

  /** The position just past the run of digits that starts at `p`. */
  function DigitsEnd(s: string, p: nat): (q: nat)
    requires p <= |s|
    ensures p <= q <= |s|
    ensures forall k :: p <= k < q ==> IsDigit(s[k])
    ensures q == |s| || !IsDigit(s[q])
    decreases |s| - p
  {
    if p < |s| && IsDigit(s[p]) then DigitsEnd(s, p + 1) else p
  }

  /**
   * An attempt of `/(\d+)marker/` anchored at position `p`: the greedy `\d+`
   * takes the whole run of digits from `p` (giving some back cannot help,
   * since the character after a shorter run is a digit), and the marker must
   * follow. Returns the end of the captured digits.
   */
  function MatchAt(s: string, p: nat, marker: char): Option<nat>
    requires p <= |s|
  {
    var q := DigitsEnd(s, p);
    if p < q < |s| && s[q] == marker then Some(q) else None
  }

  /** The leftmost match of `/(\d+)marker/` at or after `p`: the text of group 1. */
  function CaptureFrom(s: string, marker: char, p: nat): (r: Option<string>)
    requires p <= |s|
    ensures r.Some? ==> |r.value| > 0 && AllDigits(r.value)
    decreases |s| - p
  {
    if p == |s| then None
    else match MatchAt(s, p, marker)
      case Some(q) => Some(s[p..q])
      case None => CaptureFrom(s, marker, p + 1)
  }

  /** `s[/(\d+)marker/, 1]`. */
  function FirstRun(s: string, marker: char): (r: Option<string>)
    ensures r.Some? ==> |r.value| > 0 && AllDigits(r.value)
  {
    CaptureFrom(s, marker, 0)
  }

  /**
   * Declarative reading of the lookup: `s[i..j]` is a maximal run of digits
   * (nothing digit-like right before it) immediately followed by `marker`.
   */
  predicate RunBefore(s: string, i: int, j: int, marker: char) {
    && 0 <= i < j < |s|
    && (forall k :: i <= k < j ==> IsDigit(s[k]))
    && s[j] == marker
    && (i == 0 || !IsDigit(s[i - 1]))
  }

  /** `String#to_i` on a string of decimal digits. */
  function DigitsValue(d: string): nat
    requires AllDigits(d)
  {
    if d == [] then 0 else 10 * DigitsValue(d[..|d| - 1]) + (d[|d| - 1] as int - '0' as int)
  }

  /** One segment of the duration: `s[/(\d+)marker/, 1].to_i`, 0 when absent. */
  function Segment(s: string, marker: char): nat {
    match FirstRun(s, marker)
    case None => 0
    case Some(d) => DigitsValue(d)
  }

  /** `CLI#convert`: whole minutes denoted by text such as `2h15m`. */
  function Convert(time: string): (minutes: nat)
    ensures minutes == 60 * Segment(time, 'h') + Segment(time, 'm')
  {
    var hours := Segment(time, 'h');
    var mins := Segment(time, 'm');
    (if hours > 0 then 60 * hours else hours) + mins
  }

  /** The digit character for 0 <= d < 10. */
  function DigitChar(d: nat): (c: char)
    requires d < 10
    ensures IsDigit(c) && c as int - '0' as int == d
  {
    ('0' as int + d) as char
  }

  /** `Integer#to_s`: the decimal rendering used when a minute count is interpolated. */
  function DecimalString(n: nat): (s: string)
    ensures |s| > 0 && AllDigits(s)
    ensures DigitsValue(s) == n
    ensures s[0] == '0' ==> n == 0
    ensures |s| > 1 ==> s[0] != '0'
  {
    if n < 10 then [DigitChar(n)]
    else
      var s := DecimalString(n / 10) + [DigitChar(n % 10)];
      assert s[..|s| - 1] == DecimalString(n / 10);
      s
  }

  // ---------------------------------------------------------------------------
  // The lookup finds exactly the first maximal digit run before the marker.
  // ---------------------------------------------------------------------------

  /** The run of digits from `i` stops at the first non-digit `j`. */
  lemma {:induction false} DigitsEndAt(s: string, i: nat, j: nat)
    requires i <= j < |s| && !IsDigit(s[j])
    requires forall k :: i <= k < j ==> IsDigit(s[k])
    ensures DigitsEnd(s, i) == j
    decreases j - i
  {
    if i < j {
      DigitsEndAt(s, i + 1, j);
    }
  }

  /** A run ending at a marker is what the anchored attempt at its start finds. */
  lemma RunMatches(s: string, i: int, j: int, marker: char)
    requires !IsDigit(marker) && RunBefore(s, i, j, marker)
    ensures MatchAt(s, i, marker) == Some(j)
  {
    DigitsEndAt(s, i, j);
  }

  /** Starting one digit earlier reaches the same end of the run. */
  lemma DigitsEndStep(s: string, p: nat)
    requires p < |s|
    ensures IsDigit(s[p]) ==> DigitsEnd(s, p) == DigitsEnd(s, p + 1)
  {
  }

  lemma {:induction false} CaptureFromSpec(s: string, marker: char, p: nat)
    requires p <= |s| && !IsDigit(marker)
    requires forall x :: 0 <= x < p ==> MatchAt(s, x, marker).None?
    ensures match CaptureFrom(s, marker, p)
      case None => forall i, j :: !RunBefore(s, i, j, marker)
      case Some(r) =>
        exists i, j :: RunBefore(s, i, j, marker) && r == s[i..j]
          && forall i', j' :: RunBefore(s, i', j', marker) ==> i <= i'
    decreases |s| - p
  {
    if p == |s| {
      forall i, j ensures !RunBefore(s, i, j, marker) {
        if RunBefore(s, i, j, marker) {
          RunMatches(s, i, j, marker);
        }
      }
    } else {
      match MatchAt(s, p, marker)
      case Some(q) =>
        if p > 0 {
          DigitsEndStep(s, p - 1);
          assert MatchAt(s, p - 1, marker).None?;
        }
        assert p == 0 || !IsDigit(s[p - 1]);
        assert RunBefore(s, p, q, marker);
        forall i', j' | RunBefore(s, i', j', marker) ensures p <= i' {
          RunMatches(s, i', j', marker);
        }
      case None =>
        CaptureFromSpec(s, marker, p + 1);
    }
  }

  /**
   * `s[/(\d+)marker/, 1]` is nil exactly when no run of digits directly
   * precedes the marker, and otherwise is the leftmost such run.
   */
  lemma FirstRunSpec(s: string, marker: char)
    requires !IsDigit(marker)
    ensures match FirstRun(s, marker)
      case None => forall i, j :: !RunBefore(s, i, j, marker)
      case Some(r) =>
        exists i, j :: RunBefore(s, i, j, marker) && r == s[i..j]
          && forall i', j' :: RunBefore(s, i', j', marker) ==> i <= i'
  {
    CaptureFromSpec(s, marker, 0);
  }

  /** The converse reading: the leftmost run before the marker is what the lookup captures. */
  lemma FirstRunIs(s: string, marker: char, i: int, j: int)
    requires !IsDigit(marker) && RunBefore(s, i, j, marker)
    requires forall i', j' :: RunBefore(s, i', j', marker) ==> i <= i'
    ensures FirstRun(s, marker) == Some(s[i..j])
  {
    FirstRunSpec(s, marker);
    var r := FirstRun(s, marker).value;
    var i0, j0 :| RunBefore(s, i0, j0, marker) && r == s[i0..j0]
      && forall i', j' :: RunBefore(s, i', j', marker) ==> i0 <= i';
    RunMatches(s, i, j, marker);
    RunMatches(s, i0, j0, marker);
  }

  // ---------------------------------------------------------------------------
  // What `convert` returns.
  // ---------------------------------------------------------------------------

  /** In `a x b y` (digit runs a and b, distinct non-digit markers) x captures a and y captures b. */
  lemma FirstRunOfPair(a: string, x: char, b: string, y: char)
    requires |a| > 0 && AllDigits(a) && |b| > 0 && AllDigits(b)
    requires !IsDigit(x) && !IsDigit(y) && x != y
    ensures FirstRun(a + [x] + b + [y], x) == Some(a)
    ensures FirstRun(a + [x] + b + [y], y) == Some(b)
  {
    var s := a + [x] + b + [y];
    var n := |a|;
    assert forall k :: 0 <= k < n ==> s[k] == a[k];
    assert s[n] == x;
    assert forall k :: n < k < |s| - 1 ==> s[k] == b[k - n - 1];
    assert s[|s| - 1] == y;
    assert s[0..n] == a;
    assert s[n + 1..|s| - 1] == b;
    assert RunBefore(s, 0, n, x);
    FirstRunIs(s, x, 0, n);
    assert RunBefore(s, n + 1, |s| - 1, y);
    forall i', j' | RunBefore(s, i', j', y) ensures n + 1 <= i' {
      assert j' == |s| - 1;
      assert s[n] == x;
    }
    FirstRunIs(s, y, n + 1, |s| - 1);
  }

  /** A marker character that does not occur gives a nil capture. */
  lemma {:induction false} CaptureAbsent(s: string, marker: char, p: nat)
    requires p <= |s| && marker !in s
    ensures CaptureFrom(s, marker, p) == None
    decreases |s| - p
  {
    if p < |s| {
      var q := DigitsEnd(s, p);
      if q < |s| {
        assert s[q] in s;
      }
      CaptureAbsent(s, marker, p + 1);
    }
  }

  /**
   * `convert` is 60 times the hour run plus the minute run, whichever order
   * the two segments are written in.
   */
  lemma {:induction false} ConvertHoursAndMinutes(h: string, m: string)
    requires |h| > 0 && AllDigits(h) && |m| > 0 && AllDigits(m)
    ensures Convert(h + "h" + m + "m") == 60 * DigitsValue(h) + DigitsValue(m)
    ensures Convert(m + "m" + h + "h") == 60 * DigitsValue(h) + DigitsValue(m)
  {
    FirstRunOfPair(h, 'h', m, 'm');
    FirstRunOfPair(m, 'm', h, 'h');
  }

  /** A missing minutes segment counts as 0. */
  lemma ConvertHoursOnly(h: string)
    requires |h| > 0 && AllDigits(h)
    ensures Convert(h + "h") == 60 * DigitsValue(h)
  {
    var s := h + "h";
    assert s[0..|h|] == h;
    assert RunBefore(s, 0, |h|, 'h');
    FirstRunIs(s, 'h', 0, |h|);
    assert forall k :: 0 <= k < |h| ==> s[k] == h[k];
    CaptureAbsent(s, 'm', 0);
  }

  /** A missing hours segment counts as 0. */
  lemma ConvertMinutesOnly(m: string)
    requires |m| > 0 && AllDigits(m)
    ensures Convert(m + "m") == DigitsValue(m)
  {
    var s := m + "m";
    assert s[0..|m|] == m;
    assert RunBefore(s, 0, |m|, 'm');
    FirstRunIs(s, 'm', 0, |m|);
    assert forall k :: 0 <= k < |m| ==> s[k] == m[k];
    CaptureAbsent(s, 'h', 0);
  }

  /** Text without any `<digits>h` or `<digits>m` gives 0 rather than an error. */
  lemma ConvertNoSegments(time: string)
    requires forall i, j :: !RunBefore(time, i, j, 'h')
    requires forall i, j :: !RunBefore(time, i, j, 'm')
    ensures Convert(time) == 0
  {
    FirstRunSpec(time, 'h');
    FirstRunSpec(time, 'm');
  }

  /** Examples: `2h15m`, `15m2h`, `45m` and `3h`. */
  lemma ConvertExamples()
    ensures Convert("2h15m") == 135
    ensures Convert("15m2h") == 135
    ensures Convert("45m") == 45
    ensures Convert("3h") == 180
  {
    ConvertHoursAndMinutes("2", "15");
    assert "2" + "h" + "15" + "m" == "2h15m";
    assert "15" + "m" + "2" + "h" == "15m2h";
    ConvertMinutesOnly("45");
    assert "45" + "m" == "45m";
    ConvertHoursOnly("3");
    assert "3" + "h" == "3h";
  }
}
