/** Time arithmetic shared by the two players of the web client: durations
    as JavaScript numbers (an entry may hold no number at all), the running
    sums over them, and `formatTime` (StreamingAudioPlayer.tsx and
    AudioPlayer.tsx carry the same one). Times are seconds, modelled as
    exact reals. */
module Timeline {
  import opened Base

  /** `d || 0`: an entry with no number (a hole, `undefined` or `NaN`)
      counts as 0. */
  function Or0(d: Option<real>): real
  {
    if d.Some? then d.value else 0.0
  }

  /** `ds[i]`, which has no number past the end of the array. */
  function Get(ds: seq<Option<real>>, i: nat): Option<real>
  {
    if i < |ds| then ds[i] else None
  }

  /** The durations of entries `0..n-1` added up, missing ones as 0. */
  function Prefix(ds: seq<Option<real>>, n: nat): real
  {
    if n == 0 then 0.0 else Prefix(ds, n - 1) + Or0(Get(ds, n - 1))
  }

  /** `ds.reduce((sum, d) => sum + (d || 0), 0)`. */
  function Total(ds: seq<Option<real>>): real
  {
    Prefix(ds, |ds|)
  }

  predicate NonNegative(ds: seq<Option<real>>)
  {
    forall i :: 0 <= i < |ds| ==> Or0(ds[i]) >= 0.0
  }

  /** With no negative duration the running sum never decreases. */
  lemma {:induction false} PrefixMonotone(ds: seq<Option<real>>, m: nat, n: nat)
    requires NonNegative(ds) && m <= n
    ensures Prefix(ds, m) <= Prefix(ds, n)
    decreases n
  {
    if m < n {
      PrefixMonotone(ds, m, n - 1);
      assert Or0(Get(ds, n - 1)) >= 0.0;
    }
  }

  /** Entries past the end add nothing. */
  lemma {:induction false} PrefixPastEnd(ds: seq<Option<real>>, n: nat)
    requires n >= |ds|
    ensures Prefix(ds, n) == Total(ds)
    decreases n
  {
    if n > |ds| {
      PrefixPastEnd(ds, n - 1);
    }
  }

  /** `newDurations[i] = d` on a copy: an index past the end extends the
      array, leaving holes between the old end and `i`. */
  function SetAt(ds: seq<Option<real>>, i: nat, d: Option<real>): (r: seq<Option<real>>)
    ensures |r| == Max(|ds|, i + 1)
  {
    if i < |ds| then ds[i := d] else ds + seq(i - |ds|, _ => None) + [d]
  }

  /** Writing entry `i` changes that entry and no other. */
  lemma GetSetAt(ds: seq<Option<real>>, i: nat, d: Option<real>, j: nat)
    ensures Get(SetAt(ds, i, d), j) == if j == i then d else Get(ds, j)
  {
  }

  /** The running sums after the write: unchanged up to entry `i`, shifted by
      the change of entry `i` after it. */
  lemma {:induction false} PrefixSetAt(ds: seq<Option<real>>, i: nat, d: Option<real>, n: nat)
    ensures Prefix(SetAt(ds, i, d), n)
         == Prefix(ds, n) + (if n > i then Or0(d) - Or0(Get(ds, i)) else 0.0)
    decreases n
  {
    if n > 0 {
      PrefixSetAt(ds, i, d, n - 1);
      GetSetAt(ds, i, d, n - 1);
    }
  }

  /** Recording a duration moves the total by exactly the change of that entry. */
  lemma TotalSetAt(ds: seq<Option<real>>, i: nat, d: Option<real>)
    ensures Total(SetAt(ds, i, d)) == Total(ds) + Or0(d) - Or0(Get(ds, i))
  {
    var r := SetAt(ds, i, d);
    PrefixSetAt(ds, i, d, |r|);
    PrefixPastEnd(ds, |r|);
  }

  function RealMin(a: real, b: real): real { if a <= b then a else b }
  function RealMax(a: real, b: real): real { if a >= b then a else b }

  // ---------------------------------------------------------------------
  // formatTime

  /** `Math.floor`. */
  function Floor(x: real): int
  {
    x.Floor
  }

  /** `Math.trunc`: rounds toward zero. */
  function Trunc(x: real): int
  {
    if x >= 0.0 then x.Floor else -((-x).Floor)
  }

  /** `x % m` on numbers: the remainder has the sign of `x`. */
  function Rem(x: real, m: real): real
    requires m != 0.0
  {
    x - m * (Trunc(x / m) as real)
  }

  /** `s.padStart(2, '0')`. */
  function PadTwo(s: string): string
  {
    if |s| < 2 then "0" + s else s
  }

  /** `formatTime(seconds)`, `None` standing for `NaN`: "0:00" for 0 and
      `NaN`, else the minutes, a colon and the seconds padded to two places. */
  function FormatTime(seconds: Option<real>): string
  {
    if seconds.None? || seconds.value == 0.0 then "0:00"
    else
      var mins := Floor(seconds.value / 60.0);
      var secs := Floor(Rem(seconds.value, 60.0));
      IntToString(mins) + ":" + PadTwo(IntToString(secs))
  }

  /** For a positive time the display is the whole minutes, then the
      remaining whole seconds as exactly two digits, and the two together
      make up the whole seconds of the input. */
  lemma FormatPositive(s: real)
    requires s > 0.0
    ensures var m := Floor(s / 60.0);
      var sec := Floor(Rem(s, 60.0));
      && m >= 0 && 0 <= sec < 60
      && m * 60 + sec == Floor(s)
      && |PadTwo(IntToString(sec))| == 2
      && FormatTime(Some(s)) == DecimalString(m) + ":" + PadTwo(DecimalString(sec))
  {
    MinutesSeconds(s);
    var m := Floor(s / 60.0);
    var sec := Floor(Rem(s, 60.0));
    assert FormatTime(Some(s)) == IntToString(m) + ":" + PadTwo(IntToString(sec));
    IntToStringNat(m);
    IntToStringNat(sec);
    TwoDigits(sec);
  }

  /** Whole minutes and the whole seconds left over recompose the whole seconds. */
  lemma MinutesSeconds(s: real)
    requires s > 0.0
    ensures var m := Floor(s / 60.0);
      var sec := Floor(Rem(s, 60.0));
      && m >= 0 && 0 <= sec < 60
      && m * 60 + sec == Floor(s)
  {
    var q := s / 60.0;
    var m := q.Floor;
    assert Trunc(q) == m;
    var r := s - 60.0 * (m as real);
    assert Rem(s, 60.0) == r;
    assert (m as real) <= q < (m as real) + 1.0;
    assert 0.0 <= r < 60.0;
    var sec := r.Floor;
    assert (sec as real) <= r < (sec as real) + 1.0;
    assert s == (m * 60 + sec) as real + (r - sec as real);
    FloorOfSum(m * 60 + sec, r - sec as real);
  }

  /** A number of seconds below 60 pads to two characters. */
  lemma TwoDigits(sec: nat)
    requires sec < 60
    ensures |PadTwo(DecimalString(sec))| == 2
  {
    if sec >= 10 {
      assert DecimalString(sec) == DecimalString(sec / 10) + [DigitChar(sec % 10)];
    }
  }

  /** An integer plus a fraction in [0, 1) floors to the integer. */
  lemma FloorOfSum(n: int, f: real)
    requires 0.0 <= f < 1.0
    ensures ((n as real) + f).Floor == n
  {
  }

  /** Zero and `NaN` show as "0:00". */
  lemma FormatZero()
    ensures FormatTime(Some(0.0)) == "0:00" && FormatTime(None) == "0:00"
  {
  }

  /** 75 seconds show as "1:15", 5.5 seconds as "0:05". */
  lemma FormatExamples()
    ensures FormatTime(Some(75.0)) == "1:15"
    ensures FormatTime(Some(5.5)) == "0:05"
  {
    FormatPositive(75.0);
    FormatPositive(5.5);
    assert Floor(75.0 / 60.0) == 1;
    assert Floor(Rem(75.0, 60.0)) == 15;
    assert Floor(5.5 / 60.0) == 0;
    assert Floor(Rem(5.5, 60.0)) == 5;
  }
}
