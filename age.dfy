/** The bucketing part of `calculateAge` (main.go:948-975). Parsing the RFC
    3339 timestamp and reading the clock are not modelled: a caller supplies
    `elapsedSince`, which maps a timestamp string to the time elapsed since
    it in nanoseconds, or to None when the timestamp does not parse. */
module Age {

  import opened Values
  import opened Text

  /** time.Minute, time.Hour and a day, in nanoseconds. */
  const Minute: int := 60_000_000_000
  const Hour: int := 60 * Minute
  const Day: int := 24 * Hour

  /** Go's integer division, which truncates toward zero. */
  function TruncDiv(a: int, b: int): (q: int)
    requires b > 0
    ensures a >= 0 ==> q >= 0 && q * b <= a < q * b + b
    ensures a < 0 ==> q <= 0 && q * b - b < a <= q * b
  {
    if a >= 0 then a / b else -((-a) / b)
  }

  /** Go's `%`, whose remainder takes the sign of the dividend. */
  function TruncMod(a: int, b: int): (m: int)
    requires b > 0
    ensures a == TruncDiv(a, b) * b + m
    ensures a >= 0 ==> 0 <= m < b
    ensures a < 0 ==> -b < m <= 0
  {
    a - TruncDiv(a, b) * b
  }

  /** The three shapes of an age label. */
  datatype Bucket =
    | DaysHours(days: int, hours: int)       // "{days}d{hours}h"
    | HoursMinutes(hours: int, minutes: int) // "{hours}h{minutes}m"
    | Minutes(minutes: int)                  // "{minutes}m"

  /** The Go code's computation of days, hours and minutes from the elapsed
      duration, and its choice of label: days from one day up, hours and
      minutes from one hour up, minutes below an hour (a negative duration
      included). */
  function BucketOf(elapsed: int): (b: Bucket)
    ensures b.DaysHours? <==> elapsed >= Day
    ensures b.HoursMinutes? <==> Hour <= elapsed < Day
    ensures b.Minutes? <==> elapsed < Hour
  {
    DaysPositive(elapsed);
    HoursPositive(elapsed);
    var days := TruncDiv(elapsed, Day);
    var hours := TruncMod(TruncDiv(elapsed, Hour), 24);
    var minutes := TruncMod(TruncDiv(elapsed, Minute), 60);
    if days > 0 then DaysHours(days, hours)
    else if hours > 0 then HoursMinutes(hours, minutes)
    else Minutes(minutes)
  }

  /** The day count is positive exactly from one day up. */
  lemma DaysPositive(elapsed: int)
    ensures TruncDiv(elapsed, Day) > 0 <==> elapsed >= Day
  {
  }

  /** Below a day, the hour count left over is positive exactly from one hour
      up. */
  lemma HoursPositive(elapsed: int)
    ensures elapsed < Day ==> (TruncMod(TruncDiv(elapsed, Hour), 24) > 0 <==> elapsed >= Hour)
  {
    var h := TruncDiv(elapsed, Hour);
    if 0 <= elapsed < Day {
      assert 0 <= h < 24;
      assert TruncMod(h, 24) == h;
    }
  }

  /** The label fmt.Sprintf writes for a bucket: it ends in 'h' exactly for
      the days-and-hours shape, and in 'm' otherwise. */
  function BucketText(b: Bucket): (s: string)
    ensures |s| >= 2
    ensures s[|s| - 1] == 'h' <==> b.DaysHours?
    ensures s[|s| - 1] == 'm' <==> !b.DaysHours?
  {
    match b
    case DaysHours(d, h) => IntText(d) + "d" + IntText(h) + "h"
    case HoursMinutes(h, m) => IntText(h) + "h" + IntText(m) + "m"
    case Minutes(m) => IntText(m) + "m"
  }

  /** calculateAge: `unknown` for anything but a parsable timestamp string,
      else the label of the elapsed time's bucket. */
  function CalculateAge(creationTimestamp: Value, elapsedSince: string -> Option<int>): (age: string)
    ensures !creationTimestamp.Str? ==> age == "unknown"
    ensures creationTimestamp.Str? && elapsedSince(creationTimestamp.s).None? ==> age == "unknown"
    ensures creationTimestamp.Str? && elapsedSince(creationTimestamp.s).Some? ==>
              age == BucketText(BucketOf(elapsedSince(creationTimestamp.s).value))
  {
    match creationTimestamp
    case Str(s) =>
      (match elapsedSince(s)
       case Some(elapsed) => BucketText(BucketOf(elapsed))
       case None => "unknown")
    case _ => "unknown"
  }

  /** Every age label reads back as the bucket of the elapsed time, and only
      `unknown` fails to read back. */
  lemma CalculateAgeReadsBack(creationTimestamp: Value, elapsedSince: string -> Option<int>)
    ensures var age := CalculateAge(creationTimestamp, elapsedSince);
            && (creationTimestamp.Str? && elapsedSince(creationTimestamp.s).Some? ==>
                  ParseAge(age) == Some(BucketOf(elapsedSince(creationTimestamp.s).value)))
            && (ParseAge(age).None? <==> age == "unknown")
  {
    if creationTimestamp.Str? && elapsedSince(creationTimestamp.s).Some? {
      BucketTextRoundTrip(BucketOf(elapsedSince(creationTimestamp.s).value));
    }
  }

  // ---------------------------------------------------------------------
  // What each bucket means

  /** A duration of at least a day shows whole days and the whole hours left
      over. */
  lemma BucketOfDays(elapsed: int)
    requires elapsed >= Day
    ensures BucketOf(elapsed).DaysHours?
    ensures var b := BucketOf(elapsed);
            && b.days >= 1 && 0 <= b.hours < 24
            && b.days * Day + b.hours * Hour <= elapsed < b.days * Day + (b.hours + 1) * Hour
  {
    var h := elapsed / Hour;
    assert elapsed / Day == h / 24;
  }

  /** A duration of at least an hour and under a day shows whole hours and
      the whole minutes left over. */
  lemma BucketOfHours(elapsed: int)
    requires Hour <= elapsed < Day
    ensures BucketOf(elapsed).HoursMinutes?
    ensures var b := BucketOf(elapsed);
            && 1 <= b.hours < 24 && 0 <= b.minutes < 60
            && b.hours * Hour + b.minutes * Minute <= elapsed < b.hours * Hour + (b.minutes + 1) * Minute
  {
    var m := elapsed / Minute;
    assert elapsed / Hour == m / 60;
  }

  /** A duration under an hour shows its whole minutes. */
  lemma BucketOfMinutes(elapsed: int)
    requires 0 <= elapsed < Hour
    ensures BucketOf(elapsed).Minutes?
    ensures var m := BucketOf(elapsed).minutes;
            0 <= m < 60 && m * Minute <= elapsed < (m + 1) * Minute
  {
  }

  /** A negative duration (a timestamp in the future) always lands in the
      minutes bucket, with a minute count in (-60, 0]: the negated whole
      minutes modulo 60, which within the hour is the negated whole
      minutes. */
  lemma BucketOfNegative(elapsed: int)
    requires elapsed < 0
    ensures BucketOf(elapsed).Minutes?
    ensures var m := BucketOf(elapsed).minutes;
            && -60 < m <= 0
            && m == -(((-elapsed) / Minute) % 60)
            && (elapsed > -Hour ==> m * Minute - Minute < elapsed <= m * Minute)
  {
    var w := (-elapsed) / Minute;
    assert TruncDiv(elapsed, Minute) == -w;
    assert TruncMod(-w, 60) == -(w % 60);
  }

  /** 25 hours 3 minutes shows as "1d1h". */
  lemma AgeExampleDay(ts: string, elapsedSince: string -> Option<int>)
    requires elapsedSince(ts) == Some(25 * Hour + 3 * Minute)
    ensures CalculateAge(Str(ts), elapsedSince) == "1d1h"
  {
    var e := 25 * Hour + 3 * Minute;
    assert TruncDiv(e, Day) == 1;
    assert TruncDiv(e, Hour) == 25;
    assert BucketOf(e) == DaysHours(1, 1);
    assert IntText(1) == "1";
  }

  /** 45 minutes shows as "45m". */
  lemma AgeExampleMinutes(ts: string, elapsedSince: string -> Option<int>)
    requires elapsedSince(ts) == Some(45 * Minute)
    ensures CalculateAge(Str(ts), elapsedSince) == "45m"
  {
    var e := 45 * Minute;
    assert TruncDiv(e, Day) == 0;
    assert TruncDiv(e, Hour) == 0;
    assert TruncDiv(e, Minute) == 45;
    assert BucketOf(e) == Minutes(45);
    assert NatText(45) == NatText(4) + [DigitChar(5)] == "45";
  }

  // ---------------------------------------------------------------------
  // Labels can be read back: distinct buckets give distinct labels

  /** The index of the first `c` in `s`. */
  function FirstIndex(s: string, c: char): (r: Option<nat>)
    ensures r.Some? ==> r.value < |s| && s[r.value] == c && forall j :: 0 <= j < r.value ==> s[j] != c
    ensures r.None? ==> forall j :: 0 <= j < |s| ==> s[j] != c
  {
    if s == [] then None
    else if s[0] == c then Some(0)
    else match FirstIndex(s[1..], c)
      case Some(i) => Some(i + 1)
      case None => None
  }

  /** Reads a label back into its bucket. */
  function ParseAge(s: string): Option<Bucket>
  {
    if |s| == 0 then None
    else
      var body := s[..|s| - 1];
      if s[|s| - 1] == 'h' then
        match FirstIndex(body, 'd')
        case Some(i) =>
          var d, h := ParseInt(body[..i]), ParseInt(body[i + 1..]);
          if d.Some? && h.Some? then Some(DaysHours(d.value, h.value)) else None
        case None => None
      else if s[|s| - 1] == 'm' then
        match FirstIndex(body, 'h')
        case Some(i) =>
          var h, m := ParseInt(body[..i]), ParseInt(body[i + 1..]);
          if h.Some? && m.Some? then Some(HoursMinutes(h.value, m.value)) else None
        case None =>
          var m := ParseInt(body);
          if m.Some? then Some(Minutes(m.value)) else None
      else None
  }

  /** A number's text followed by a letter and more text splits at that
      letter back into the two parts. */
  lemma SplitAfterNumber(n: int, c: char, rest: string)
    requires c != '-' && !IsDigit(c)
    ensures var s := IntText(n) + [c] + rest;
            && FirstIndex(s, c) == Some(|IntText(n)|)
            && s[..|IntText(n)|] == IntText(n)
            && s[|IntText(n)| + 1..] == rest
  {
    var s := IntText(n) + [c] + rest;
    var k := |IntText(n)|;
    assert s[k] == c;
    assert forall j :: 0 <= j < k ==> s[j] == IntText(n)[j];
    assert FirstIndex(s, c).Some?;
  }

  /** Every label reads back as the bucket it was written from. */
  lemma BucketTextRoundTrip(b: Bucket)
    ensures ParseAge(BucketText(b)) == Some(b)
  {
    match b
    case DaysHours(d, h) =>
      var s := BucketText(b);
      assert s[..|s| - 1] == IntText(d) + ['d'] + IntText(h);
      SplitAfterNumber(d, 'd', IntText(h));
      IntTextRoundTrip(d);
      IntTextRoundTrip(h);
    case HoursMinutes(h, m) =>
      var s := BucketText(b);
      assert s[..|s| - 1] == IntText(h) + ['h'] + IntText(m);
      SplitAfterNumber(h, 'h', IntText(m));
      IntTextRoundTrip(h);
      IntTextRoundTrip(m);
    case Minutes(m) =>
      var s := BucketText(b);
      assert s[..|s| - 1] == IntText(m);
      assert FirstIndex(IntText(m), 'h').None?;
      IntTextRoundTrip(m);
  }

  /** A text that splits at its first `c` into two `%d` numbers is those
      numbers' texts around `c`. */
  lemma JoinAtFirst(body: string, c: char, i: nat, x: int, y: int)
    requires i < |body| && body[i] == c
    requires ParseInt(body[..i]) == Some(x) && ParseInt(body[i + 1..]) == Some(y)
    ensures body == IntText(x) + [c] + IntText(y)
  {
    ParseIntExact(body[..i], x);
    ParseIntExact(body[i + 1..], y);
    assert body == body[..i] + [c] + body[i + 1..];
  }

  /** The only text that reads back as a bucket is that bucket's label: the
      labels and the buckets correspond one to one. */
  lemma ParseAgeExact(s: string, b: Bucket)
    requires ParseAge(s) == Some(b)
    ensures s == BucketText(b)
  {
    var body := s[..|s| - 1];
    assert s == body + [s[|s| - 1]];
    if s[|s| - 1] == 'h' {
      var i := FirstIndex(body, 'd').value;
      JoinAtFirst(body, 'd', i, b.days, b.hours);
    } else if FirstIndex(body, 'h').Some? {
      var i := FirstIndex(body, 'h').value;
      JoinAtFirst(body, 'h', i, b.hours, b.minutes);
    } else {
      ParseIntExact(body, b.minutes);
    }
  }
}
