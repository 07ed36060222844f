/** sqliteTimeLayout of storage/sqlstore/sqlstore.go over the proleptic Gregorian calendar:
    instants as text of fixed width, which sorts as they do in time from year 0 to 9999. */
module Timestamps {
  import opened Storage
  import opened Decimals

  // ---- digits ----

  function Pow10(w: nat): nat {
    if w == 0 then 1 else 10 * Pow10(w - 1)
  }

  lemma {:induction false} DigitsWidth(n: nat, w: nat)
    requires 1 <= w && n < Pow10(w)
    ensures |Digits(n, w)| == w
  {
    if w > 1 { DigitsWidth(n / 10, w - 1); }
  }

  lemma {:induction false} Appended(p: string, x: string, q: string, y: string)
    requires |p| == |q|
    requires StrLess(p, q) || (p == q && StrLess(x, y))
    ensures StrLess(p + x, q + y)
  {
    if p == [] {
      assert p + x == x && q + y == y;
    } else {
      assert (p + x)[1..] == p[1..] + x && (q + y)[1..] == q[1..] + y;
      if p[0] == q[0] { Appended(p[1..], x, q[1..], y); }
    }
  }

  /** Of two numbers of one width the smaller is the smaller text. */
  lemma {:induction false} DigitsOrder(n: nat, m: nat, w: nat)
    requires 1 <= w && n < m < Pow10(w)
    ensures StrLess(Digits(n, w), Digits(m, w))
  {
    if w > 1 {
      DigitsWidth(n / 10, w - 1);
      DigitsWidth(m / 10, w - 1);
      if n / 10 < m / 10 { DigitsOrder(n / 10, m / 10, w - 1); }
      Appended(Digits(n / 10, w - 1), [Digit(n % 10)], Digits(m / 10, w - 1), [Digit(m % 10)]);
    }
  }

  // ---- the calendar ----

  predicate Leap(y: int) {
    y % 4 == 0 && (y % 100 != 0 || y % 400 == 0)
  }

  function MonthLength(y: int, m: nat): nat {
    if m == 2 then (if Leap(y) then 29 else 28) else if m == 4 || m == 6 || m == 9 || m == 11 then 30 else 31
  }

  /** The days from the first of month m to the end of the year. */
  function DaysLeft(y: int, m: nat): nat
    decreases 12 - m
  {
    if m >= 12 then MonthLength(y, 12) else MonthLength(y, m) + DaysLeft(y, m + 1)
  }

  function YearLength(y: int): nat {
    if Leap(y) then 366 else 365
  }

  lemma MonthsFillTheYear(y: int)
    ensures DaysLeft(y, 1) == YearLength(y)
  {
    assert DaysLeft(y, 7) == 184 by { assert DaysLeft(y, 10) == 92; }
    assert DaysLeft(y, 3) == 306;
  }

  /** The year and the day in it, `day` days after the first of January of year y. */
  function YearAt(y: int, day: int): (r: (int, nat))
    ensures r.1 < YearLength(r.0)
    decreases if day < 0 then 1 else 0, if day < 0 then -day else day
  {
    if day < 0 then YearAt(y - 1, day + YearLength(y - 1))
    else if day < YearLength(y) then (y, day)
    else YearAt(y + 1, day - YearLength(y))
  }

  /** The month and the day of the month, `day` days after the first of month m. */
  function MonthAt(y: int, m: nat, day: nat): (r: (nat, nat))
    requires 1 <= m <= 12 && day < DaysLeft(y, m)
    ensures m <= r.0 <= 12 && 1 <= r.1 <= 31 && r.1 <= MonthLength(y, r.0)
    decreases 12 - m
  {
    if day < MonthLength(y, m) then (m, day + 1) else MonthAt(y, m + 1, day - MonthLength(y, m))
  }

  lemma {:induction false} YearNotBefore(y: int, day: int)
    requires day >= 0
    ensures YearAt(y, day).0 >= y
    decreases day
  {
    if day >= YearLength(y) { YearNotBefore(y + 1, day - YearLength(y)); }
  }

  lemma {:induction false} YearBefore(y: int, day: int)
    requires day < 0
    ensures YearAt(y, day).0 < y
    decreases -day
  {
    if day + YearLength(y - 1) < 0 { YearBefore(y - 1, day + YearLength(y - 1)); }
  }

  predicate Before(p: (int, nat), q: (int, nat)) {
    p.0 < q.0 || (p.0 == q.0 && p.1 < q.1)
  }

  /** A later day is in a later year, or later in the same one. */
  lemma {:induction false} YearsInOrder(y: int, a: int, b: int)
    requires a < b
    ensures Before(YearAt(y, a), YearAt(y, b))
    decreases if a < 0 then 1 else 0, if a < 0 then -a else a
  {
    if a < 0 {
      if b < 0 {
        YearsInOrder(y - 1, a + YearLength(y - 1), b + YearLength(y - 1));
      } else {
        YearBefore(y, a);
        YearNotBefore(y, b);
      }
    } else {
      if a >= YearLength(y) {
        YearsInOrder(y + 1, a - YearLength(y), b - YearLength(y));
      } else if b >= YearLength(y) {
        YearNotBefore(y + 1, b - YearLength(y));
      }
    }
  }

  lemma {:induction false} MonthsInOrder(y: int, m: nat, a: nat, b: nat)
    requires 1 <= m <= 12 && a < b < DaysLeft(y, m)
    ensures Before(MonthAt(y, m, a), MonthAt(y, m, b))
    decreases 12 - m
  {
    if a >= MonthLength(y, m) { MonthsInOrder(y, m + 1, a - MonthLength(y, m), b - MonthLength(y, m)); }
  }

  // ---- the layout ----

  const HOUR := 60 * MINUTE
  const DAY := 24 * HOUR

  /** A number of fixed width and the character after it. */
  datatype Part = Part(value: nat, width: nat, mark: char)

  function Show(parts: seq<Part>): string {
    if parts == [] then "" else Digits(parts[0].value, parts[0].width) + ([parts[0].mark] + Show(parts[1..]))
  }

  /** The year of an instant in UTC, and the day in it. */
  function YearOf(t: int): (r: (int, nat))
    ensures r.1 < YearLength(r.0)
  {
    YearAt(1970, t / DAY)
  }

  function Clock(n: nat): seq<Part> {
    var (minutes, seconds) := (n % HOUR, n % HOUR % MINUTE);
    [Part(n / HOUR, 2, ':'), Part(minutes / MINUTE, 2, ':'), Part(seconds / SECOND, 2, '.'),
        Part(seconds % SECOND, 9, 'Z')]
  }

  function Date(y: int, day: nat): seq<Part>
    requires day < YearLength(y)
  {
    MonthsFillTheYear(y);
    var (m, d) := MonthAt(y, 1, day);
    [Part(if y < 0 then -y else y, 4, '-'), Part(m, 2, '-'), Part(d, 2, 'T')]
  }

  function Parts(t: int): seq<Part> {
    Date(YearOf(t).0, YearOf(t).1) + Clock(t % DAY)
  }

  /** "2006-01-02T15:04:05.000000000Z07:00" in UTC. */
  function Layout(t: int): string {
    (if YearOf(t).0 < 0 then "-" else "") + Show(Parts(t))
  }

  /** The instants whose year the layout writes in four digits. */
  predicate FourDigitYear(t: int) {
    0 <= YearOf(t).0 <= 9999
  }

  // ---- text order is time order ----

  predicate Fits(p: Part) {
    1 <= p.width && p.value < Pow10(p.width)
  }

  /** Parts of the same widths and marks, all within their widths. */
  predicate Alike(ps: seq<Part>, qs: seq<Part>) {
    && |ps| == |qs|
    && forall i :: 0 <= i < |ps| ==>
         Fits(ps[i]) && Fits(qs[i]) && ps[i].width == qs[i].width && ps[i].mark == qs[i].mark
  }

  /** The first part that differs is smaller. */
  predicate Earlier(ps: seq<Part>, qs: seq<Part>) {
    exists k :: 0 <= k < |ps| && k < |qs| && ps[..k] == qs[..k] && ps[k].value < qs[k].value
  }

  lemma {:induction false} ShowOrder(ps: seq<Part>, qs: seq<Part>)
    requires Alike(ps, qs) && Earlier(ps, qs)
    ensures StrLess(Show(ps), Show(qs))
  {
    var k :| 0 <= k < |ps| && k < |qs| && ps[..k] == qs[..k] && ps[k].value < qs[k].value;
    var (p, q) := (ps[0], qs[0]);
    DigitsWidth(p.value, p.width);
    DigitsWidth(q.value, q.width);
    if k == 0 {
      DigitsOrder(p.value, q.value, p.width);
    } else {
      assert ps[..k][0] == qs[..k][0];
      assert ps[1..][..k - 1] == ps[..k][1..] && qs[1..][..k - 1] == qs[..k][1..];
      ShowOrder(ps[1..], qs[1..]);
      Appended([p.mark], Show(ps[1..]), [q.mark], Show(qs[1..]));
    }
    Appended(Digits(p.value, p.width), [p.mark] + Show(ps[1..]), Digits(q.value, q.width), [q.mark] + Show(qs[1..]));
  }

  lemma Widths()
    ensures Pow10(2) == 100 && Pow10(4) == 10_000 && Pow10(9) == 1_000_000_000
  {
    assert Pow10(3) == 1000 && Pow10(6) == 1_000_000;
  }

  lemma QuotientDecides(q: int, r: nat, p: int, s: nat, k: nat)
    requires r < k && s < k && k * q + r < k * p + s
    ensures q < p || (q == p && r < s)
  {
    assert k * q == k * p + k * (q - p);
    if q > p { AtLeastOne(k, q - p); }
  }

  lemma AtLeastOne(k: nat, n: nat)
    requires n >= 1
    ensures k * n >= k
  {
    assert k * n == k * (n - 1) + k;
  }

  lemma DividesInOrder(n: int, m: int, k: nat)
    requires n < m && 0 < k
    ensures n / k < m / k || (n / k == m / k && n % k < m % k)
  {
    QuotientDecides(n / k, n % k, m / k, m % k, k);
  }

  lemma ClocksAlike(n: nat, m: nat)
    requires n < DAY && m < DAY
    ensures Alike(Clock(n), Clock(m))
  {
    Widths();
  }

  lemma ClocksInOrder(n: nat, m: nat)
    requires n < m
    ensures Earlier(Clock(n), Clock(m))
  {
    var (ps, qs) := (Clock(n), Clock(m));
    var (a, b) := (n % HOUR, m % HOUR);
    assert ps[..0] == qs[..0];
    DividesInOrder(n, m, HOUR);
    if n / HOUR == m / HOUR {
      assert ps[..1] == qs[..1];
      DividesInOrder(a, b, MINUTE);
      if a / MINUTE == b / MINUTE {
        assert ps[..2] == qs[..2];
        DividesInOrder(a % MINUTE, b % MINUTE, SECOND);
        if a % MINUTE / SECOND == b % MINUTE / SECOND { assert ps[..3] == qs[..3]; }
      }
    }
  }

  lemma DatesInOrder(y: int, day: nat, z: int, other: nat)
    requires 0 <= y <= 9999 && 0 <= z <= 9999 && day < YearLength(y) && other < YearLength(z)
    ensures Alike(Date(y, day), Date(z, other))
    ensures Before((y, day), (z, other)) ==> Earlier(Date(y, day), Date(z, other))
  {
    Widths();
    if Before((y, day), (z, other)) {
      var (ps, qs) := (Date(y, day), Date(z, other));
      if y < z {
        assert ps[..0] == qs[..0];
      } else {
        MonthsFillTheYear(y);
        MonthsInOrder(y, 1, day, other);
        if ps[1].value < qs[1].value {
          assert ps[..1] == qs[..1];
        } else {
          assert ps[..2] == qs[..2];
        }
      }
    }
  }

  lemma EarlierParts(a: seq<Part>, b: seq<Part>, x: seq<Part>, y: seq<Part>)
    requires Alike(a, b) && Alike(x, y)
    ensures Alike(a + x, b + y)
    ensures Earlier(a, b) || (a == b && Earlier(x, y)) ==> Earlier(a + x, b + y)
  {
    if Earlier(a, b) {
      var k :| 0 <= k < |a| && k < |b| && a[..k] == b[..k] && a[k].value < b[k].value;
      assert (a + x)[..k] == a[..k] && (b + y)[..k] == b[..k];
    } else if a == b && Earlier(x, y) {
      var k :| 0 <= k < |x| && k < |y| && x[..k] == y[..k] && x[k].value < y[k].value;
      var j := |a| + k;
      assert (a + x)[..j] == a + x[..k] && (b + y)[..j] == b + y[..k];
      assert (a + x)[j] == x[k] && (b + y)[j] == y[k];
    }
  }

  lemma LaterIsLarger(t: int, u: int)
    requires FourDigitYear(t) && FourDigitYear(u) && t < u
    ensures StrLess(Layout(t), Layout(u))
  {
    var (y, z) := (YearOf(t), YearOf(u));
    DividesInOrder(t, u, DAY);
    if t / DAY < u / DAY { YearsInOrder(1970, t / DAY, u / DAY); }
    DatesInOrder(y.0, y.1, z.0, z.1);
    ClocksAlike(t % DAY, u % DAY);
    if t % DAY < u % DAY { ClocksInOrder(t % DAY, u % DAY); }
    EarlierParts(Date(y.0, y.1), Date(z.0, z.1), Clock(t % DAY), Clock(u % DAY));
    ShowOrder(Parts(t), Parts(u));
    assert "" + Show(Parts(t)) == Show(Parts(t)) && "" + Show(Parts(u)) == Show(Parts(u));
  }

  /** Rendered instants sort as they do in time while years have four digits ... */
  lemma LayoutOrder(t: int, u: int)
    requires FourDigitYear(t) && FourDigitYear(u)
    ensures StrLess(Layout(t), Layout(u)) <==> t < u
    ensures Layout(t) == Layout(u) <==> t == u
  {
    StrOrder(Layout(t), Layout(u));
    if t < u { LaterIsLarger(t, u); }
    if u < t { LaterIsLarger(u, t); }
  }

  /** ... and no longer: every instant of year 10000 sorts before every one of year 9999. */
  lemma FiveDigitsSortFirst(t: int, u: int)
    requires YearOf(t).0 == 9999 && YearOf(u).0 == 10_000
    ensures t < u && StrLess(Layout(u), Layout(t))
  {
    if u < t {
      DividesInOrder(u, t, DAY);
      if u / DAY < t / DAY { YearsInOrder(1970, u / DAY, t / DAY); }
    }
    assert Digits(9999, 4)[0] == '9';
    assert Digits(10_000, 4)[0] == '1';
    assert Layout(t)[0] == '9' && Layout(u)[0] == '1';
  }

  // ---- reading an instant back ----

  /** Numbers of these widths, each with its mark behind it and nothing after the last. */
  function ReadParts(s: string, shape: seq<(nat, char)>): Option<seq<nat>> {
    if shape == [] then (if s == "" then Some([]) else None)
    else
      var (w, mark) := shape[0];
      if |s| <= w || !AllDigits(s[..w]) || s[w] != mark then None
      else
        match ReadParts(s[w + 1..], shape[1..])
        case None => None
        case Some(rest) => Some([Decimal(s[..w])] + rest)
  }

  function Shape(parts: seq<Part>): seq<(nat, char)> {
    seq(|parts|, i requires 0 <= i < |parts| => (parts[i].width, parts[i].mark))
  }

  function Values(parts: seq<Part>): seq<nat> {
    seq(|parts|, i requires 0 <= i < |parts| => parts[i].value)
  }

  lemma FirstReads(p: Part, rest: string, shape: seq<(nat, char)>)
    requires Fits(p)
    ensures ReadParts(Digits(p.value, p.width) + ([p.mark] + rest), [(p.width, p.mark)] + shape) ==
              match ReadParts(rest, shape) case None => None case Some(v) => Some([p.value] + v)
  {
    var digits := Digits(p.value, p.width);
    var s := digits + ([p.mark] + rest);
    DigitsWidth(p.value, p.width);
    DigitsDecimal(p.value, p.width);
    assert s[..p.width] == digits && s[p.width] == p.mark && s[p.width + 1..] == rest;
    assert ([(p.width, p.mark)] + shape)[1..] == shape;
  }

  lemma {:induction false} ShownReadsBack(parts: seq<Part>)
    requires forall i :: 0 <= i < |parts| ==> Fits(parts[i])
    ensures ReadParts(Show(parts), Shape(parts)) == Some(Values(parts))
  {
    if parts != [] {
      var p, rest := parts[0], parts[1..];
      ShownReadsBack(rest);
      FirstReads(p, Show(rest), Shape(rest));
      assert Shape(parts) == [(p.width, p.mark)] + Shape(rest) && Values(parts) == [p.value] + Values(rest);
    }
  }

  /** The days from the first of January 1970 to that of year y. */
  function YearStart(y: int): int
    decreases if y < 1970 then 1970 - y else y - 1970
  {
    if y == 1970 then 0
    else if y > 1970 then YearStart(y - 1) + YearLength(y - 1)
    else YearStart(y + 1) - YearLength(y)
  }

  lemma YearStartNext(y: int)
    ensures YearStart(y + 1) == YearStart(y) + YearLength(y)
  {
  }

  lemma {:induction false} YearAtInverts(y: int, day: int)
    ensures var (z, k) := YearAt(y, day); YearStart(z) + k == YearStart(y) + day
    decreases if day < 0 then 1 else 0, if day < 0 then -day else day
  {
    YearStartNext(y);
    YearStartNext(y - 1);
    if day < 0 {
      YearAtInverts(y - 1, day + YearLength(y - 1));
    } else if day >= YearLength(y) {
      YearAtInverts(y + 1, day - YearLength(y));
    }
  }

  /** The days from the first of January to the first of month m. */
  function MonthStart(y: int, m: nat): nat {
    if m <= 1 then 0 else MonthStart(y, m - 1) + MonthLength(y, m - 1)
  }

  lemma {:induction false} MonthAtInverts(y: int, m: nat, day: nat)
    requires 1 <= m <= 12 && day < DaysLeft(y, m)
    ensures var (n, d) := MonthAt(y, m, day); MonthStart(y, n) + d - 1 == MonthStart(y, m) + day
    decreases 12 - m
  {
    if day >= MonthLength(y, m) { MonthAtInverts(y, m + 1, day - MonthLength(y, m)); }
  }

  /** A date and a time of day that exist. */
  predicate Exists(v: seq<nat>) {
    |v| == 7 && 1 <= v[1] <= 12 && 1 <= v[2] <= MonthLength(v[0], v[1]) && v[3] < 24 && v[4] < 60 && v[5] < 60
  }

  function Instant(v: seq<nat>): int
    requires Exists(v)
  {
    (YearStart(v[0]) + MonthStart(v[0], v[1]) + v[2] - 1) * DAY + v[3] * HOUR + v[4] * MINUTE + v[5] * SECOND + v[6]
  }

  const SHAPE: seq<(nat, char)> := [(4, '-'), (2, '-'), (2, 'T'), (2, ':'), (2, ':'), (2, '.'), (9, 'Z')]

  /** time.Parse with the layout, of an instant written in UTC. */
  function ParseLayout(s: string): Option<int> {
    match ReadParts(s, SHAPE)
    case None => None
    case Some(v) => if Exists(v) then Some(Instant(v)) else None
  }

  lemma SplitTime(n: nat)
    requires n < DAY
    ensures var a := n % HOUR;
            && n / HOUR < 24 && a / MINUTE < 60 && a % MINUTE / SECOND < 60
            && n / HOUR * HOUR + a / MINUTE * MINUTE + a % MINUTE / SECOND * SECOND + a % MINUTE % SECOND == n
  {
  }

  lemma PartsFit(t: int)
    requires FourDigitYear(t)
    ensures Shape(Parts(t)) == SHAPE && forall i :: 0 <= i < |Parts(t)| ==> Fits(Parts(t)[i])
  {
    var (y, n) := (YearOf(t), t % DAY);
    DatesInOrder(y.0, y.1, y.0, y.1);
    ClocksAlike(n, n);
    var ps, qs := Date(y.0, y.1), Clock(n);
    assert Parts(t) == ps + qs;
    forall i | 0 <= i < |Parts(t)| ensures Fits(Parts(t)[i]) {
      if i < |ps| { assert Parts(t)[i] == ps[i]; } else { assert Parts(t)[i] == qs[i - |ps|]; }
    }
  }

  function ClockValues(n: nat): seq<nat> {
    [n / HOUR, n % HOUR / MINUTE, n % HOUR % MINUTE / SECOND, n % HOUR % MINUTE % SECOND]
  }

  lemma DayReadsBack(t: int, m: nat, d: nat)
    requires YearOf(t).1 < DaysLeft(YearOf(t).0, 1) && MonthAt(YearOf(t).0, 1, YearOf(t).1) == (m, d)
    ensures YearStart(YearOf(t).0) + MonthStart(YearOf(t).0, m) + d - 1 == t / DAY && t == t / DAY * DAY + t % DAY
  {
    YearAtInverts(1970, t / DAY);
    MonthAtInverts(YearOf(t).0, 1, YearOf(t).1);
  }

  lemma TextReads(t: int)
    requires FourDigitYear(t)
    ensures ReadParts(Layout(t), SHAPE) == Some(Values(Parts(t)))
  {
    PartsFit(t);
    ShownReadsBack(Parts(t));
    assert "" + Show(Parts(t)) == Show(Parts(t));
  }

  lemma PartsAreInstant(t: int)
    requires FourDigitYear(t)
    ensures Exists(Values(Parts(t))) && Instant(Values(Parts(t))) == t
  {
    var (y, day) := YearOf(t);
    MonthsFillTheYear(y);
    var (m, d) := MonthAt(y, 1, day);
    assert Values(Parts(t)) == [y, m, d] + ClockValues(t % DAY);
    DayReadsBack(t, m, d);
    SplitTime(t % DAY);
  }

  /** Every instant of a year of four digits is read back from its text. */
  lemma LayoutReadsBack(t: int)
    requires FourDigitYear(t)
    ensures ParseLayout(Layout(t)) == Some(t)
  {
    TextReads(t);
    PartsAreInstant(t);
  }
}
