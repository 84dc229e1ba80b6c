/** The token bucket kept in the `global_rate_limits` table (weasyl/rate_limits.py). */
module TokenBucket {
  import opened Numbers

  const MAX_SETTING := 0x3fff_ffff
  const INT4_MAX := 0x7fff_ffff
  const INT8_MAX := 0x7fff_ffff_ffff_ffff

  /** The settings that `__post_init__` accepts. */
  type Limit = l: LimitSettings | 0 <= l.capacity <= MAX_SETTING && 0 < l.period <= MAX_SETTING
    witness LimitSettings(0, 1)

  datatype LimitSettings = LimitSettings(capacity: int, period: int)

  datatype Bucket = Bucket(available: int, lastUpdate: int)

  ghost predicate Valid(l: Limit, b: Bucket) {
    0 <= b.available <= l.capacity
  }

  // ---------- One attempt ----------

  function Ticks(b: Bucket, now: int): nat {
    if now > b.lastUpdate then now - b.lastUpdate else 0
  }

  /** What `ticks` seconds are worth. */
  function Worth(l: Limit, ticks: nat): nat {
    DivisionKeepsSign(ticks * l.capacity, l.period);
    ticks * l.capacity / l.period
  }

  lemma DivisionKeepsSign(a: int, p: int)
    requires a >= 0 && p > 0
    ensures a / p >= 0
  {}

  /** The `WHERE` clause. */
  predicate Grants(l: Limit, b: Bucket, now: int) {
    b.available > 0 || Worth(l, Ticks(b, now)) > 0
  }

  /** The row after an attempt: untouched if it is refused. */
  function Take(l: Limit, b: Bucket, now: int): Bucket {
    if Grants(l, b, now) then
      Bucket(Min(l.capacity, b.available + Worth(l, Ticks(b, now))) - 1, b.lastUpdate + Ticks(b, now))
    else b
  }

  class Row {
    var available: int
    var lastUpdate: int

    ghost function Value(): Bucket
      reads this
    {
      Bucket(available, lastUpdate)
    }

    /** `take_one`; `granted` is false where it raises `globalLimit`. */
    method TakeOne(l: Limit, now: int) returns (granted: bool)
      modifies this
      ensures granted == Grants(l, old(Value()), now)
      ensures Value() == Take(l, old(Value()), now)
    {
      var ticks := if now > lastUpdate then now - lastUpdate else 0;
      var newlyAvailable := ticks * l.capacity / l.period;
      granted := available > 0 || newlyAvailable > 0;
      if granted {
        available := Min(l.capacity, available + newlyAvailable) - 1;
        lastUpdate := lastUpdate + ticks;
      }
    }
  }

  // ---------- Runs ----------

  ghost predicate NonDecreasing(times: seq<int>) {
    forall i, j :: 0 <= i < j < |times| ==> times[i] <= times[j]
  }

  function After(l: Limit, b: Bucket, times: seq<int>): Bucket
    decreases |times|
  {
    if times == [] then b else After(l, Take(l, b, times[0]), times[1..])
  }

  /** When the attempts that were granted happened. */
  function Granted(l: Limit, b: Bucket, times: seq<int>): seq<int>
    decreases |times|
  {
    if times == [] then []
    else (if Grants(l, b, times[0]) then [times[0]] else []) + Granted(l, Take(l, b, times[0]), times[1..])
  }

  // ---------- Arithmetic ----------

  lemma FloorOfProduct(q: int, a: int, p: int)
    requires p > 0
    ensures q * p <= a <==> q <= a / p
  {
    assert a == p * (a / p) + a % p;
    if q <= a / p {
      assert q * p <= (a / p) * p;
    } else {
      assert q * p >= (a / p + 1) * p;
    }
  }

  lemma WorthIsMonotone(l: Limit, a: nat, b: nat)
    requires a <= b
    ensures Worth(l, a) <= Worth(l, b)
  {
    FloorOfProduct(Worth(l, a), a * l.capacity, l.period);
    assert a * l.capacity <= b * l.capacity;
    FloorOfProduct(Worth(l, a), b * l.capacity, l.period);
  }

  /** Splitting a span never earns more. */
  lemma WorthIsSuperadditive(l: Limit, a: nat, b: nat)
    ensures Worth(l, a) + Worth(l, b) <= Worth(l, a + b)
  {
    FloorOfProduct(Worth(l, a), a * l.capacity, l.period);
    FloorOfProduct(Worth(l, b), b * l.capacity, l.period);
    assert (Worth(l, a) + Worth(l, b)) * l.period == Worth(l, a) * l.period + Worth(l, b) * l.period;
    assert (a + b) * l.capacity == a * l.capacity + b * l.capacity;
    FloorOfProduct(Worth(l, a) + Worth(l, b), (a + b) * l.capacity, l.period);
  }

  lemma WorthOfPeriod(l: Limit)
    ensures Worth(l, l.period) == l.capacity
  {
    FloorOfProduct(l.capacity, l.period * l.capacity, l.period);
    FloorOfProduct(l.capacity + 1, l.period * l.capacity, l.period);
  }

  // ---------- Main results ----------

  lemma TakeValid(l: Limit, b: Bucket, now: int)
    requires Valid(l, b)
    ensures Valid(l, Take(l, b, now))
    ensures Take(l, b, now).lastUpdate == b.lastUpdate + (if Grants(l, b, now) then Ticks(b, now) else 0)
    ensures Grants(l, b, now) ==> Take(l, b, now).available < l.capacity
  {}

  lemma {:induction false} AvailableInRange(l: Limit, b: Bucket, times: seq<int>)
    requires Valid(l, b)
    ensures Valid(l, After(l, b, times))
    decreases |times|
  {
    if times != [] {
      TakeValid(l, b, times[0]);
      AvailableInRange(l, Take(l, b, times[0]), times[1..]);
    }
  }

  lemma {:induction false} GrantedNotBefore(l: Limit, b: Bucket, times: seq<int>, t: int)
    requires forall i :: 0 <= i < |times| ==> t <= times[i]
    ensures forall k :: 0 <= k < |Granted(l, b, times)| ==> t <= Granted(l, b, times)[k]
    decreases |times|
  {
    if times != [] {
      GrantedNotBefore(l, Take(l, b, times[0]), times[1..], t);
    }
  }

  /** From any state, the first `k + 1` grants are paid for by what is there and what is earned until the last of
      them. */
  lemma {:induction false} GrantsArePaidFor(l: Limit, b: Bucket, times: seq<int>, k: nat)
    requires Valid(l, b) && NonDecreasing(times) && k < |Granted(l, b, times)|
    ensures k + 1 <= b.available + Worth(l, Ticks(b, Granted(l, b, times)[k]))
    decreases |times|
  {
    var t, c := times[0], Take(l, b, times[0]);
    TakeValid(l, b, t);
    if !Grants(l, b, t) {
      GrantsArePaidFor(l, b, times[1..], k);
    } else if k > 0 {
      var s := Granted(l, b, times)[k];
      assert s == Granted(l, c, times[1..])[k - 1];
      GrantsArePaidFor(l, c, times[1..], k - 1);
      GrantedNotBefore(l, c, times[1..], t);
      assert Ticks(b, s) == Ticks(b, t) + Ticks(c, s);
      WorthIsSuperadditive(l, Ticks(b, t), Ticks(c, s));
    }
  }

  /** Any grants number `i` to `j` of any run. */
  lemma {:induction false} WindowBound(l: Limit, b: Bucket, times: seq<int>, i: nat, j: nat)
    requires Valid(l, b) && NonDecreasing(times) && i <= j < |Granted(l, b, times)|
    ensures Granted(l, b, times)[i] <= Granted(l, b, times)[j]
    ensures j - i + 1 <= l.capacity + Worth(l, Granted(l, b, times)[j] - Granted(l, b, times)[i])
    decreases |times|
  {
    var t, c, granted := times[0], Take(l, b, times[0]), Granted(l, b, times);
    TakeValid(l, b, t);
    if !Grants(l, b, t) {
      WindowBound(l, b, times[1..], i, j);
    } else if i > 0 {
      assert granted[i] == Granted(l, c, times[1..])[i - 1] && granted[j] == Granted(l, c, times[1..])[j - 1];
      WindowBound(l, c, times[1..], i - 1, j - 1);
    } else if j > 0 {
      assert granted[j] == Granted(l, c, times[1..])[j - 1];
      GrantsArePaidFor(l, c, times[1..], j - 1);
      GrantedNotBefore(l, c, times[1..], t);
      WorthIsMonotone(l, Ticks(c, granted[j]), granted[j] - t);
    }
  }

  /** No span of `period` seconds holds more than `2 * capacity` grants, and over longer spans
      the average tends to at most `capacity` per `period`. */
  lemma DocumentedBounds(l: Limit, b: Bucket, times: seq<int>, i: nat, j: nat)
    requires Valid(l, b) && NonDecreasing(times) && i <= j < |Granted(l, b, times)|
    ensures Granted(l, b, times)[j] - Granted(l, b, times)[i] <= l.period ==> j - i + 1 <= 2 * l.capacity
    ensures (j - i + 1 - l.capacity) * l.period <= (Granted(l, b, times)[j] - Granted(l, b, times)[i]) * l.capacity
  {
    WindowBound(l, b, times, i, j);
    var span := Granted(l, b, times)[j] - Granted(l, b, times)[i];
    if span <= l.period {
      WorthIsMonotone(l, span, l.period);
      WorthOfPeriod(l);
    }
    FloorOfProduct(j - i + 1 - l.capacity, span * l.capacity, l.period);
  }

  // ---------- What is granted at least ----------

  /** What an attempt at `now` finds. */
  function Stock(l: Limit, b: Bucket, now: int): int {
    Min(l.capacity, b.available + Worth(l, Ticks(b, now)))
  }

  /** Whenever they come, as many attempts are granted as there are tokens. */
  lemma {:induction false} FirstAttemptsGranted(l: Limit, b: Bucket, times: seq<int>, k: nat)
    requires Valid(l, b) && k <= b.available && k <= |times|
    ensures k <= |Granted(l, b, times)| && Granted(l, b, times)[..k] == times[..k]
    decreases |times|
  {
    if k > 0 {
      var c := Take(l, b, times[0]);
      TakeValid(l, b, times[0]);
      FirstAttemptsGranted(l, c, times[1..], k - 1);
      assert times[..k] == [times[0]] + times[1..][..k - 1];
      assert Granted(l, b, times)[..k] == [times[0]] + Granted(l, c, times[1..])[..k - 1];
    }
  }

  /** So are as many as the first of them finds. */
  lemma StockIsGranted(l: Limit, b: Bucket, times: seq<int>, k: nat)
    requires Valid(l, b) && 0 < k <= |times| && k <= Stock(l, b, times[0])
    ensures k <= |Granted(l, b, times)| && Granted(l, b, times)[..k] == times[..k]
  {
    var c := Take(l, b, times[0]);
    TakeValid(l, b, times[0]);
    FirstAttemptsGranted(l, c, times[1..], k - 1);
    assert times[..k] == [times[0]] + times[1..][..k - 1];
    assert Granted(l, b, times)[..k] == [times[0]] + Granted(l, c, times[1..])[..k - 1];
  }

  /** `period` seconds after the last grant, any `capacity` attempts in a row are granted. */
  lemma AfterPeriodGranted(l: Limit, b: Bucket, times: seq<int>, k: nat)
    requires Valid(l, b) && k <= |times| && k <= l.capacity
    requires k > 0 ==> b.lastUpdate + l.period <= times[0]
    ensures k <= |Granted(l, b, times)| && Granted(l, b, times)[..k] == times[..k]
  {
    if k > 0 {
      WorthOfPeriod(l);
      WorthIsMonotone(l, l.period, Ticks(b, times[0]));
      StockIsGranted(l, b, times, k);
    }
  }

  /** Attempts at one moment are granted as long as the stock lasts, and no longer. */
  lemma {:induction false} BurstExactly(l: Limit, b: Bucket, times: seq<int>, now: int)
    requires Valid(l, b) && forall i :: 0 <= i < |times| ==> times[i] == now
    ensures Granted(l, b, times) == times[..Min(|times|, Stock(l, b, now))]
    decreases |times|
  {
    if times != [] {
      var c, k := Take(l, b, now), Min(|times|, Stock(l, b, now));
      TakeValid(l, b, now);
      BurstExactly(l, c, times[1..], now);
      if Grants(l, b, now) {
        NoTimeNoWorth(l, c, now);
        StockWhenGranted(l, b, now);
        assert Granted(l, b, times) == [now] + times[1..][..Min(|times| - 1, Stock(l, b, now) - 1)];
        assert times[..k] == [times[0]] + times[1..][..k - 1];
      }
    }
  }

  lemma NoTimeNoWorth(l: Limit, c: Bucket, now: int)
    requires Valid(l, c) && now <= c.lastUpdate
    ensures Stock(l, c, now) == c.available
  {}

  lemma StockWhenGranted(l: Limit, b: Bucket, now: int)
    requires Valid(l, b)
    ensures Grants(l, b, now) <==> Stock(l, b, now) > 0
  {
    if l.capacity == 0 {
      FloorOfProduct(1, Ticks(b, now) * l.capacity, l.period);
    }
  }

  /** What the spans before the grants of a run are worth. */
  function Earned(l: Limit, b: Bucket, times: seq<int>): nat
    decreases |times|
  {
    if times == [] then 0
    else
      (if Grants(l, b, times[0]) then Worth(l, Ticks(b, times[0])) else 0)
      + Earned(l, Take(l, b, times[0]), times[1..])
  }

  /** What of that a full bucket does not hold. */
  function Spilled(l: Limit, b: Bucket, times: seq<int>): nat
    decreases |times|
  {
    if times == [] then 0
    else
      (if Grants(l, b, times[0]) then b.available + Worth(l, Ticks(b, times[0])) - Stock(l, b, times[0]) else 0)
      + Spilled(l, Take(l, b, times[0]), times[1..])
  }

  function Rounding(n: nat): nat {
    if n == 0 then 0 else n - 1
  }

  /** Splitting a span in two loses at most one token. */
  lemma WorthIsNearlyAdditive(l: Limit, a: nat, b: nat)
    ensures Worth(l, a + b) <= Worth(l, a) + Worth(l, b) + 1
  {
    var x, y, w := a * l.capacity, b * l.capacity, Worth(l, a) + Worth(l, b) + 2;
    FloorOfProduct(Worth(l, a) + 1, x, l.period);
    FloorOfProduct(Worth(l, b) + 1, y, l.period);
    assert w * l.period == (Worth(l, a) + 1) * l.period + (Worth(l, b) + 1) * l.period;
    assert (a + b) * l.capacity == x + y;
    FloorOfProduct(w, x + y, l.period);
  }

  /** Tokens are neither made nor lost: what was there and what was earned is granted, left, or spilled over the
      capacity; and rounding loses less than one token per grant. */
  lemma {:induction false} TokensBalance(l: Limit, b: Bucket, times: seq<int>)
    requires Valid(l, b)
    ensures var r, n := After(l, b, times), |Granted(l, b, times)|;
            && n + r.available + Spilled(l, b, times) == b.available + Earned(l, b, times)
            && r.lastUpdate >= b.lastUpdate
            && Earned(l, b, times) <= Worth(l, r.lastUpdate - b.lastUpdate)
            && Worth(l, r.lastUpdate - b.lastUpdate) <= Earned(l, b, times) + Rounding(n)
    decreases |times|
  {
    if times == [] {
      assert Worth(l, 0) == 0;
    } else {
      var t, c := times[0], Take(l, b, times[0]);
      TakeValid(l, b, t);
      TokensBalance(l, c, times[1..]);
      if Grants(l, b, t) {
        var later := After(l, b, times).lastUpdate - c.lastUpdate;
        WorthIsSuperadditive(l, Ticks(b, t), later);
        WorthIsNearlyAdditive(l, Ticks(b, t), later);
        if Granted(l, c, times[1..]) == [] {
          RefusalsChangeNothing(l, c, times[1..]);
          assert later == 0;
        }
      }
    }
  }

  /** A bucket that never spilled refuses only when at least half of what was there and of what the time is worth has
      been granted: the bound to set beside `GrantsArePaidFor`. */
  lemma RefusedOnlyWhenUsed(l: Limit, b: Bucket, times: seq<int>, refused: int)
    requires Valid(l, b) && Spilled(l, b, times) == 0
    requires After(l, b, times).lastUpdate <= refused && !Grants(l, After(l, b, times), refused)
    ensures |Granted(l, b, times)| <= b.available + Worth(l, Ticks(b, refused)) <= 2 * |Granted(l, b, times)|
  {
    var c, n := After(l, b, times), |Granted(l, b, times)|;
    TokensBalance(l, b, times);
    AvailableInRange(l, b, times);
    RefusedIsEmpty(l, c, refused);
    var span := c.lastUpdate - b.lastUpdate;
    assert Ticks(b, refused) == span + Ticks(c, refused);
    WorthIsMonotone(l, span, Ticks(b, refused));
    WorthIsNearlyAdditive(l, span, Ticks(c, refused));
    if n == 0 {
      RefusalsChangeNothing(l, b, times);
    }
  }

  /** An empty bucket grants exactly when `period / capacity` seconds have passed since the last grant. */
  lemma EmptyBucketGrants(l: Limit, b: Bucket, now: int)
    requires b.available == 0 && b.lastUpdate <= now
    ensures Grants(l, b, now) <==> (now - b.lastUpdate) * l.capacity >= l.period
  {}

  lemma {:induction false} RefusalsChangeNothing(l: Limit, b: Bucket, times: seq<int>)
    requires Granted(l, b, times) == []
    ensures After(l, b, times) == b
    decreases |times|
  {
    if times != [] {
      RefusalsChangeNothing(l, b, times[1..]);
    }
  }

  /** Refused at `t`, then only refusals: an attempt at least `period / capacity` seconds later is granted. */
  lemma {:induction false} RefusedThenGranted(l: Limit, b: Bucket, t: int, between: seq<int>, now: int)
    requires Valid(l, b) && b.lastUpdate <= t && !Grants(l, b, t)
    requires Granted(l, b, between) == []
    requires t <= now && (now - t) * l.capacity >= l.period
    ensures Grants(l, After(l, b, between), now)
  {
    RefusalsChangeNothing(l, b, between);
    RefusedIsEmpty(l, b, t);
    EmptyBucketGrants(l, b, now);
    hide *;
    ProductBound(now - t, l.capacity, now - b.lastUpdate, l.capacity);
  }

  lemma RefusedIsEmpty(l: Limit, b: Bucket, t: int)
    requires Valid(l, b) && !Grants(l, b, t)
    ensures b.available == 0 && l.capacity >= 0
  {}

  /** Until the year 2242 no intermediate value leaves its SQL type. */
  lemma NoOverflow(l: Limit, b: Bucket, now: int)
    requires Valid(l, b) && 0 <= b.lastUpdate && 0 <= now <= 0x2_0000_0000
    ensures 0 <= Ticks(b, now) * l.capacity <= INT8_MAX
    ensures 0 <= b.available + Worth(l, Ticks(b, now)) <= INT8_MAX
    ensures 0 <= Take(l, b, now).available <= INT4_MAX
    ensures Take(l, b, now).lastUpdate <= if now > b.lastUpdate then now else b.lastUpdate
  {
    TakeValid(l, b, now);
    var ticks := Ticks(b, now);
    ProductBound(ticks, l.capacity, 0x2_0000_0000, MAX_SETTING);
    QuotientBound(ticks * l.capacity, l.period);
    assert 0x2_0000_0000 * MAX_SETTING + MAX_SETTING <= INT8_MAX;
  }

  lemma ProductBound(a: nat, b: nat, x: nat, y: nat)
    requires a <= x && b <= y
    ensures a * b <= x * y
  {}

  lemma QuotientBound(a: nat, p: int)
    requires p > 0
    ensures 0 <= a / p <= a
  {
    DivisionKeepsSign(a, p);
    FloorOfProduct(a + 1, a, p);
    ProductBound(a + 1, 1, a + 1, p);
  }
}
