/**
 * The fixed-window rate limiter in front of the stream proxy
 * (`rate_limit_dep`): INCR of `rate:<ip>`, EXPIRE 60 on the first hit of a
 * window, and a 429 carrying the key's TTL once the count passes 20. Any
 * store error admits the request.
 *
 * The Redis server is modelled by QuotaStore: a map from key to counter
 * window, a logical clock in whole seconds, and one `outage` flag per
 * command saying whether that command raises a RedisError.
 */
module RateLimit {
  import opened Wrappers

  const Limit := 20
  const Period := 60

  /** A counter and the clock reading at which its key expires, if one is set. */
  datatype Window = Window(count: int, deadline: Option<int>)

  /** The answer to one store command, or the RedisError it raised. */
  datatype Reply<T> = Ok(value: T) | StoreError

  /** Which of the limiter's three store commands raise a RedisError on this call. */
  datatype Faults = Faults(incr: bool, expire: bool, ttl: bool)

  datatype Decision = Admitted | Rejected(error: HttpError)

  /** A window is still present at time `now`. */
  predicate Live(w: Window, now: int)
  {
    w.deadline.None? || now < w.deadline.value
  }

  /** The value INCR returns: one more than the stored count, 1 for a fresh key. */
  function CountAfterIncr(windows: map<string, Window>, key: string): int
  {
    if key in windows then windows[key].count + 1 else 1
  }

  /** The store after INCR: the count goes up, the expiry is left as it was. */
  function Bumped(windows: map<string, Window>, key: string): (r: map<string, Window>)
    ensures key in r && r[key].count == CountAfterIncr(windows, key)
    ensures key in windows ==> r[key].deadline == windows[key].deadline
    ensures key !in windows ==> r[key].deadline.None?
    ensures r.Keys == windows.Keys + {key}
    ensures forall k :: k in windows && k != key ==> r[k] == windows[k]
  {
    var w := if key in windows then windows[key] else Window(0, None);
    windows[key := Window(w.count + 1, w.deadline)]
  }

  /** The store after `EXPIRE key seconds` with seconds > 0 on a present key. */
  function Armed(windows: map<string, Window>, key: string, deadline: int): map<string, Window>
    requires key in windows
  {
    windows[key := Window(windows[key].count, Some(deadline))]
  }

  /** What TTL answers: -2 for a missing key, -1 for a key without expiry, else the seconds left. */
  function TtlOf(windows: map<string, Window>, key: string, now: int): int
  {
    if key !in windows then -2
    else if windows[key].deadline.None? then -1
    else windows[key].deadline.value - now
  }

  /** The windows still present at time `now`. */
  function LiveAt(windows: map<string, Window>, now: int): (r: map<string, Window>)
    ensures forall k :: k in r <==> k in windows && Live(windows[k], now)
    ensures forall k :: k in r ==> r[k] == windows[k]
  {
    map k | k in windows && Live(windows[k], now) :: windows[k]
  }

  class QuotaStore {
    var windows: map<string, Window>
    var clock: int

    /** Every stored key is live and has been incremented at least once. */
    ghost predicate Valid()
      reads this
    {
      forall k :: k in windows ==> windows[k].count >= 1 && Live(windows[k], clock)
    }

    constructor (now: int)
      ensures Valid() && windows == map[] && clock == now
    {
      windows := map[];
      clock := now;
    }

    /** INCR key. */
    method Incr(key: string, outage: bool) returns (r: Reply<int>)
      requires Valid()
      modifies this
      ensures Valid() && clock == old(clock)
      ensures outage ==> r == StoreError && windows == old(windows)
      ensures !outage ==> r == Ok(CountAfterIncr(old(windows), key)) && windows == Bumped(old(windows), key)
    {
      if outage {
        return StoreError;
      }
      var n := CountAfterIncr(windows, key);
      windows := Bumped(windows, key);
      r := Ok(n);
    }

    /** EXPIRE key seconds: false for a missing key; a non-positive time deletes the key. */
    method Expire(key: string, seconds: int, outage: bool) returns (r: Reply<bool>)
      requires Valid()
      modifies this
      ensures Valid() && clock == old(clock)
      ensures outage ==> r == StoreError && windows == old(windows)
      ensures !outage && key !in old(windows) ==> r == Ok(false) && windows == old(windows)
      ensures !outage && key in old(windows) && seconds <= 0 ==>
        r == Ok(true) && windows == old(windows) - {key}
      ensures !outage && key in old(windows) && seconds > 0 ==>
        r == Ok(true) && windows == Armed(old(windows), key, old(clock) + seconds)
    {
      if outage {
        return StoreError;
      }
      if key !in windows {
        return Ok(false);
      }
      if seconds <= 0 {
        windows := windows - {key};
      } else {
        windows := Armed(windows, key, clock + seconds);
      }
      r := Ok(true);
    }

    /** TTL key. */
    method Ttl(key: string, outage: bool) returns (r: Reply<int>)
      requires Valid()
      ensures outage ==> r == StoreError
      ensures !outage ==> r == Ok(TtlOf(windows, key, clock))
      ensures !outage && key in windows && windows[key].deadline.Some? ==> r.value > 0
    {
      if outage {
        return StoreError;
      }
      r := Ok(TtlOf(windows, key, clock));
    }

    /** Time passes; keys whose expiry has been reached disappear. */
    method Advance(seconds: nat)
      requires Valid()
      modifies this
      ensures Valid()
      ensures clock == old(clock) + seconds
      ensures windows == LiveAt(old(windows), old(clock) + seconds)
    {
      clock := clock + seconds;
      windows := LiveAt(windows, clock);
    }
  }

  /** `f"rate:{client_ip}"`, with `unknown` when the request has no client address. */
  function RateKey(client: Option<string>): (key: string)
    ensures client.Some? ==> key == "rate:" + client.value
    ensures client.None? ==> key == "rate:unknown"
  {
    "rate:" + (if client.Some? then client.value else "unknown")
  }

  /**
   * Clients share a bucket exactly when their addresses are equal, and a
   * request without a client address shares the bucket of the address
   * `unknown`.
   */
  lemma RateKeyBuckets(a: string, b: string)
    ensures RateKey(Some(a)) == RateKey(Some(b)) <==> a == b
    ensures RateKey(Some("unknown")) == RateKey(None)
  {
    var n := |"rate:"|;
    if RateKey(Some(a)) == RateKey(Some(b)) {
      assert RateKey(Some(a))[n..] == a;
      assert RateKey(Some(b))[n..] == b;
    }
  }

  /**
   * `rate_limit_dep`: counts the call, arms the window on its first call,
   * rejects past the limit with a 429 carrying the key's TTL, and admits whenever a store
   * command fails.
   */
  method RateLimitDep(store: QuotaStore, client: Option<string>, faults: Faults) returns (d: Decision)
    requires store.Valid()
    modifies store
    ensures store.Valid() && store.clock == old(store.clock)
    ensures var key := RateKey(client);
      var n := CountAfterIncr(old(store.windows), key);
      var bumped := Bumped(old(store.windows), key);
      && (faults.incr ==> store.windows == old(store.windows) && d == Admitted)
      && (!faults.incr && n == 1 && !faults.expire ==>
            store.windows == Armed(bumped, key, old(store.clock) + Period))
      && (!faults.incr && (n != 1 || faults.expire) ==> store.windows == bumped)
      && (!faults.incr && n <= Limit ==> d == Admitted)
      && (!faults.incr && n > Limit ==>
            d == if faults.ttl then Admitted else Rejected(RejectionError(TtlOf(bumped, key, old(store.clock)))))
  {
    var key := RateKey(client);
    var current := store.Incr(key, faults.incr);
    if current.StoreError? {
      return Admitted;
    }
    if current.value == 1 {
      var armed := store.Expire(key, Period, faults.expire);
      if armed.StoreError? {
        return Admitted;
      }
    }
    if current.value > Limit {
      var ttl := store.Ttl(key, faults.ttl);
      if ttl.StoreError? {
        return Admitted;
      }
      return Rejected(RejectionError(ttl.value));
    }
    d := Admitted;
  }

  /** The decimal digits of n, most significant first. */
  function Digits(n: nat): (s: string)
    ensures |s| > 0 && forall i :: 0 <= i < |s| ==> '0' <= s[i] <= '9'
  {
    if n < 10 then [('0' as int + n) as char]
    else Digits(n / 10) + [('0' as int + n % 10) as char]
  }

  /** Python's `str(n)` for an int. */
  function Decimal(n: int): string
  {
    if n < 0 then "-" + Digits(-n) else Digits(n)
  }

  /** The value of a string of decimal digits. */
  function DigitsValue(s: string): int
  {
    if s == [] then 0 else DigitsValue(s[..|s| - 1]) * 10 + (s[|s| - 1] as int - '0' as int)
  }

  /** Python's `int(s)` on what `str` produced. */
  function DecimalValue(s: string): int
  {
    if |s| > 0 && s[0] == '-' then -DigitsValue(s[1..]) else DigitsValue(s)
  }

  lemma {:induction false} DigitsRoundTrip(n: nat)
    ensures DigitsValue(Digits(n)) == n
  {
    if n >= 10 {
      DigitsRoundTrip(n / 10);
      var s := Digits(n);
      assert s[..|s| - 1] == Digits(n / 10);
    }
  }

  /** `int(str(n)) == n`: the retry-after figure in the 429 message reads back as the TTL. */
  lemma DecimalRoundTrip(n: int)
    ensures DecimalValue(Decimal(n)) == n
  {
    if n < 0 {
      DigitsRoundTrip(-n);
      assert Decimal(n)[1..] == Digits(-n);
    } else {
      DigitsRoundTrip(n);
    }
  }

  const RetryPrefix := "rate limit exceeded, try again in "

  /**
   * The HTTPException raised for a rejected call: status 429, and a detail
   * from which the retry-after figure reads back.
   */
  function RejectionError(retryAfter: int): (e: HttpError)
    ensures e.status == 429
    ensures var p := |RetryPrefix|;
      && |e.detail| > p
      && e.detail[..p] == RetryPrefix
      && e.detail[|e.detail| - 1] == 's'
      && DecimalValue(e.detail[p..|e.detail| - 1]) == retryAfter
  {
    var detail := RetryPrefix + Decimal(retryAfter) + "s";
    assert detail[|RetryPrefix|..|detail| - 1] == Decimal(retryAfter);
    DecimalRoundTrip(retryAfter);
    HttpError(429, detail)
  }

  /**
   * A client's calls within one window, all reaching the store: the first
   * twenty are admitted, the twenty-first is rejected with a retry-after of
   * the full period, and a call after the period has passed starts a new
   * window and is admitted.
   */
  method FixedWindowScenario(ip: string, start: int) returns (decisions: seq<Decision>)
    ensures |decisions| == Limit + 2
    ensures forall i :: 0 <= i < Limit ==> decisions[i] == Admitted
    ensures decisions[Limit] == Rejected(RejectionError(Period))
    ensures decisions[Limit + 1] == Admitted
  {
    var store := new QuotaStore(start);
    var key := RateKey(Some(ip));
    var ok := Faults(false, false, false);
    decisions := [];
    while |decisions| < Limit + 1
      invariant store.Valid() && store.clock == start
      invariant |decisions| <= Limit + 1
      invariant forall i :: 0 <= i < |decisions| && i < Limit ==> decisions[i] == Admitted
      invariant |decisions| == Limit + 1 ==> decisions[Limit] == Rejected(RejectionError(Period))
      invariant |decisions| == 0 ==> store.windows == map[]
      invariant |decisions| > 0 ==> store.windows == map[key := Window(|decisions|, Some(start + Period))]
    {
      ghost var before := store.windows;
      var d := RateLimitDep(store, Some(ip), ok);
      if |decisions| == Limit {
        assert TtlOf(Bumped(before, RateKey(Some(ip))), RateKey(Some(ip)), start) == Period;
      }
      decisions := decisions + [d];
    }
    store.Advance(Period + 1);
    assert store.windows == map[];
    var last := RateLimitDep(store, Some(ip), ok);
    decisions := decisions + [last];
  }

  /** When every store command fails, every call is admitted and nothing is counted. */
  method StoreDownScenario(ip: string, calls: nat) returns (decisions: seq<Decision>)
    ensures |decisions| == calls
    ensures forall i :: 0 <= i < calls ==> decisions[i] == Admitted
  {
    var store := new QuotaStore(0);
    var down := Faults(true, true, true);
    decisions := [];
    while |decisions| < calls
      invariant store.Valid() && store.windows == map[]
      invariant |decisions| <= calls
      invariant forall i :: 0 <= i < |decisions| ==> decisions[i] == Admitted
    {
      var d := RateLimitDep(store, Some(ip), down);
      decisions := decisions + [d];
    }
  }

  /**
   * When the EXPIRE of a window's first call fails, the key never gets an
   * expiry: from the twenty-first call on every call is rejected with a
   * retry-after of -1, however much time passes.
   */
  method LostExpiryScenario(ip: string, wait: nat) returns (decisions: seq<Decision>)
    ensures |decisions| == Limit + 2
    ensures forall i :: 0 <= i < Limit ==> decisions[i] == Admitted
    ensures decisions[Limit] == Rejected(RejectionError(-1))
    ensures decisions[Limit + 1] == Rejected(RejectionError(-1))
  {
    var store := new QuotaStore(0);
    var key := RateKey(Some(ip));
    var ok := Faults(false, false, false);
    var first := RateLimitDep(store, Some(ip), Faults(false, true, false));
    decisions := [first];
    while |decisions| < Limit + 1
      invariant store.Valid() && store.clock == 0
      invariant 1 <= |decisions| <= Limit + 1
      invariant forall i :: 0 <= i < |decisions| && i < Limit ==> decisions[i] == Admitted
      invariant |decisions| == Limit + 1 ==> decisions[Limit] == Rejected(RejectionError(-1))
      invariant store.windows == map[key := Window(|decisions|, None)]
    {
      ghost var before := store.windows;
      var d := RateLimitDep(store, Some(ip), ok);
      if |decisions| == Limit {
        assert TtlOf(Bumped(before, key), key, 0) == -1;
      }
      decisions := decisions + [d];
    }
    store.Advance(wait);
    ghost var before := store.windows;
    assert before == map[key := Window(Limit + 1, None)];
    var last := RateLimitDep(store, Some(ip), ok);
    assert TtlOf(Bumped(before, key), key, wait) == -1;
    decisions := decisions + [last];
  }
}
