/**
 * The time-format memo cache of cache/cache_time.go: `FormatDate` and
 * `FormatHour` remember the formatted text per Unix second in two separate
 * maps, and `cleanup` prunes the entries older than `expireAfter`.
 *
 * The time package is not part of this model: a time is its Unix second and
 * its zone, and `Format` is a function the cache is given.
 */
module TimeCache {

  /** A `time.Time` as far as the cache sees it: its Unix second and its zone. */
  datatype Time = Time(unix: int, zone: int)

  /** `t.Format(layout)`; what it prints is the time package's business. */
  type Formatter = (Time, string) -> string

  const DATE_LAYOUT: string := "20060102"
  const HOUR_LAYOUT: string := "2006010215"

  /** The result of a memoised format: the text and the cache after it. */
  datatype Memo = Memo(text: string, cache: map<int, string>)

  /**
   * One `FormatDate`/`FormatHour` call on cache c: a hit returns the stored
   * text without formatting, a miss formats t and stores it under t's second.
   */
  function Cached(c: map<int, string>, t: Time, layout: string, format: Formatter): (r: Memo)
    ensures t.unix in c ==> r == Memo(c[t.unix], c)
    ensures t.unix !in c ==> r.text == format(t, layout)
    ensures r.cache.Keys == c.Keys + {t.unix} && r.cache[t.unix] == r.text
    ensures forall k :: k in c ==> r.cache[k] == c[k]
  {
    if t.unix in c then Memo(c[t.unix], c)
    else
      var s := format(t, layout);
      Memo(s, c[t.unix := s])
  }

  /** Every stored text is what the formatter prints for some time in that second. */
  ghost predicate Consistent(c: map<int, string>, layout: string, format: Formatter)
  {
    forall k :: k in c ==> exists z :: c[k] == format(Time(k, z), layout)
  }

  /** The layout prints the same text for every time in the same second. */
  ghost predicate SecondDetermined(layout: string, format: Formatter)
  {
    forall t1: Time, t2: Time :: t1.unix == t2.unix ==> format(t1, layout) == format(t2, layout)
  }

  /** A memoised call keeps the cache consistent. */
  lemma CachedKeepsConsistent(c: map<int, string>, t: Time, layout: string, format: Formatter)
    requires Consistent(c, layout, format)
    ensures Consistent(Cached(c, t, layout, format).cache, layout, format)
  {
    var r := Cached(c, t, layout, format);
    forall k | k in r.cache
      ensures exists z :: r.cache[k] == format(Time(k, z), layout)
    {
      if k == t.unix && t.unix !in c {
        assert r.cache[k] == format(Time(k, t.zone), layout);
      }
    }
  }

  /**
   * When the text depends only on the second, the memo is transparent: a
   * consistent cache answers exactly what formatting would.
   */
  lemma CachedTransparent(c: map<int, string>, t: Time, layout: string, format: Formatter)
    requires Consistent(c, layout, format) && SecondDetermined(layout, format)
    ensures Cached(c, t, layout, format).text == format(t, layout)
  {
    if t.unix in c {
      var z :| c[t.unix] == format(Time(t.unix, z), layout);
      assert format(Time(t.unix, z), layout) == format(t, layout);
    }
  }

  /** Asking again for the same second returns the same text and changes nothing. */
  lemma CachedTwice(c: map<int, string>, t: Time, u: Time, layout: string, format: Formatter)
    requires t.unix == u.unix
    ensures var r := Cached(c, t, layout, format);
      Cached(r.cache, u, layout, format) == Memo(r.text, r.cache)
  {
  }

  /**
   * The key is the Unix second alone: the first zone to ask decides the text
   * that later callers in other zones get for that second.
   */
  lemma CacheIgnoresZone()
    ensures var format: Formatter := (t: Time, layout: string) => if t.zone == 0 then "utc" else "local";
      var r := Cached(map[], Time(7, 0), DATE_LAYOUT, format);
      Cached(r.cache, Time(7, 1), DATE_LAYOUT, format).text == "utc" &&
      format(Time(7, 1), DATE_LAYOUT) == "local"
  {
  }

  /** The `Range` callback of `cleanup`: a second before the cutoff is deleted. */
  function Expired(cutoff: int): int -> bool
  {
    k => k < cutoff
  }

  /** The entries a `Range` that deletes where `drop` holds leaves behind. */
  function Without<K(!new), V>(c: map<K, V>, drop: K -> bool): (r: map<K, V>)
    ensures forall k :: k in r <==> k in c && !drop(k)
    ensures forall k :: k in r ==> r[k] == c[k]
  {
    map k | k in c && !drop(k) :: c[k]
  }

  /** A second pass with the same callback deletes nothing more. */
  lemma WithoutIdempotent<K(!new), V>(c: map<K, V>, drop: K -> bool)
    ensures Without(Without(c, drop), drop) == Without(c, drop)
  {
  }

  /** `cleanup` keeps exactly the seconds at or after the cutoff, with their texts. */
  lemma PruneExact(c: map<int, string>, cutoff: int, k: int)
    ensures k in Without(c, Expired(cutoff)) <==> k in c && k >= cutoff
    ensures k in c && k >= cutoff ==> Without(c, Expired(cutoff))[k] == c[k]
  {
  }

  /** Pruning keeps a cache consistent. */
  lemma PruneKeepsConsistent(c: map<int, string>, cutoff: int, layout: string, format: Formatter)
    requires Consistent(c, layout, format)
    ensures Consistent(Without(c, Expired(cutoff)), layout, format)
  {
    var p := Without(c, Expired(cutoff));
    forall k | k in p
      ensures exists z :: p[k] == format(Time(k, z), layout)
    {
      assert p[k] == c[k];
    }
  }

  /**
   * `time.Now().Add(-expireAfter).Unix()`: the second, rounded down, of a
   * nanosecond clock reading minus the expiry.
   */
  function Cutoff(nowNanos: int, expireAfter: int): (r: int)
    ensures r * 1000000000 <= nowNanos - expireAfter < r * 1000000000 + 1000000000
  {
    (nowNanos - expireAfter) / 1000000000
  }

  /** `Range` over a map, deleting each visited key for which `drop` holds. */
  method RangeDelete<K(!new), V>(c: map<K, V>, drop: K -> bool) returns (r: map<K, V>)
    ensures r == Without(c, drop)
  {
    var keys := c.Keys;
    r := c;
    while keys != {}
      invariant keys <= c.Keys
      invariant forall k :: k in r ==> k in c && r[k] == c[k]
      invariant forall k :: k in c && (k in keys || !drop(k)) ==> k in r
      invariant forall k :: k in r ==> k in keys || !drop(k)
      decreases |keys|
    {
      var k :| k in keys;
      if drop(k) {
        r := r - {k};
      }
      keys := keys - {k};
    }
  }

  /** `TimeFormatCache`; the ticker and its worker goroutine are left out. */
  class TimeFormatCache {
    const expireAfter: int
    const format: Formatter
    var dateCache: map<int, string>
    var hourCache: map<int, string>
    var lastClean: int
    var stopClosed: bool

    ghost predicate Valid()
      reads this
    {
      Consistent(dateCache, DATE_LAYOUT, format) && Consistent(hourCache, HOUR_LAYOUT, format)
    }

    /** `NewTimeFormatCache`; the clean interval only drives the ticker. */
    constructor (expireAfter: int, format: Formatter)
      ensures Valid()
      ensures this.expireAfter == expireAfter && this.format == format
      ensures dateCache == map[] && hourCache == map[] && lastClean == 0 && !stopClosed
    {
      this.expireAfter := expireAfter;
      this.format := format;
      dateCache := map[];
      hourCache := map[];
      lastClean := 0;
      stopClosed := false;
    }

    /** `FormatDate`: layout "20060102" through the date cache. */
    method FormatDate(t: Time) returns (s: string)
      requires Valid()
      modifies this
      ensures Valid()
      ensures Memo(s, dateCache) == Cached(old(dateCache), t, DATE_LAYOUT, format)
      ensures hourCache == old(hourCache) && lastClean == old(lastClean) && stopClosed == old(stopClosed)
      ensures SecondDetermined(DATE_LAYOUT, format) ==> s == format(t, DATE_LAYOUT)
    {
      CachedKeepsConsistent(dateCache, t, DATE_LAYOUT, format);
      if SecondDetermined(DATE_LAYOUT, format) {
        CachedTransparent(dateCache, t, DATE_LAYOUT, format);
      }
      if t.unix in dateCache {
        return dateCache[t.unix];
      }
      s := format(t, DATE_LAYOUT);
      dateCache := dateCache[t.unix := s];
    }

    /** `FormatHour`: layout "2006010215" through the hour cache. */
    method FormatHour(t: Time) returns (s: string)
      requires Valid()
      modifies this
      ensures Valid()
      ensures Memo(s, hourCache) == Cached(old(hourCache), t, HOUR_LAYOUT, format)
      ensures dateCache == old(dateCache) && lastClean == old(lastClean) && stopClosed == old(stopClosed)
      ensures SecondDetermined(HOUR_LAYOUT, format) ==> s == format(t, HOUR_LAYOUT)
    {
      CachedKeepsConsistent(hourCache, t, HOUR_LAYOUT, format);
      if SecondDetermined(HOUR_LAYOUT, format) {
        CachedTransparent(hourCache, t, HOUR_LAYOUT, format);
      }
      if t.unix in hourCache {
        return hourCache[t.unix];
      }
      s := format(t, HOUR_LAYOUT);
      hourCache := hourCache[t.unix := s];
    }

    /**
     * `cleanup` at clock reading `nowNanos`: drop from both caches every
     * second before the cutoff, then record the clean time in seconds.
     */
    method Cleanup(nowNanos: int)
      requires Valid()
      modifies this
      ensures Valid()
      ensures dateCache == Without(old(dateCache), Expired(Cutoff(nowNanos, expireAfter)))
      ensures hourCache == Without(old(hourCache), Expired(Cutoff(nowNanos, expireAfter)))
      ensures lastClean == nowNanos / 1000000000 && stopClosed == old(stopClosed)
    {
      var cutoff := (nowNanos - expireAfter) / 1000000000;
      PruneKeepsConsistent(dateCache, cutoff, DATE_LAYOUT, format);
      PruneKeepsConsistent(hourCache, cutoff, HOUR_LAYOUT, format);
      dateCache := RangeDelete(dateCache, Expired(cutoff));
      hourCache := RangeDelete(hourCache, Expired(cutoff));
      lastClean := nowNanos / 1000000000;
    }

    /** `Stop` closes the stop channel; a second call panics. */
    method Stop() returns (panics: bool)
      modifies this
      ensures panics == old(stopClosed) && stopClosed
      ensures dateCache == old(dateCache) && hourCache == old(hourCache) && lastClean == old(lastClean)
    {
      panics := stopClosed;
      stopClosed := true;
    }
  }
}
