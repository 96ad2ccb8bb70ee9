/** The bot-wide `urlStorage` map from URL token to URL (src/bot.js:18, 199-211).
    A JavaScript `Map` remembers insertion order: `set` on a new key appends it,
    `set` on a present key replaces the value in place, and `delete` removes the
    key from the order. */
module UrlCache {
  import opened Text

  /** Entries are kept above this many ... */
  const Capacity: nat := 100
  /** ... by cutting the map down to this many newest entries. */
  const Keep: nat := 50

  datatype Cache = Cache(order: seq<string>, urls: map<string, string>)

  predicate Distinct(s: seq<string>) {
    forall i, j :: 0 <= i < j < |s| ==> s[i] != s[j]
  }

  /** The order lists every key once. */
  ghost predicate Valid(c: Cache) {
    Distinct(c.order) && (forall k :: k in c.urls <==> k in c.order)
  }

  /** `new Map()`. */
  function Empty(): (c: Cache)
    ensures Valid(c) && Size(c) == 0
  {
    Cache([], map[])
  }

  /** `map.size`. */
  function Size(c: Cache): nat { |c.order| }

  /** `map.get(k)`. */
  function Get(c: Cache, k: string): Option<string>
  {
    if k in c.urls then Some(c.urls[k]) else None
  }

  /** `map.set(k, v)`. */
  function Set(c: Cache, k: string, v: string): (r: Cache)
    requires Valid(c)
    ensures Valid(r)
    ensures r.urls == c.urls[k := v]
    ensures k in c.urls ==> r.order == c.order
    ensures k !in c.urls ==> r.order == c.order + [k]
  {
    if k in c.urls then Cache(c.order, c.urls[k := v]) else Cache(c.order + [k], c.urls[k := v])
  }

  function RemoveKey(s: seq<string>, k: string): (r: seq<string>)
    ensures forall x :: x in r <==> x in s && x != k
    ensures Distinct(s) ==> Distinct(r)
    ensures |r| <= |s|
  {
    if s == [] then []
    else if s[0] == k then RemoveKey(s[1..], k)
    else
      var rest := RemoveKey(s[1..], k);
      assert Distinct(s) ==> Distinct([s[0]] + rest) by {
        if Distinct(s) {
          assert s[0] !in s[1..] by {
            forall j | 1 <= j < |s| ensures s[j] != s[0] { }
          }
          DistinctSuffix(s, 1);
        }
      }
      [s[0]] + rest
  }

  /** The order without its `i`-th key, the others in the same order. */
  function CutAt(s: seq<string>, i: nat): seq<string>
    requires i < |s|
  {
    s[..i] + s[i + 1..]
  }

  /** `map.delete(k)`: the key leaves the order at its position, and the other
      keys keep their relative order. */
  function Delete(c: Cache, k: string): (r: Cache)
    requires Valid(c)
    ensures Valid(r)
    ensures r.urls == c.urls - {k}
    ensures forall i {:trigger CutAt(c.order, i)} | 0 <= i < |c.order| && c.order[i] == k :: r.order == CutAt(c.order, i)
    ensures k !in c.urls ==> r.order == c.order
  {
    assert forall i {:trigger CutAt(c.order, i)} | 0 <= i < |c.order| && c.order[i] == k :: RemoveKey(c.order, k) == CutAt(c.order, i) by {
      forall i | 0 <= i < |c.order| && c.order[i] == k
        ensures RemoveKey(c.order, k) == CutAt(c.order, i)
      {
        RemoveAt(c.order, k, i);
      }
    }
    assert k !in c.urls ==> RemoveKey(c.order, k) == c.order by {
      if k !in c.urls {
        NotInRemove(c.order, k);
      }
    }
    Cache(RemoveKey(c.order, k), c.urls - {k})
  }

  /** In a list without repeats, removing a key cuts it out where it stands. */
  lemma {:induction false} RemoveAt(s: seq<string>, k: string, i: nat)
    requires Distinct(s) && i < |s| && s[i] == k
    ensures RemoveKey(s, k) == s[..i] + s[i + 1..]
    decreases i
  {
    if i == 0 {
      assert k !in s[1..] by {
        forall j | 1 <= j < |s| ensures s[j] != s[0] { }
      }
      NotInRemove(s[1..], k);
      assert s[..0] + s[1..] == s[1..];
    } else {
      assert s[0] != k;
      DistinctSuffix(s, 1);
      RemoveAt(s[1..], k, i - 1);
      assert s[..i] + s[i + 1..] == [s[0]] + (s[1..][..i - 1] + s[1..][i..]);
    }
  }

  /** Deleting the oldest key drops the head of the order. */
  lemma DeleteOldest(c: Cache)
    requires Valid(c) && c.order != []
    ensures Delete(c, c.order[0]).order == c.order[1..]
  {
    var s := c.order;
    NotInRemove(s[1..], s[0]);
  }

  lemma {:induction false} NotInRemove(s: seq<string>, k: string)
    requires k !in s
    ensures RemoveKey(s, k) == s
    decreases |s|
  {
    if s != [] {
      NotInRemove(s[1..], k);
    }
  }

  /** The entries showVideoInfo deletes once the map has grown past `Capacity`:
      all but the `Keep` newest, in insertion order (src/bot.js:208-209). */
  function OldEntries(c: Cache): seq<string>
  {
    if |c.order| <= Keep then [] else c.order[..|c.order| - Keep]
  }

  /** The state after deleting the old entries one by one. */
  function Evicted(c: Cache): (r: Cache)
    requires |c.order| >= Keep
  {
    Cache(c.order[|c.order| - Keep..], c.urls - set k | k in OldEntries(c))
  }

  /** The cache after deleting its first `i` keys one by one. */
  function Dropped(c: Cache, i: nat): Cache
    requires i <= |c.order|
  {
    Cache(c.order[i..], c.urls - set k | k in c.order[..i])
  }

  /** `Dropped(c, i)` is well formed. */
  lemma DroppedValid(c: Cache, i: nat)
    requires Valid(c) && i <= |c.order|
    ensures Valid(Dropped(c, i))
  {
    var d := Dropped(c, i);
    DistinctSuffix(c.order, i);
    forall k ensures k in d.urls <==> k in d.order {
      if k in d.order {
        var j :| 0 <= j < |d.order| && d.order[j] == k;
        assert c.order[i + j] == k;
        assert k !in c.order[..i] by {
          forall m | 0 <= m < i ensures c.order[m] != k { }
        }
      }
      if k in d.urls {
        assert k in c.order;
        var j :| 0 <= j < |c.order| && c.order[j] == k;
        assert j >= i;
        assert d.order[j - i] == k;
      }
    }
  }

  /** Deleting the oldest key of `Dropped(c, i)` gives `Dropped(c, i + 1)`. */
  lemma DropOne(c: Cache, i: nat)
    requires Valid(c) && i < |c.order|
    ensures Valid(Dropped(c, i))
    ensures Delete(Dropped(c, i), c.order[i]) == Dropped(c, i + 1)
  {
    var d := Dropped(c, i);
    DroppedValid(c, i);
    assert d.order[0] == c.order[i];
    DeleteOldest(d);
    assert d.order[1..] == c.order[i + 1..];
    DropOneUrls(c, i);
  }

  lemma DropOneUrls(c: Cache, i: nat)
    requires i < |c.order|
    ensures Dropped(c, i).urls - {c.order[i]} == Dropped(c, i + 1).urls
  {
    var p, q := c.order[..i], c.order[..i + 1];
    var before := set k | k in p;
    var after := set k | k in q;
    assert q == p + [c.order[i]];
    assert after == before + {c.order[i]};
  }

  /** Deleting the old entries one by one leaves `Evicted(c)`. */
  lemma DroppedOldEntries(c: Cache)
    requires |c.order| >= Keep
    ensures Dropped(c, |c.order| - Keep) == Evicted(c)
  {
    assert OldEntries(c) == c.order[..|c.order| - Keep];
  }

  /** showVideoInfo's cache update: store the token, then, if the map holds more
      than `Capacity` entries, delete all but the `Keep` newest (src/bot.js:203-211). */
  function Put(c: Cache, token: string, url: string): (r: Cache)
    requires Valid(c)
  {
    var c1 := Set(c, token, url);
    if Size(c1) > Capacity then Evicted(c1) else c1
  }

  lemma {:induction false} DistinctSuffix(s: seq<string>, n: nat)
    requires Distinct(s) && n <= |s|
    ensures Distinct(s[n..])
  {
    forall i, j | 0 <= i < j < |s[n..]| ensures s[n..][i] != s[n..][j] {
      assert s[n..][i] == s[n + i] && s[n..][j] == s[n + j];
    }
  }

  /** Put keeps the map consistent and never leaves more than `Capacity` entries. */
  lemma {:induction false} PutBounded(c: Cache, token: string, url: string)
    requires Valid(c) && Size(c) <= Capacity
    ensures Valid(Put(c, token, url))
    ensures Size(Put(c, token, url)) <= Capacity
  {
    var c1 := Set(c, token, url);
    if Size(c1) > Capacity {
      var r := Evicted(c1);
      var n := |c1.order| - Keep;
      DistinctSuffix(c1.order, n);
      forall k ensures k in r.urls <==> k in r.order {
        if k in r.order {
          var i :| n <= i < |c1.order| && c1.order[i] == k;
          forall j | 0 <= j < n ensures c1.order[j] != k {
            assert c1.order[j] != c1.order[i];
          }
        }
        if k in c1.order && k !in r.order {
          var i :| 0 <= i < |c1.order| && c1.order[i] == k;
          assert k in OldEntries(c1);
        }
      }
    }
  }

  /** Correlation round trip: right after Put, the token yields the URL just stored,
      whether or not an eviction happened. */
  lemma {:induction false} PutThenGet(c: Cache, token: string, url: string)
    requires Valid(c) && Size(c) <= Capacity
    ensures Get(Put(c, token, url), token) == Some(url)
  {
    var c1 := Set(c, token, url);
    if Size(c1) > Capacity {
      var n := |c1.order|;
      assert c1.order[n - 1] == token;
      assert c1.order[n - Keep..][Keep - 1] == token;
      assert token !in OldEntries(c1) by {
        forall j | 0 <= j < n - Keep ensures c1.order[j] != token {
          assert c1.order[j] != c1.order[n - 1];
        }
      }
    }
  }

  /** Storing an already present token replaces its URL but keeps its original
      position in the insertion order, and nothing is evicted. */
  lemma PutPresent(c: Cache, token: string, url: string)
    requires Valid(c) && Size(c) <= Capacity && token in c.urls
    ensures Put(c, token, url) == Cache(c.order, c.urls[token := url])
  {
  }

  /** Below capacity, a new token is appended and nothing else changes. */
  lemma PutNewBelowCapacity(c: Cache, token: string, url: string)
    requires Valid(c) && Size(c) < Capacity && token !in c.urls
    ensures Put(c, token, url) == Cache(c.order + [token], c.urls[token := url])
  {
  }

  /** The 101st distinct token evicts the 51 oldest entries in insertion order;
      exactly the 50 newest remain, the new token last. */
  lemma {:induction false} PutAtCapacity(c: Cache, token: string, url: string)
    requires Valid(c) && Size(c) == Capacity && token !in c.urls
    ensures Put(c, token, url).order == c.order[Capacity + 1 - Keep..] + [token]
    ensures Size(Put(c, token, url)) == Keep
    ensures OldEntries(Set(c, token, url)) == c.order[..Capacity + 1 - Keep]
    ensures forall k :: k in c.order[..Capacity + 1 - Keep] ==> Get(Put(c, token, url), k).None?
    ensures forall k :: k in c.order[Capacity + 1 - Keep..] ==> Get(Put(c, token, url), k) == Get(c, k)
  {
    var c1 := Set(c, token, url);
    var n := Capacity + 1 - Keep;
    assert c1.order == c.order + [token];
    assert c1.order[|c1.order| - Keep..] == c.order[n..] + [token];
    assert OldEntries(c1) == c.order[..n];
    forall k | k in c.order[n..] ensures Get(Put(c, token, url), k) == Get(c, k) {
      var i :| 0 <= i < |c.order[n..]| && c.order[n..][i] == k;
      assert c.order[n + i] == k;
      assert k !in c.order[..n] by {
        forall j | 0 <= j < n ensures c.order[j] != k {
          assert c.order[j] != c.order[n + i];
        }
      }
    }
  }

  /** Two URLs with the same token: the later one wins, so a button shown for the
      earlier URL now leads to the later one. */
  lemma LaterUrlWins(c: Cache, token: string, first: string, second: string)
    requires Valid(c) && Size(c) <= Capacity
    ensures Get(Put(Put(c, token, first), token, second), token) == Some(second)
  {
    PutBounded(c, token, first);
    PutThenGet(Put(c, token, first), token, second);
  }
}
