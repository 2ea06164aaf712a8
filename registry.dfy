/**
 * The `onlineUsers` registry of the chat server: a JavaScript `Map` from
 * socket id to user id, kept here as its sequence of entries in insertion
 * order. `Set` and `Remove` follow `Map.prototype.set` and
 * `Map.prototype.delete`; `Get` is `Map.prototype.get`; `FirstSocketOf` is
 * `Array.from(map.entries()).find(([_, id]) => id === u)?.[0]`; `IsOnline`
 * is `Array.from(map.values()).includes(u)`.
 */
module Registry {
  import opened Wrappers

  /** socket.io never hands out an empty connection id. */
  type SocketId = s: string | s != "" witness "socket"

  type UserId = int

  type Entry = (SocketId, UserId)

  /** JavaScript truthiness of a user id read from the map (NaN is not modelled). */
  predicate Truthy(u: UserId) {
    u != 0
  }

  /** A `Map` never holds two entries with the same key. */
  ghost predicate DistinctKeys(es: seq<Entry>) {
    forall i, j :: 0 <= i < j < |es| ==> es[i].0 != es[j].0
  }

  ghost predicate HasKey(es: seq<Entry>, k: SocketId) {
    exists i :: 0 <= i < |es| && es[i].0 == k
  }

  /** `Array.from(map.values()).includes(u)` */
  predicate IsOnline(es: seq<Entry>, u: UserId) {
    exists i :: 0 <= i < |es| && es[i].1 == u
  }

  /** `map.get(k)`: the value of the entry with key `k`, if any. */
  function Get(es: seq<Entry>, k: SocketId): Option<UserId> {
    if es == [] then None
    else if es[0].0 == k then Some(es[0].1)
    else Get(es[1..], k)
  }

  /** `map.set(k, v)`: an existing key keeps its position, a new key goes last. */
  function Set(es: seq<Entry>, k: SocketId, v: UserId): seq<Entry> {
    if es == [] then [(k, v)]
    else if es[0].0 == k then [(k, v)] + es[1..]
    else [es[0]] + Set(es[1..], k, v)
  }

  /** `map.delete(k)` */
  function Remove(es: seq<Entry>, k: SocketId): seq<Entry> {
    if es == [] then []
    else if es[0].0 == k then Remove(es[1..], k)
    else [es[0]] + Remove(es[1..], k)
  }

  /** The key of the earliest entry whose value is `u`. */
  function FirstSocketOf(es: seq<Entry>, u: UserId): Option<SocketId> {
    if es == [] then None
    else if es[0].1 == u then Some(es[0].0)
    else FirstSocketOf(es[1..], u)
  }

  /** `Get` finds the value bound to a key, and finds nothing exactly when the key is absent. */
  lemma {:induction false} GetSpec(es: seq<Entry>, k: SocketId)
    requires DistinctKeys(es)
    ensures Get(es, k).None? <==> !HasKey(es, k)
    ensures forall i :: 0 <= i < |es| && es[i].0 == k ==> Get(es, k) == Some(es[i].1)
  {
    if es != [] {
      GetSpec(es[1..], k);
      if es[0].0 != k {
        assert HasKey(es, k) ==> HasKey(es[1..], k) by {
          if HasKey(es, k) {
            var i :| 0 <= i < |es| && es[i].0 == k;
            assert es[1..][i - 1].0 == k;
          }
        }
        forall i | 0 <= i < |es| && es[i].0 == k
          ensures Get(es, k) == Some(es[i].1)
        {
          assert es[1..][i - 1] == es[i];
        }
      }
    }
  }

  /**
   * After `set(k, v)` the key `k` maps to `v` and every other key maps to
   * what it mapped to before.
   */
  lemma {:induction false} SetGet(es: seq<Entry>, k: SocketId, v: UserId)
    ensures Get(Set(es, k, v), k) == Some(v)
    ensures forall k' :: k' != k ==> Get(Set(es, k, v), k') == Get(es, k')
  {
    if es != [] && es[0].0 != k {
      SetGet(es[1..], k, v);
    }
  }

  /**
   * `set` on a key already present rewrites that entry in place and leaves
   * every other entry where it was; on a new key it appends one entry.
   */
  lemma SetPlacement(es: seq<Entry>, k: SocketId, v: UserId)
    requires DistinctKeys(es)
    ensures HasKey(es, k) ==>
      |Set(es, k, v)| == |es| &&
      forall i :: 0 <= i < |es| ==> Set(es, k, v)[i] == (if es[i].0 == k then (k, v) else es[i])
    ensures !HasKey(es, k) ==> Set(es, k, v) == es + [(k, v)]
    ensures DistinctKeys(Set(es, k, v))
  {
    if HasKey(es, k) {
      SetInPlace(es, k, v);
    } else {
      SetAppends(es, k, v);
    }
    var r := Set(es, k, v);
    forall i, j | 0 <= i < j < |r| ensures r[i].0 != r[j].0 {
      if HasKey(es, k) {
        assert r[i].0 == es[i].0 && r[j].0 == es[j].0;
      } else if j == |es| {
        assert r[i] == es[i];
      } else {
        assert r[i] == es[i] && r[j] == es[j];
      }
    }
  }

  lemma {:induction false} SetInPlace(es: seq<Entry>, k: SocketId, v: UserId)
    requires DistinctKeys(es) && HasKey(es, k)
    ensures |Set(es, k, v)| == |es|
    ensures forall i :: 0 <= i < |es| ==> Set(es, k, v)[i] == (if es[i].0 == k then (k, v) else es[i])
  {
    var r := Set(es, k, v);
    var tl := es[1..];
    if es[0].0 == k {
      forall i | 0 <= i < |es| ensures r[i] == (if es[i].0 == k then (k, v) else es[i]) {
        if i > 0 {
          assert r[i] == tl[i - 1] == es[i];
        }
      }
    } else {
      var p :| 0 <= p < |es| && es[p].0 == k;
      assert tl[p - 1].0 == k;
      assert DistinctKeys(tl) by {
        forall i, j | 0 <= i < j < |tl| ensures tl[i].0 != tl[j].0 {
          assert tl[i] == es[i + 1] && tl[j] == es[j + 1];
        }
      }
      SetInPlace(tl, k, v);
      assert r == [es[0]] + Set(tl, k, v);
      forall i | 0 <= i < |es| ensures r[i] == (if es[i].0 == k then (k, v) else es[i]) {
        if i > 0 {
          assert r[i] == Set(tl, k, v)[i - 1];
          assert tl[i - 1] == es[i];
        }
      }
    }
  }

  lemma {:induction false} SetAppends(es: seq<Entry>, k: SocketId, v: UserId)
    requires !HasKey(es, k)
    ensures Set(es, k, v) == es + [(k, v)]
  {
    if es != [] {
      var tl := es[1..];
      assert es[0].0 != k;
      forall i | 0 <= i < |tl| ensures tl[i].0 != k {
        assert tl[i] == es[i + 1];
      }
      SetAppends(tl, k, v);
      assert es == [es[0]] + tl;
    }
  }

  /** After `delete(k)` the key `k` is gone and every other key maps to what it mapped to before. */
  lemma {:induction false} RemoveGet(es: seq<Entry>, k: SocketId)
    ensures Get(Remove(es, k), k) == None
    ensures forall k' :: k' != k ==> Get(Remove(es, k), k') == Get(es, k')
  {
    if es != [] {
      RemoveGet(es[1..], k);
    }
  }

  /**
   * `delete(k)` takes out exactly the one entry with key `k`, keeping the
   * others in their order, and changes nothing when `k` is absent.
   */
  lemma RemovePlacement(es: seq<Entry>, k: SocketId)
    requires DistinctKeys(es)
    ensures forall i :: 0 <= i < |es| && es[i].0 == k ==> Remove(es, k) == es[..i] + es[i + 1..]
    ensures !HasKey(es, k) ==> Remove(es, k) == es
    ensures DistinctKeys(Remove(es, k))
  {
    forall i | 0 <= i < |es| && es[i].0 == k ensures Remove(es, k) == es[..i] + es[i + 1..] {
      RemoveAt(es, k, i);
    }
    if HasKey(es, k) {
      var p :| 0 <= p < |es| && es[p].0 == k;
      var r := Remove(es, k);
      forall i, j | 0 <= i < j < |r| ensures r[i].0 != r[j].0 {
        var i' := if i < p then i else i + 1;
        var j' := if j < p then j else j + 1;
        assert r[i] == es[i'] && r[j] == es[j'];
      }
    } else {
      RemoveAbsent(es, k);
    }
  }

  lemma {:induction false} RemoveAbsent(es: seq<Entry>, k: SocketId)
    requires !HasKey(es, k)
    ensures Remove(es, k) == es
  {
    if es != [] {
      var tl := es[1..];
      assert es[0].0 != k;
      forall i | 0 <= i < |tl| ensures tl[i].0 != k {
        assert tl[i] == es[i + 1];
      }
      RemoveAbsent(tl, k);
      assert es == [es[0]] + tl;
    }
  }

  lemma {:induction false} RemoveAt(es: seq<Entry>, k: SocketId, i: int)
    requires DistinctKeys(es) && 0 <= i < |es| && es[i].0 == k
    ensures Remove(es, k) == es[..i] + es[i + 1..]
  {
    var tl := es[1..];
    if i == 0 {
      forall j | 0 <= j < |tl| ensures tl[j].0 != k {
        assert tl[j] == es[j + 1];
      }
      RemoveAbsent(tl, k);
    } else {
      assert DistinctKeys(tl) by {
        forall a, b | 0 <= a < b < |tl| ensures tl[a].0 != tl[b].0 {
          assert tl[a] == es[a + 1] && tl[b] == es[b + 1];
        }
      }
      assert tl[i - 1].0 == k;
      RemoveAt(tl, k, i - 1);
      assert es[..i] == [es[0]] + tl[..i - 1];
      assert es[i + 1..] == tl[i..];
    }
  }

  /** Every entry left by `Remove(es, k)` is an entry of `es` whose key is not `k`. */
  lemma {:induction false} RemoveKeys(es: seq<Entry>, k: SocketId, j: int)
    requires 0 <= j < |Remove(es, k)|
    ensures Remove(es, k)[j].0 != k
    ensures exists m :: 0 <= m < |es| && es[m] == Remove(es, k)[j]
  {
    if es[0].0 == k {
      RemoveKeys(es[1..], k, j);
      var m :| 0 <= m < |es[1..]| && es[1..][m] == Remove(es, k)[j];
      assert es[m + 1] == Remove(es, k)[j];
    } else if j > 0 {
      RemoveKeys(es[1..], k, j - 1);
      var m :| 0 <= m < |es[1..]| && es[1..][m] == Remove(es, k)[j];
      assert es[m + 1] == Remove(es, k)[j];
    } else {
      assert es[0] == Remove(es, k)[j];
    }
  }

  /**
   * After `delete(k)` a user is online exactly when some other socket is
   * still bound to it: a user with a second connection stays online.
   */
  lemma {:induction false} RemoveOnline(es: seq<Entry>, k: SocketId, u: UserId)
    ensures IsOnline(Remove(es, k), u) <==> exists i :: 0 <= i < |es| && es[i].0 != k && es[i].1 == u
  {
    if es != [] {
      var tl := es[1..];
      RemoveOnline(tl, k, u);
      var r := Remove(es, k);
      if exists i :: 0 <= i < |es| && es[i].0 != k && es[i].1 == u {
        var i :| 0 <= i < |es| && es[i].0 != k && es[i].1 == u;
        if i == 0 {
          assert r[0] == es[0];
        } else {
          assert tl[i - 1] == es[i];
          var n :| 0 <= n < |Remove(tl, k)| && Remove(tl, k)[n].1 == u;
          if es[0].0 == k {
            assert r[n].1 == u;
          } else {
            assert r[n + 1].1 == u;
          }
        }
      }
      if IsOnline(r, u) {
        var n :| 0 <= n < |r| && r[n].1 == u;
        RemoveKeys(es, k, n);
        var m :| 0 <= m < |es| && es[m] == r[n];
        assert es[m].0 != k && es[m].1 == u;
      }
    }
  }

  /**
   * After `set(k, v)` a user is online exactly when it is `v` or some other
   * socket is bound to it.
   */
  lemma SetOnline(es: seq<Entry>, k: SocketId, v: UserId, u: UserId)
    requires DistinctKeys(es)
    ensures IsOnline(Set(es, k, v), u) <==> u == v || exists i :: 0 <= i < |es| && es[i].0 != k && es[i].1 == u
  {
    SetPlacement(es, k, v);
    var r := Set(es, k, v);
    if HasKey(es, k) {
      var p :| 0 <= p < |es| && es[p].0 == k;
      assert r[p] == (k, v);
      if IsOnline(r, u) && u != v {
        var n :| 0 <= n < |r| && r[n].1 == u;
        assert es[n].0 != k && es[n].1 == u;
      }
      if exists i :: 0 <= i < |es| && es[i].0 != k && es[i].1 == u {
        var i :| 0 <= i < |es| && es[i].0 != k && es[i].1 == u;
        assert r[i].1 == u;
      }
    } else {
      assert r[|es|] == (k, v);
      if IsOnline(r, u) && u != v {
        var n :| 0 <= n < |r| && r[n].1 == u;
        assert es[n].0 != k && es[n].1 == u;
      }
      if exists i :: 0 <= i < |es| && es[i].0 != k && es[i].1 == u {
        var i :| 0 <= i < |es| && es[i].0 != k && es[i].1 == u;
        assert r[i].1 == u;
      }
    }
  }

  /**
   * The routing lookup finds a socket exactly when the user is online, and
   * then it is the key of the earliest entry bound to that user.
   */
  lemma {:induction false} FirstSocketSpec(es: seq<Entry>, u: UserId)
    ensures FirstSocketOf(es, u).None? <==> !IsOnline(es, u)
    ensures FirstSocketOf(es, u).Some? ==>
      exists i :: 0 <= i < |es| && es[i] == (FirstSocketOf(es, u).value, u) &&
        forall j :: 0 <= j < i ==> es[j].1 != u
  {
    if es != [] && es[0].1 != u {
      var tl := es[1..];
      FirstSocketSpec(tl, u);
      if IsOnline(es, u) {
        var i :| 0 <= i < |es| && es[i].1 == u;
        assert tl[i - 1].1 == u;
      }
      if IsOnline(tl, u) {
        var i :| 0 <= i < |tl| && tl[i].1 == u;
        assert es[i + 1].1 == u;
      }
      if FirstSocketOf(tl, u).Some? {
        var i :| 0 <= i < |tl| && tl[i] == (FirstSocketOf(tl, u).value, u) &&
          forall j :: 0 <= j < i ==> tl[j].1 != u;
        assert es[i + 1] == tl[i];
        forall j | 0 <= j < i + 1 ensures es[j].1 != u {
          if j > 0 {
            assert es[j] == tl[j - 1];
          }
        }
      }
    }
  }

  /** The key of any entry is bound: `get` on it finds a value. */
  lemma {:induction false} GetOfEntry(es: seq<Entry>, i: int)
    requires 0 <= i < |es|
    ensures Get(es, es[i].0).Some?
  {
    if es[0].0 != es[i].0 {
      GetOfEntry(es[1..], i - 1);
    }
  }
}
