/**
 A model of the in-memory key/value store `CacheInMemory` of the memem package.

 The Go store is a `map[string]interface{}` field that `Set` overwrites in place
 and `Get` indexes directly, so a missing key reads as Go's zero value `nil`.
 Here the dynamically typed `interface{}` is abstracted to the datatype `Value`,
 whose `Nil` plays the part of `nil`.

 Besides the concrete `store`, every cache keeps a ghost `history`: the writes
 performed on it since construction, oldest first. `Valid()` ties the two
 together (the store is the replay of the history), which lets the lemmas below
 state what a read returns after ANY sequence of writes: the value of the last
 write to that key, or `Nil` if there was none.
 */
module Memem {

  /** The values a caller can store; `Nil` stands for Go's `nil` interface value. */
  datatype Value = Nil | IntV(i: int) | StrV(s: string)

  /** One call `Set(key, value)`, as recorded in a cache's history. */
  datatype Write = Write(key: string, value: Value)

  /** Go's map index `m[key]` on a map of interface values: the stored value, or `nil`. */
  function Read(store: map<string, Value>, key: string): Value
  {
    if key in store then store[key] else Nil
  }

  /** The store obtained by performing the writes of `h` in order on an empty map. */
  function Replay(h: seq<Write>): map<string, Value>
  {
    if h == [] then map[]
    else
      var w := h[|h| - 1];
      Replay(h[..|h| - 1])[w.key := w.value]
  }

  /**
   Reference definition of what a read of `key` should return after the writes
   of `h`, stated without maps: the value of the latest write to `key`, or `Nil`
   when `key` was never written.
   */
  function LastWrite(h: seq<Write>, key: string): (v: Value)
    ensures v != Nil ==> exists i :: 0 <= i < |h| && h[i] == Write(key, v)
  {
    if h == [] then Nil
    else if h[|h| - 1].key == key then h[|h| - 1].value
    else
      var v' := LastWrite(h[..|h| - 1], key);
      assert v' != Nil ==> exists i :: 0 <= i < |h| && h[i] == Write(key, v') by {
        if v' != Nil {
          var i :| 0 <= i < |h| - 1 && h[..|h| - 1][i] == Write(key, v');
          assert h[i] == Write(key, v');
        }
      }
      v'
  }

  /** True when some write of `h` was to `key`. */
  ghost predicate Written(h: seq<Write>, key: string)
  {
    exists i :: 0 <= i < |h| && h[i].key == key
  }

  class CacheInMemory {
    /** The Go field `store`. */
    var store: map<string, Value>
    /** Every `Set` performed on this cache since construction, oldest first. */
    ghost var history: seq<Write>

    /** The store holds exactly what the recorded writes put there. */
    ghost predicate Valid()
      reads this
    {
      store == Replay(history)
    }

    /** `NewCache`: a cache with an empty store and no writes behind it. */
    constructor ()
      ensures Valid()
      ensures store == map[] && history == []
      ensures forall key :: Read(store, key) == Nil
    {
      store := map[];
      history := [];
    }

    /**
     `Set` on a cache built by `NewCache` has no error path: `key` now maps to
     `value` and every other key keeps its entry (and its presence or absence)
     unchanged.
     */
    method Set(key: string, value: Value)
      requires Valid()
      modifies this
      ensures Valid()
      ensures store == old(store)[key := value]
      ensures history == old(history) + [Write(key, value)]
      ensures key in store && store[key] == value
      ensures forall k :: k != key ==> (k in store <==> k in old(store))
      ensures forall k :: k != key && k in old(store) ==> store[k] == old(store)[k]
    {
      store := store[key := value];
      history := history + [Write(key, value)];
      assert history[..|history| - 1] == old(history);
    }

    /**
     `Get` does not change the cache. A present key yields its stored value; an
     absent key yields `Nil`, exactly as a stored `Nil` does. On a valid cache the
     result is the last value written to `key`.
     */
    method Get(key: string) returns (v: Value)
      ensures v == Read(store, key)
      ensures Valid() ==> v == LastWrite(history, key)
    {
      v := Read(store, key);
      if Valid() {
        ReplayReadsLastWrite(history, key);
      }
    }
  }

  /**
   The store's contents are determined by the history: reading `key` from the
   replayed store gives the last value written to `key`, or `Nil` if none was.
   */
  lemma {:induction false} ReplayReadsLastWrite(h: seq<Write>, key: string)
    ensures Read(Replay(h), key) == LastWrite(h, key)
  {
    if h != [] {
      ReplayReadsLastWrite(h[..|h| - 1], key);
    }
  }

  /**
   No implicit population: a key is in the store exactly when some prior `Set`
   wrote it, including a `Set` of `Nil`.
   */
  lemma {:induction false} ReplayDomain(h: seq<Write>, key: string)
    ensures key in Replay(h) <==> Written(h, key)
  {
    if h != [] {
      var init := h[..|h| - 1];
      ReplayDomain(init, key);
      if Written(init, key) {
        var i :| 0 <= i < |init| && init[i].key == key;
        assert h[i].key == key;
      }
      if Written(h, key) && h[|h| - 1].key != key {
        var i :| 0 <= i < |h| && h[i].key == key;
        assert init[i].key == key;
      }
    }
  }

  /** Round trip: right after `Set(key, value)`, a read of `key` returns `value`. */
  lemma SetThenGet(h: seq<Write>, key: string, value: Value)
    ensures LastWrite(h + [Write(key, value)], key) == value
    ensures Read(Replay(h + [Write(key, value)]), key) == value
  {
  }

  /** Last write wins: of two successive writes to `key`, a read sees the second. */
  lemma LastWriteWins(h: seq<Write>, key: string, v1: Value, v2: Value)
    ensures LastWrite(h + [Write(key, v1), Write(key, v2)], key) == v2
  {
    assert h + [Write(key, v1), Write(key, v2)] == (h + [Write(key, v1)]) + [Write(key, v2)];
    SetThenGet(h + [Write(key, v1)], key, v2);
  }

  /**
   Other keys are untouched: writes to keys other than `key`, however many and
   in whatever order, do not change what a read of `key` returns.
   */
  lemma {:induction false} OtherWritesInvisible(h: seq<Write>, rest: seq<Write>, key: string)
    requires forall i :: 0 <= i < |rest| ==> rest[i].key != key
    ensures LastWrite(h + rest, key) == LastWrite(h, key)
  {
    if rest == [] {
      assert h + rest == h;
    } else {
      var init := rest[..|rest| - 1];
      assert (h + rest)[..|h + rest| - 1] == h + init;
      assert (h + rest)[|h + rest| - 1] == rest[|rest| - 1];
      assert forall i :: 0 <= i < |init| ==> init[i] == rest[i];
      OtherWritesInvisible(h, init, key);
    }
  }

  /**
   `Get` cannot tell a missing key from a key explicitly set to `Nil`: both read
   as `Nil`, although only the latter is in the store.
   */
  lemma {:induction false} NilIndistinguishable(h: seq<Write>, key: string)
    requires !Written(h, key)
    ensures Read(Replay(h), key) == Nil && key !in Replay(h)
    ensures Read(Replay(h + [Write(key, Nil)]), key) == Nil
    ensures key in Replay(h + [Write(key, Nil)])
  {
    ReplayDomain(h, key);
    assert (h + [Write(key, Nil)])[..|h|] == h;
  }

  /**
   The scenario of the package's test: store an integer under "id" and a string
   under "hoge", then read both back.
   */
  method TestScenario() returns (id: Value, hoge: Value)
    ensures id == IntV(12)
    ensures hoge == StrV("doremifaso")
  {
    var c := new CacheInMemory();
    c.Set("id", IntV(12));
    id := c.Get("id");
    c.Set("hoge", StrV("doremifaso"));
    hoge := c.Get("hoge");
  }
}
