# memem: a Dafny model of the in-memory cache

The memem package offers one key/value cache, `CacheInMemory`. It keeps a Go
map from string keys to `interface{}` values. `NewCache` creates it with an
empty map. On such a cache `Set` stores a value under a key, overwriting any
earlier one. `Get`
indexes the map directly, so a key that was never set reads as Go's `nil`.

The model (`memem.dfy`, module `Memem`) is a class `CacheInMemory` with a
mutable `store: map<string, Value>` field. `Value` (`Nil | IntV | StrV`)
stands for the dynamically typed `interface{}`, with `Nil` as `nil`. A ghost
field `history` records every `Set` since construction. The invariant `Valid()`
says that the store is the replay of that history (`Replay`). The lemmas then
relate reads to a map-free reference definition, `LastWrite`: after any
sequence of writes, a read of a key returns the value of the latest write to
that key, or `Nil` if there was none.

## Model

| member | source | states |
|---|---|---|
| Memem.CacheInMemory.constructor | memem.go:15-20 | a new cache has an empty store and no history, so every key reads as `Nil` |
| Memem.CacheInMemory.Set | memem.go:22-26 | on a cache built by `NewCache` (the invariant) has no error path; afterwards the key is in the store with the new value; every other key keeps its presence and its value; the write is appended to the history and the invariant is kept |
| Memem.CacheInMemory.Get | memem.go:28-30 | changes nothing; returns the stored value for a present key and `Nil` for an absent one; on a valid cache returns the last value written to the key |
| Memem.LastWrite | memem.go:24 | a non-`Nil` read result was really written to that key by some earlier `Set` |
| Memem.ReplayReadsLastWrite | memem.go:22-30 | for every history, reading a key from the replayed store equals the last value written to it, or `Nil` if it was never written |
| Memem.ReplayDomain | memem.go:15-26 | a key is in the store exactly when some earlier `Set` wrote it; nothing is populated implicitly |
| Memem.SetThenGet | memem.go:22-30 | round trip: right after `Set(k, v)`, reading `k` returns `v` |
| Memem.LastWriteWins | memem.go:24 | after `Set(k, v1)` and then `Set(k, v2)`, reading `k` returns `v2` |
| Memem.OtherWritesInvisible | memem.go:24 | any number of writes to other keys leave the value read for `k` unchanged |
| Memem.NilIndistinguishable | memem.go:29 | a key never written and a key written with `Nil` both read as `Nil`, although only the second is in the store |
| Memem.TestScenario | memem_test.go:5-15 | storing 12 under "id" and "doremifaso" under "hoge" reads both back unchanged |

## Left out

- Memem.CacheInMemory.Set: the model covers only caches built by `NewCache`, whose map is allocated (memem.go:16-18). A zero-value `CacheInMemory` (a `var` declaration or `&CacheInMemory{}`) has a nil `store`; on it `Get` returns `nil` but `Set` panics on assignment to a nil map (memem.go:24). The model has no nil map, so it does not capture that panic.
- The `sync.Mutex` embedded in `CacheInMemory` and the `Lock`/`Unlock` around the write in `Set` (memem.go:12, 23, 25). They only order concurrent callers and mean nothing in a sequential model.
- `Get` reads the map without taking the lock (memem.go:28-30), which races with a concurrent `Set`. That is a concurrency defect and is outside a sequential model.
- The `Cache` interface (memem.go:5-8) has only the one implementation. The model uses `CacheInMemory` directly and drops dynamic dispatch.
- Go's `interface{}` typing and its `!=` on interface values are abstracted to the `Value` datatype, which has structural equality. Go's byte-string keys are modelled as Dafny `string` (sequences of Unicode scalar values); only key equality is used, so any injective encoding of keys behaves the same.
- memem_test.go calls `c.Append`, which neither `Cache` nor `CacheInMemory` declares, so that test does not compile. `TestScenario` performs the test's intended writes with `Set` instead.
- The model has no expiry, compute-on-miss callback, clear operation or second storage backend, because memem.go implements none of them.
