/** What a dictionary means to its callers: a finite map from keys to values with an
    absolute expiry second (0: never), and the effect of each dict.c operation on it. */
module DictSpec {
  import opened Sds

  datatype Item<V> = Item(val: V, expire: int)
  type Store<V> = map<Bytes, Item<V>>

  /** The lazy-expiry test: strict, so a key is still served in the second it expires. */
  predicate Expired<V>(item: Item<V>, now: int) { item.expire > 0 && now > item.expire }

  predicate Live<V>(m: Store<V>, key: Bytes, now: int) { key in m && !Expired(m[key], now) }

  function Deadline(ttl: int, now: int): int { if ttl > 0 then now + ttl else 0 }

  function Put<V>(m: Store<V>, key: Bytes, val: V, ttl: int, now: int): Store<V>
  {
    m[key := Item(val, Deadline(ttl, now))]
  }

  /** Every read removes the key it finds expired. */
  function Purge<V>(m: Store<V>, key: Bytes, now: int): Store<V>
  {
    if key in m && Expired(m[key], now) then m - {key} else m
  }

  function Get<V>(m: Store<V>, key: Bytes, now: int): Option<V>
  {
    if Live(m, key, now) then Some(m[key].val) else None
  }

  function GetExpiry<V>(m: Store<V>, key: Bytes, now: int): int
  {
    if Live(m, key, now) then m[key].expire else 0
  }

  /** Setting an expiry does not look at the old one: an expired key not yet removed gets a new life. */
  function SetExpiry<V>(m: Store<V>, key: Bytes, ttl: int, now: int): Store<V>
  {
    if key in m then m[key := Item(m[key].val, Deadline(ttl, now))] else m
  }

  function Delete<V>(m: Store<V>, key: Bytes): Store<V> { m - {key} }

  /** The random sampling of active expiry may remove any expired keys and nothing else. */
  ghost predicate Sampled<V>(m: Store<V>, m': Store<V>, now: int)
  {
    && (forall k :: k in m' ==> k in m && m'[k] == m[k])
    && (forall k :: k in m && k !in m' ==> Expired(m[k], now))
  }
}
