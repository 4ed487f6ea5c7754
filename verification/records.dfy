/** JavaScript object records as Dafny maps. */
module Records {

  /** `after` is `{ ...before, [key]: value }`: the key is set, every other
      entry stays as it was, and no other key appears. */
  ghost predicate IsSpreadUpdate<K, V>(before: map<K, V>, after: map<K, V>, key: K, value: V) {
    && after.Keys == before.Keys + {key}
    && after[key] == value
    && forall k :: k in before && k != key ==> after[k] == before[k]
  }
}
