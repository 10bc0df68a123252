/** Small helpers shared by the scheduler: an Option type standing in for C#'s
    nullable references, and the dictionary extension `SafetyAdd`. */
module Utils {

  /** `None` plays the part of a C# `null` reference. */
  datatype Option<+T> = None | Some(value: T)

  /** `Dictionary.SafetyAdd`: adds `key -> value` only when `key` is absent;
      a present key is left untouched (the source merely logs an error). */
  function SafetyAdd<K, V>(m: map<K, V>, key: K, value: V): (r: map<K, V>)
    ensures r.Keys == m.Keys + {key}
    ensures key !in m ==> r[key] == value
    ensures forall k :: k in m ==> k in r && r[k] == m[k]
  {
    if key !in m then m[key := value] else m
  }

  /** `float.CompareTo` and `long.CompareTo`: -1, 0 or 1. */
  function CompareNumbers(x: int, y: int): (c: int)
    ensures c == -1 || c == 0 || c == 1
    ensures c < 0 <==> x < y
    ensures c == 0 <==> x == y
  {
    if x < y then -1 else if x == y then 0 else 1
  }
}
