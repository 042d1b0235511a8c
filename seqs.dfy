/** The linear scan both repositories perform: a `for _, x := range` loop
    that stops at the first element whose key equals the one sought. */
module Seqs {
  import opened Outcomes

  /** Index of the first occurrence of key in keys, or None when it does
      not occur. */
  function FirstIndex<K(==)>(keys: seq<K>, key: K): (k: Option<nat>)
    ensures k.Some? ==> k.value < |keys| && keys[k.value] == key
    ensures k.Some? ==> forall j :: 0 <= j < k.value ==> keys[j] != key
    ensures k.None? ==> forall j :: 0 <= j < |keys| ==> keys[j] != key
  {
    if keys == [] then None
    else if keys[0] == key then Some(0)
    else match FirstIndex(keys[1..], key)
      case None => None
      case Some(k) => Some(k + 1)
  }

  /** A position holding the key with no earlier one holding it is the one
      FirstIndex finds. */
  lemma FirstIndexAt<K>(keys: seq<K>, key: K, k: nat)
    requires k < |keys| && keys[k] == key
    requires key !in keys[..k]
    ensures FirstIndex(keys, key) == Some(k)
  {
    var f := FirstIndex(keys, key);
    if f.Some? {
      assert !(k < f.value);
    }
  }

  /** One more step of a scan that has not met the key. */
  lemma NotInPrefixStep<K>(keys: seq<K>, key: K, i: nat)
    requires i < |keys| && key !in keys[..i] && keys[i] != key
    ensures key !in keys[..i + 1]
  {
    assert keys[..i + 1] == keys[..i] + [keys[i]];
  }

  /** A scan that went through every key without meeting it finds nothing. */
  lemma NotInPrefixDone<K>(keys: seq<K>, key: K)
    requires key !in keys[..|keys|]
    ensures FirstIndex(keys, key) == None
  {
    assert keys[..|keys|] == keys;
  }
}
