/** The dictionaries the core fills with a loop `for t in keys: d[t] = value(t)`:
    one entry per distinct key, a repeated key overwriting its earlier entry
    with the same value. */
module Dicts {

  /** The dictionary such a loop holds after the given keys. */
  function Filled<V>(keys: seq<string>, value: string -> V): map<string, V> {
    if keys == [] then map[]
    else
      var n := |keys| - 1;
      Filled(keys[..n], value)[keys[n] := value(keys[n])]
  }

  /** One more turn of the loop. */
  lemma FilledStep<V>(keys: seq<string>, value: string -> V, i: nat)
    requires i < |keys|
    ensures Filled(keys[..i + 1], value) == Filled(keys[..i], value)[keys[i] := value(keys[i])]
  {
    assert keys[..i + 1][..i] == keys[..i];
  }

  /** The keys are exactly the given ones and each maps to its own value,
      whatever the order or repetition of the keys. */
  lemma {:induction false} FilledFacts<V>(keys: seq<string>, value: string -> V)
    ensures forall t :: t in Filled(keys, value) <==> t in keys
    ensures forall t :: t in Filled(keys, value) ==> Filled(keys, value)[t] == value(t)
  {
    if keys != [] {
      var n := |keys| - 1;
      FilledFacts(keys[..n], value);
      assert keys == keys[..n] + [keys[n]];
    }
  }
}
