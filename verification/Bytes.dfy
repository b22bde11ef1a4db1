/** Bytes, optional values and small facts about sequences. */
module Bytes {

  newtype byte = x: int | 0 <= x < 256

  const NUL: byte := 0

  datatype Option<+T> = None | Some(value: T)

  /** `ts` with element `k` taken out. */
  function Without<T>(ts: seq<T>, k: nat): seq<T>
    requires k < |ts|
  {
    ts[..k] + ts[k + 1..]
  }

  function Flatten<T>(parts: seq<seq<T>>): seq<T>
  {
    if parts == [] then [] else parts[0] + Flatten(parts[1..])
  }

  lemma AppendAssociative<T>(a: seq<T>, b: seq<T>, c: seq<T>)
    ensures (a + b) + c == a + (b + c)
  {
  }

  lemma {:induction false} FlattenAppend<T>(parts: seq<seq<T>>, last: seq<T>)
    ensures Flatten(parts + [last]) == Flatten(parts) + last
  {
    if parts == [] {
      assert parts + [last] == [last];
      assert Flatten([last]) == last + Flatten([last][1..]) == last;
    } else {
      assert (parts + [last])[1..] == parts[1..] + [last];
      FlattenAppend(parts[1..], last);
      assert parts[0] + (Flatten(parts[1..]) + last) == Flatten(parts) + last;
    }
  }
}
