// Machine words of the C program, optional values, laws of sequences, and reading from an array.
module Base {
  type byte = b: int | 0 <= b < 256
  type uint64 = k: int | 0 <= k < 0x1_0000_0000_0000_0000

  datatype Option<T> = None | Some(value: T)

  // the elements still to be read are where they were
  ghost predicate Unread<T>(src: array<T>, s: nat, rest: seq<T>)
    reads src
  {
    s + |rest| <= src.Length && forall i :: 0 <= i < |rest| ==> src[s + i] == rest[i]
  }

  lemma Regroup<T>(a: seq<T>, b: seq<T>, c: seq<T>)
    ensures a + (b + c) == (a + b) + c
  {
  }
}
