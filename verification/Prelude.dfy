/** Types shared by every module. */
module Prelude {

  datatype Option<+T> = None | Some(value: T)

  /** One byte of a Go or PHP string. */
  newtype Byte = n: int | 0 <= n < 256

  type Bytes = seq<Byte>

  /** A nonempty set has a member. */
  lemma Member<T>(s: set<T>) returns (x: T)
    requires s != {}
    ensures x in s
  {
    x :| x in s;
  }

  /** The last of `from..n` at which `p` holds. */
  lemma {:induction false} LastWhere(p: nat -> bool, from: nat, n: nat) returns (j: nat)
    requires from <= n && p(from)
    ensures from <= j <= n && p(j) && forall k: nat :: j < k <= n ==> !p(k)
    decreases n
  {
    if p(n) {
      j := n;
    } else {
      j := LastWhere(p, from, n - 1);
    }
  }

  function Concat<T>(parts: seq<seq<T>>): seq<T> {
    if parts == [] then [] else parts[0] + Concat(parts[1..])
  }

  lemma {:induction false} ConcatOn<T>(a: seq<seq<T>>, b: seq<seq<T>>)
    ensures Concat(a + b) == Concat(a) + Concat(b)
  {
    if a == [] {
      assert a + b == b;
    } else {
      assert (a + b)[1..] == a[1..] + b;
      ConcatOn(a[1..], b);
    }
  }

  lemma ConcatSnoc<T>(parts: seq<seq<T>>, last: seq<T>)
    ensures Concat(parts + [last]) == Concat(parts) + last
  {
    ConcatOn(parts, [last]);
    assert Concat([last]) == last;
  }
}
