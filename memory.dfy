/** The byte buffer of the arena and the memset that poisons a range of it. */
module Memory {

  /** `s` with `count` bytes from `from` on set to `value`, every other byte kept. */
  function Poisoned(s: seq<bv8>, from: nat, count: nat, value: bv8): (r: seq<bv8>)
    requires from + count <= |s|
    ensures |r| == |s|
    ensures forall k :: 0 <= k < |s| ==> r[k] == if from <= k < from + count then value else s[k]
  {
    s[..from] + seq(count, _ => value) + s[from + count..]
  }

  /** memset(a + from, value, count). */
  method Memset(a: array<bv8>, from: nat, count: nat, value: bv8)
    requires from + count <= a.Length
    modifies a
    ensures a[..] == Poisoned(old(a[..]), from, count, value)
    ensures forall k :: 0 <= k < a.Length ==> a[k] == if from <= k < from + count then value else old(a[k])
  {
    var k := 0;
    while k < count
      invariant 0 <= k <= count
      invariant forall j :: 0 <= j < a.Length ==> a[j] == if from <= j < from + k then value else old(a[j])
    {
      a[from + k] := value;
      k := k + 1;
    }
  }
}
