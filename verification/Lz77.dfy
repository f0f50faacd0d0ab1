/** The copy both decompressors are built on. */
module Lz77 {
  import opened Bits

  /** Copy n bytes from `distance` back, one at a time, stopping at the size limit. */
  function Copy(out: seq<Byte>, distance: nat, n: nat, limit: nat): (r: seq<Byte>)
    requires 1 <= distance <= |out|
    ensures out <= r
    ensures |r| == if |out| >= limit then |out| else if |out| + n <= limit then |out| + n else limit
    decreases n
  {
    if n == 0 || |out| >= limit then out
    else Copy(out + [out[|out| - distance]], distance, n - 1, limit)
  }

  /** Self-overlapping copies included, every copied byte repeats the one `distance` before it. */
  lemma {:induction false} CopyRepeats(out: seq<Byte>, distance: nat, n: nat, limit: nat)
    requires 1 <= distance <= |out|
    ensures var r := Copy(out, distance, n, limit);
            forall i :: |out| <= i < |r| ==> r[i] == r[i - distance]
    decreases n
  {
    if n > 0 && |out| < limit {
      var next := out + [out[|out| - distance]];
      CopyRepeats(next, distance, n - 1, limit);
      var r := Copy(out, distance, n, limit);
      assert r == Copy(next, distance, n - 1, limit);
      assert r[..|next|] == next;
      forall i | |out| <= i < |r|
        ensures r[i] == r[i - distance]
      {
        if i == |out| {
          assert r[i] == r[..|next|][i] && r[i - distance] == r[..|next|][i - distance];
        }
      }
    }
  }

  lemma CopyStep(out: seq<Byte>, distance: nat, n: nat, limit: nat)
    requires 1 <= distance <= |out| < limit && n > 0
    ensures Copy(out, distance, n, limit) == Copy(out + [out[|out| - distance]], distance, n - 1, limit)
  {
  }

  lemma CopyNothing(out: seq<Byte>, distance: nat, n: nat, limit: nat)
    requires 1 <= distance <= |out| && (n == 0 || |out| >= limit)
    ensures Copy(out, distance, n, limit) == out
  {
  }
}
