/** Byte strings (Python `bytes`) and the joining of a list of them in order. */
module ByteStrings {

  /** One byte of a Python `bytes` value. */
  type Byte = bv8

  /** The parts joined end to end, in order (`b"".join(parts)`). */
  function Concat<T>(parts: seq<seq<T>>): seq<T>
  {
    if parts == [] then [] else parts[0] + Concat(parts[1..])
  }

  /** Joining distributes over splitting the list of parts anywhere. */
  lemma {:induction false} ConcatAppend<T>(a: seq<seq<T>>, b: seq<seq<T>>)
    ensures Concat(a + b) == Concat(a) + Concat(b)
  {
    if a == [] {
      assert a + b == b;
    } else {
      assert (a + b)[1..] == a[1..] + b;
      ConcatAppend(a[1..], b);
    }
  }

  /** Adding one part at the end appends exactly that part. */
  lemma ConcatSnoc<T>(a: seq<seq<T>>, x: seq<T>)
    ensures Concat(a + [x]) == Concat(a) + x
  {
    ConcatAppend(a, [x]);
    assert Concat([x]) == x + Concat([x][1..]);
    assert [x][1..] == [];
  }

  /** Joining a list of parts, seen around its part m. */
  lemma {:induction false} ConcatAround<T>(parts: seq<seq<T>>, m: nat)
    requires m < |parts|
    ensures Concat(parts) == Concat(parts[..m]) + parts[m] + Concat(parts[m + 1..])
    decreases m
  {
    var tail := parts[1..];
    assert Concat(parts) == parts[0] + Concat(tail);
    if m == 0 {
      assert parts[..0] == [];
    } else {
      var front := parts[..m];
      assert front[1..] == tail[..m - 1];
      assert Concat(front) == parts[0] + Concat(tail[..m - 1]);
      assert tail[m - 1] == parts[m] && tail[m..] == parts[m + 1..];
      ConcatAround(tail, m - 1);
    }
  }
}
