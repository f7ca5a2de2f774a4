/** Types shared by the server-side route computation and the client-side walk tracker. */
module Common {

  /** A value that may be missing: JavaScript's `null`/`undefined` on one side, a real value on the other. */
  datatype Option<T> = None | Some(value: T)

  /** Location identifiers are the integer ids of the `locations` and `edges` tables. */
  type Node = nat

  /** A planar point as stored in `locations(x, y)` and drawn on the map overlay. */
  datatype Point = Point(x: real, y: real)

  /** Total of a sequence of non-negative weights. */
  function Sum(ws: seq<nat>): nat
  {
    if |ws| == 0 then 0 else ws[0] + Sum(ws[1..])
  }

  lemma {:induction false} SumAppend(a: seq<nat>, b: seq<nat>)
    ensures Sum(a + b) == Sum(a) + Sum(b)
    decreases |a|
  {
    if |a| == 0 {
      assert a + b == b;
    } else {
      assert (a + b)[1..] == a[1..] + b;
      SumAppend(a[1..], b);
    }
  }

  /** A prefix never weighs more than the whole sequence. */
  lemma SumPrefix(ws: seq<nat>, k: nat)
    requires k <= |ws|
    ensures Sum(ws[..k]) <= Sum(ws)
  {
    assert ws == ws[..k] + ws[k..];
    SumAppend(ws[..k], ws[k..]);
  }

  /** Extending a prefix by one element adds that element's weight. */
  lemma SumExtend(ws: seq<nat>, k: nat)
    requires k < |ws|
    ensures Sum(ws[..k + 1]) == Sum(ws[..k]) + ws[k]
  {
    assert ws[..k + 1] == ws[..k] + [ws[k]];
    SumAppend(ws[..k], [ws[k]]);
  }
}
