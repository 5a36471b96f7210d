/** Rows of a 2-D block selected by a per-row mask (`X[~mask[:, 0], ...]`) and
    put back among filler rows (`tmp[mask] = nodata; tmp[~mask] = resFun`). */
module RowMask {

  /** Number of rows the mask keeps (the `False` entries). */
  function CountUnmasked(flags: seq<bool>): (n: nat)
    ensures n <= |flags|
  {
    if flags == [] then 0 else (if flags[0] then 0 else 1) + CountUnmasked(flags[1..])
  }

  /** The unmasked rows, in their order. */
  function Keep<T>(rows: seq<T>, flags: seq<bool>): (kept: seq<T>)
    requires |rows| == |flags|
    ensures |kept| == CountUnmasked(flags)
  {
    if rows == [] then []
    else if flags[0] then Keep(rows[1..], flags[1..])
    else [rows[0]] + Keep(rows[1..], flags[1..])
  }

  /** One row per mask entry: `fill` where masked, the next kept row where not. */
  function Reinsert<T>(flags: seq<bool>, fill: T, kept: seq<T>): (rows: seq<T>)
    requires |kept| == CountUnmasked(flags)
    ensures |rows| == |flags|
    ensures forall p :: 0 <= p < |rows| ==> rows[p] == fill || rows[p] in kept
  {
    if flags == [] then []
    else if flags[0] then [fill] + Reinsert(flags[1..], fill, kept)
    else [kept[0]] + Reinsert(flags[1..], fill, kept[1..])
  }

  /** Counting one more mask entry. */
  lemma CountPrefix(flags: seq<bool>, p: nat)
    requires p < |flags|
    ensures CountUnmasked(flags[..p + 1]) == CountUnmasked(flags[..p]) + (if flags[p] then 0 else 1)
  {
    CountAppend(flags[..p], [flags[p]]);
    assert flags[..p] + [flags[p]] == flags[..p + 1];
  }

  lemma {:induction false} CountAppend(a: seq<bool>, b: seq<bool>)
    ensures CountUnmasked(a + b) == CountUnmasked(a) + CountUnmasked(b)
  {
    if a == [] {
      assert a + b == b;
    } else {
      assert (a + b)[1..] == a[1..] + b;
      CountAppend(a[1..], b);
    }
  }

  /** The unmasked rows before `p` are fewer than all unmasked rows when row
      `p` is itself unmasked. */
  lemma CountBefore(flags: seq<bool>, p: nat)
    requires p < |flags| && !flags[p]
    ensures CountUnmasked(flags[..p]) < CountUnmasked(flags)
  {
    CountPrefix(flags, p);
    CountAppend(flags[..p + 1], flags[p + 1..]);
    assert flags[..p + 1] + flags[p + 1..] == flags;
  }

  /** Row `p` after reinsertion: the filler if masked, otherwise the kept row
      whose rank is the number of unmasked rows before `p`. */
  lemma {:induction false} ReinsertAt<T>(flags: seq<bool>, fill: T, kept: seq<T>, p: nat)
    requires |kept| == CountUnmasked(flags) && p < |flags|
    ensures !flags[p] ==> CountUnmasked(flags[..p]) < |kept|
    ensures Reinsert(flags, fill, kept)[p] ==
      if flags[p] then fill else kept[CountUnmasked(flags[..p])]
  {
    if !flags[p] {
      CountBefore(flags, p);
    }
    if p > 0 {
      var rest := if flags[0] then kept else kept[1..];
      ReinsertAt(flags[1..], fill, rest, p - 1);
      assert flags[1..][..p - 1] == flags[..p][1..];
      assert flags[..p][0] == flags[0];
    }
  }

  /** An unmasked row is kept at the rank given by the unmasked rows before it. */
  lemma {:induction false} KeepAt<T>(rows: seq<T>, flags: seq<bool>, p: nat)
    requires |rows| == |flags| && p < |flags| && !flags[p]
    ensures CountUnmasked(flags[..p]) < |Keep(rows, flags)|
    ensures Keep(rows, flags)[CountUnmasked(flags[..p])] == rows[p]
  {
    CountBefore(flags, p);
    if p > 0 {
      KeepAt(rows[1..], flags[1..], p - 1);
      assert flags[1..][..p - 1] == flags[..p][1..];
      assert flags[..p][0] == flags[0];
    }
  }

  /** Reinserting and then dropping the masked rows gives back the kept rows. */
  lemma {:induction false} KeepReinsert<T>(flags: seq<bool>, fill: T, kept: seq<T>)
    requires |kept| == CountUnmasked(flags)
    ensures Keep(Reinsert(flags, fill, kept), flags) == kept
  {
    if flags != [] {
      var rows := Reinsert(flags, fill, kept);
      if flags[0] {
        assert rows[1..] == Reinsert(flags[1..], fill, kept);
        KeepReinsert(flags[1..], fill, kept);
      } else {
        assert rows[1..] == Reinsert(flags[1..], fill, kept[1..]);
        KeepReinsert(flags[1..], fill, kept[1..]);
        assert kept == [kept[0]] + kept[1..];
      }
    }
  }

  /** Dropping the masked rows and reinserting fills the masked rows and
      restores every unmasked row in place. */
  lemma ReinsertKeep<T>(rows: seq<T>, flags: seq<bool>, fill: T, p: nat)
    requires |rows| == |flags| && p < |flags|
    ensures Reinsert(flags, fill, Keep(rows, flags))[p] == if flags[p] then fill else rows[p]
  {
    ReinsertAt(flags, fill, Keep(rows, flags), p);
    if !flags[p] {
      KeepAt(rows, flags, p);
    }
  }

  /** The 2-D reinsertion of `run`, on the `(n, m)` array `tmp`: masked rows
      receive `fill`, the others the result rows in order. */
  method FillRows(tmp: array2<int>, flags: seq<bool>, fill: seq<int>, kept: seq<seq<int>>)
    requires tmp.Length0 == |flags| && tmp.Length1 == |fill|
    requires |kept| == CountUnmasked(flags)
    requires forall row :: row in kept ==> |row| == |fill|
    modifies tmp
    ensures forall p, b :: 0 <= p < tmp.Length0 && 0 <= b < tmp.Length1 ==>
      tmp[p, b] == Reinsert(flags, fill, kept)[p][b]
  {
    var k := 0;
    for p := 0 to |flags|
      invariant k == CountUnmasked(flags[..p])
      invariant forall q, b :: 0 <= q < p && 0 <= b < tmp.Length1 ==>
        tmp[q, b] == Reinsert(flags, fill, kept)[q][b]
    {
      ReinsertAt(flags, fill, kept, p);
      var row := if flags[p] then fill else kept[k];
      for b := 0 to |fill|
        invariant forall q, c :: 0 <= q < p && 0 <= c < tmp.Length1 ==>
          tmp[q, c] == Reinsert(flags, fill, kept)[q][c]
        invariant forall c :: 0 <= c < b ==> tmp[p, c] == row[c]
      {
        tmp[p, b] := row[b];
      }
      CountPrefix(flags, p);
      if !flags[p] {
        k := k + 1;
      }
    }
  }
}
