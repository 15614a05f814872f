/** The convergence experiment (test.go): a matrix whose row `i` is node
    `i`'s view of a segment (an entry >= 1 means the node holds that slot)
    is advanced round by round; in a round every node either completes
    itself, once it holds enough slots for the redundancy level, or takes
    one missing slot from each other node. */
module Convergence {

  datatype Option<T> = None | Some(value: T)

  /** Go's `x / 2`, which truncates toward zero (Dafny's `/` floors for
      negative `x`). */
  function TruncHalf(x: int): int
  {
    if x >= 0 then x / 2 else -((-x) / 2)
  }

  /** Every row has the same length; the source indexes row `i` with the
      positions of every other row. */
  predicate Rectangular(mat: seq<seq<int>>)
  {
    forall i :: 0 <= i < |mat| ==> |mat[i]| == |mat[0]|
  }

  /** Whether `row` holds every slot, scanned front to back. */
  function RowConverged(row: seq<int>): (c: bool)
    ensures c <==> forall k :: 0 <= k < |row| ==> row[k] >= 1
  {
    if row == [] then true else row[0] >= 1 && RowConverged(row[1..])
  }

  /** The convergence test: true exactly when every entry of every row is
      at least 1 (so in particular for the empty matrix). */
  function IsConverged(mat: seq<seq<int>>): (c: bool)
    ensures c <==> forall i, k :: 0 <= i < |mat| && 0 <= k < |mat[i]| ==> mat[i][k] >= 1
  {
    if mat == [] then true else RowConverged(mat[0]) && IsConverged(mat[1..])
  }

  /** Number of positive entries of `row`. */
  function CountPositive(row: seq<int>): (n: nat)
    ensures n <= |row|
  {
    if row == [] then 0 else CountPositive(row[..|row| - 1]) + if row[|row| - 1] > 0 then 1 else 0
  }

  /** A node holding enough slots: at most `redLev / 2` of them are missing. */
  predicate RowComplete(row: seq<int>, redLev: int)
  {
    CountPositive(row) >= |row| - TruncHalf(redLev)
  }

  /** A completing node fills each empty (0) slot with the marker 3. */
  function FillRow(row: seq<int>): seq<int>
  {
    seq(|row|, k requires 0 <= k < |row| => if row[k] == 0 then 3 else row[k])
  }

  /** Slot `k` is one the giver holds and the taker lacks. */
  predicate Gap(giver: seq<int>, taker: seq<int>, k: nat)
    requires k < |giver| && k < |taker|
  {
    giver[k] > 0 && taker[k] < 1
  }

  /** The first gap at or after `from`, if any. */
  function FirstGap(giver: seq<int>, taker: seq<int>, from: nat): (r: Option<nat>)
    requires |giver| <= |taker| && from <= |giver|
    decreases |giver| - from
    ensures r.Some? ==> from <= r.value < |giver| && Gap(giver, taker, r.value)
    ensures r.Some? ==> forall k :: from <= k < r.value ==> !Gap(giver, taker, k)
    ensures r.None? ==> forall k :: from <= k < |giver| ==> !Gap(giver, taker, k)
  {
    if from == |giver| then None
    else if Gap(giver, taker, from) then Some(from)
    else FirstGap(giver, taker, from + 1)
  }

  /** Node `j`, another node, gives slot `k` to node `i` in a round. */
  predicate Gives(mat: seq<seq<int>>, i: nat, j: nat, k: nat)
    requires Rectangular(mat) && i < |mat| && j < |mat|
  {
    j != i && FirstGap(mat[j], mat[i], 0) == Some(k)
  }

  /** Row `i` after the givers `0 .. m - 1` have each written their first
      gap into it; every decision reads the round's input `mat`. */
  function Received(mat: seq<seq<int>>, i: nat, m: nat): (row: seq<int>)
    requires Rectangular(mat) && i < |mat| && m <= |mat|
    ensures |row| == |mat[i]|
  {
    if m == 0 then mat[i]
    else
      var row := Received(mat, i, m - 1);
      if m - 1 == i then row
      else match FirstGap(mat[m - 1], mat[i], 0)
        case None => row
        case Some(k) => row[k := mat[m - 1][k]]
  }

  /** Row `i` after a round. */
  function NewRow(mat: seq<seq<int>>, i: nat, redLev: int): (row: seq<int>)
    requires Rectangular(mat) && i < |mat|
    ensures |row| == |mat[i]|
  {
    if RowComplete(mat[i], redLev) then FillRow(mat[i]) else Received(mat, i, |mat|)
  }

  /** One round of the exchange; the result has the input's shape. */
  function ConvergeSpec(mat: seq<seq<int>>, redLev: int): (out: seq<seq<int>>)
    requires Rectangular(mat)
    ensures |out| == |mat|
    ensures Rectangular(out)
  {
    seq(|mat|, i requires 0 <= i < |mat| => NewRow(mat, i, redLev))
  }

  /** One round, computed on a copy `cmat` of the input row by row. The
      second result reports that the round changed nothing. */
  method Converge(mat: seq<seq<int>>, redLev: int) returns (cmat: seq<seq<int>>, stable: bool)
    requires Rectangular(mat)
    ensures cmat == ConvergeSpec(mat, redLev)
    ensures stable <==> cmat == mat
  {
    cmat := mat;
    var changed := false;
    for i := 0 to |mat|
      invariant |cmat| == |mat|
      invariant forall r :: 0 <= r < i ==> cmat[r] == NewRow(mat, r, redLev)
      invariant forall r :: i <= r < |mat| ==> cmat[r] == mat[r]
      invariant changed <==> exists r :: 0 <= r < i && cmat[r] != mat[r]
    {
      var row, rowChanged := ConvergeRow(mat, i, redLev);
      cmat := cmat[i := row];
      changed := changed || rowChanged;
    }
    assert changed <==> cmat != mat;
    stable := !changed;
  }

  /** Row `i` of a round (the body of the taker loop): a complete node
      fills its empty slots; any other node takes, from each other node,
      that node's first gap. The flag reports a write. */
  method ConvergeRow(mat: seq<seq<int>>, i: nat, redLev: int) returns (row: seq<int>, changed: bool)
    requires Rectangular(mat) && i < |mat|
    ensures row == NewRow(mat, i, redLev)
    ensures changed <==> row != mat[i]
  {
    row := mat[i];
    changed := false;
    var count := 0;
    for k := 0 to |mat[i]|
      invariant count == CountPositive(mat[i][..k])
    {
      assert mat[i][..k + 1][..k] == mat[i][..k];
      if mat[i][k] > 0 {
        count := count + 1;
      }
    }
    assert mat[i][..|mat[i]|] == mat[i];

    if count >= |mat[i]| - TruncHalf(redLev) {
      // fill the rest
      for k := 0 to |mat[i]|
        invariant |row| == |mat[i]|
        invariant forall c :: 0 <= c < k ==> row[c] == FillRow(mat[i])[c]
        invariant forall c :: k <= c < |mat[i]| ==> row[c] == mat[i][c]
        invariant changed <==> row != mat[i]
      {
        if mat[i][k] == 0 {
          row := row[k := 3];
          changed := true;
          assert row[k] != mat[i][k];
        }
      }
      assert row == FillRow(mat[i]);
      return;
    }

    for j := 0 to |mat|
      invariant row == Received(mat, i, j)
      invariant changed <==> row != mat[i]
    {
      // taking from myself is skipped
      if i == j {
        continue;
      }
      var k := 0;
      while k < |mat[j]|
        invariant 0 <= k <= |mat[j]|
        invariant forall c :: 0 <= c < k ==> !Gap(mat[j], mat[i], c)
        invariant row == Received(mat, i, j)
      {
        if mat[j][k] > 0 && mat[i][k] < 1 {
          assert Gap(mat[j], mat[i], k);
          assert FirstGap(mat[j], mat[i], 0) == Some(k);
          row := row[k := mat[j][k]];
          changed := true;
          break;
        }
        k := k + 1;
      }
      if k == |mat[j]| {
        assert FirstGap(mat[j], mat[i], 0) == None;
      }
    }
  }

  /** Number of entries of `row` below 1 (slots the node lacks). */
  function CountBelowRow(row: seq<int>): (n: nat)
    ensures n <= |row|
  {
    if row == [] then 0 else CountBelowRow(row[..|row| - 1]) + if row[|row| - 1] < 1 then 1 else 0
  }

  /** Number of entries of the matrix below 1. */
  function CountBelow(mat: seq<seq<int>>): nat
  {
    if mat == [] then 0 else CountBelow(mat[..|mat| - 1]) + CountBelowRow(mat[|mat| - 1])
  }

  /** The matrix after `s` rounds. */
  function Rounds(mat: seq<seq<int>>, redLev: int, s: nat): (out: seq<seq<int>>)
    requires Rectangular(mat)
    ensures Rectangular(out) && |out| == |mat|
  {
    if s == 0 then mat else ConvergeSpec(Rounds(mat, redLev, s - 1), redLev)
  }

  /** Slot `k` of row `i` after givers `0 .. m - 1`: untouched when none of
      them gives it, and otherwise the value of the last node that gives it. */
  lemma {:induction false} ReceivedCell(mat: seq<seq<int>>, i: nat, m: nat, k: nat)
    requires Rectangular(mat) && i < |mat| && m <= |mat| && k < |mat[i]|
    ensures (forall j :: 0 <= j < m ==> !Gives(mat, i, j, k)) ==> Received(mat, i, m)[k] == mat[i][k]
    ensures (exists j :: 0 <= j < m && Gives(mat, i, j, k)) ==>
              exists j :: 0 <= j < m && Gives(mat, i, j, k) && Received(mat, i, m)[k] == mat[j][k]
                          && forall j' :: j < j' < m ==> !Gives(mat, i, j', k)
  {
    if m > 0 {
      ReceivedCell(mat, i, m - 1, k);
      var j0 := m - 1;
      if !Gives(mat, i, j0, k) {
        assert Received(mat, i, m)[k] == Received(mat, i, m - 1)[k];
        if exists j :: 0 <= j < m && Gives(mat, i, j, k) {
          var j :| 0 <= j < m && Gives(mat, i, j, k);
          assert j < m - 1;
        }
      } else {
        assert Received(mat, i, m)[k] == mat[j0][k];
      }
    }
  }

  /** What a round does to each entry. Entries of at least 1 are kept; only
      entries below 1 are written, always with a positive value. A complete
      row has its 0 entries set to 3 and nothing else changed. Any other
      row changes exactly at the slots some other node gives it, and such a
      slot holds the value of the last such giver. */
  lemma ConvergeCells(mat: seq<seq<int>>, redLev: int, i: nat, k: nat)
    requires Rectangular(mat) && i < |mat| && k < |mat[i]|
    ensures var out := ConvergeSpec(mat, redLev);
      && (out[i][k] == mat[i][k] || (mat[i][k] < 1 && out[i][k] > 0))
      && (RowComplete(mat[i], redLev) ==> out[i][k] == if mat[i][k] == 0 then 3 else mat[i][k])
      && (!RowComplete(mat[i], redLev) ==>
            (out[i][k] != mat[i][k] <==> exists j :: 0 <= j < |mat| && Gives(mat, i, j, k)))
      && (!RowComplete(mat[i], redLev) && out[i][k] != mat[i][k] ==>
            exists j :: 0 <= j < |mat| && Gives(mat, i, j, k) && out[i][k] == mat[j][k]
                        && forall j' :: j < j' < |mat| ==> !Gives(mat, i, j', k))
  {
    ReceivedCell(mat, i, |mat|, k);
  }

  /** A row whose only changes raise entries from below 1 to at least 1
      lacks no more slots than before, and strictly fewer if it changed. */
  lemma {:induction false} RowProgress(a: seq<int>, b: seq<int>)
    requires |a| == |b|
    requires forall k :: 0 <= k < |a| ==> b[k] == a[k] || (a[k] < 1 && b[k] >= 1)
    ensures CountBelowRow(b) <= CountBelowRow(a)
    ensures b != a ==> CountBelowRow(b) < CountBelowRow(a)
  {
    if a != [] {
      var n := |a| - 1;
      RowProgress(a[..n], b[..n]);
      if b != a && b[..n] == a[..n] {
        assert b[n] != a[n];
      }
    }
  }

  /** A round never adds missing entries, and a round that changes the
      matrix removes at least one. */
  lemma {:induction false} ConvergeProgress(mat: seq<seq<int>>, redLev: int)
    requires Rectangular(mat)
    ensures CountBelow(ConvergeSpec(mat, redLev)) <= CountBelow(mat)
    ensures ConvergeSpec(mat, redLev) != mat ==> CountBelow(ConvergeSpec(mat, redLev)) < CountBelow(mat)
  {
    var out := ConvergeSpec(mat, redLev);
    forall i | 0 <= i < |mat|
      ensures CountBelowRow(out[i]) <= CountBelowRow(mat[i])
      ensures out[i] != mat[i] ==> CountBelowRow(out[i]) < CountBelowRow(mat[i])
    {
      forall k | 0 <= k < |mat[i]|
        ensures out[i][k] == mat[i][k] || (mat[i][k] < 1 && out[i][k] >= 1)
      {
        ConvergeCells(mat, redLev, i, k);
      }
      RowProgress(mat[i], out[i]);
    }
    CountBelowPointwise(mat, out);
  }

  /** Row by row comparison of missing-entry counts lifts to the matrix. */
  lemma {:induction false} CountBelowPointwise(a: seq<seq<int>>, b: seq<seq<int>>)
    requires |a| == |b|
    requires forall i :: 0 <= i < |a| ==> CountBelowRow(b[i]) <= CountBelowRow(a[i])
    requires forall i :: 0 <= i < |a| && b[i] != a[i] ==> CountBelowRow(b[i]) < CountBelowRow(a[i])
    ensures CountBelow(b) <= CountBelow(a)
    ensures b != a ==> CountBelow(b) < CountBelow(a)
  {
    if a != [] {
      var n := |a| - 1;
      CountBelowPointwise(a[..n], b[..n]);
      if b != a && b[..n] == a[..n] {
        assert b[n] != a[n];
      }
    }
  }

  /** None of the first `n` rounds started from a converged matrix. */
  predicate NeverConvergedBefore(init: seq<seq<int>>, redLev: int, n: nat)
    requires Rectangular(init)
  {
    forall s :: 0 <= s < n ==> !IsConverged(Rounds(init, redLev, s))
  }

  /** `keys` lists every key of `nodeMap` once: one of the orders in which
      ranging over the map may visit it. */
  ghost predicate IsKeyOrder(nodeMap: map<string, seq<int>>, keys: seq<string>)
  {
    && (forall key :: key in keys <==> key in nodeMap)
    && (forall a, b :: 0 <= a < b < |keys| ==> keys[a] != keys[b])
  }

  /** The rows of `nodeMap`, in the order `keys`. */
  function Rows(nodeMap: map<string, seq<int>>, keys: seq<string>): seq<seq<int>>
    requires forall key :: key in keys ==> key in nodeMap
  {
    seq(|keys|, i requires 0 <= i < |keys| => nodeMap[keys[i]])
  }

  /** Runs rounds until the matrix is converged or a round changes
      nothing. `keys` is the order in which the map is visited when its
      rows are copied (Go leaves that order unspecified). `steps` counts
      the rounds that changed something; it is at most the number of
      entries initially below 1. `failed` is false exactly when the loop
      stopped on a converged matrix, and true when a round left an
      unconverged matrix unchanged. */
  method GetConvergenceSpeed(nodeMap: map<string, seq<int>>, keys: seq<string>, redLev: int)
    returns (steps: nat, failed: bool)
    requires IsKeyOrder(nodeMap, keys)
    requires forall a, b :: a in nodeMap && b in nodeMap ==> |nodeMap[a]| == |nodeMap[b]|
    ensures Rectangular(Rows(nodeMap, keys))
    ensures steps <= CountBelow(Rows(nodeMap, keys))
    ensures NeverConvergedBefore(Rows(nodeMap, keys), redLev, steps)
    ensures forall s :: 0 <= s < steps ==>
              Rounds(Rows(nodeMap, keys), redLev, s + 1) != Rounds(Rows(nodeMap, keys), redLev, s)
    ensures !failed ==> IsConverged(Rounds(Rows(nodeMap, keys), redLev, steps))
    ensures failed ==> && !IsConverged(Rounds(Rows(nodeMap, keys), redLev, steps))
                       && ConvergeSpec(Rounds(Rows(nodeMap, keys), redLev, steps), redLev)
                          == Rounds(Rows(nodeMap, keys), redLev, steps)
  {
    var convMat: seq<seq<int>> := [];
    for i := 0 to |keys|
      invariant convMat == Rows(nodeMap, keys)[..i]
    {
      convMat := convMat + [nodeMap[keys[i]]];
    }
    ghost var init := Rows(nodeMap, keys);
    assert init[..|keys|] == init;
    assert Rectangular(init) by {
      forall i | 0 <= i < |init|
        ensures |init[i]| == |init[0]|
      {
        assert init[i] == nodeMap[keys[i]] && init[0] == nodeMap[keys[0]];
      }
    }

    steps := 0;
    failed := false;
    while !IsConverged(convMat)
      invariant convMat == Rounds(init, redLev, steps)
      invariant steps + CountBelow(convMat) <= CountBelow(init)
      invariant NeverConvergedBefore(init, redLev, steps)
      invariant forall s :: 0 <= s < steps ==> Rounds(init, redLev, s + 1) != Rounds(init, redLev, s)
      invariant !failed
      decreases CountBelow(convMat)
    {
      ghost var before := convMat;
      ConvergeProgress(before, redLev);
      convMat, failed := Converge(convMat, redLev);
      assert convMat == Rounds(init, redLev, steps + 1);
      // non-convergeable
      if failed {
        break;
      }
      steps := steps + 1;
    }
  }
}
