/** What plcs/plcs.c has to compute, defined independently of any table: the
    length of a longest common subsequence. Also the recurrence both workers
    evaluate, proved equal to it, and the serial worker. */
module LcsSpec {
  /** f picks, in order, the positions of s inside a. */
  ghost predicate Embeds(s: string, a: string, f: seq<nat>) {
    && |f| == |s|
    && (forall k :: 0 <= k < |f| ==> f[k] < |a| && s[k] == a[f[k]])
    && forall j, k :: 0 <= j < k < |f| ==> f[j] < f[k]
  }

  ghost predicate IsSubsequence(s: string, a: string) {
    exists f :: Embeds(s, a, f)
  }

  ghost predicate IsCommon(s: string, a: string, b: string) {
    IsSubsequence(s, a) && IsSubsequence(s, b)
  }

  /** n is the length of a longest common subsequence: one of that length exists
      and none is longer. */
  ghost predicate IsLcsLength(a: string, b: string, n: int) {
    && (exists s :: IsCommon(s, a, b) && |s| == n)
    && forall s :: IsCommon(s, a, b) ==> |s| <= n
  }

  function Max3(x: int, y: int, z: int): int {
    var m := if x > y then x else y;
    if m > z then m else z
  }

  /** The value the table holds for row i, column j; 0 outside. */
  function Cell(a: string, b: string, i: int, j: int): int
    requires i < |a| && j < |b|
    decreases i + j + 2, i
  {
    if i < 0 || j < 0 then 0
    else Max3(Cell(a, b, i - 1, j), Cell(a, b, i, j - 1),
              Cell(a, b, i - 1, j - 1) + if a[i] == b[j] then 1 else 0)
  }

  lemma CellStep(a: string, b: string, i: nat, j: nat)
    requires i < |a| && j < |b|
    ensures Cell(a, b, i, j) == Max3(Cell(a, b, i - 1, j), Cell(a, b, i, j - 1),
                                     Cell(a, b, i - 1, j - 1) + if a[i] == b[j] then 1 else 0)
    ensures Cell(a, b, -1, j) == Cell(a, b, i, -1) == Cell(a, b, -1, j - 1) == Cell(a, b, i - 1, -1) == 0
  {
  }

  // ----- moving embeddings between prefixes

  lemma Widen(s: string, a: string, i: nat)
    requires i < |a| && IsSubsequence(s, a[..i])
    ensures IsSubsequence(s, a[..i + 1])
  {
    var f :| Embeds(s, a[..i], f);
    assert Embeds(s, a[..i + 1], f);
  }

  lemma Extend(s: string, a: string, i: nat)
    requires i < |a| && IsSubsequence(s, a[..i])
    ensures IsSubsequence(s + [a[i]], a[..i + 1])
  {
    var f :| Embeds(s, a[..i], f);
    assert Embeds(s + [a[i]], a[..i + 1], f + [i]);
  }

  /** An embedding into a[..i+1] either avoids position i or ends there. */
  lemma LastStep(s: string, a: string, i: nat)
    requires i < |a| && |s| > 0 && IsSubsequence(s, a[..i + 1])
    ensures IsSubsequence(s[..|s| - 1], a[..i])
    ensures IsSubsequence(s, a[..i]) || s[|s| - 1] == a[i]
  {
    var f :| Embeds(s, a[..i + 1], f);
    var m := |s| - 1;
    assert f[m] < |a[..i + 1]|;
    forall k | 0 <= k < m ensures f[k] < i && s[..m][k] == a[..i][f[k]] {
      assert f[k] < f[m] && s[k] == a[..i + 1][f[k]];
    }
    assert Embeds(s[..m], a[..i], f[..m]);
    if f[m] < i {
      assert Embeds(s, a[..i], f);
    }
  }

  /** The recurrence is right for every pair of prefixes. */
  lemma {:induction false} CellIsLcs(a: string, b: string, i: int, j: int)
    requires -1 <= i < |a| && -1 <= j < |b|
    ensures IsLcsLength(a[..i + 1], b[..j + 1], Cell(a, b, i, j))
    decreases i + j + 2, i
  {
    if i < 0 || j < 0 {
      EmptyLcs(a[..i + 1], b[..j + 1]);
    } else {
      CellIsLcs(a, b, i - 1, j);
      CellIsLcs(a, b, i, j - 1);
      CellIsLcs(a, b, i - 1, j - 1);
      CellReached(a, b, i, j);
      forall s | IsCommon(s, a[..i + 1], b[..j + 1]) ensures |s| <= Cell(a, b, i, j) {
        if |s| > 0 {
          LastStep(s, a, i);
          LastStep(s, b, j);
          assert IsCommon(s[..|s| - 1], a[..i], b[..j]);
          if IsSubsequence(s, a[..i]) {
            assert IsCommon(s, a[..i], b[..j + 1]);
          } else if IsSubsequence(s, b[..j]) {
            assert IsCommon(s, a[..i + 1], b[..j]);
          }
        }
      }
    }
  }

  lemma EmptyLcs(a: string, b: string)
    requires a == [] || b == []
    ensures IsLcsLength(a, b, 0)
  {
    assert Embeds([], a, []) && Embeds([], b, []);
    assert IsCommon([], a, b);
    forall s | IsCommon(s, a, b) ensures |s| <= 0 {
      if |s| > 0 {
        if a == [] { NothingInEmpty(s, a); } else { NothingInEmpty(s, b); }
      }
    }
  }

  lemma NothingInEmpty(s: string, a: string)
    requires a == [] && s != []
    ensures !IsSubsequence(s, a)
  {
    forall f: seq<nat> | |f| == |s| ensures !Embeds(s, a, f) {
      assert f[0] >= |a|;
    }
  }

  /** A common subsequence as long as the cell's value exists. */
  lemma CellReached(a: string, b: string, i: nat, j: nat)
    requires i < |a| && j < |b|
    requires IsLcsLength(a[..i], b[..j + 1], Cell(a, b, i - 1, j))
    requires IsLcsLength(a[..i + 1], b[..j], Cell(a, b, i, j - 1))
    requires IsLcsLength(a[..i], b[..j], Cell(a, b, i - 1, j - 1))
    ensures exists s :: IsCommon(s, a[..i + 1], b[..j + 1]) && |s| == Cell(a, b, i, j)
  {
    var v := Cell(a, b, i, j);
    if v == Cell(a, b, i - 1, j) {
      var s :| IsCommon(s, a[..i], b[..j + 1]) && |s| == v;
      Widen(s, a, i);
      assert IsCommon(s, a[..i + 1], b[..j + 1]);
    } else if v == Cell(a, b, i, j - 1) {
      var s :| IsCommon(s, a[..i + 1], b[..j]) && |s| == v;
      Widen(s, b, j);
      assert IsCommon(s, a[..i + 1], b[..j + 1]);
    } else {
      var s :| IsCommon(s, a[..i], b[..j]) && |s| == Cell(a, b, i - 1, j - 1);
      if a[i] == b[j] {
        Extend(s, a, i);
        Extend(s, b, j);
        assert IsCommon(s + [a[i]], a[..i + 1], b[..j + 1]);
      } else {
        Widen(s, a, i);
        Widen(s, b, j);
        assert IsCommon(s, a[..i + 1], b[..j + 1]);
      }
    }
  }

  /** Tworker: the serial program (T == 1). */
  method Tworker(a: string, b: string) returns (result: int)
    requires |a| >= 1 && |b| >= 1
    ensures IsLcsLength(a, b, result)
  {
    hide Cell, IsLcsLength;
    var n, m := |a|, |b|;
    var dp := new int[n, m];
    for i := 0 to n
      invariant forall x, y :: 0 <= x < i && 0 <= y < m ==> dp[x, y] == Cell(a, b, x, y)
    {
      for j := 0 to m
        invariant forall x, y :: 0 <= x < i && 0 <= y < m ==> dp[x, y] == Cell(a, b, x, y)
        invariant forall y :: 0 <= y < j ==> dp[i, y] == Cell(a, b, i, y)
      {
        CellStep(a, b, i, j);
        var skipA := if i >= 1 then dp[i - 1, j] else 0;
        var skipB := if j >= 1 then dp[i, j - 1] else 0;
        var takeBoth := (if i >= 1 && j >= 1 then dp[i - 1, j - 1] else 0) + if a[i] == b[j] then 1 else 0;
        dp[i, j] := Max3(skipA, skipB, takeBoth);
      }
    }
    result := dp[n - 1, m - 1];
    CellIsLcs(a, b, n - 1, m - 1);
    assert a[..n] == a && b[..m] == b;
  }
}
