/**
 * BookImportJob.ComputeLevenshtein: edit distance by the full-table
 * dynamic programme, proved equal to the edit-distance recurrence.
 */
module Levenshtein {

  function Min(x: int, y: int): int
  {
    if x <= y then x else y
  }

  /** Cost of aligning a[i-1] with b[j-1]: 0 when they are the same character. */
  function Cost(a: string, b: string, i: nat, j: nat): nat
    requires 1 <= i <= |a| && 1 <= j <= |b|
  {
    if a[i - 1] == b[j - 1] then 0 else 1
  }

  /**
   * D(i, j), the edit distance between a[..i] and b[..j]:
   * D(i, 0) = i, D(0, j) = j, and otherwise the least of a deletion,
   * an insertion and a substitution (free when the characters agree).
   */
  function Dist(a: string, b: string, i: nat, j: nat): nat
    requires i <= |a| && j <= |b|
    decreases i + j
  {
    if i == 0 then j
    else if j == 0 then i
    else Min(Min(Dist(a, b, i - 1, j) + 1, Dist(a, b, i, j - 1) + 1),
             Dist(a, b, i - 1, j - 1) + Cost(a, b, i, j))
  }

  /** The edit distance between the whole strings. */
  function Distance(a: string, b: string): nat
  {
    Dist(a, b, |a|, |b|)
  }

  /**
   * The C# method: allocate dp[|a|+1, |b|+1], fill the first column and
   * the first row, then every other cell row by row.
   */
  method ComputeLevenshtein(a: string, b: string) returns (d: int)
    ensures d == Distance(a, b)
  {
    var dp := new int[|a| + 1, |b| + 1];
    for i := 0 to |a| + 1
      invariant forall p :: 0 <= p < i ==> dp[p, 0] == p
    {
      dp[i, 0] := i;
    }
    for j := 0 to |b| + 1
      invariant forall p :: 0 <= p <= |a| ==> dp[p, 0] == p
      invariant forall q :: 0 <= q < j ==> dp[0, q] == q
    {
      dp[0, j] := j;
    }
    for i := 1 to |a| + 1
      invariant forall p, q :: 0 <= p < i && 0 <= q <= |b| ==> dp[p, q] == Dist(a, b, p, q)
      invariant forall p :: i <= p <= |a| ==> dp[p, 0] == p
    {
      FillRow(dp, a, b, i - 1, i);
    }
    d := dp[|a|, |b|];
  }

  /**
   * One pass of the inner loop: cells dp[i, 1..|b|] from row prev == i - 1
   * (the row above is passed as its own index, so that every read of it
   * names the same term as the facts about it).
   */
  method FillRow(dp: array2<int>, a: string, b: string, prev: nat, i: nat)
    requires dp.Length0 == |a| + 1 && dp.Length1 == |b| + 1 && i == prev + 1 <= |a|
    requires forall q :: 0 <= q <= |b| ==> dp[prev, q] == Dist(a, b, prev, q)
    requires dp[i, 0] == i
    modifies dp
    ensures forall q :: 0 <= q <= |b| ==> dp[i, q] == Dist(a, b, i, q)
    ensures forall p, q :: 0 <= p < dp.Length0 && 0 <= q < dp.Length1 && p != i ==> dp[p, q] == old(dp[p, q])
  {
    for j := 1 to |b| + 1
      invariant forall q {:trigger dp[prev, q]} :: 0 <= q <= |b| ==> dp[prev, q] == Dist(a, b, prev, q)
      invariant forall q {:trigger dp[i, q]} :: 0 <= q < j ==> dp[i, q] == Dist(a, b, i, q)
      invariant forall p, q :: 0 <= p < dp.Length0 && 0 <= q < dp.Length1 && p != i ==> dp[p, q] == old(dp[p, q])
    {
      label before:
      FillCell(dp, a, b, prev, i, j);
      forall q | 0 <= q < j + 1 ensures dp[i, q] == Dist(a, b, i, q) {
        if q < j {
          assert dp[i, q] == old@before(dp[i, q]);
        }
      }
    }
  }

  /** The body of the inner loop: dp[i, j] from the three cells above and to the left. */
  method FillCell(dp: array2<int>, a: string, b: string, prev: nat, i: nat, j: nat)
    requires dp.Length0 == |a| + 1 && dp.Length1 == |b| + 1 && i == prev + 1 <= |a| && 1 <= j <= |b|
    requires dp[prev, j] == Dist(a, b, prev, j) && dp[i, j - 1] == Dist(a, b, i, j - 1)
    requires dp[prev, j - 1] == Dist(a, b, prev, j - 1)
    modifies dp
    ensures dp[i, j] == Dist(a, b, i, j)
    ensures forall p, q :: 0 <= p < dp.Length0 && 0 <= q < dp.Length1 && (p != i || q != j) ==> dp[p, q] == old(dp[p, q])
  {
    var cost := if a[prev] == b[j - 1] then 0 else 1;
    var del, ins, sub := dp[prev, j] + 1, dp[i, j - 1] + 1, dp[prev, j - 1] + cost;
    CellValue(a, b, prev, i, j, del - 1, ins - 1, sub - cost);
    dp[i, j] := Min(Min(del, ins), sub);
  }

  /** The recurrence for one inner cell, as a fact the loop body can use. */
  lemma DistRecurrence(a: string, b: string, i: nat, j: nat)
    requires 1 <= i <= |a| && 1 <= j <= |b|
    ensures Dist(a, b, i, j) == Min(Min(Dist(a, b, i - 1, j) + 1, Dist(a, b, i, j - 1) + 1),
                                    Dist(a, b, i - 1, j - 1) + Cost(a, b, i, j))
  {
  }

  /** The value the loop body stores: the recurrence applied to the three cells it reads. */
  lemma CellValue(a: string, b: string, prev: nat, i: nat, j: nat, up: int, left: int, diag: int)
    requires i == prev + 1 <= |a| && 1 <= j <= |b|
    requires up == Dist(a, b, prev, j) && left == Dist(a, b, i, j - 1) && diag == Dist(a, b, prev, j - 1)
    ensures Min(Min(up + 1, left + 1), diag + (if a[prev] == b[j - 1] then 0 else 1)) == Dist(a, b, i, j)
  {
    DistRecurrence(a, b, i, j);
  }

  /** Distance to or from the empty string is the other string's length. */
  lemma DistanceFromEmpty(s: string)
    ensures Distance("", s) == |s| && Distance(s, "") == |s|
  {
  }

  /** The recurrence is symmetric: D_{a,b}(i, j) == D_{b,a}(j, i). */
  lemma {:induction false} DistSymmetric(a: string, b: string, i: nat, j: nat)
    requires i <= |a| && j <= |b|
    ensures Dist(a, b, i, j) == Dist(b, a, j, i)
    decreases i + j
  {
    if i == 0 || j == 0 {
      SymmetricBase(a, b, i, j);
    } else {
      var i', j' := i - 1, j - 1;
      DistSymmetric(a, b, i', j);
      DistSymmetric(a, b, i, j');
      DistSymmetric(a, b, i', j');
      SymmetricStep(a, b, i, j);
    }
  }

  /** The base case of DistSymmetric: one of the prefixes is empty. */
  lemma SymmetricBase(a: string, b: string, i: nat, j: nat)
    requires i <= |a| && j <= |b| && (i == 0 || j == 0)
    ensures Dist(a, b, i, j) == Dist(b, a, j, i)
  {
  }

  /** The inductive step of DistSymmetric: the three neighbours agree, so the cell does. */
  lemma SymmetricStep(a: string, b: string, i: nat, j: nat)
    requires 1 <= i <= |a| && 1 <= j <= |b|
    requires Dist(a, b, i - 1, j) == Dist(b, a, j, i - 1)
    requires Dist(a, b, i, j - 1) == Dist(b, a, j - 1, i)
    requires Dist(a, b, i - 1, j - 1) == Dist(b, a, j - 1, i - 1)
    ensures Dist(a, b, i, j) == Dist(b, a, j, i)
  {
    assert Cost(a, b, i, j) == Cost(b, a, j, i);
  }

  lemma DistanceSymmetric(a: string, b: string)
    ensures Distance(a, b) == Distance(b, a)
  {
    DistSymmetric(a, b, |a|, |b|);
  }

  /** D(i, j) lies between the length difference and the longer length. */
  predicate Bounded(a: string, b: string, i: nat, j: nat)
    requires i <= |a| && j <= |b|
  {
    i - j <= Dist(a, b, i, j) && j - i <= Dist(a, b, i, j) && Dist(a, b, i, j) <= if i <= j then j else i
  }

  /** The distance lies between the length difference and the longer length. */
  lemma {:induction false} DistBounds(a: string, b: string, i: nat, j: nat)
    requires i <= |a| && j <= |b|
    ensures Bounded(a, b, i, j)
    decreases i + j
  {
    if i == 0 || j == 0 {
      BoundsBase(a, b, i, j);
    } else {
      var i', j' := i - 1, j - 1;
      DistBounds(a, b, i', j);
      DistBounds(a, b, i, j');
      DistBounds(a, b, i', j');
      BoundsStep(a, b, i, j);
    }
  }

  /** The base case of DistBounds: against an empty prefix the distance is the other length. */
  lemma BoundsBase(a: string, b: string, i: nat, j: nat)
    requires i <= |a| && j <= |b| && (i == 0 || j == 0)
    ensures Bounded(a, b, i, j)
  {
  }

  /** The inductive step of DistBounds. */
  lemma BoundsStep(a: string, b: string, i: nat, j: nat)
    requires 1 <= i <= |a| && 1 <= j <= |b|
    requires Bounded(a, b, i - 1, j) && Bounded(a, b, i, j - 1) && Bounded(a, b, i - 1, j - 1)
    ensures Bounded(a, b, i, j)
  {
    DistRecurrence(a, b, i, j);
  }

  /** Dropping the last character of b changes the distance by at most one. */
  lemma {:induction false} DistDropLastOfB(a: string, b: string, i: nat, j: nat)
    requires i <= |a| && 1 <= j <= |b|
    ensures Dist(a, b, i, j - 1) <= Dist(a, b, i, j) + 1
    decreases i
  {
    if i != 0 {
      DistDropLastOfB(a, b, i - 1, j);
    }
  }

  /** Dropping the last character of a changes the distance by at most one. */
  lemma DistDropLastOfA(a: string, b: string, i: nat, j: nat)
    requires 1 <= i <= |a| && j <= |b|
    ensures Dist(a, b, i - 1, j) <= Dist(a, b, i, j) + 1
  {
    DistSymmetric(a, b, i, j);
    DistSymmetric(a, b, i - 1, j);
    DistDropLastOfB(b, a, j, i);
  }

  /** Equal last characters can be dropped from both prefixes for free. */
  lemma DistMatchingLast(a: string, b: string, i: nat, j: nat)
    requires 1 <= i <= |a| && 1 <= j <= |b| && a[i - 1] == b[j - 1]
    ensures Dist(a, b, i, j) == Dist(a, b, i - 1, j - 1)
  {
    DistDropLastOfA(a, b, i, j - 1);
    DistDropLastOfB(a, b, i - 1, j);
  }

  /** A common run of k characters ending both prefixes costs nothing. */
  lemma {:induction false} DistCommonRun(a: string, b: string, i: nat, j: nat, k: nat)
    requires i + k <= |a| && j + k <= |b| && a[i..i + k] == b[j..j + k]
    ensures Dist(a, b, i + k, j + k) == Dist(a, b, i, j)
  {
    if k != 0 {
      assert a[i..i + k - 1] == a[i..i + k][..k - 1];
      assert b[j..j + k - 1] == b[j..j + k][..k - 1];
      DistCommonRun(a, b, i, j, k - 1);
      assert a[i + k - 1] == a[i..i + k][k - 1];
      assert b[j + k - 1] == b[j..j + k][k - 1];
      DistMatchingLast(a, b, i + k, j + k);
    }
  }

  /** Distance zero means the prefixes are the same string. */
  lemma {:induction false} DistZero(a: string, b: string, i: nat, j: nat)
    requires i <= |a| && j <= |b| && Dist(a, b, i, j) == 0
    ensures i == j && a[..i] == b[..j]
    decreases i + j
  {
    if i != 0 && j != 0 {
      if Dist(a, b, i - 1, j - 1) + Cost(a, b, i, j) == 0 {
        DistZero(a, b, i - 1, j - 1);
        assert a[..i] == a[..i - 1] + [a[i - 1]];
        assert b[..j] == b[..j - 1] + [b[j - 1]];
      }
    }
  }

  /** distance(a, b) == 0 exactly when a == b; in particular distance(a, a) == 0. */
  lemma DistanceZeroIff(a: string, b: string)
    ensures Distance(a, b) == 0 <==> a == b
  {
    if Distance(a, b) == 0 {
      DistZero(a, b, |a|, |b|);
      assert a == a[..|a|] && b == b[..|b|];
    }
    if a == b {
      assert a[0..|a|] == b[0..|b|];
      DistCommonRun(a, b, 0, 0, |a|);
    }
  }

  /** Number of characters of s that belong to cs. */
  function CountIn(cs: set<char>, s: string): nat
  {
    if s == [] then 0
    else CountIn(cs, s[..|s| - 1]) + (if s[|s| - 1] in cs then 1 else 0)
  }

  /** Each listed position holding a character from cs adds one to the count. */
  lemma {:induction false} CountInAtLeast(cs: set<char>, s: string, ps: set<int>)
    requires forall p :: p in ps ==> 0 <= p < |s| && s[p] in cs
    ensures |ps| <= CountIn(cs, s)
  {
    if s != [] {
      var last := |s| - 1;
      var ps' := ps - {last};
      forall p | p in ps' ensures 0 <= p < |s[..last]| && s[..last][p] in cs {
      }
      CountInAtLeast(cs, s[..last], ps');
      assert |ps| <= |ps'| + 1 by {
        assert ps <= ps' + {last};
      }
    } else {
      assert ps == {} by {
        forall p | p in ps ensures false {
        }
      }
    }
  }

  /** A string with no character from cs counts zero. */
  lemma {:induction false} CountInNone(cs: set<char>, s: string)
    requires forall i :: 0 <= i < |s| ==> s[i] !in cs
    ensures CountIn(cs, s) == 0
  {
    if s != [] {
      CountInNone(cs, s[..|s| - 1]);
    }
  }

  /**
   * Every edit step changes the number of characters from cs by at most
   * one, so the distance is at least the surplus of such characters in a.
   */
  lemma {:induction false} DistCountBound(cs: set<char>, a: string, b: string, i: nat, j: nat)
    requires i <= |a| && j <= |b|
    ensures CountIn(cs, a[..i]) - CountIn(cs, b[..j]) <= Dist(a, b, i, j)
    decreases i + j
  {
    if i == 0 || j == 0 {
      CountBoundBase(cs, a, b, i, j);
    } else {
      var i', j' := i - 1, j - 1;
      DistCountBound(cs, a, b, i', j);
      DistCountBound(cs, a, b, i, j');
      DistCountBound(cs, a, b, i', j');
      CountBoundStep(cs, a, b, i, j);
    }
  }

  /** The base case of DistCountBound: one of the prefixes is empty. */
  lemma CountBoundBase(cs: set<char>, a: string, b: string, i: nat, j: nat)
    requires i <= |a| && j <= |b| && (i == 0 || j == 0)
    ensures CountIn(cs, a[..i]) - CountIn(cs, b[..j]) <= Dist(a, b, i, j)
  {
    if i == 0 {
      assert a[..i] == [];
    } else {
      CountInAtMost(cs, a[..i]);
    }
  }

  /** No string has more characters from cs than characters. */
  lemma {:induction false} CountInAtMost(cs: set<char>, s: string)
    ensures CountIn(cs, s) <= |s|
  {
    if s != [] {
      CountInAtMost(cs, s[..|s| - 1]);
    }
  }

  /** The inductive step of DistCountBound for an inner cell. */
  lemma CountBoundStep(cs: set<char>, a: string, b: string, i: nat, j: nat)
    requires 1 <= i <= |a| && 1 <= j <= |b|
    requires CountIn(cs, a[..i - 1]) - CountIn(cs, b[..j]) <= Dist(a, b, i - 1, j)
    requires CountIn(cs, a[..i]) - CountIn(cs, b[..j - 1]) <= Dist(a, b, i, j - 1)
    requires CountIn(cs, a[..i - 1]) - CountIn(cs, b[..j - 1]) <= Dist(a, b, i - 1, j - 1)
    ensures CountIn(cs, a[..i]) - CountIn(cs, b[..j]) <= Dist(a, b, i, j)
  {
    CountInSnoc(cs, a, i);
    CountInSnoc(cs, b, j);
    DistRecurrence(a, b, i, j);
  }

  /** Extending a prefix by one character adds one to the count when that character is in cs. */
  lemma CountInSnoc(cs: set<char>, s: string, i: nat)
    requires 1 <= i <= |s|
    ensures CountIn(cs, s[..i]) == CountIn(cs, s[..i - 1]) + if s[i - 1] in cs then 1 else 0
  {
    assert s[..i][..i - 1] == s[..i - 1];
  }

  /**
   * Plain Levenshtein distance counts swapping two adjacent, different
   * characters as two edits (Damerau's variant would count one).
   */
  lemma AdjacentSwap(a: string, b: string, n: nat)
    requires |a| == |b| && n + 2 <= |a|
    requires a[..n] == b[..n] && a[n + 2..] == b[n + 2..]
    requires a[n] == b[n + 1] && a[n + 1] == b[n] && a[n] != a[n + 1]
    ensures Distance(a, b) == 2
  {
    assert Dist(a, b, n, n) == 0 by {
      assert a[0..n] == a[..n] && b[0..n] == b[..n];
      DistCommonRun(a, b, 0, 0, n);
    }
    SwapBlock(a, b, n);
    var k := |a| - (n + 2);
    assert a[n + 2..n + 2 + k] == b[n + 2..n + 2 + k];
    DistCommonRun(a, b, n + 2, n + 2, k);
  }

  /** The 2-by-2 block of the table where the two swapped characters meet. */
  lemma SwapBlock(a: string, b: string, n: nat)
    requires n + 2 <= |a| && n + 2 <= |b| && Dist(a, b, n, n) == 0
    requires a[n] == b[n + 1] && a[n + 1] == b[n] && a[n] != a[n + 1]
    ensures Dist(a, b, n + 2, n + 2) == 2
  {
    SwapFirstCell(a, b, n);
    SwapSideCells(a, b, n);
    DistRecurrence(a, b, n + 2, n + 2);
  }

  /** Aligning the first swapped character with the second costs one. */
  lemma SwapFirstCell(a: string, b: string, n: nat)
    requires n + 1 <= |a| && n + 1 <= |b| && Dist(a, b, n, n) == 0 && a[n] != b[n]
    ensures Dist(a, b, n + 1, n + 1) == 1
  {
    DistBounds(a, b, n, n + 1);
    DistBounds(a, b, n + 1, n);
    DistRecurrence(a, b, n + 1, n + 1);
  }

  /** One character of either side can be matched across the swap at a cost of one. */
  lemma SwapSideCells(a: string, b: string, n: nat)
    requires n + 2 <= |a| && n + 2 <= |b| && Dist(a, b, n, n) == 0
    requires a[n] == b[n + 1] && a[n + 1] == b[n]
    ensures Dist(a, b, n + 1, n + 2) == 1 && Dist(a, b, n + 2, n + 1) == 1
  {
    DistBounds(a, b, n, n + 1);
    DistBounds(a, b, n + 1, n);
    DistBounds(a, b, n, n + 2);
    DistBounds(a, b, n + 2, n);
    DistBounds(a, b, n + 1, n + 1);
    DistRecurrence(a, b, n + 1, n + 2);
    DistRecurrence(a, b, n + 2, n + 1);
  }

  /**
   * The unit tests' pair: "Crime and punishment" and the typo
   * "Criem and punishment" are at distance 2.
   */
  lemma CrimeAndPunishmentTypo()
    ensures Distance("Crime and punishment", "Criem and punishment") == 2
  {
    var a, b := "Crime and punishment", "Criem and punishment";
    assert a[..3] == b[..3] && a[5..] == b[5..];
    AdjacentSwap(a, b, 3);
  }

  /** The unit tests' threshold table: distance 2 is within 2 and 3, outside 0 and 1. */
  lemma CrimeAndPunishmentThresholds()
    ensures var d := Distance("Crime and punishment", "Criem and punishment");
      d > 0 && d > 1 && d <= 2 && d <= 3
  {
    CrimeAndPunishmentTypo();
  }

  /** The textbook pair: "kitten" and "sitting" are at distance 3. */
  lemma KittenSitting(a: string, b: string)
    requires a == "kitten" && b == "sitting"
    ensures Distance(a, b) == 3
  {
    var cs := {'s', 'i', 'g'};
    KittenSittingFacts(a, b, cs);
    ThreeEditsAtMost(a, b);
    ThreeEditsAtLeast(cs, a, b);
  }

  /** The facts about "kitten" and "sitting" the two bounds rest on. */
  lemma KittenSittingFacts(a: string, b: string, cs: set<char>)
    requires a == "kitten" && b == "sitting" && cs == {'s', 'i', 'g'}
    ensures |a| == 6 && |b| == 7 && a[5] == b[5] && a[1..4] == b[1..4]
    ensures CountIn(cs, a) + 3 <= CountIn(cs, b)
  {
    forall i | 0 <= i < |a| && i != 1 ensures a[i] !in cs {
      assert i == 0 || i == 2 || i == 3 || i == 4 || i == 5;
    }
    CountInOne(cs, a, 1);
    forall p | p in {0, 1, 4, 6} ensures 0 <= p < |b| && b[p] in cs {
      assert p == 0 || p == 1 || p == 4 || p == 6;
    }
    CountInAtLeast(cs, b, {0, 1, 4, 6});
  }

  /**
   * Strings of lengths 6 and 7 that share their sixth character and the
   * run from the second to the fourth are at most three edits apart.
   */
  lemma ThreeEditsAtMost(a: string, b: string)
    requires |a| == 6 && |b| == 7 && a[5] == b[5] && a[1..4] == b[1..4]
    ensures Distance(a, b) <= 3
  {
    InsertionBound(a, b, 6, 7);
    DistMatchingLast(a, b, 6, 6);
    SubstitutionBound(a, b, 5, 5);
    DistCommonRun(a, b, 1, 1, 3);
    SubstitutionBound(a, b, 1, 1);
  }

  /** An insertion costs one: D(i, j) <= D(i, j - 1) + 1. */
  lemma InsertionBound(a: string, b: string, i: nat, j: nat)
    requires 1 <= i <= |a| && 1 <= j <= |b|
    ensures Dist(a, b, i, j) <= Dist(a, b, i, j - 1) + 1
  {
    DistRecurrence(a, b, i, j);
  }

  /** A substitution costs at most one: D(i, j) <= D(i - 1, j - 1) + 1. */
  lemma SubstitutionBound(a: string, b: string, i: nat, j: nat)
    requires 1 <= i <= |a| && 1 <= j <= |b|
    ensures Dist(a, b, i, j) <= Dist(a, b, i - 1, j - 1) + 1
  {
    DistRecurrence(a, b, i, j);
  }

  /** b holding three more characters from cs than a puts them at least three edits apart. */
  lemma ThreeEditsAtLeast(cs: set<char>, a: string, b: string)
    requires CountIn(cs, a) + 3 <= CountIn(cs, b)
    ensures Distance(a, b) >= 3
  {
    DistCountBound(cs, b, a, |b|, |a|);
    assert b[..|b|] == b && a[..|a|] == a;
    DistSymmetric(a, b, |a|, |b|);
  }

  /** A string with exactly one character from cs, at position p, counts one. */
  lemma {:induction false} CountInOne(cs: set<char>, s: string, p: nat)
    requires p < |s| && s[p] in cs && forall i :: 0 <= i < |s| && i != p ==> s[i] !in cs
    ensures CountIn(cs, s) == 1
  {
    var init := s[..|s| - 1];
    if p == |s| - 1 {
      CountInNone(cs, init);
    } else {
      CountInOne(cs, init, p);
    }
  }
}
